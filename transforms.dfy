/** `events_to_zipcode`: the permits frame fanned out to one row per (event, ZIP code).
  * A frame is a class whose column list and rows the pandas calls with
  * `inplace=True` rewrite; a row maps column names to cells. */
module Transforms {
  import opened Strings

  /** A cell: a text, a missing value (`NaN`), or the list `split` made. */
  datatype Cell = Text(text: string) | Missing | Codes(list: seq<string>)

  type Row = map<string, Cell>

  /** The columns dropped after the merge. */
  const DROPPED: seq<string> := [
    "zipcode_y", "eventagency", "eventtype", "communityboard_s", "policeprecinct_s", "borough"
  ]

  /** The dropped columns that come from the caller's frame. */
  const AUXILIARY: set<string> := {
    "eventagency", "eventtype", "communityboard_s", "policeprecinct_s", "borough"
  }

  // ---------------------------------------------------------------------------
  // Columns

  function Names(columns: seq<string>): (r: set<string>)
    ensures forall c :: c in r <==> c in columns
  {
    set c | c in columns
  }

  /** The columns without the ones in `gone`, in their order. */
  function Without(columns: seq<string>, gone: set<string>): (r: seq<string>)
    ensures Names(r) == Names(columns) - gone
  {
    if columns == [] then []
    else
      var init := Without(columns[..|columns| - 1], gone);
      var c := columns[|columns| - 1];
      assert columns == columns[..|columns| - 1] + [c];
      if c in gone then init else init + [c]
  }

  /** A new column goes last; an existing one keeps its place. */
  function Adjoin(columns: seq<string>, c: string): (r: seq<string>)
    ensures Names(r) == Names(columns) + {c}
  {
    if c in columns then columns else columns + [c]
  }

  /** `rename(columns={old: new})`. */
  function Renamed(columns: seq<string>, from: string, to: string): (r: seq<string>)
    requires to !in columns
    ensures from in columns ==> Names(r) == Names(columns) - {from} + {to}
    ensures from !in columns ==> r == columns
  {
    var r := seq(|columns|, i requires 0 <= i < |columns| => if columns[i] == from then to else columns[i]);
    assert from !in columns ==> r == columns;
    forall c | c in Names(r)
      ensures c == to || (c in columns && c != from)
    {
      var i :| 0 <= i < |r| && r[i] == c;
    }
    forall c | (from in columns && c == to) || (c in columns && c != from)
      ensures c in Names(r)
    {
      if from in columns && c == to {
        var i :| 0 <= i < |columns| && columns[i] == from;
        assert r[i] == to;
      } else {
        var i :| 0 <= i < |columns| && columns[i] == c;
        assert r[i] == c;
      }
    }
    r
  }

  /** The columns of `temp.merge(data_frame, on='eventid')`: the key, the left
    * `zipcode` as `zipcode_x`, then the other right columns, `zipcode` as `zipcode_y`. */
  function MergedColumns(columns: seq<string>): seq<string>
    requires "zipcode_y" !in columns
  {
    ["eventid", "zipcode_x"] + Renamed(Without(columns, {"eventid"}), "zipcode", "zipcode_y")
  }

  // ---------------------------------------------------------------------------
  // Rows

  /** Every row has exactly the frame's columns. */
  ghost predicate Rectangular(columns: seq<string>, rows: seq<Row>) {
    forall i :: 0 <= i < |rows| ==> rows[i].Keys == Names(columns)
  }

  /** A row whose `zipcode_s` text can be split. */
  predicate Splittable(r: Row) {
    "zipcode_s" in r && r["zipcode_s"].Text?
  }

  /** The codes of a row: its `zipcode_s` split on ", ". */
  function CodesOf(r: Row): (codes: seq<string>)
    requires Splittable(r)
    ensures |codes| >= 1
  {
    Split(r["zipcode_s"].text, ", ")
  }

  /** The new `zipcode` cell of one row. */
  function WithCodes(r: Row): Row
    requires Splittable(r)
  {
    r["zipcode" := Codes(CodesOf(r))]
  }

  /** A row of the merge: the left pair (key, code) beside a right row. */
  function Joined(id: Cell, z: string, r: Row): Row
    requires "zipcode" in r
  {
    (r - {"zipcode", "eventid"})["zipcode_y" := r["zipcode"]]["eventid" := id]["zipcode_x" := Text(z)]
  }

  function RenameRow(r: Row, from: string, to: string): Row {
    if from in r then (r - {from})[to := r[from]] else r
  }

  /** `np.where(col == sentinel, np.nan, col)` on one row. */
  function BlankRow(r: Row, col: string, sentinel: string): Row {
    if col in r && r[col] == Text(sentinel) then r[col := Missing] else r
  }

  /** No cell of the row is missing. */
  predicate Complete(r: Row) {
    Missing !in r.Values
  }

  // ---------------------------------------------------------------------------
  // Frames, as values

  predicate AllSplittable(rows: seq<Row>) {
    forall i :: 0 <= i < |rows| ==> Splittable(rows[i])
  }

  predicate AllListed(rows: seq<Row>) {
    forall i :: 0 <= i < |rows| ==> "eventid" in rows[i] && "zipcode" in rows[i] && rows[i]["zipcode"].Codes?
  }

  function WithCodesAll(rows: seq<Row>): (r: seq<Row>)
    requires AllSplittable(rows)
    ensures |r| == |rows|
  {
    seq(|rows|, i requires 0 <= i < |rows| => WithCodes(rows[i]))
  }

  function DropAll(rows: seq<Row>, gone: set<string>): (r: seq<Row>)
    ensures |r| == |rows|
  {
    seq(|rows|, i requires 0 <= i < |rows| => rows[i] - gone)
  }

  function RenameAll(rows: seq<Row>, from: string, to: string): (r: seq<Row>)
    ensures |r| == |rows|
  {
    seq(|rows|, i requires 0 <= i < |rows| => RenameRow(rows[i], from, to))
  }

  function BlankAll(rows: seq<Row>, col: string, sentinel: string): (r: seq<Row>)
    ensures |r| == |rows|
  {
    seq(|rows|, i requires 0 <= i < |rows| => BlankRow(rows[i], col, sentinel))
  }

  /** `dropna(axis=0)`: the complete rows, in order. */
  function KeepComplete(rows: seq<Row>): (r: seq<Row>)
    ensures |r| <= |rows|
    ensures forall x :: x in r <==> x in rows && Complete(x)
  {
    if rows == [] then []
    else
      var last := rows[|rows| - 1];
      assert rows == rows[..|rows| - 1] + [last];
      KeepComplete(rows[..|rows| - 1]) + if Complete(last) then [last] else []
  }

  /** The (key, code) pairs of one row, in list order. */
  function PairsOf(r: Row): seq<(Cell, string)>
    requires "eventid" in r && "zipcode" in r && r["zipcode"].Codes?
  {
    seq(|r["zipcode"].list|, k requires 0 <= k < |r["zipcode"].list| => (r["eventid"], r["zipcode"].list[k]))
  }

  /** `DataFrame(lists, index=eventid).stack()` then `reset_index()`: the pairs of
    * every row, row by row. */
  function Stacked(rows: seq<Row>): (r: seq<(Cell, string)>)
    requires AllListed(rows)
    ensures forall p :: p in r ==>
      exists i :: 0 <= i < |rows| && p.0 == rows[i]["eventid"] && p.1 in rows[i]["zipcode"].list
  {
    if rows == [] then []
    else
      var init, last := rows[..|rows| - 1], rows[|rows| - 1];
      var r := Stacked(init) + PairsOf(last);
      assert forall p :: p in r ==>
        exists i :: 0 <= i < |rows| && p.0 == rows[i]["eventid"] && p.1 in rows[i]["zipcode"].list by {
        forall p | p in r
          ensures exists i :: 0 <= i < |rows| && p.0 == rows[i]["eventid"] && p.1 in rows[i]["zipcode"].list
        {
          if p in Stacked(init) {
            var i :| 0 <= i < |init| && p.0 == init[i]["eventid"] && p.1 in init[i]["zipcode"].list;
            assert rows[i] == init[i];
          } else {
            assert p in PairsOf(last);
            assert rows[|rows| - 1] == last;
          }
        }
      }
      r
  }

  /** The right rows among the first `n` whose key is `id`, each joined to the pair. */
  function Matches(id: Cell, z: string, right: seq<Row>, n: nat): seq<Row>
    requires n <= |right| && AllListed(right)
  {
    if n == 0 then []
    else Matches(id, z, right, n - 1) + if right[n - 1]["eventid"] == id then [Joined(id, z, right[n - 1])] else []
  }

  /** The inner merge on `eventid`: left order, and for each left pair the matching
    * right rows in right order. */
  function Merge(temp: seq<(Cell, string)>, right: seq<Row>): seq<Row>
    requires AllListed(right)
  {
    if temp == [] then []
    else
      var (id, z) := temp[|temp| - 1];
      Merge(temp[..|temp| - 1], right) + Matches(id, z, right, |right|)
  }

  /** The caller's rows once `zipcode` is added and `zipcode_s` dropped. */
  function Listed(rows: seq<Row>): seq<Row>
    requires AllSplittable(rows)
  {
    DropAll(WithCodesAll(rows), {"zipcode_s"})
  }

  /** Each listed row is the caller's row with its list of codes and without
    * `zipcode_s`. */
  lemma ListedShape(rows: seq<Row>)
    requires AllSplittable(rows) && forall i :: 0 <= i < |rows| ==> "eventid" in rows[i]
    ensures |Listed(rows)| == |rows|
    ensures forall i :: 0 <= i < |rows| ==> Listed(rows)[i] == WithCodes(rows[i]) - {"zipcode_s"}
    ensures AllListed(Listed(rows))
  {
  }

  /** The rows the merge and the clean-up that follows make of the listed rows. */
  function Reshaped(listed: seq<Row>): seq<Row>
    requires AllListed(listed)
  {
    var merged := Merge(Stacked(listed), listed);
    var renamed := RenameAll(DropAll(merged, Names(DROPPED)), "zipcode_x", "zipcode");
    KeepComplete(BlankAll(BlankAll(renamed, "zipcode", "0"), "zipcode", "N/A"))
  }

  /** The rows `events_to_zipcode` returns. */
  function ZipRows(rows: seq<Row>): seq<Row>
    requires AllSplittable(rows) && forall i :: 0 <= i < |rows| ==> "eventid" in rows[i]
  {
    var listed := Listed(rows);
    ListedShape(rows);
    Reshaped(listed)
  }

  /** The columns the merge and the clean-up that follows make of the listed columns. */
  function ReshapedColumns(columns: seq<string>): seq<string>
    requires "zipcode_x" !in columns && "zipcode_y" !in columns
  {
    var merged := Without(MergedColumns(columns), Names(DROPPED));
    assert "zipcode" !in merged by {
      assert Names(MergedColumns(columns)) == {"eventid", "zipcode_x"} + Names(Renamed(Without(columns, {"eventid"}), "zipcode", "zipcode_y"));
    }
    Renamed(merged, "zipcode_x", "zipcode")
  }

  /** The columns `events_to_zipcode` returns. */
  function ZipColumns(columns: seq<string>): seq<string>
    requires "zipcode_x" !in columns && "zipcode_y" !in columns
  {
    ReshapedColumns(Without(Adjoin(columns, "zipcode"), {"zipcode_s"}))
  }

  // ---------------------------------------------------------------------------
  // The frame

  class Frame {
    var columns: seq<string>
    var rows: seq<Row>

    ghost predicate Valid()
      reads this
    {
      Rectangular(columns, rows)
    }

    constructor (columns: seq<string>, rows: seq<Row>)
      ensures this.columns == columns && this.rows == rows
    {
      this.columns := columns;
      this.rows := rows;
    }

    /** `df['zipcode'] = df['zipcode_s'].map(lambda x: x.split(', '))`. */
    method ListCodes()
      requires Valid() && AllSplittable(rows)
      modifies this
      ensures Valid()
      ensures columns == Adjoin(old(columns), "zipcode")
      ensures rows == WithCodesAll(old(rows))
    {
      rows := WithCodesAll(rows);
      columns := Adjoin(columns, "zipcode");
    }

    /** `drop(columns=gone, inplace=True)`; a name that is not a column raises
      * `KeyError`, so every name must be one. */
    method Drop(gone: seq<string>)
      requires Valid() && forall c :: c in gone ==> c in columns
      modifies this
      ensures Valid()
      ensures columns == Without(old(columns), Names(gone))
      ensures rows == DropAll(old(rows), Names(gone))
    {
      ghost var before := rows;
      rows := DropAll(rows, Names(gone));
      columns := Without(columns, Names(gone));
      forall i | 0 <= i < |rows|
        ensures rows[i].Keys == Names(columns)
      {
        assert rows[i] == before[i] - Names(gone);
      }
    }

    /** `rename(columns={from: to}, inplace=True)`. */
    method Rename(from: string, to: string)
      requires Valid() && to !in columns
      modifies this
      ensures Valid()
      ensures columns == Renamed(old(columns), from, to)
      ensures rows == RenameAll(old(rows), from, to)
    {
      ghost var before := rows;
      rows := RenameAll(rows, from, to);
      columns := Renamed(columns, from, to);
      forall i | 0 <= i < |rows|
        ensures rows[i].Keys == Names(columns)
      {
        assert rows[i] == RenameRow(before[i], from, to);
        assert from in before[i] <==> from in old(columns);
      }
    }

    /** `df[col] = np.where(df[col] == sentinel, np.nan, df[col])`. */
    method Blank(col: string, sentinel: string)
      requires Valid()
      modifies this
      ensures Valid()
      ensures columns == old(columns)
      ensures rows == BlankAll(old(rows), col, sentinel)
    {
      ghost var before := rows;
      rows := BlankAll(rows, col, sentinel);
      forall i | 0 <= i < |rows|
        ensures rows[i].Keys == Names(columns)
      {
        assert rows[i] == BlankRow(before[i], col, sentinel);
      }
    }

    /** `dropna(axis=0, inplace=True)`. */
    method DropNa()
      requires Valid()
      modifies this
      ensures Valid()
      ensures columns == old(columns)
      ensures rows == KeepComplete(old(rows))
    {
      ghost var before := rows;
      rows := KeepComplete(rows);
      forall i | 0 <= i < |rows|
        ensures rows[i].Keys == Names(columns)
      {
        assert rows[i] in before;
      }
    }
  }

  /** `events_to_zipcode(data_frame)`. The caller's frame gains the `zipcode` lists and
    * loses `zipcode_s` in place; the frame returned is a new one. */
  method EventsToZipcode(df: Frame) returns (out: Frame)
    requires df.Valid()
    requires "eventid" in df.columns && "zipcode_s" in df.columns
    requires AUXILIARY <= Names(df.columns)
    requires "zipcode_x" !in df.columns && "zipcode_y" !in df.columns
    requires AllSplittable(df.rows)
    modifies df
    ensures df.Valid()
    ensures df.columns == Without(Adjoin(old(df.columns), "zipcode"), {"zipcode_s"})
    ensures df.rows == Listed(old(df.rows))
    ensures fresh(out) && out.Valid()
    ensures out.columns == ZipColumns(old(df.columns))
    ensures out.rows == ZipRows(old(df.rows))
  {
    df.ListCodes();
    assert Names(["zipcode_s"]) == {"zipcode_s"};
    df.Drop(["zipcode_s"]);
    out := MergeFrame(df.columns, df.rows);
  }

  /** The new frame: the stacked pairs merged with the caller's rows, then the
    * in-place drop, rename, sentinel blanking and `dropna` on it. */
  method MergeFrame(columns: seq<string>, listed: seq<Row>) returns (out: Frame)
    requires Rectangular(columns, listed) && AllListed(listed)
    requires "eventid" in columns && "zipcode" in columns
    requires AUXILIARY <= Names(columns)
    requires "zipcode_x" !in columns && "zipcode_y" !in columns
    ensures fresh(out) && out.Valid()
    ensures out.columns == ReshapedColumns(columns)
    ensures out.rows == Reshaped(listed)
  {
    var temp := Stacked(listed);
    MergeRectangular(temp, listed, columns);
    out := new Frame(MergedColumns(columns), Merge(temp, listed));
    out.Drop(DROPPED);
    out.Rename("zipcode_x", "zipcode");
    out.Blank("zipcode", "0");
    out.Blank("zipcode", "N/A");
    out.DropNa();
  }

  // ---------------------------------------------------------------------------
  // Lemmas

  /** Every row of the merge is a pair joined to a right row with that key. */
  lemma {:induction false} MergeMembers(temp: seq<(Cell, string)>, right: seq<Row>)
    requires AllListed(right)
    ensures forall x :: x in Merge(temp, right) ==>
              exists t, j :: t in temp && 0 <= j < |right| && right[j]["eventid"] == t.0
                             && x == Joined(t.0, t.1, right[j])
  {
    if temp != [] {
      var init, id, z := temp[..|temp| - 1], temp[|temp| - 1].0, temp[|temp| - 1].1;
      MergeMembers(init, right);
      MatchesMembers(id, z, right, |right|);
      forall x | x in Merge(temp, right)
        ensures exists t, j :: t in temp && 0 <= j < |right| && right[j]["eventid"] == t.0
                               && x == Joined(t.0, t.1, right[j])
      {
        if x in Merge(init, right) {
          var t, j :| t in init && 0 <= j < |right| && right[j]["eventid"] == t.0 && x == Joined(t.0, t.1, right[j]);
          assert t in temp;
        } else {
          assert temp[|temp| - 1] in temp;
        }
      }
    }
  }

  lemma {:induction false} MatchesMembers(id: Cell, z: string, right: seq<Row>, n: nat)
    requires n <= |right| && AllListed(right)
    ensures forall x :: x in Matches(id, z, right, n) ==>
              exists j :: 0 <= j < n && right[j]["eventid"] == id && x == Joined(id, z, right[j])
  {
    if n > 0 {
      MatchesMembers(id, z, right, n - 1);
    }
  }

  /** The merged rows have exactly the merged columns. */
  lemma MergeRectangular(temp: seq<(Cell, string)>, right: seq<Row>, columns: seq<string>)
    requires AllListed(right) && Rectangular(columns, right)
    requires "eventid" in columns && "zipcode" in columns && "zipcode_x" !in columns && "zipcode_y" !in columns
    ensures Rectangular(MergedColumns(columns), Merge(temp, right))
  {
    var merged := Merge(temp, right);
    MergeMembers(temp, right);
    var names := Names(MergedColumns(columns));
    assert names == Names(columns) - {"eventid", "zipcode"} + {"eventid", "zipcode_x", "zipcode_y"};
    forall i | 0 <= i < |merged|
      ensures merged[i].Keys == names
    {
      assert merged[i] in merged;
    }
  }

  /** A frame returned by `events_to_zipcode` has a text ZIP code in every row, never
    * one of the sentinels "0" and "N/A", and no missing cell. */
  lemma ZipRowsClean(rows: seq<Row>)
    requires AllSplittable(rows) && forall i :: 0 <= i < |rows| ==> "eventid" in rows[i]
    ensures forall x: Row :: x in ZipRows(rows) ==>
              && Complete(x) && "eventid" in x && "zipcode" in x && x["zipcode"].Text?
              && x["zipcode"].text != "0" && x["zipcode"].text != "N/A"
  {
    var listed := Listed(rows);
    ListedShape(rows);
    var merged := Merge(Stacked(listed), listed);
    MergeMembers(Stacked(listed), listed);
    CleanupIsPost(merged);
    var blank2 := PostAll(merged);
    forall i | 0 <= i < |blank2|
      ensures "eventid" in blank2[i] && "zipcode" in blank2[i]
      ensures blank2[i]["zipcode"] == Missing || (blank2[i]["zipcode"].Text?
                && blank2[i]["zipcode"].text != "0" && blank2[i]["zipcode"].text != "N/A")
    {
      assert merged[i] in merged;
      PostCode(merged[i]);
    }
    forall x: Row | x in ZipRows(rows)
      ensures && Complete(x) && "eventid" in x && "zipcode" in x && x["zipcode"].Text?
              && x["zipcode"].text != "0" && x["zipcode"].text != "N/A"
    {
      var i :| 0 <= i < |blank2| && blank2[i] == x;
      assert x["zipcode"] in x.Values;
    }
  }

  // ---------------------------------------------------------------------------
  // The fan-out, stated independently

  /** The row a permit gives for one of its codes: its own cells without `zipcode_s`
    * and the dropped columns, and the code (missing when it is a sentinel). */
  function Expected(r: Row, z: string): Row {
    (r - ({"zipcode_s"} + AUXILIARY))["zipcode" := if z == "0" || z == "N/A" then Missing else Text(z)]
  }

  /** Every permit, in order, once per code of its list, in list order. */
  function Fanout(rows: seq<Row>): seq<Row>
    requires AllSplittable(rows)
  {
    if rows == [] then []
    else
      var last := rows[|rows| - 1];
      Fanout(rows[..|rows| - 1]) + seq(|CodesOf(last)|, k requires 0 <= k < |CodesOf(last)| => Expected(last, CodesOf(last)[k]))
  }

  /** No two permits share an event id. */
  predicate DistinctIds(rows: seq<Row>)
    requires forall i :: 0 <= i < |rows| ==> "eventid" in rows[i]
  {
    forall i, j :: 0 <= i < j < |rows| ==> rows[i]["eventid"] != rows[j]["eventid"]
  }

  /** What the clean-up does to one merged row. */
  function Post(x: Row): Row {
    Post2(RenameRow(x - Names(DROPPED), "zipcode_x", "zipcode"))
  }

  function PostAll(rows: seq<Row>): (r: seq<Row>)
    ensures |r| == |rows|
  {
    seq(|rows|, i requires 0 <= i < |rows| => Post(rows[i]))
  }

  /** With distinct event ids, `events_to_zipcode` returns one row per (event, code)
    * pair, permits in input order and codes in list order, keeping the rows with
    * no sentinel code and no missing cell. */
  lemma ZipRowsFanout(rows: seq<Row>)
    requires AllSplittable(rows) && forall i :: 0 <= i < |rows| ==> "eventid" in rows[i]
    requires forall i :: 0 <= i < |rows| ==> "zipcode_x" !in rows[i] && "zipcode_y" !in rows[i]
    requires DistinctIds(rows)
    ensures ZipRows(rows) == KeepComplete(Fanout(rows))
  {
    var listed := Listed(rows);
    ListedShape(rows);
    assert rows[..|rows|] == rows;
    assert listed[..|rows|] == listed;
    var merged := Merge(Stacked(listed), listed);
    FanoutPrefix(rows, |rows|);
    assert PostAll(merged) == Fanout(rows);
    CleanupIsPost(merged);
    assert Reshaped(listed) == KeepComplete(PostAll(merged));
  }

  /** The rows the fan-out gives for one permit. */
  function FanoutOf(r: Row): seq<Row>
    requires Splittable(r)
  {
    seq(|CodesOf(r)|, k requires 0 <= k < |CodesOf(r)| => Expected(r, CodesOf(r)[k]))
  }

  /** The clean-up of the merge of the first `n` permits' pairs is their fan-out. */
  lemma {:induction false} FanoutPrefix(rows: seq<Row>, n: nat)
    requires AllSplittable(rows) && forall i :: 0 <= i < |rows| ==> "eventid" in rows[i]
    requires forall i :: 0 <= i < |rows| ==> "zipcode_x" !in rows[i] && "zipcode_y" !in rows[i]
    requires DistinctIds(rows) && n <= |rows|
    ensures AllListed(Listed(rows))
    ensures PostAll(Merge(Stacked(Listed(rows)[..n]), Listed(rows))) == Fanout(rows[..n])
  {
    var listed := Listed(rows);
    ListedShape(rows);
    if n > 0 {
      FanoutPrefix(rows, n - 1);
      var a, b := Stacked(listed[..n - 1]), PairsOf(listed[n - 1]);
      StackedStep(listed, n);
      MergeAppend(a, b, listed);
      RowFanout(rows, n - 1);
      assert rows[..n][..n - 1] == rows[..n - 1];
      assert Fanout(rows[..n]) == Fanout(rows[..n - 1]) + FanoutOf(rows[n - 1]);
      PostAllAppend(Merge(a, listed), Merge(b, listed));
    }
  }

  /** The clean-up steps, one after the other, are `Post` on each row. */
  lemma CleanupIsPost(merged: seq<Row>)
    ensures BlankAll(BlankAll(RenameAll(DropAll(merged, Names(DROPPED)), "zipcode_x", "zipcode"), "zipcode", "0"), "zipcode", "N/A")
         == PostAll(merged)
  {
  }

  /** A merged row, cleaned up, keeps its key and holds its code in `zipcode`, unless
    * the code was a sentinel. */
  lemma PostCode(x: Row)
    requires "eventid" in x && "zipcode_x" in x && x["zipcode_x"].Text?
    ensures "eventid" in Post(x) && "zipcode" in Post(x)
    ensures Post(x)["zipcode"] == Missing || (Post(x)["zipcode"] == x["zipcode_x"]
              && x["zipcode_x"].text != "0" && x["zipcode_x"].text != "N/A")
  {
    assert Names(DROPPED) == {"zipcode_y"} + AUXILIARY;
  }

  /** The clean-up goes row by row. */
  lemma PostAllAppend(x: seq<Row>, y: seq<Row>)
    ensures PostAll(x + y) == PostAll(x) + PostAll(y)
  {
  }

  /** The pairs of the first `n` rows are those of the first `n - 1`, then the last. */
  lemma StackedStep(listed: seq<Row>, n: nat)
    requires AllListed(listed) && 0 < n <= |listed|
    ensures Stacked(listed[..n]) == Stacked(listed[..n - 1]) + PairsOf(listed[n - 1])
  {
    assert listed[..n][..n - 1] == listed[..n - 1];
  }

  /** The clean-up of the merge of one permit's pairs is that permit's fan-out. */
  lemma RowFanout(rows: seq<Row>, i: nat)
    requires AllSplittable(rows) && forall j :: 0 <= j < |rows| ==> "eventid" in rows[j]
    requires forall j :: 0 <= j < |rows| ==> "zipcode_x" !in rows[j] && "zipcode_y" !in rows[j]
    requires DistinctIds(rows) && i < |rows|
    ensures AllListed(Listed(rows))
    ensures PostAll(Merge(PairsOf(Listed(rows)[i]), Listed(rows))) == FanoutOf(rows[i])
  {
    var listed := Listed(rows);
    ListedShape(rows);
    assert DistinctIds(listed) by {
      forall q, s | 0 <= q < s < |listed|
        ensures listed[q]["eventid"] != listed[s]["eventid"]
      {
        assert listed[q]["eventid"] == rows[q]["eventid"];
      }
    }
    var b := PairsOf(listed[i]);
    MergeRow(listed, i, |b|);
    assert b[..|b|] == b;
    var r := rows[i];
    assert listed[i]["eventid"] == r["eventid"] && listed[i]["zipcode"].list == CodesOf(r);
    forall k | 0 <= k < |b|
      ensures PostAll(Merge(b, listed))[k] == FanoutOf(r)[k]
    {
      PostJoined(r, CodesOf(r)[k]);
    }
  }

  /** The merge of two runs of pairs is the merge of each, in order. */
  lemma {:induction false} MergeAppend(a: seq<(Cell, string)>, b: seq<(Cell, string)>, right: seq<Row>)
    requires AllListed(right)
    ensures Merge(a + b, right) == Merge(a, right) + Merge(b, right)
    decreases |b|
  {
    if b == [] {
      assert a + b == a;
    } else {
      var init, last := b[..|b| - 1], b[|b| - 1];
      MergeAppend(a, init, right);
      assert (a + b)[..|a + b| - 1] == a + init;
      assert (a + b)[|a + b| - 1] == last;
      calc {
        Merge(a + b, right);
        Merge(a + init, right) + Matches(last.0, last.1, right, |right|);
        Merge(a, right) + (Merge(init, right) + Matches(last.0, last.1, right, |right|));
      }
    }
  }

  /** With distinct ids, a pair from permit `i` meets permit `i` alone. */
  lemma {:induction false} MatchesDistinct(right: seq<Row>, i: nat, z: string, n: nat)
    requires AllListed(right) && i < |right| && n <= |right| && DistinctIds(right)
    ensures Matches(right[i]["eventid"], z, right, n) == if i < n then [Joined(right[i]["eventid"], z, right[i])] else []
  {
    if n > 0 {
      MatchesDistinct(right, i, z, n - 1);
    }
  }

  /** The first `m` pairs of permit `i`, merged, are that permit joined to each code. */
  lemma {:induction false} MergeRow(listed: seq<Row>, i: nat, m: nat)
    requires AllListed(listed) && DistinctIds(listed) && i < |listed|
    ensures m <= |PairsOf(listed[i])| ==>
      Merge(PairsOf(listed[i])[..m], listed)
        == seq(m, k requires 0 <= k < m => Joined(listed[i]["eventid"], listed[i]["zipcode"].list[k], listed[i]))
  {
    var p := PairsOf(listed[i]);
    if 0 < m <= |p| {
      MergeRow(listed, i, m - 1);
      assert p[..m][..m - 1] == p[..m - 1];
      MatchesDistinct(listed, i, listed[i]["zipcode"].list[m - 1], |listed|);
    }
  }

  /** The clean-up of a permit's row joined to one of its codes is the row the
    * fan-out expects. */
  lemma PostJoined(r: Row, z: string)
    requires Splittable(r) && "eventid" in r && "zipcode_x" !in r && "zipcode_y" !in r
    ensures Post(Joined(r["eventid"], z, WithCodes(r) - {"zipcode_s"})) == Expected(r, z)
  {
    var l := WithCodes(r) - {"zipcode_s"};
    var kept := r - ({"zipcode_s", "zipcode"} + AUXILIARY);
    DropJoined(r["eventid"], z, l);
    assert l - ({"zipcode", "eventid"} + AUXILIARY) == kept - {"eventid"};
    assert (kept - {"eventid"})["eventid" := r["eventid"]] == kept;
    RenameLast(kept, Text(z));
  }

  /** Dropping the columns from a joined row leaves the right row's own cells and
    * the two cells of the pair. */
  lemma DropJoined(id: Cell, z: string, l: Row)
    requires "zipcode" in l && "zipcode_y" !in l
    ensures Joined(id, z, l) - Names(DROPPED)
         == (l - ({"zipcode", "eventid"} + AUXILIARY))["eventid" := id]["zipcode_x" := Text(z)]
  {
    assert Names(DROPPED) == {"zipcode_y"} + AUXILIARY;
  }

  /** Renaming `zipcode_x`, then blanking the sentinels, sets the code in `zipcode`. */
  lemma RenameLast(kept: Row, t: Cell)
    requires "zipcode_x" !in kept && t.Text?
    ensures Post2(RenameRow(kept["zipcode_x" := t], "zipcode_x", "zipcode"))
         == kept["zipcode" := if t.text == "0" || t.text == "N/A" then Missing else t]
  {
    assert kept["zipcode_x" := t] - {"zipcode_x"} == kept;
  }

  /** The two blanking steps. */
  function Post2(x: Row): Row {
    BlankRow(BlankRow(x, "zipcode", "0"), "zipcode", "N/A")
  }
}
