/** The record assembly of the regex pipeline: `clean_data` turns one row of the permit
  * feed into a record whose `streets` holds one block (or nothing) per fragment of the
  * "parking held" field, and `create_film_df` fans the records out into one row per
  * block. The feed row is a map from column names to text; a missing column is the
  * `KeyError` the source raises, and a timestamp `strptime` refuses its `ValueError`. */
module FilmData {
  import opened Wrappers
  import opened Strings
  import opened Timestamps
  import opened StreetNames

  /** Why a row could not be cleaned. */
  datatype Failure = MissingKey(key: string) | BadDate(key: string)

  /** The dict `clean_data` returns. */
  datatype Record = Record(
    id: string,
    streets: seq<Option<Block>>,
    borough: string,
    zipcode: string,
    startdate: DateTime,
    enddate: DateTime,
    enteredon: DateTime,
    category: string,
    subcategory: string,
    origin: string)

  /** The columns `clean_data` reads, in the order it reads them. */
  const KEYS: seq<string> := [
    "eventid", "parkingheld", "startdatetime", "enddatetime", "enteredon",
    "category", "subcategoryname", "country", "borough", "zipcode_s"
  ]

  /** The columns that hold timestamps. */
  predicate IsDateKey(key: string) {
    key == "startdatetime" || key == "enddatetime" || key == "enteredon"
  }

  /** `_clean_datetime(row[key])`, with the lookup's and the parse's failures. */
  function ReadDate(row: map<string, string>, key: string): (r: Result<DateTime, Failure>)
    ensures r.Ok? <==> key in row && CleanDatetime(row[key], 'T').Some?
    ensures r.Ok? ==> Valid(r.value) && Some(r.value) == CleanDatetime(row[key], 'T')
    ensures r.Err? ==> r.error == (if key in row then BadDate(key) else MissingKey(key))
  {
    if key !in row then Err(MissingKey(key))
    else match CleanDatetime(row[key], 'T')
      case None => Err(BadDate(key))
      case Some(d) => Ok(d)
  }

  /** `[_get_intersections(address) for address in addresses]`. */
  function Blocks(fragments: seq<string>): (r: seq<Option<Block>>)
    ensures |r| == |fragments|
    ensures forall k :: 0 <= k < |r| ==> r[k] == Intersections(fragments[k])
  {
    seq(|fragments|, k requires 0 <= k < |fragments| => Intersections(fragments[k]))
  }

  /** `clean_data(row)`: the lookups and parses in the order the source makes them;
    * the first one that fails decides the error. */
  function CleanData(row: map<string, string>): Result<Record, Failure> {
    if "eventid" !in row then Err(MissingKey("eventid"))
    else if "parkingheld" !in row then Err(MissingKey("parkingheld"))
    else
      var streets := Blocks(SplitAddresses(row["parkingheld"]));
      match ReadDate(row, "startdatetime")
      case Err(e) => Err(e)
      case Ok(start) =>
        match ReadDate(row, "enddatetime")
        case Err(e) => Err(e)
        case Ok(end) =>
          match ReadDate(row, "enteredon")
          case Err(e) => Err(e)
          case Ok(entered) =>
            if "category" !in row then Err(MissingKey("category"))
            else if "subcategoryname" !in row then Err(MissingKey("subcategoryname"))
            else if "country" !in row then Err(MissingKey("country"))
            else if "borough" !in row then Err(MissingKey("borough"))
            else if "zipcode_s" !in row then Err(MissingKey("zipcode_s"))
            else Ok(Record(row["eventid"], streets, row["borough"], row["zipcode_s"],
                           start, end, entered, row["category"], row["subcategoryname"],
                           row["country"]))
  }

  /** Column `i` of `KEYS` holds a timestamp. */
  predicate IsDateColumn(i: nat) {
    2 <= i <= 4
  }

  /** Column `i` is present and, if it holds a timestamp, parses. */
  predicate Reads(row: map<string, string>, i: nat)
    requires i < |KEYS|
  {
    KEYS[i] in row && (IsDateColumn(i) ==> CleanDatetime(row[KEYS[i]], 'T').Some?)
  }

  /** The first `i` columns read. */
  predicate Passed(row: map<string, string>, i: nat)
    requires i <= |KEYS|
  {
    forall j :: 0 <= j < i ==> Reads(row, j)
  }

  /** Column `i` is where reading fails, with error `e`. */
  predicate FailsAt(row: map<string, string>, i: nat, e: Failure)
    requires i < |KEYS|
  {
    || (e == MissingKey(KEYS[i]) && KEYS[i] !in row)
    || (e == BadDate(KEYS[i]) && IsDateColumn(i) && KEYS[i] in row && CleanDatetime(row[KEYS[i]], 'T').None?)
  }

  /** Reading fails at column `i` with the error that column gives. */
  lemma FailsHere(row: map<string, string>, i: nat)
    requires i < |KEYS| && Passed(row, i) && !Reads(row, i)
    ensures CleanData(row).Err? && FailsAt(row, i, CleanData(row).error)
  {
    if i < 5 { FailsEarly(row, i); } else { FailsLate(row, i); }
  }

  lemma FailsEarly(row: map<string, string>, i: nat)
    requires i < 5 && Passed(row, i) && !Reads(row, i)
    ensures CleanData(row).Err? && FailsAt(row, i, CleanData(row).error)
  {
    if i == 1 {
      assert Reads(row, 0);
    } else if i == 2 {
      assert Reads(row, 0) && Reads(row, 1);
    } else if i > 2 {
      FailsDate(row, i);
    }
  }

  lemma FailsDate(row: map<string, string>, i: nat)
    requires 3 <= i < 5 && Passed(row, i) && !Reads(row, i)
    ensures CleanData(row).Err? && FailsAt(row, i, CleanData(row).error)
  {
    assert Reads(row, 0) && Reads(row, 1) && Reads(row, 2);
    if i == 4 {
      assert Reads(row, 3);
    }
  }

  lemma FailsLate(row: map<string, string>, i: nat)
    requires 5 <= i < |KEYS| && Passed(row, i) && !Reads(row, i)
    ensures CleanData(row).Err? && FailsAt(row, i, CleanData(row).error)
  {
    assert Reads(row, 0) && Reads(row, 1) && Reads(row, 2) && Reads(row, 3) && Reads(row, 4);
    if i > 5 { assert Reads(row, 5); }
    if i > 6 { assert Reads(row, 6); }
    if i > 7 { assert Reads(row, 7); }
    if i > 8 { assert Reads(row, 8); }
  }

  /** A row cleans exactly when every column is present and every timestamp parses. */
  lemma CleanDataSucceeds(row: map<string, string>)
    ensures CleanData(row).Ok? <==> Passed(row, |KEYS|)
  {
    if Passed(row, |KEYS|) {
      assert Reads(row, 0) && Reads(row, 1) && Reads(row, 2) && Reads(row, 3) && Reads(row, 4);
      assert Reads(row, 5) && Reads(row, 6) && Reads(row, 7) && Reads(row, 8) && Reads(row, 9);
    } else {
      CleanDataFails(row);
    }
  }

  /** A row that does not clean fails at the first column, in reading order, that is
    * missing or holds a timestamp `strptime` refuses. */
  lemma CleanDataFails(row: map<string, string>)
    ensures !Passed(row, |KEYS|) ==>
      && CleanData(row).Err?
      && exists i :: 0 <= i < |KEYS| && Passed(row, i) && FailsAt(row, i, CleanData(row).error)
  {
    if !Passed(row, |KEYS|) {
      var i := FirstUnreadFrom(row, 0);
      FailsHere(row, i);
    }
  }

  /** The first column from `i` on that does not read. */
  lemma {:induction false} FirstUnreadFrom(row: map<string, string>, i: nat) returns (k: nat)
    requires i <= |KEYS| && Passed(row, i) && !Passed(row, |KEYS|)
    ensures i <= k < |KEYS| && Passed(row, k) && !Reads(row, k)
    decreases |KEYS| - i
  {
    if Reads(row, i) {
      k := FirstUnreadFrom(row, i + 1);
    } else {
      k := i;
    }
  }

  /** A cleaned record holds one entry per fragment of the "parking held" field, in
    * order, each the block that fragment gives, and the other columns as read. */
  lemma CleanDataRecord(row: map<string, string>)
    requires Passed(row, |KEYS|)
    ensures "eventid" in row && "parkingheld" in row && "borough" in row && "zipcode_s" in row
    ensures "category" in row && "subcategoryname" in row && "country" in row
    ensures "startdatetime" in row && "enddatetime" in row && "enteredon" in row
    ensures CleanData(row).Ok?
    ensures var r := CleanData(row).value;
      && |r.streets| == |Split(row["parkingheld"], ", ")|
      && (forall k :: 0 <= k < |r.streets| ==> r.streets[k] == Intersections(SplitAddresses(row["parkingheld"])[k]))
      && r.id == row["eventid"] && r.borough == row["borough"] && r.zipcode == row["zipcode_s"]
      && r.category == row["category"] && r.subcategory == row["subcategoryname"] && r.origin == row["country"]
      && Some(r.startdate) == CleanDatetime(row["startdatetime"], 'T')
      && Some(r.enddate) == CleanDatetime(row["enddatetime"], 'T')
      && Some(r.enteredon) == CleanDatetime(row["enteredon"], 'T')
  {
    assert Reads(row, 0) && Reads(row, 1) && Reads(row, 2) && Reads(row, 3) && Reads(row, 4);
    assert Reads(row, 5) && Reads(row, 6) && Reads(row, 7) && Reads(row, 8) && Reads(row, 9);
  }

  // ---------------------------------------------------------------------------
  // `create_film_df`

  /** One row of the long table: the permit's columns, the zipcode text split on
    * `', '`, and the block's three streets. */
  datatype FilmRow = FilmRow(
    id: string,
    borough: string,
    zipcode: seq<string>,
    startdate: DateTime,
    enddate: DateTime,
    enteredon: DateTime,
    category: string,
    subcategory: string,
    origin: string,
    main: string,
    cross1: string,
    cross2: string)

  /** The row that joins block `b` to the columns of permit `p`. */
  function BlockRow(p: Record, b: Block): (r: FilmRow)
    ensures r.id == p.id && r.zipcode == Split(p.zipcode, ", ")
    ensures r.main == b.main && r.cross1 == b.cross1 && r.cross2 == b.cross2
  {
    FilmRow(p.id, p.borough, Split(p.zipcode, ", "), p.startdate, p.enddate, p.enteredon,
            p.category, p.subcategory, p.origin, b.main, b.cross1, b.cross2)
  }

  /** The first `n` permits whose id is `id`, in order: the right-hand rows a left
    * merge on `id` pairs with a row of that id. */
  function Matching(ps: seq<Record>, id: string, n: nat): (r: seq<Record>)
    requires n <= |ps|
    ensures |r| <= n
    ensures forall j :: 0 <= j < |r| ==> r[j].id == id
  {
    if n == 0 then []
    else Matching(ps, id, n - 1) + (if ps[n - 1].id == id then [ps[n - 1]] else [])
  }

  /** Block `b` merged with each of the matching permits. */
  function Merged(ms: seq<Record>, b: Block): (r: seq<FilmRow>)
    ensures |r| == |ms|
  {
    seq(|ms|, j requires 0 <= j < |ms| => BlockRow(ms[j], b))
  }

  /** The merged rows of the first `k` blocks of permit `p`; a `None` block is dropped
    * by `stack`. */
  function BlockRows(ps: seq<Record>, p: Record, k: nat): seq<FilmRow>
    requires k <= |p.streets|
  {
    if k == 0 then []
    else BlockRows(ps, p, k - 1) + match p.streets[k - 1]
      case None => []
      case Some(b) => Merged(Matching(ps, p.id, |ps|), b)
  }

  /** The rows of the first `n` permits, permit by permit. */
  function FilmRows(ps: seq<Record>, n: nat): seq<FilmRow>
    requires n <= |ps|
  {
    if n == 0 then [] else FilmRows(ps, n - 1) + BlockRows(ps, ps[n - 1], |ps[n - 1].streets|)
  }

  /** `create_film_df(film_permits)`: stack the blocks permit by permit, merge each
    * with the permits of its id, and split the zipcode text. An empty list has no
    * `streets` column to read, which is the source's `KeyError`: `None`. */
  method CreateFilmDf(ps: seq<Record>) returns (r: Option<seq<FilmRow>>)
    ensures ps == [] ==> r == None
    ensures ps != [] ==> r == Some(FilmRows(ps, |ps|))
  {
    if ps == [] {
      return None;
    }
    var rows: seq<FilmRow> := [];
    for i := 0 to |ps|
      invariant rows == FilmRows(ps, i)
    {
      var stacked := StackPermit(ps, ps[i]);
      rows := rows + stacked;
    }
    return Some(rows);
  }

  /** The rows of one permit: its blocks in order, each merged, `None` entries dropped. */
  method StackPermit(ps: seq<Record>, p: Record) returns (rows: seq<FilmRow>)
    ensures rows == BlockRows(ps, p, |p.streets|)
  {
    rows := [];
    for k := 0 to |p.streets|
      invariant rows == BlockRows(ps, p, k)
    {
      if p.streets[k].Some? {
        var merged := MergeBlock(ps, p.id, p.streets[k].value);
        rows := rows + merged;
      }
    }
  }

  /** The left merge of one stacked block: a row for each permit of its id, in order. */
  method MergeBlock(ps: seq<Record>, id: string, b: Block) returns (rows: seq<FilmRow>)
    ensures rows == Merged(Matching(ps, id, |ps|), b)
  {
    rows := [];
    for j := 0 to |ps|
      invariant rows == Merged(Matching(ps, id, j), b)
    {
      if ps[j].id == id {
        rows := rows + [BlockRow(ps[j], b)];
      }
      MergedStep(ps, id, j, b);
    }
  }

  lemma MergedStep(ps: seq<Record>, id: string, j: nat, b: Block)
    requires j < |ps|
    ensures Merged(Matching(ps, id, j + 1), b)
         == Merged(Matching(ps, id, j), b) + (if ps[j].id == id then [BlockRow(ps[j], b)] else [])
  {
  }

  // ---------------------------------------------------------------------------
  // The fan-out it is meant to be

  /** The reference: one row per block, joined to its own permit. */
  function OwnRows(p: Record, k: nat): seq<FilmRow>
    requires k <= |p.streets|
  {
    if k == 0 then []
    else OwnRows(p, k - 1) + match p.streets[k - 1]
      case None => []
      case Some(b) => [BlockRow(p, b)]
  }

  /** The reference for the first `n` permits, in permit-then-block order. */
  function Fanout(ps: seq<Record>, n: nat): seq<FilmRow>
    requires n <= |ps|
  {
    if n == 0 then [] else Fanout(ps, n - 1) + OwnRows(ps[n - 1], |ps[n - 1].streets|)
  }

  /** The number of blocks among the first `k` entries. */
  function BlockCount(streets: seq<Option<Block>>, k: nat): nat
    requires k <= |streets|
  {
    if k == 0 then 0 else BlockCount(streets, k - 1) + (if streets[k - 1].Some? then 1 else 0)
  }

  /** Permit ids are distinct. */
  predicate DistinctIds(ps: seq<Record>) {
    forall i, j :: 0 <= i < j < |ps| ==> ps[i].id != ps[j].id
  }

  /** With distinct ids, the merge pairs a permit with itself alone. */
  lemma {:induction false} MatchingDistinct(ps: seq<Record>, i: nat, n: nat)
    requires DistinctIds(ps) && i < |ps| && n <= |ps|
    ensures Matching(ps, ps[i].id, n) == if i < n then [ps[i]] else []
  {
    if n > 0 {
      MatchingDistinct(ps, i, n - 1);
    }
  }

  lemma {:induction false} BlockRowsOwn(ps: seq<Record>, i: nat, k: nat)
    requires DistinctIds(ps) && i < |ps| && k <= |ps[i].streets|
    ensures BlockRows(ps, ps[i], k) == OwnRows(ps[i], k)
  {
    if k > 0 {
      BlockRowsOwn(ps, i, k - 1);
      MatchingDistinct(ps, i, |ps|);
      match ps[i].streets[k - 1]
      case None =>
      case Some(b) =>
        assert Merged([ps[i]], b) == [BlockRow(ps[i], b)];
    }
  }

  /** With distinct ids, the table is the plain fan-out: one row per block, permit by
    * permit and block by block, each joined to its own permit. */
  lemma {:induction false} FilmRowsAreFanout(ps: seq<Record>, n: nat)
    requires DistinctIds(ps) && n <= |ps|
    ensures FilmRows(ps, n) == Fanout(ps, n)
  {
    if n > 0 {
      FilmRowsAreFanout(ps, n - 1);
      BlockRowsOwn(ps, n - 1, |ps[n - 1].streets|);
    }
  }

  /** A permit contributes one row per block it holds, none for a `None`. */
  lemma {:induction false} OwnRowsCount(p: Record, k: nat)
    requires k <= |p.streets|
    ensures |OwnRows(p, k)| == BlockCount(p.streets, k)
  {
    if k > 0 {
      OwnRowsCount(p, k - 1);
    }
  }

  /** The rows of each block are its own, in order: the `m`-th block row of a permit
    * carries its `m`-th block. */
  lemma {:induction false} OwnRowsBlocks(p: Record, k: nat)
    requires k <= |p.streets|
    ensures forall r :: r in OwnRows(p, k) ==>
      r.id == p.id && r.zipcode == Split(p.zipcode, ", ") &&
      exists m :: 0 <= m < k && p.streets[m] == Some(Block(r.main, r.cross1, r.cross2))
  {
    if k > 0 {
      OwnRowsBlocks(p, k - 1);
    }
  }
}
