/** `clean_county_str`: the county text of a street, "name,state;name,state", as the
  * list of county names. */
module Geo {
  import opened Strings

  /** The name of one county entry: the text before its first ','. */
  function CountyName(piece: string): string {
    Split(piece, ",")[0]
  }

  /** `clean_county_str(county_str)`. */
  function CleanCountyStr(s: string): (r: seq<string>)
    ensures |r| == |Split(s, ";")|
    ensures forall k :: 0 <= k < |r| ==> r[k] == CountyName(Split(s, ";")[k])
  {
    var pieces := Split(s, ";");
    seq(|pieces|, k requires 0 <= k < |pieces| => CountyName(pieces[k]))
  }

  /** A county name is a prefix of its entry that stops at the first ',' or at the
    * end, and holds no ','. */
  lemma CountyNameShape(piece: string)
    ensures exists j :: 0 <= j <= |piece| && CountyName(piece) == piece[..j]
                        && (j == |piece| || piece[j] == ',')
    ensures forall k :: 0 <= k < |CountyName(piece)| ==> CountyName(piece)[k] != ','
  {
    SplitFirst(piece, ",");
    var name := CountyName(piece);
    forall k | 0 <= k < |name|
      ensures name[k] != ','
    {
      assert !OccursAt(name, ",", k);
      assert name[k..k + 1] == [name[k]];
    }
  }

  /** An entry with no ',' is its own name. */
  lemma CountyNameWhole(piece: string)
    requires forall k :: 0 <= k < |piece| ==> piece[k] != ','
    ensures CountyName(piece) == piece
  {
    forall k | 0 <= k <= |piece|
      ensures !OccursAt(piece, ",", k)
    {
      if k < |piece| {
        assert piece[k..k + 1] == [piece[k]];
      }
    }
    SplitSingle(piece, ",");
  }

  /** One name per ';'-separated entry, in order; no name holds a ','; a text with no
    * ';' gives one entry, and with no ',' either it comes back whole. */
  lemma CleanCountyStrShape(s: string)
    ensures forall k :: 0 <= k < |CleanCountyStr(s)| ==>
              forall m :: 0 <= m < |CleanCountyStr(s)[k]| ==> CleanCountyStr(s)[k][m] != ','
    ensures (forall k :: 0 <= k < |s| ==> s[k] != ';' && s[k] != ',') ==> CleanCountyStr(s) == [s]
  {
    var r := CleanCountyStr(s);
    forall k | 0 <= k < |r|
      ensures forall m :: 0 <= m < |r[k]| ==> r[k][m] != ','
    {
      CountyNameShape(Split(s, ";")[k]);
    }
    if forall k :: 0 <= k < |s| ==> s[k] != ';' && s[k] != ',' {
      forall k | 0 <= k <= |s|
        ensures !OccursAt(s, ";", k)
      {
        if k < |s| {
          assert s[k..k + 1] == [s[k]];
        }
      }
      SplitSingle(s, ";");
      CountyNameWhole(s);
    }
  }

  /** The empty text gives one empty name. */
  lemma CleanCountyStrEmpty()
    ensures CleanCountyStr("") == [""]
  {
    CleanCountyStrShape("");
  }
}
