/** The earlier cleaner at the top of the repository, built from substring tests
  * instead of regular expressions. Fragments keep capitalised words, so its markers are
  * capitalised too ("W ", " St", " Between ", "Dead End"). A street goes through the
  * ordinal rule first, then the suffix rule, then the direction rule, and a block
  * yields two corners, each a list of two street names and the borough. */
module SubstringCleaner {
  import opened Wrappers
  import opened Strings
  import opened Ordinals
  import opened Timestamps
  import opened FilmData

  // ---------------------------------------------------------------------------
  // `_split_addresses` and `_clean_boro`

  /** `[word.capitalize() for word in ws]`. */
  function CapWords(ws: seq<string>): seq<string> {
    seq(|ws|, k requires 0 <= k < |ws| => Capitalize(ws[k]))
  }

  /** One fragment: `' '.join([word.capitalize() for word in piece.split()])`. */
  function CapFragment(piece: string): string {
    Join(CapWords(Words(piece)), " ")
  }

  /** `_split_addresses(s)`: the `', '`-separated pieces, each with capitalised words. */
  function CapSplitAddresses(s: string): (r: seq<string>)
    ensures |r| == |Split(s, ", ")|
  {
    var pieces := Split(s, ", ");
    seq(|pieces|, k requires 0 <= k < |pieces| => CapFragment(pieces[k]))
  }

  /** `_clean_boro(boro)`. */
  function CleanBoro(boro: string): (r: string)
    ensures |r| == |boro|
    ensures boro != [] ==> !IsLower(r[0])
    ensures forall k :: 0 < k < |r| ==> NotUpper(r[k])
    ensures Lower(r) == Lower(boro)
  {
    CapitalizeShape(boro);
    Capitalize(boro)
  }

  /** A fragment is trimmed and single-spaced, and its words are the piece's words,
    * each capitalised, in order. */
  lemma CapFragmentShape(piece: string)
    ensures SingleSpaced(CapFragment(piece))
    ensures Words(CapFragment(piece)) == CapWords(Words(piece))
  {
    var ws := Words(piece);
    var cws := CapWords(ws);
    forall k | 0 <= k < |cws|
      ensures cws[k] != [] && NoSpace(cws[k])
    {
      CapitalizeShape(ws[k]);
    }
    WordsOfJoin(cws);
    JoinSingleSpaced(cws);
  }

  /** One fragment per `', '`-separated piece, in order, each single-spaced with its
    * words capitalised. */
  lemma CapSplitAddressesShape(s: string)
    ensures var r := CapSplitAddresses(s);
      forall k :: 0 <= k < |r| ==>
        SingleSpaced(r[k]) && Words(r[k]) == CapWords(Words(Split(s, ", ")[k]))
  {
    var r := CapSplitAddresses(s);
    forall k | 0 <= k < |r|
      ensures SingleSpaced(r[k]) && Words(r[k]) == CapWords(Words(Split(s, ", ")[k]))
    {
      CapFragmentShape(Split(s, ", ")[k]);
    }
  }

  // ---------------------------------------------------------------------------
  // `_abb_to_full`

  /** `if marker in street: street = word + street.split(marker)[1]`. */
  function DirectionStep(street: string, marker: string, word: string): string
    requires marker != []
  {
    if Contains(street, marker) then
      SplitSingle(street, marker);
      word + Split(street, marker)[1]
    else street
  }

  /** `_abb_to_full(street)`: the markers "W ", "E ", "N ", "S ", in that order. */
  function AbbToFull(street: string): string {
    var s1 := DirectionStep(street, "W ", "West ");
    var s2 := DirectionStep(s1, "E ", "East ");
    var s3 := DirectionStep(s2, "N ", "North ");
    DirectionStep(s3, "S ", "South ")
  }

  /** A marker that occurs swallows everything up to its first occurrence, and only
    * the text up to its next occurrence survives after the direction word. */
  lemma DirectionStepShape(s: string, m: string, w: string)
    requires m != [] && Contains(s, m)
    ensures var i := Find(s, m).value;
      var t := s[i + |m|..];
      exists j :: 0 <= j <= |t| && DirectionStep(s, m, w) == w + t[..j]
        && !Contains(t[..j], m) && (j == |t| || OccursAt(t, m, j))
  {
    var i := Find(s, m).value;
    SplitHead(s, m, i);
    var t := s[i + |m|..];
    SplitFirst(t, m);
  }

  /** A street without any of the four markers is left alone. */
  lemma AbbToFullAbsent(s: string)
    requires !Contains(s, "W ") && !Contains(s, "E ") && !Contains(s, "N ") && !Contains(s, "S ")
    ensures AbbToFull(s) == s
  {
  }

  // ---------------------------------------------------------------------------
  // `_standardize_street`

  /** `if marker in street: street = street.split(marker)[0] + full`. */
  function SuffixStep(street: string, marker: string, full: string): string
    requires marker != []
  {
    if Contains(street, marker) then Split(street, marker)[0] + full else street
  }

  /** `_standardize_street(street)`: " St", " Ave", " Rd", " Pkwy", " Blvd", in order. */
  function StandardizeSuffix(street: string): string {
    var s1 := SuffixStep(street, " St", " Street");
    var s2 := SuffixStep(s1, " Ave", " Avenue");
    var s3 := SuffixStep(s2, " Rd", " Road");
    var s4 := SuffixStep(s3, " Pkwy", " Parkway");
    SuffixStep(s4, " Blvd", " Boulevard")
  }

  /** A marker that occurs cuts the street at its first occurrence. */
  lemma SuffixStepShape(s: string, m: string, full: string)
    requires m != [] && Contains(s, m)
    ensures SuffixStep(s, m, full) == s[..Find(s, m).value] + full
  {
    SplitHead(s, m, Find(s, m).value);
  }

  /** A street without any of the five markers is left alone. */
  lemma StandardizeAbsent(s: string)
    requires !Contains(s, " St") && !Contains(s, " Ave") && !Contains(s, " Rd")
    requires !Contains(s, " Pkwy") && !Contains(s, " Blvd")
    ensures StandardizeSuffix(s) == s
  {
  }

  /** When " St" is the only marker, the street becomes the text before its first
    * " St", then " Street": "W 42 St" gives "W 42 Street", and so does "W 42 Stanton". */
  lemma StandardizeOnlySt(s: string)
    requires Contains(s, " St") && !Contains(s, " Ave") && !Contains(s, " Rd")
    requires !Contains(s, " Pkwy") && !Contains(s, " Blvd")
    ensures StandardizeSuffix(s) == s[..Find(s, " St").value] + " Street"
  {
    var i := Find(s, " St").value;
    SuffixStepShape(s, " St", " Street");
    var p := s[..i];
    assert p + " Street" == p + " " + "Street";
    PrefixFree(s, i, " Ave");
    PrefixFree(s, i, " Rd");
    PrefixFree(s, i, " Pkwy");
    PrefixFree(s, i, " Blvd");
    assert SpaceLed(" Ave") && SpaceLed(" Rd") && SpaceLed(" Pkwy") && SpaceLed(" Blvd");
    AppendWordFree(p, "Street", " Ave");
    AppendWordFree(p, "Street", " Rd");
    AppendWordFree(p, "Street", " Pkwy");
    AppendWordFree(p, "Street", " Blvd");
  }

  // ---------------------------------------------------------------------------
  // `_clean_street`

  /** `_clean_street(address)`: ordinal, then suffix, then direction. */
  function CleanStreet(address: string): string {
    AbbToFull(StandardizeSuffix(OrdinalRep(address)))
  }

  // ---------------------------------------------------------------------------
  // `_get_intersections`

  /** A corner: two street names and the borough, `[street, cross, boro]`. */
  type Corner = seq<string>

  /** The markers of fragments that are not real blocks. */
  const DEAD_MARKERS: seq<string> := ["Dead Road", "Dead End", "Dead Rd"]

  /** `_get_intersections(address, boro)`: the two corners of the block
    * "A Between B And C", or `None`. */
  function Corners(address: string, boro: string): Option<(Corner, Corner)> {
    if exists k :: 0 <= k < |DEAD_MARKERS| && Contains(address, DEAD_MARKERS[k]) then None
    else
      var halves := Split(address, " Between ");
      if |halves| != 2 then None
      else
        var cross := Split(halves[1], " And ");
        if 1 + |cross| != 3 then None
        else
          var main := CleanStreet(halves[0]);
          Some(([main, CleanStreet(cross[0]), boro], [main, CleanStreet(cross[1]), boro]))
  }

  /** A dead-end marker, or a missing " Between ", gives no corners. */
  lemma CornersRefused(address: string, boro: string)
    ensures Contains(address, "Dead Road") ==> Corners(address, boro).None?
    ensures Contains(address, "Dead End") ==> Corners(address, boro).None?
    ensures Contains(address, "Dead Rd") ==> Corners(address, boro).None?
    ensures !Contains(address, " Between ") ==> Corners(address, boro).None?
  {
    assert DEAD_MARKERS[0] == "Dead Road" && DEAD_MARKERS[1] == "Dead End" && DEAD_MARKERS[2] == "Dead Rd";
    SplitSingle(address, " Between ");
  }

  /** The two corners come from a fragment "main Between c1 And c2" with no dead-end
    * marker and exactly those separators: both start with the cleaned main street, in
    * the order written, and both end with the borough passed in. */
  lemma CornersParts(address: string, boro: string)
    requires Corners(address, boro).Some?
    ensures forall k :: 0 <= k < |DEAD_MARKERS| ==> !Contains(address, DEAD_MARKERS[k])
    ensures exists main, c1, c2 ::
      && ThreeParts(address, " Between ", " And ", main, c1, c2)
      && Corners(address, boro) == Some(([CleanStreet(main), CleanStreet(c1), boro],
                                         [CleanStreet(main), CleanStreet(c2), boro]))
  {
    SplitTwice(address, " Between ", " And ");
  }

  /** Conversely, a fragment that reads "main Between c1 And c2", with exactly those
    * separators and no dead-end marker, gives the two corners of the cleaned names
    * in the given borough. */
  lemma CornersOf(address: string, boro: string, main: string, c1: string, c2: string)
    requires forall k :: 0 <= k < |DEAD_MARKERS| ==> !Contains(address, DEAD_MARKERS[k])
    requires ThreeParts(address, " Between ", " And ", main, c1, c2)
    ensures Corners(address, boro) == Some(([CleanStreet(main), CleanStreet(c1), boro],
                                            [CleanStreet(main), CleanStreet(c2), boro]))
  {
    ThreePartsSplit(address, " Between ", " And ", main, c1, c2);
  }

  // ---------------------------------------------------------------------------
  // `clean_data`

  /** The dict this `clean_data` returns: no borough or zipcode of its own. */
  datatype CornerRecord = CornerRecord(
    id: string,
    streets: seq<Option<(Corner, Corner)>>,
    startdate: DateTime,
    enddate: DateTime,
    enteredon: DateTime,
    category: string,
    subcategory: string,
    origin: string)

  /** `[_get_intersections(address, boro) for address in addresses]`. */
  function CornerList(fragments: seq<string>, boro: string): (r: seq<Option<(Corner, Corner)>>)
    ensures |r| == |fragments|
  {
    seq(|fragments|, k requires 0 <= k < |fragments| => Corners(fragments[k], boro))
  }

  /** `clean_data(row)`, reading `eventid`, `borough`, `parkingheld`, the three
    * timestamps and the three text columns, in that order. */
  function CleanCornerData(row: map<string, string>): Result<CornerRecord, Failure> {
    if "eventid" !in row then Err(MissingKey("eventid"))
    else if "borough" !in row then Err(MissingKey("borough"))
    else if "parkingheld" !in row then Err(MissingKey("parkingheld"))
    else
      var boro := CleanBoro(row["borough"]);
      var streets := CornerList(CapSplitAddresses(row["parkingheld"]), boro);
      match ReadDate(row, "startdatetime")
      case Err(e) => Err(e)
      case Ok(start) =>
        match ReadDate(row, "enddatetime")
        case Err(e) => Err(e)
        case Ok(end) =>
          match ReadDate(row, "enteredon")
          case Err(e) => Err(e)
          case Ok(entered) =>
            if "category" !in row then Err(MissingKey("category"))
            else if "subcategoryname" !in row then Err(MissingKey("subcategoryname"))
            else if "country" !in row then Err(MissingKey("country"))
            else Ok(CornerRecord(row["eventid"], streets, start, end, entered,
                                 row["category"], row["subcategoryname"], row["country"]))
  }

  /** Every corner of the list ends with the borough it was given. */
  lemma CornerListBoro(fragments: seq<string>, boro: string)
    ensures var r := CornerList(fragments, boro);
      forall k :: 0 <= k < |r| && r[k].Some? ==>
        && |r[k].value.0| == 3 && |r[k].value.1| == 3
        && r[k].value.0[2] == boro && r[k].value.1[2] == boro
  {
  }

  /** A cleaned record keeps the event id and holds the corners of every fragment, in
    * order, built with the capitalised borough. */
  lemma CleanCornerDataRecord(row: map<string, string>)
    requires CleanCornerData(row).Ok?
    ensures "parkingheld" in row && "borough" in row && "eventid" in row
    ensures var r := CleanCornerData(row).value;
      && r.id == row["eventid"]
      && r.streets == CornerList(CapSplitAddresses(row["parkingheld"]), Capitalize(row["borough"]))
  {
  }

  /** So the record has one entry per fragment, and every corner in it ends with the
    * capitalised borough. */
  lemma CleanCornerDataBoro(row: map<string, string>)
    requires CleanCornerData(row).Ok?
    ensures "parkingheld" in row && "borough" in row
    ensures var r := CleanCornerData(row).value;
      && |r.streets| == |Split(row["parkingheld"], ", ")|
      && forall k :: 0 <= k < |r.streets| && r.streets[k].Some? ==>
           && |r.streets[k].value.0| == 3 && |r.streets[k].value.1| == 3
           && r.streets[k].value.0[2] == Capitalize(row["borough"])
           && r.streets[k].value.1[2] == Capitalize(row["borough"])
  {
    CleanCornerDataRecord(row);
    CornerListBoro(CapSplitAddresses(row["parkingheld"]), Capitalize(row["borough"]));
  }
}
