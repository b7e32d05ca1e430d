/** The `Permit` class: an object built from the keyword arguments of one feed row,
  * whose constructor rewrites its own attributes in place. The values of the slot
  * attributes are lower-cased; the "parking held" text becomes capitalised fragments
  * and then the list of crossings of each block; the borough is capitalised; the two
  * timestamps are parsed. An attribute that was never set is `None`, and the
  * exception the source raises is an `InitError`. */
module Permits {
  import opened Wrappers
  import opened Strings
  import opened Ordinals
  import opened Timestamps
  import opened SubstringCleaner

  /** `__slots__`. */
  const SLOTS: seq<string> := [
    "eventid", "startdatetime", "enddatetime", "parkingheld", "borough", "category",
    "subcategoryname", "zipcode_s", "points", "linestrings"
  ]

  /** A timestamp attribute: the text it was given, then the parsed value. */
  datatype Stamp = Text(text: string) | At(time: DateTime)

  /** One end of a block: the two street names in sorted order, then the locality. */
  datatype Point = Point(first: string, second: string, locality: string)

  /** The dict `{'point1': ..., 'point2': ...}` of one block. */
  datatype Crossing = Crossing(point1: Point, point2: Point)

  /** `parkingheld` as it is rewritten: the text, the fragments, the crossings. */
  datatype Parking = Held(text: string) | Spots(fragments: seq<string>) | Crossings(list: seq<Crossing>)

  /** `points` and `linestrings`: a text passed in, or the empty list set at the end. */
  datatype Listing = Given(text: string) | Empty

  /** The exception the constructor raises: `AttributeError` on an attribute that
    * was never set, `ValueError` on a timestamp `strptime` refuses. */
  datatype InitError = AttributeFailure(attribute: string) | ValueFailure(attribute: string)

  /** The attributes of a `Permit`, as a value. */
  datatype State = State(
    eventid: Option<string>,
    startdatetime: Option<Stamp>,
    enddatetime: Option<Stamp>,
    parkingheld: Option<Parking>,
    borough: Option<string>,
    category: Option<string>,
    subcategoryname: Option<string>,
    zipcode_s: Option<string>,
    points: Option<Listing>,
    linestrings: Option<Listing>)

  // ---------------------------------------------------------------------------
  // The specification of each step, on values

  /** `setattr(self, key, value)` for a slot `key`. */
  function Assign(st: State, key: string, value: string): State
    requires key in SLOTS
  {
    if key == "eventid" then st.(eventid := Some(value))
    else if key == "startdatetime" then st.(startdatetime := Some(Text(value)))
    else if key == "enddatetime" then st.(enddatetime := Some(Text(value)))
    else if key == "parkingheld" then st.(parkingheld := Some(Held(value)))
    else if key == "borough" then st.(borough := Some(value))
    else if key == "category" then st.(category := Some(value))
    else if key == "subcategoryname" then st.(subcategoryname := Some(value))
    else if key == "zipcode_s" then st.(zipcode_s := Some(value))
    else if key == "points" then st.(points := Some(Given(value)))
    else st.(linestrings := Some(Given(value)))
  }

  /** The lower-cased value of a keyword argument, if it was passed. */
  function Arg(kwargs: map<string, string>, key: string): Option<string> {
    if key in kwargs then Some(Lower(kwargs[key])) else None
  }

  function AsText(o: Option<string>): Option<Stamp> {
    if o.Some? then Some(Text(o.value)) else None
  }

  function AsHeld(o: Option<string>): Option<Parking> {
    if o.Some? then Some(Held(o.value)) else None
  }

  function AsGiven(o: Option<string>): Option<Listing> {
    if o.Some? then Some(Given(o.value)) else None
  }

  /** The attributes after the loop over the keyword arguments. */
  function Loaded(kwargs: map<string, string>): State {
    State(Arg(kwargs, "eventid"), AsText(Arg(kwargs, "startdatetime")),
          AsText(Arg(kwargs, "enddatetime")), AsHeld(Arg(kwargs, "parkingheld")),
          Arg(kwargs, "borough"), Arg(kwargs, "category"), Arg(kwargs, "subcategoryname"),
          Arg(kwargs, "zipcode_s"), AsGiven(Arg(kwargs, "points")),
          AsGiven(Arg(kwargs, "linestrings")))
  }

  /** `_clean_street(street)` of the class: suffix, then direction, then ordinal. */
  function PermitStreet(street: string): string {
    OrdinalRep(AbbToFull(StandardizeSuffix(street)))
  }

  /** Python's string order: code point by code point, a proper prefix first. */
  predicate LexLe(a: string, b: string) {
    a == [] || (b != [] && (a[0] < b[0] || (a[0] == b[0] && LexLe(a[1..], b[1..]))))
  }

  /** `'New York'` for Manhattan, any other borough as it is. */
  function Locality(borough: string): string {
    if borough == "Manhattan" then "New York" else borough
  }

  /** `tuple(sorted([main, cross]) + [boro])`. */
  function MakePoint(main: string, cross: string, boro: string): Point {
    if LexLe(main, cross) then Point(main, cross, boro) else Point(cross, main, boro)
  }

  /** The fragment names a dead end. */
  predicate Dead(street: string) {
    exists k :: 0 <= k < |DEAD_MARKERS| && Contains(street, DEAD_MARKERS[k])
  }

  /** The crossing one fragment gives, or `None` when the loop passes over it. */
  function CrossingOf(street: string, borough: string): Option<Crossing> {
    if Dead(street) then None else Between(street, borough)
  }

  /** The crossing of "main Between c1 And c2", or `None` for any other shape. */
  function Between(street: string, borough: string): Option<Crossing> {
    var block := Split(street, " Between ");
    if |block| != 2 then None
    else
      var main := PermitStreet(block[0]);
      var cross := Split(block[1], " And ");
      if 1 + |cross| != 3 then None
      else
        var boro := Locality(borough);
        Some(Crossing(MakePoint(main, PermitStreet(cross[0]), boro),
                      MakePoint(main, PermitStreet(cross[1]), boro)))
  }

  /** The crossings of the fragments, in fragment order, skipped ones left out. */
  function CrossingsOf(fragments: seq<string>, borough: string): seq<Crossing> {
    Somes(Attempts(fragments, street => CrossingOf(street, borough)))
  }

  /** What each fragment gives, in fragment order. */
  function Attempts(fragments: seq<string>, attempt: string -> Option<Crossing>): seq<Option<Crossing>> {
    seq(|fragments|, i requires 0 <= i < |fragments| => attempt(fragments[i]))
  }

  /** The crossings found, in order. */
  function Somes(attempts: seq<Option<Crossing>>): seq<Crossing> {
    if attempts == [] then []
    else Somes(attempts[..|attempts| - 1]) + Found(attempts[|attempts| - 1])
  }

  /** The crossing, if there is one, as a list. */
  function Found(o: Option<Crossing>): seq<Crossing> {
    match o
    case None => []
    case Some(c) => [c]
  }

  /** `_get_datetime`: both texts are read before either is parsed; the start is
    * stored before the end is parsed. The error, if any, and the attributes after. */
  function Times(st: State): (Option<InitError>, State) {
    if !(st.startdatetime.Some? && st.startdatetime.value.Text?) then
      (Some(AttributeFailure("startdatetime")), st)
    else if !(st.enddatetime.Some? && st.enddatetime.value.Text?) then
      (Some(AttributeFailure("enddatetime")), st)
    else match CleanDatetime(st.startdatetime.value.text, 't')
      case None => (Some(ValueFailure("startdatetime")), st)
      case Some(start) =>
        var st1 := st.(startdatetime := Some(At(start)));
        match CleanDatetime(st.enddatetime.value.text, 't')
        case None => (Some(ValueFailure("enddatetime")), st1)
        case Some(end) => (None, st1.(enddatetime := Some(At(end))))
  }

  /** `Permit(**kwargs)`: the attributes of the new object, or the exception. */
  function Constructed(kwargs: map<string, string>): Result<State, InitError> {
    match Located(Loaded(kwargs))
    case Err(e) => Err(e)
    case Ok(st2) =>
      var (err, st3) := Times(st2);
      if err.Some? then Err(err.value)
      else Ok(st3.(points := Some(Empty), linestrings := Some(Empty)))
  }

  /** `_clean_address`, `_cap_boro` and `_get_intersections`, one after the other. */
  function Located(st: State): Result<State, InitError> {
    if !(st.parkingheld.Some? && st.parkingheld.value.Held?) then Err(AttributeFailure("parkingheld"))
    else if st.borough.None? then Err(AttributeFailure("borough"))
    else
      var boro := Capitalize(st.borough.value);
      var fragments := CapSplitAddresses(st.parkingheld.value.text);
      Ok(st.(parkingheld := Some(Crossings(CrossingsOf(fragments, boro))), borough := Some(boro)))
  }

  /** Every point of the crossings, `point1` before `point2`, crossing by crossing. */
  function AllPoints(list: seq<Crossing>): (r: seq<Point>)
    ensures |r| == 2 * |list|
  {
    if list == [] then []
    else AllPoints(list[..|list| - 1]) + [list[|list| - 1].point1, list[|list| - 1].point2]
  }

  /** No element occurs twice. */
  predicate NoDuplicates(xs: seq<Point>) {
    forall i, j :: 0 <= i < j < |xs| ==> xs[i] != xs[j]
  }

  /** `list(set(xs))`, listed in first-occurrence order. */
  function Distinct(xs: seq<Point>): (r: seq<Point>)
    ensures NoDuplicates(r)
    ensures forall x :: x in r <==> x in xs
    ensures |r| <= |xs|
  {
    if xs == [] then []
    else
      var d := Distinct(xs[..|xs| - 1]);
      var x := xs[|xs| - 1];
      assert forall y :: y in xs <==> y in xs[..|xs| - 1] || y == x by {
        assert xs == xs[..|xs| - 1] + [x];
      }
      if x in d then d else d + [x]
  }

  // ---------------------------------------------------------------------------
  // The class

  class Permit {
    var eventid: Option<string>
    var startdatetime: Option<Stamp>
    var enddatetime: Option<Stamp>
    var parkingheld: Option<Parking>
    var borough: Option<string>
    var category: Option<string>
    var subcategoryname: Option<string>
    var zipcode_s: Option<string>
    var points: Option<Listing>
    var linestrings: Option<Listing>

    /** The attributes, as a value. */
    function Fields(): State
      reads this
    {
      State(eventid, startdatetime, enddatetime, parkingheld, borough, category,
            subcategoryname, zipcode_s, points, linestrings)
    }

    /** The loop of `__init__`: every keyword argument named in `__slots__` sets that
      * attribute to its value, lower-cased; every other one is ignored. */
    constructor Init(kwargs: map<string, string>)
      ensures Fields() == Loaded(kwargs)
    {
      eventid, startdatetime, enddatetime, parkingheld, borough := None, None, None, None, None;
      category, subcategoryname, zipcode_s, points, linestrings := None, None, None, None, None;
      new;
      var remaining := kwargs.Keys;
      while remaining != {}
        invariant remaining <= kwargs.Keys
        invariant Fields() == Loaded(kwargs - remaining)
        decreases remaining
      {
        var key :| key in remaining;
        LoadedStep(kwargs, remaining, key);
        if key in SLOTS {
          SetAttr(key, kwargs[key]);
        }
        remaining := remaining - {key};
      }
      assert kwargs - {} == kwargs;
    }

    /** `setattr(self, key, value.lower())`. */
    method SetAttr(key: string, value: string)
      requires key in SLOTS
      modifies this
      ensures Fields() == Assign(old(Fields()), key, Lower(value))
    {
      var v := Lower(value);
      if key == "eventid" { eventid := Some(v); }
      else if key == "startdatetime" { startdatetime := Some(Text(v)); }
      else if key == "enddatetime" { enddatetime := Some(Text(v)); }
      else if key == "parkingheld" { parkingheld := Some(Held(v)); }
      else if key == "borough" { borough := Some(v); }
      else if key == "category" { category := Some(v); }
      else if key == "subcategoryname" { subcategoryname := Some(v); }
      else if key == "zipcode_s" { zipcode_s := Some(v); }
      else if key == "points" { points := Some(Given(v)); }
      else { linestrings := Some(Given(v)); }
    }

    /** `_clean_address`: the text becomes its capitalised fragments. Without the
      * attribute, the source raises; here `ok` is false and nothing changes. */
    method CleanAddress() returns (ok: bool)
      modifies this
      ensures ok <==> old(parkingheld).Some? && old(parkingheld).value.Held?
      ensures ok ==> Fields() == old(Fields()).(parkingheld := Some(Spots(CapSplitAddresses(old(parkingheld).value.text))))
      ensures !ok ==> Fields() == old(Fields())
    {
      if parkingheld.Some? && parkingheld.value.Held? {
        parkingheld := Some(Spots(CapSplitAddresses(parkingheld.value.text)));
        ok := true;
      } else {
        ok := false;
      }
    }

    /** `_cap_boro`: the borough is capitalised. */
    method CapBoro() returns (ok: bool)
      modifies this
      ensures ok <==> old(borough).Some?
      ensures ok ==> Fields() == old(Fields()).(borough := Some(Capitalize(old(borough).value)))
      ensures !ok ==> Fields() == old(Fields())
    {
      if borough.Some? {
        borough := Some(Capitalize(borough.value));
        ok := true;
      } else {
        ok := false;
      }
    }

    /** `_get_intersections`: the loop over the fragments, with its inner loop over the
      * dead-end markers; a fragment that fails a test is passed over. */
    method GetIntersections()
      requires parkingheld.Some? && parkingheld.value.Spots? && borough.Some?
      modifies this
      ensures Fields() == old(Fields()).(parkingheld := Some(Crossings(
                CrossingsOf(old(parkingheld).value.fragments, old(borough).value))))
    {
      var fragments := parkingheld.value.fragments;
      var b := borough.value;
      var list: seq<Crossing> := [];
      for i := 0 to |fragments|
        invariant list == CrossingsOf(fragments[..i], b)
        invariant Fields() == old(Fields())
      {
        var c := FragmentCrossing(fragments[i], b);
        if c.Some? {
          list := list + [c.value];
        }
        CrossingsOfStep(fragments, i, b);
      }
      assert fragments[..|fragments|] == fragments;
      parkingheld := Some(Crossings(list));
    }

    /** `_get_datetime`. */
    method GetDatetime() returns (err: Option<InitError>)
      modifies this
      ensures (err, Fields()) == Times(old(Fields()))
    {
      if !(startdatetime.Some? && startdatetime.value.Text?) {
        return Some(AttributeFailure("startdatetime"));
      }
      if !(enddatetime.Some? && enddatetime.value.Text?) {
        return Some(AttributeFailure("enddatetime"));
      }
      var sdt := StripTimestamp(startdatetime.value.text, 't');
      var edt := StripTimestamp(enddatetime.value.text, 't');
      var start := Strptime(sdt);
      if start.None? {
        return Some(ValueFailure("startdatetime"));
      }
      startdatetime := Some(At(start.value));
      var end := Strptime(edt);
      if end.None? {
        return Some(ValueFailure("enddatetime"));
      }
      enddatetime := Some(At(end.value));
      err := None;
    }

    /** `list_intersections`: every point of every crossing, each exactly once. The
      * order of a Python set is not modelled; only membership is promised. */
    method ListIntersections() returns (r: seq<Point>)
      requires parkingheld.Some? && parkingheld.value.Crossings?
      ensures NoDuplicates(r)
      ensures forall q :: q in r <==> exists c :: c in parkingheld.value.list && (q == c.point1 || q == c.point2)
      ensures |r| <= 2 * |parkingheld.value.list|
    {
      var list := parkingheld.value.list;
      var intersections: seq<Point> := [];
      for i := 0 to |list|
        invariant intersections == AllPoints(list[..i])
      {
        intersections := intersections + [list[i].point1];
        intersections := intersections + [list[i].point2];
        assert list[..i + 1][..i] == list[..i];
      }
      assert list[..|list|] == list;
      AllPointsMembers(list);
      r := Distinct(intersections);
    }
  }

  /** The body of the loop of `_get_intersections` for one fragment: the inner loop
    * over the dead-end markers, then the two splits and the two sorted points. */
  method FragmentCrossing(street: string, b: string) returns (c: Option<Crossing>)
    ensures c == CrossingOf(street, b)
  {
    var nullSt := false;
    for k := 0 to |DEAD_MARKERS|
      invariant nullSt <==> exists j :: 0 <= j < k && Contains(street, DEAD_MARKERS[j])
    {
      if Contains(street, DEAD_MARKERS[k]) {
        nullSt := true;
      }
    }
    assert nullSt == Dead(street);
    c := None;
    if !nullSt {
      var block := Split(street, " Between ");
      if |block| == 2 {
        var main := PermitStreet(block[0]);
        var cross := Split(block[1], " And ");
        var names := [main] + cross;
        if |names| == 3 {
          var boro := if b == "Manhattan" then "New York" else b;
          var p1 := MakePoint(main, PermitStreet(cross[0]), boro);
          var p2 := MakePoint(main, PermitStreet(cross[1]), boro);
          c := Some(Crossing(p1, p2));
        }
      }
    }
  }

  /** `Permit(**kwargs)`: the object with every step of `__init__` applied, or the
    * exception the first failing step raises. */
  method Create(kwargs: map<string, string>) returns (r: Result<Permit, InitError>)
    ensures r.Ok? <==> Constructed(kwargs).Ok?
    ensures r.Ok? ==> fresh(r.value) && r.value.Fields() == Constructed(kwargs).value
    ensures r.Err? ==> r.error == Constructed(kwargs).error
  {
    var p := new Permit.Init(kwargs);
    var ok := p.CleanAddress();
    if !ok {
      return Err(AttributeFailure("parkingheld"));
    }
    ok := p.CapBoro();
    if !ok {
      return Err(AttributeFailure("borough"));
    }
    p.GetIntersections();
    assert p.Fields() == Located(Loaded(kwargs)).value;
    var err := p.GetDatetime();
    if err.Some? {
      return Err(err.value);
    }
    p.points := Some(Empty);
    p.linestrings := Some(Empty);
    return Ok(p);
  }

  // ---------------------------------------------------------------------------
  // Lemmas

  /** One more keyword argument handled: a slot sets its attribute, anything else
    * changes nothing. */
  lemma LoadedStep(kwargs: map<string, string>, remaining: set<string>, key: string)
    requires key in remaining && remaining <= kwargs.Keys
    ensures key in SLOTS ==>
      Loaded(kwargs - (remaining - {key})) == Assign(Loaded(kwargs - remaining), key, Lower(kwargs[key]))
    ensures key !in SLOTS ==> Loaded(kwargs - (remaining - {key})) == Loaded(kwargs - remaining)
  {
    var before := kwargs - remaining;
    assert kwargs - (remaining - {key}) == before[key := kwargs[key]];
    LoadedUpdate(before, key, kwargs[key]);
  }

  /** Setting one keyword argument: a slot sets its attribute, anything else
    * changes nothing. */
  lemma LoadedUpdate(m: map<string, string>, key: string, v: string)
    ensures key in SLOTS ==> Loaded(m[key := v]) == Assign(Loaded(m), key, Lower(v))
    ensures key !in SLOTS ==> Loaded(m[key := v]) == Loaded(m)
  {
    var after := m[key := v];
    forall k | k != key
      ensures Arg(after, k) == Arg(m, k)
    {
    }
    assert Arg(after, key) == Some(Lower(v));
  }

  /** The members of `AllPoints` are the two points of each crossing. */
  lemma {:induction false} AllPointsMembers(list: seq<Crossing>)
    ensures forall q :: q in AllPoints(list) <==> exists c :: c in list && (q == c.point1 || q == c.point2)
  {
    if list != [] {
      var init, c := list[..|list| - 1], list[|list| - 1];
      AllPointsMembers(init);
      assert list == init + [c];
      forall q | q in AllPoints(list)
        ensures exists d :: d in list && (q == d.point1 || q == d.point2)
      {
        if q in AllPoints(init) {
          var d :| d in init && (q == d.point1 || q == d.point2);
          assert d in list;
        } else {
          assert c in list;
        }
      }
      forall q | exists d :: d in list && (q == d.point1 || q == d.point2)
        ensures q in AllPoints(list)
      {
        var d :| d in list && (q == d.point1 || q == d.point2);
        if d in init {
          assert q in AllPoints(init);
        }
      }
    }
  }

  /** Python's string order is total. */
  lemma {:induction false} LexTotal(a: string, b: string)
    ensures LexLe(a, b) || LexLe(b, a)
    decreases |a|
  {
    if a != [] && b != [] && a[0] == b[0] {
      LexTotal(a[1..], b[1..]);
    }
  }

  /** ... and antisymmetric: two strings each no greater than the other are equal. */
  lemma {:induction false} LexAntisymmetric(a: string, b: string)
    requires LexLe(a, b) && LexLe(b, a)
    ensures a == b
    decreases |a|
  {
    if a != [] {
      LexAntisymmetric(a[1..], b[1..]);
      assert a == [a[0]] + a[1..] && b == [b[0]] + b[1..];
    }
  }

  /** A point holds the two street names in ascending order, whichever was the main
    * street: the pair is a sorted permutation of the two names. */
  lemma MakePointSorted(main: string, cross: string, boro: string)
    ensures LexLe(MakePoint(main, cross, boro).first, MakePoint(main, cross, boro).second)
    ensures multiset{MakePoint(main, cross, boro).first, MakePoint(main, cross, boro).second}
         == multiset{main, cross}
    ensures MakePoint(main, cross, boro).locality == boro
    ensures MakePoint(main, cross, boro) == MakePoint(cross, main, boro)
  {
    LexTotal(main, cross);
    if LexLe(main, cross) && LexLe(cross, main) {
      LexAntisymmetric(main, cross);
    }
  }

  /** No point is ever placed in "Manhattan": that borough becomes "New York", and
    * every other borough is kept. */
  lemma LocalityNotManhattan(borough: string)
    ensures Locality(borough) != "Manhattan"
    ensures borough != "Manhattan" ==> Locality(borough) == borough
  {
  }

  /** A fragment that names a dead end, or has no single " Between ", gives no
    * crossing. */
  lemma CrossingRefused(street: string, borough: string)
    requires || Contains(street, "Dead Road") || Contains(street, "Dead End")
             || Contains(street, "Dead Rd") || !Contains(street, " Between ")
    ensures CrossingOf(street, borough) == None
  {
    if !Contains(street, " Between ") {
      SplitSingle(street, " Between ");
    } else if Contains(street, "Dead Road") {
      assert Contains(street, DEAD_MARKERS[0]);
    } else if Contains(street, "Dead End") {
      assert Contains(street, DEAD_MARKERS[1]);
    } else {
      assert Contains(street, DEAD_MARKERS[2]);
    }
  }

  /** A crossing comes from a fragment "main Between c1 And c2" with no dead-end
    * marker; its two points pair the cleaned main street with each cleaned cross
    * street, sorted, in the locality of the borough. */
  lemma CrossingParts(street: string, borough: string)
    requires CrossingOf(street, borough).Some?
    ensures forall k :: 0 <= k < |DEAD_MARKERS| ==> !Contains(street, DEAD_MARKERS[k])
    ensures exists main, c1, c2 ::
      && ThreeParts(street, " Between ", " And ", main, c1, c2)
      && CrossingOf(street, borough) == Some(Crossing(
           MakePoint(PermitStreet(main), PermitStreet(c1), Locality(borough)),
           MakePoint(PermitStreet(main), PermitStreet(c2), Locality(borough))))
  {
    SplitTwice(street, " Between ", " And ");
  }

  /** Conversely, a fragment that reads "main Between c1 And c2", with exactly those
    * separators and no dead-end marker, gives the crossing of the two sorted points. */
  lemma CrossingOfParts(street: string, borough: string, main: string, c1: string, c2: string)
    requires forall k :: 0 <= k < |DEAD_MARKERS| ==> !Contains(street, DEAD_MARKERS[k])
    requires ThreeParts(street, " Between ", " And ", main, c1, c2)
    ensures CrossingOf(street, borough) == Some(Crossing(
      MakePoint(PermitStreet(main), PermitStreet(c1), Locality(borough)),
      MakePoint(PermitStreet(main), PermitStreet(c2), Locality(borough))))
  {
    ThreePartsSplit(street, " Between ", " And ", main, c1, c2);
  }

  /** The crossings of two runs of fragments are the crossings of each, in order. */
  lemma CrossingsOfAppend(f: seq<string>, g: seq<string>, borough: string)
    ensures CrossingsOf(f + g, borough) == CrossingsOf(f, borough) + CrossingsOf(g, borough)
  {
    var attempt := street => CrossingOf(street, borough);
    AttemptsAppend(f, g, attempt);
    SomesAppend(Attempts(f, attempt), Attempts(g, attempt));
  }

  lemma AttemptsAppend(f: seq<string>, g: seq<string>, attempt: string -> Option<Crossing>)
    ensures Attempts(f + g, attempt) == Attempts(f, attempt) + Attempts(g, attempt)
  {
    var a, b := Attempts(f, attempt), Attempts(g, attempt);
    forall i | 0 <= i < |f + g|
      ensures Attempts(f + g, attempt)[i] == (a + b)[i]
    {
      if i < |f| {
        assert (f + g)[i] == f[i];
      } else {
        assert (f + g)[i] == g[i - |f|];
      }
    }
  }

  /** One more fragment adds its crossing, if it has one. */
  lemma CrossingsOfStep(f: seq<string>, i: nat, borough: string)
    requires i < |f|
    ensures CrossingsOf(f[..i + 1], borough) == CrossingsOf(f[..i], borough) + Found(CrossingOf(f[i], borough))
  {
    var attempt := street => CrossingOf(street, borough);
    var a := Attempts(f[..i + 1], attempt);
    assert a[..i] == Attempts(f[..i], attempt);
  }

  lemma {:induction false} SomesAppend(x: seq<Option<Crossing>>, y: seq<Option<Crossing>>)
    ensures Somes(x + y) == Somes(x) + Somes(y)
    decreases |y|
  {
    if y == [] {
      assert x + y == x;
    } else {
      var init, last := y[..|y| - 1], y[|y| - 1];
      SomesAppend(x, init);
      assert (x + y)[..|x + y| - 1] == x + init;
      assert (x + y)[|x + y| - 1] == last;
      calc {
        Somes(x + y);
        Somes(x + init) + Found(last);
        Somes(x) + (Somes(init) + Found(last));
      }
    }
  }

  /** There are never more crossings than fragments, and each crossing is the
    * crossing of one fragment. */
  lemma CrossingsOfMembers(f: seq<string>, borough: string)
    ensures |CrossingsOf(f, borough)| <= |f|
    ensures forall c :: c in CrossingsOf(f, borough) <==>
              exists i :: 0 <= i < |f| && CrossingOf(f[i], borough) == Some(c)
  {
    var a := Attempts(f, street => CrossingOf(street, borough));
    SomesMembers(a);
    assert forall i :: 0 <= i < |f| ==> a[i] == CrossingOf(f[i], borough);
    assert forall c :: Some(c) in a <==> exists i :: 0 <= i < |a| && a[i] == Some(c);
  }

  lemma {:induction false} SomesMembers(attempts: seq<Option<Crossing>>)
    ensures |Somes(attempts)| <= |attempts|
    ensures forall c :: c in Somes(attempts) <==> Some(c) in attempts
  {
    if attempts != [] {
      var init, last := attempts[..|attempts| - 1], attempts[|attempts| - 1];
      SomesMembers(init);
      assert attempts == init + [last];
    }
  }

  /** A keyword argument outside `__slots__` makes no difference to the permit. */
  lemma ConstructedIgnores(kwargs: map<string, string>, key: string, value: string)
    requires key !in SLOTS
    ensures Constructed(kwargs[key := value]) == Constructed(kwargs)
  {
    LoadedUpdate(kwargs, key, value);
  }

  /** `Permit(**kwargs)` raises exactly when one of the four attributes it needs was
    * not passed or a timestamp does not parse, and the exception names the first
    * step that fails. */
  lemma ConstructedFails(kwargs: map<string, string>)
    ensures "parkingheld" !in kwargs ==> Constructed(kwargs) == Err(AttributeFailure("parkingheld"))
    ensures "parkingheld" in kwargs && "borough" !in kwargs ==>
              Constructed(kwargs) == Err(AttributeFailure("borough"))
    ensures "parkingheld" in kwargs && "borough" in kwargs && "startdatetime" !in kwargs ==>
              Constructed(kwargs) == Err(AttributeFailure("startdatetime"))
    ensures "parkingheld" in kwargs && "borough" in kwargs && "startdatetime" in kwargs
            && "enddatetime" !in kwargs ==>
              Constructed(kwargs) == Err(AttributeFailure("enddatetime"))
    ensures "parkingheld" in kwargs && "borough" in kwargs && "startdatetime" in kwargs
            && "enddatetime" in kwargs ==>
              Constructed(kwargs) ==
                if CleanDatetime(Lower(kwargs["startdatetime"]), 't').None? then
                  Err(ValueFailure("startdatetime"))
                else if CleanDatetime(Lower(kwargs["enddatetime"]), 't').None? then
                  Err(ValueFailure("enddatetime"))
                else Constructed(kwargs)
    ensures Constructed(kwargs).Ok? <==>
              && "parkingheld" in kwargs && "borough" in kwargs
              && "startdatetime" in kwargs && "enddatetime" in kwargs
              && CleanDatetime(Lower(kwargs["startdatetime"]), 't').Some?
              && CleanDatetime(Lower(kwargs["enddatetime"]), 't').Some?
  {
  }

  /** A permit built without error keeps every slot it was given, lower-cased, with
    * the borough then capitalised, and ends with `points` and `linestrings` empty. */
  lemma ConstructedFields(kwargs: map<string, string>)
    requires Constructed(kwargs).Ok?
    ensures var st := Constructed(kwargs).value;
      && st.eventid == Arg(kwargs, "eventid")
      && st.category == Arg(kwargs, "category")
      && st.subcategoryname == Arg(kwargs, "subcategoryname")
      && st.zipcode_s == Arg(kwargs, "zipcode_s")
      && st.borough == Some(Capitalize(Lower(kwargs["borough"])))
      && st.points == Some(Empty) && st.linestrings == Some(Empty)
  {
    TimesKeeps(Located(Loaded(kwargs)).value);
  }

  /** `_get_datetime` changes nothing but the two timestamps. */
  lemma TimesKeeps(st: State)
    ensures var st3 := Times(st).1;
      st3 == st.(startdatetime := st3.startdatetime, enddatetime := st3.enddatetime)
  {
  }

  /** A permit built without error holds the crossings of the capitalised fragments
    * of its parking text. */
  lemma ConstructedCrossings(kwargs: map<string, string>)
    requires Constructed(kwargs).Ok?
    ensures Constructed(kwargs).value.parkingheld
         == Some(Crossings(CrossingsOf(CapSplitAddresses(Lower(kwargs["parkingheld"])),
                                       Capitalize(Lower(kwargs["borough"])))))
  {
    var st2 := Located(Loaded(kwargs)).value;
    assert st2.parkingheld == Some(Crossings(CrossingsOf(CapSplitAddresses(Lower(kwargs["parkingheld"])),
                                                         Capitalize(Lower(kwargs["borough"])))));
    TimesKeeps(st2);
  }

  /** A permit built without error holds two real dates, parsed from its two
    * timestamps. */
  lemma ConstructedDates(kwargs: map<string, string>)
    requires Constructed(kwargs).Ok?
    ensures "startdatetime" in kwargs && "enddatetime" in kwargs
    ensures var st := Constructed(kwargs).value;
      && st.startdatetime.Some? && st.startdatetime.value.At?
      && st.enddatetime.Some? && st.enddatetime.value.At?
      && CleanDatetime(Lower(kwargs["startdatetime"]), 't') == Some(st.startdatetime.value.time)
      && CleanDatetime(Lower(kwargs["enddatetime"]), 't') == Some(st.enddatetime.value.time)
      && Valid(st.startdatetime.value.time) && Valid(st.enddatetime.value.time)
  {
    var st2 := Located(Loaded(kwargs)).value;
    TimesParsed(st2);
  }

  /** `_get_datetime` without error: both timestamps were texts, and both now hold
    * what `_clean_datetime` reads from them. */
  lemma TimesParsed(st: State)
    requires Times(st).0.None?
    ensures st.startdatetime.Some? && st.startdatetime.value.Text?
    ensures st.enddatetime.Some? && st.enddatetime.value.Text?
    ensures var st3 := Times(st).1;
      && st3.startdatetime.Some? && st3.startdatetime.value.At?
      && st3.enddatetime.Some? && st3.enddatetime.value.At?
      && CleanDatetime(st.startdatetime.value.text, 't') == Some(st3.startdatetime.value.time)
      && CleanDatetime(st.enddatetime.value.text, 't') == Some(st3.enddatetime.value.time)
  {
  }

  /** The feed's timestamp "YYYY-MM-DDTHH:MM:SS.fff", lower-cased by the constructor,
    * still reads back as the date and time it spells. */
  lemma PermitReadsWire(d: DateTime, frac: string)
    requires Fits(d)
    ensures CleanDatetime(Lower(DatePart(d) + "T" + TimePart(d) + "." + frac), 't')
         == if Valid(d) then Some(d) else None
  {
    var x, t := DatePart(d), TimePart(d);
    var s := x + "T" + t + "." + frac;
    var u := x + "t" + t + "." + Lower(frac);
    forall k | 0 <= k < |x| ensures !IsUpper(x[k]) {
      NoMarkInParts(d, 'A');
    }
    forall k | 0 <= k < |t| ensures !IsUpper(t[k]) {
      NoMarkInParts(d, 'A');
    }
    assert Lower(s) == u by {
      forall k | 0 <= k < |s| ensures Lower(s)[k] == u[k] {
        if k < |x| {
          assert s[k] == x[k];
        } else if k == |x| {
        } else if k < |x| + 1 + |t| {
          assert s[k] == t[k - |x| - 1];
        } else if k > |x| + 1 + |t| {
          assert s[k] == frac[k - |x| - 2 - |t|];
        }
      }
    }
    CleanDatetimeWire(d, 't', Lower(frac));
  }
}
