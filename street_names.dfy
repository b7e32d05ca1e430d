/** The street-name cleaner of the film-permit pipeline, regex version. A "parking held"
  * field is cut into fragments; each fragment "A between B and C" gives a block of
  * three street names; each name is lower-cased, has its abbreviations expanded, its
  * directions spelled out, its first number made ordinal, and a few names replaced by
  * their official form. Regex `.` matches any character except a newline, and `$`
  * matches at the end or just before a final newline; both are modelled as such. */
module StreetNames {
  import opened Wrappers
  import opened Strings
  import opened Ordinals

  // ---------------------------------------------------------------------------
  // `_split_addresses`

  /** `[word.lower() for word in ws]`. */
  function LowerWords(ws: seq<string>): seq<string> {
    seq(|ws|, k requires 0 <= k < |ws| => Lower(ws[k]))
  }

  /** One fragment: `' '.join([word.lower() for word in piece.split()])`. */
  function Fragment(piece: string): string {
    Join(LowerWords(Words(piece)), " ")
  }

  /** `_split_addresses(s)`: the pieces between the `', '` separators, each one
    * lower-cased and with its whitespace collapsed. */
  function SplitAddresses(s: string): (r: seq<string>)
    ensures |r| == |Split(s, ", ")|
  {
    var pieces := Split(s, ", ");
    seq(|pieces|, k requires 0 <= k < |pieces| => Fragment(pieces[k]))
  }

  /** Lower-casing keeps a word a word. */
  lemma LowerWord(w: string)
    requires w != [] && NoSpace(w)
    ensures Lower(w) != [] && NoSpace(Lower(w))
  {
    forall k | 0 <= k < |w|
      ensures !IsSpace(Lower(w)[k])
    {
      assert !IsSpace(w[k]);
    }
  }

  /** A fragment is trimmed, single-spaced and free of capitals, and its words are
    * exactly the piece's words, lower-cased, in order. */
  lemma FragmentShape(piece: string)
    ensures SingleSpaced(Fragment(piece))
    ensures All(Fragment(piece), NotUpper)
    ensures Words(Fragment(piece)) == LowerWords(Words(piece))
  {
    var ws := Words(piece);
    var lws := LowerWords(ws);
    forall k | 0 <= k < |lws|
      ensures lws[k] != [] && NoSpace(lws[k]) && All(lws[k], NotUpper)
    {
      LowerWord(ws[k]);
      LowerNoUpper(ws[k]);
    }
    WordsOfJoin(lws);
    JoinSingleSpaced(lws);
    JoinKeeps(lws, " ", NotUpper);
  }

  /** `_split_addresses` gives one fragment per `', '`-separated piece, in order, and
    * each fragment is the piece's words, lower-cased and joined by single spaces. */
  lemma SplitAddressesShape(s: string)
    ensures var r := SplitAddresses(s);
      forall k :: 0 <= k < |r| ==>
        && SingleSpaced(r[k])
        && All(r[k], NotUpper)
        && Words(r[k]) == LowerWords(Words(Split(s, ", ")[k]))
  {
    var r := SplitAddresses(s);
    forall k | 0 <= k < |r|
      ensures SingleSpaced(r[k]) && All(r[k], NotUpper)
      ensures Words(r[k]) == LowerWords(Words(Split(s, ", ")[k]))
    {
      FragmentShape(Split(s, ", ")[k]);
    }
  }

  // ---------------------------------------------------------------------------
  // `_standardize_street`

  /** `re.sub(pat + '$', rep, s)` for a literal `pat` without newlines: `$` matches at
    * the very end, or just before a final newline, and only one of the two can hold. */
  function SubAtEnd(s: string, pat: string, rep: string): string {
    if EndsWith(s, pat) then s[..|s| - |pat|] + rep
    else if EndsWith(s, pat + "\n") then s[..|s| - |pat| - 1] + rep + "\n"
    else s
  }

  /** `ABB_DICT`, in its insertion order. */
  const ABBREVIATIONS: seq<(string, string)> := [
    ("st", "street"), ("ave", "avenue"), ("ct", "court"), ("blvd", "boulevard"),
    ("sq", "square"), ("rd", "road"), ("ln", "lane"), ("expy", "expressway"),
    ("pkwy", "parkway"), ("pl", "place"), ("dr", "drive")
  ]

  /** The four substitutions of one table entry: `' abb'` and `' abb.'` at the end,
    * then every `' abb '` and every `' abb. '`. */
  function ExpandOne(s: string, abb: string, full: string): string {
    var s1 := SubAtEnd(s, " " + abb, " " + full);
    var s2 := SubAtEnd(s1, " " + abb + ".", " " + full);
    var s3 := Replace(s2, " " + abb + " ", " " + full + " ");
    Replace(s3, " " + abb + ". ", " " + full + " ")
  }

  /** The first `n` entries of the table, applied in order. */
  function ExpandAll(s: string, n: nat): string
    requires n <= |ABBREVIATIONS|
  {
    if n == 0 then s
    else ExpandOne(ExpandAll(s, n - 1), ABBREVIATIONS[n - 1].0, ABBREVIATIONS[n - 1].1)
  }

  /** The prefix rules `^b `, `^st `, `^st.`, `^mt|^mt.` and `^ft|^ft.`. The `.` of
    * `^st.` is any character but a newline, and `^mt` (`^ft`) wins its alternation,
    * so the `^mt.` (`^ft.`) branch never applies. */
  function Prefixes(s: string): string {
    var s1 := if StartsWith(s, "b ") then "beach " + s[2..] else s;
    var s2 := if StartsWith(s1, "st ") then "saint " + s1[3..] else s1;
    var s3 := if |s2| >= 3 && s2[..2] == "st" && s2[2] != '\n' then "saint" + s2[3..] else s2;
    var s4 := if StartsWith(s3, "mt") then "mount" + s3[2..] else s3;
    if StartsWith(s4, "ft") then "fort" + s4[2..] else s4
  }

  /** The ordinal words rewritten to numerals, in the order they are rewritten. */
  const ORDINAL_WORDS: seq<(string, string)> := [
    ("first", "1st"), ("second", "2nd"), ("third", "3rd"), ("fourth", "4th"),
    ("fifth", "5th"), ("sixth", "6th"), ("seventh", "7th"), ("eighth", "8th"),
    ("ninth", "9th"), ("tenth", "10th"), ("eleventh", "11th"), ("twelfth", "12th")
  ]

  /** The first `n` ordinal words, each replaced wherever it occurs. */
  function OrdinalWords(s: string, n: nat): string
    requires n <= |ORDINAL_WORDS|
  {
    if n == 0 then s
    else Replace(OrdinalWords(s, n - 1), ORDINAL_WORDS[n - 1].0, ORDINAL_WORDS[n - 1].1)
  }

  /** `_standardize_street(street)`. */
  function Standardized(street: string): string {
    var expanded := ExpandAll(street, |ABBREVIATIONS|);
    OrdinalWords(Prefixes(Replace(expanded, "'", "")), |ORDINAL_WORDS|)
  }

  /** `_standardize_street`, step by step: the loop over the table, the apostrophes,
    * the prefixes and the ordinal words. */
  method StandardizeStreet(street: string) returns (r: string)
    ensures r == Standardized(street)
  {
    r := street;
    for i := 0 to |ABBREVIATIONS|
      invariant r == ExpandAll(street, i)
    {
      var (abb, full) := ABBREVIATIONS[i];
      r := SubAtEnd(r, " " + abb, " " + full);
      r := SubAtEnd(r, " " + abb + ".", " " + full);
      r := Replace(r, " " + abb + " ", " " + full + " ");
      r := Replace(r, " " + abb + ". ", " " + full + " ");
    }
    r := Replace(r, "'", "");
    r := Prefixes(r);
    r := OrdinalWords(r, |ORDINAL_WORDS|);
  }

  predicate NoQuote(c: char) { c != '\'' }

  /** A standardized name holds no apostrophe: they are all removed, and no later
    * rewrite brings one back. */
  lemma StandardizedUnquoted(street: string)
    ensures forall k :: 0 <= k < |Standardized(street)| ==> Standardized(street)[k] != '\''
  {
    var e := ExpandAll(street, |ABBREVIATIONS|);
    assert "'" == ['\''];
    RemoveChar(e, '\'');
    var r := Replace(e, "'", "");
    assert All(r, NoQuote);
    PrefixesUnquoted(r);
    OrdinalWordsUnquoted(Prefixes(r), |ORDINAL_WORDS|);
  }

  lemma PrefixesUnquoted(s: string)
    requires All(s, NoQuote)
    ensures All(Prefixes(s), NoQuote)
  {
    var s1 := if StartsWith(s, "b ") then "beach " + s[2..] else s;
    if StartsWith(s, "b ") { SplicedUnquoted("beach ", s, 2); }
    var s2 := if StartsWith(s1, "st ") then "saint " + s1[3..] else s1;
    if StartsWith(s1, "st ") { SplicedUnquoted("saint ", s1, 3); }
    var s3 := if |s2| >= 3 && s2[..2] == "st" && s2[2] != '\n' then "saint" + s2[3..] else s2;
    if |s2| >= 3 && s2[..2] == "st" && s2[2] != '\n' { SplicedUnquoted("saint", s2, 3); }
    var s4 := if StartsWith(s3, "mt") then "mount" + s3[2..] else s3;
    if StartsWith(s3, "mt") { SplicedUnquoted("mount", s3, 2); }
    if StartsWith(s4, "ft") { SplicedUnquoted("fort", s4, 2); }
  }

  lemma SplicedUnquoted(word: string, s: string, j: nat)
    requires All(word, NoQuote) && All(s, NoQuote) && j <= |s|
    ensures All(word + s[j..], NoQuote)
  {
    forall k | 0 <= k < |word + s[j..]|
      ensures NoQuote((word + s[j..])[k])
    {
      if k >= |word| {
        assert (word + s[j..])[k] == s[j + k - |word|];
      }
    }
  }

  lemma {:induction false} OrdinalWordsUnquoted(s: string, n: nat)
    requires n <= |ORDINAL_WORDS| && All(s, NoQuote)
    ensures All(OrdinalWords(s, n), NoQuote)
  {
    if n > 0 {
      OrdinalWordsUnquoted(s, n - 1);
      var (word, numeral) := ORDINAL_WORDS[n - 1];
      assert All(numeral, NoQuote);
      ReplaceKeeps(OrdinalWords(s, n - 1), word, numeral, NoQuote);
    }
  }

  // ---------------------------------------------------------------------------
  // `_abb_replace`

  /** The word that replaces the direction letter `c`. */
  function DirectionWord(c: char): string {
    match c
    case 'e' => "east "
    case 'w' => "west "
    case 'n' => "north "
    case _ => "south "
  }

  /** `^c ` or `^c. ` at the start of the street: the length matched. */
  function AnchoredMatch(s: string, c: char): (r: Option<nat>)
    ensures r.Some? ==> 2 <= r.value <= |s|
  {
    if |s| >= 2 && s[0] == c && s[1] == ' ' then Some(2)
    else if |s| >= 3 && s[0] == c && s[1] != '\n' && s[2] == ' ' then Some(3)
    else None
  }

  /** `c(?=[0-9])` or `c.(?=[0-9])` at the start of `t`: the length matched. */
  function FloatingMatch(t: string, c: char): (r: Option<nat>)
    ensures r.Some? ==> 1 <= r.value < |t|
  {
    if t == [] || t[0] != c then None
    else if |t| > 1 && IsDigit(t[1]) then Some(1)
    else if |t| > 2 && t[1] != '\n' && IsDigit(t[2]) then Some(2)
    else None
  }

  /** `re.sub` past the start: every floating match becomes `word`, and scanning
    * resumes right after it; the lookahead reads the original text. */
  function FloatScan(t: string, c: char, word: string): string
    decreases |t|
  {
    if t == [] then []
    else match FloatingMatch(t, c)
      case Some(n) => word + FloatScan(t[n..], c, word)
      case None => [t[0]] + FloatScan(t[1..], c, word)
  }

  /** One line of `_abb_replace`: the alternatives `^c `, `^c. `, `c(?=[0-9])`,
    * `c.(?=[0-9])`, tried in that order, with `DirectionWord(c)` as replacement. */
  function Pass(s: string, c: char): string {
    match AnchoredMatch(s, c)
    case Some(n) => DirectionWord(c) + FloatScan(s[n..], c, DirectionWord(c))
    case None => FloatScan(s, c, DirectionWord(c))
  }

  /** `_abb_replace(street)`: the passes for east, west, north and south, in order. */
  function AbbReplace(street: string): string {
    Pass(Pass(Pass(Pass(street, 'e'), 'w'), 'n'), 's')
  }

  /** No floating match for `c` starts anywhere in `t`. */
  predicate Quiet(t: string, c: char) {
    t == [] || (FloatingMatch(t, c).None? && Quiet(t[1..], c))
  }

  /** No direction letter is followed by a digit, directly or after one character. */
  predicate QuietAll(t: string) {
    Quiet(t, 'e') && Quiet(t, 'w') && Quiet(t, 'n') && Quiet(t, 's')
  }

  /** `t` does not contain `c`, checked one character at a time. */
  predicate Lacks(t: string, c: char) {
    t == [] || (t[0] != c && Lacks(t[1..], c))
  }

  lemma {:induction false} FloatScanQuiet(t: string, c: char, word: string)
    requires Quiet(t, c)
    ensures FloatScan(t, c, word) == t
    decreases |t|
  {
    if t != [] {
      FloatScanQuiet(t[1..], c, word);
    }
  }

  lemma {:induction false} QuietLacks(a: string, b: string, c: char)
    requires Lacks(a, c) && Quiet(b, c)
    ensures Quiet(a + b, c)
    decreases |a|
  {
    if a == [] {
      assert a + b == b;
    } else {
      QuietLacks(a[1..], b, c);
      var t := a + b;
      assert t[0] == a[0] && t[1..] == a[1..] + b;
      assert FloatingMatch(t, c).None?;
      assert Quiet(t[1..], c);
    }
  }

  /** A pass leaves a string alone when it neither starts with the anchored
    * abbreviation nor holds a floating one. */
  lemma PassQuiet(s: string, c: char)
    requires AnchoredMatch(s, c).None? && Quiet(s, c)
    ensures Pass(s, c) == s
  {
    FloatScanQuiet(s, c, DirectionWord(c));
  }

  /** A pass turns a leading `c ` into the direction word. */
  lemma PassLeading(c: char, rest: string)
    requires Quiet(rest, c)
    ensures Pass([c, ' '] + rest, c) == DirectionWord(c) + rest
  {
    assert ([c, ' '] + rest)[2..] == rest;
    FloatScanQuiet(rest, c, DirectionWord(c));
  }

  /** A pass turns a `c` glued to a number into the direction word. */
  lemma PassAttached(c: char, rest: string)
    requires rest != [] && IsDigit(rest[0]) && (|rest| > 1 ==> rest[1] != ' ')
    requires Quiet(rest, c)
    ensures Pass([c] + rest, c) == DirectionWord(c) + rest
  {
    var s := [c] + rest;
    assert s[1..] == rest;
    assert FloatingMatch(s, c) == Some(1);
    FloatScanQuiet(rest, c, DirectionWord(c));
  }

  /** "st " followed by a quiet rest is quiet for every direction letter. */
  lemma StQuiet(rest: string)
    requires QuietAll(rest)
    ensures QuietAll("st " + rest)
  {
    QuietLacks("t ", rest, 'e');
    QuietLacks("t ", rest, 'w');
    QuietLacks("t ", rest, 'n');
    QuietLacks("t ", rest, 's');
    assert ("st " + rest)[1..] == "t " + rest;
  }

  /** The passes after `d`'s leave the spelled-out direction alone: the letters of
    * the direction words are never followed by a digit within two characters. */
  lemma OtherPasses(d: char, rest: string)
    requires d in "ewn" && QuietAll(rest)
    ensures var s := DirectionWord(d) + rest;
      d == 'e' ==> Pass(Pass(Pass(s, 'w'), 'n'), 's') == s
    ensures var s := DirectionWord(d) + rest;
      d == 'w' ==> Pass(Pass(s, 'n'), 's') == s
    ensures var s := DirectionWord(d) + rest;
      d == 'n' ==> Pass(s, 's') == s
  {
    if d == 'e' || d == 'w' {
      StQuiet(rest);
      var head := if d == 'e' then "ea" else "we";
      assert DirectionWord(d) + rest == head + ("st " + rest);
      if d == 'e' {
        QuietLacks(head, "st " + rest, 'w');
        PassQuiet(head + ("st " + rest), 'w');
      }
      QuietLacks(head, "st " + rest, 'n');
      QuietLacks(head, "st " + rest, 's');
      PassQuiet(head + ("st " + rest), 'n');
      PassQuiet(head + ("st " + rest), 's');
    } else {
      QuietLacks("north ", rest, 's');
      PassQuiet("north " + rest, 's');
    }
  }

  /** The passes before `d`'s leave a string starting with `d` alone. */
  lemma EarlierPasses(d: char, u: string)
    requires d in "ewns" && QuietAll(u)
    ensures var s := [d] + u;
      && (d == 'w' ==> Pass(s, 'e') == s)
      && (d == 'n' ==> Pass(Pass(s, 'e'), 'w') == s)
      && (d == 's' ==> Pass(Pass(Pass(s, 'e'), 'w'), 'n') == s)
  {
    var s := [d] + u;
    if d != 'e' {
      QuietLacks([d], u, 'e');
      PassQuiet(s, 'e');
    }
    if d == 'n' || d == 's' {
      QuietLacks([d], u, 'w');
      PassQuiet(s, 'w');
    }
    if d == 's' {
      QuietLacks([d], u, 'n');
      PassQuiet(s, 'n');
    }
  }

  /** `_abb_replace` turns a leading direction abbreviation (`e `, `w `, `n `, `s `)
    * into the direction's name, and leaves a rest without a direction letter before
    * a digit as it is. */
  lemma AbbReplaceLeading(d: char, rest: string)
    requires d in "ewns" && QuietAll(rest)
    ensures AbbReplace([d, ' '] + rest) == DirectionWord(d) + rest
  {
    QuietLacks(" ", rest, 'e');
    QuietLacks(" ", rest, 'w');
    QuietLacks(" ", rest, 'n');
    QuietLacks(" ", rest, 's');
    assert [d, ' '] + rest == [d] + (" " + rest);
    EarlierPasses(d, " " + rest);
    PassLeading(d, rest);
    if d != 's' {
      OtherPasses(d, rest);
    }
  }

  /** A direction letter glued to a number, as in "e86", is spelled out too. When
    * the number has a single digit and a space follows, the anchored `^e. `
    * alternative wins instead and swallows the digit, so that case is excluded. */
  lemma AbbReplaceAttached(d: char, rest: string)
    requires d in "ewns" && QuietAll(rest)
    requires rest != [] && IsDigit(rest[0]) && (|rest| > 1 ==> rest[1] != ' ')
    ensures AbbReplace([d] + rest) == DirectionWord(d) + rest
  {
    EarlierPasses(d, rest);
    PassAttached(d, rest);
    if d != 's' {
      OtherPasses(d, rest);
    }
  }

  /** None of the four passes has an anchored match. */
  predicate Unanchored(s: string) {
    && AnchoredMatch(s, 'e').None? && AnchoredMatch(s, 'w').None?
    && AnchoredMatch(s, 'n').None? && AnchoredMatch(s, 's').None?
  }

  /** `_abb_replace` leaves alone a street with no abbreviated direction. */
  lemma AbbReplaceQuiet(s: string)
    requires QuietAll(s) && Unanchored(s)
    ensures AbbReplace(s) == s
  {
    PassQuiet(s, 'e');
    PassQuiet(s, 'w');
    PassQuiet(s, 'n');
    PassQuiet(s, 's');
  }

  /** A spelled-out direction followed by a quiet rest has no abbreviated direction. */
  lemma SpelledQuiet(d: char, rest: string)
    requires d in "ewns" && QuietAll(rest)
    ensures QuietAll(DirectionWord(d) + rest) && Unanchored(DirectionWord(d) + rest)
  {
    if d == 'e' { EastQuiet(rest); }
    else if d == 'w' { WestQuiet(rest); }
    else if d == 'n' { NorthQuiet(rest); }
    else { SouthQuiet(rest); }
  }

  lemma EastQuiet(rest: string)
    requires QuietAll(rest)
    ensures QuietAll("east " + rest)
  {
    StQuiet(rest);
    var st := "st " + rest;
    assert "east " + rest == "e" + ("ast " + rest);
    QuietLacks("ast ", rest, 'e');
    QuietLacks("east ", rest, 'w');
    QuietLacks("east ", rest, 'n');
    assert "east " + rest == "ea" + st;
    QuietLacks("ea", st, 's');
  }

  lemma WestQuiet(rest: string)
    requires QuietAll(rest)
    ensures QuietAll("west " + rest)
  {
    StQuiet(rest);
    var st := "st " + rest;
    var est := "est " + rest;
    assert est == "e" + st && est[1..] == st;
    assert Quiet(est, 'e');
    assert "west " + rest == "w" + est;
    QuietLacks("w", est, 'e');
    QuietLacks("est ", rest, 'w');
    QuietLacks("west ", rest, 'n');
    assert "west " + rest == "we" + st;
    QuietLacks("we", st, 's');
  }

  lemma NorthQuiet(rest: string)
    requires QuietAll(rest)
    ensures QuietAll("north " + rest)
  {
    assert "north " + rest == "n" + ("orth " + rest);
    QuietLacks("orth ", rest, 'n');
    QuietLacks("north ", rest, 'e');
    QuietLacks("north ", rest, 'w');
    QuietLacks("north ", rest, 's');
  }

  lemma SouthQuiet(rest: string)
    requires QuietAll(rest)
    ensures QuietAll("south " + rest)
  {
    assert "south " + rest == "s" + ("outh " + rest);
    QuietLacks("outh ", rest, 's');
    QuietLacks("south ", rest, 'e');
    QuietLacks("south ", rest, 'w');
    QuietLacks("south ", rest, 'n');
  }

  /** Spelling out a leading direction is final: a second `_abb_replace` changes
    * nothing. */
  lemma AbbReplaceSettles(d: char, rest: string)
    requires d in "ewns" && QuietAll(rest)
    ensures AbbReplace(AbbReplace([d, ' '] + rest)) == AbbReplace([d, ' '] + rest)
  {
    AbbReplaceLeading(d, rest);
    SpelledQuiet(d, rest);
    AbbReplaceQuiet(DirectionWord(d) + rest);
  }

  // ---------------------------------------------------------------------------
  // What the table and the prefix rules do to a name

  /** A text without `t` holds no longer text starting with `t`, and does not end with one. */
  lemma LongerAbsent(s: string, t: string, u: string)
    requires !Contains(s, t)
    ensures !Contains(s, t + u) && !EndsWith(s, t + u)
  {
    var tu := t + u;
    forall i | 0 <= i <= |s|
      ensures !OccursAt(s, tu, i)
    {
      if i + |tu| <= |s| {
        assert !OccursAt(s, t, i);
        assert s[i..i + |tu|][..|t|] == s[i..i + |t|];
        assert tu[..|t|] == t;
      }
    }
    if |tu| <= |s| {
      assert !OccursAt(s, tu, |s| - |tu|);
    }
  }

  /** A name in which the abbreviation never follows a space is left alone by its entry. */
  lemma ExpandOneAbsent(s: string, abb: string, full: string)
    requires !Contains(s, " " + abb)
    ensures ExpandOne(s, abb, full) == s
  {
    var a := " " + abb;
    LongerAbsent(s, a, []);
    assert a + [] == a;
    LongerAbsent(s, a, "\n");
    LongerAbsent(s, a, ".");
    LongerAbsent(s, a, ".\n");
    assert a + "." + "\n" == a + ".\n";
    LongerAbsent(s, a, " ");
    LongerAbsent(s, a, ". ");
    assert a + "." + " " == a + ". ";
    ReplaceAbsent(s, a + " ", " " + full + " ");
    ReplaceAbsent(s, a + ". ", " " + full + " ");
  }

  /** The table loop leaves alone a name in which no abbreviation follows a space. */
  lemma {:induction false} ExpandAllAbsent(s: string, n: nat)
    requires n <= |ABBREVIATIONS|
    requires forall k :: 0 <= k < n ==> !Contains(s, " " + ABBREVIATIONS[k].0)
    ensures ExpandAll(s, n) == s
  {
    if n > 0 {
      ExpandAllAbsent(s, n - 1);
      ExpandOneAbsent(s, ABBREVIATIONS[n - 1].0, ABBREVIATIONS[n - 1].1);
    }
  }

  /** The full word is a single word: no space, dot or newline. */
  predicate Solid(full: string) {
    full != [] && forall k :: 0 <= k < |full| ==> full[k] != ' ' && full[k] != '.' && full[k] != '\n'
  }

  /** After a trailing full word, `' abb '` and `' abb. '` can only occur where
    * `' abb'` already occurred before it. */
  lemma TailAbsent(w: string, abb: string, full: string, tail: string)
    requires Solid(full) && !Contains(w, " " + abb)
    requires tail == " " || tail == ". "
    ensures !Contains(w + " " + full, " " + abb + tail)
  {
    var s := w + " " + full;
    var a := " " + abb;
    var pat := a + tail;
    forall j | 0 <= j <= |s|
      ensures !OccursAt(s, pat, j)
    {
      if j + |pat| <= |s| {
        var e := j + |pat| - 1;
        assert pat[|pat| - 1] == ' ';
        assert s[j..j + |pat|][|pat| - 1] == s[e];
        if e > |w| {
          assert s[e] == full[e - |w| - 1];
        } else {
          assert !OccursAt(w, a, j);
          assert s[j..j + |pat|][..|a|] == s[j..j + |a|] == w[j..j + |a|];
          assert pat[..|a|] == a;
        }
      }
    }
  }

  /** A name ending in `' abb'`, with the abbreviation nowhere else after a space, gets
    * the full word at its end and is otherwise unchanged: "grand st" -> "grand street". */
  lemma ExpandOneAtEnd(w: string, abb: string, full: string)
    requires Solid(full) && !Contains(w, " " + abb)
    ensures ExpandOne(w + " " + abb, abb, full) == w + " " + full
  {
    var s := w + " " + abb;
    var a := " " + abb;
    assert s == w + a;
    assert EndsWith(s, a) && s[..|s| - |a|] == w;
    var s1 := w + " " + full;
    assert SubAtEnd(s, a, " " + full) == s1;
    assert s1[|s1| - 1] == full[|full| - 1];
    assert !EndsWith(s1, a + ".") by { assert (a + ".")[|a + "."| - 1] == '.'; }
    assert !EndsWith(s1, a + "." + "\n") by { assert (a + "." + "\n")[|a + "." + "\n"| - 1] == '\n'; }
    TailAbsent(w, abb, full, " ");
    TailAbsent(w, abb, full, ". ");
    assert a + "." + " " == a + ". ";
    ReplaceAbsent(s1, a + " ", " " + full + " ");
    ReplaceAbsent(s1, a + ". ", " " + full + " ");
  }

  /** `^st.` is meant for "st." but its dot is a wildcard: any name starting with "st"
    * loses its third character to "saint". */
  lemma PrefixesSaint(x: char, rest: string)
    requires x != '\n'
    ensures Prefixes("st" + [x] + rest) == if x == ' ' then "saint " + rest else "saint" + rest
  {
    var s := "st" + [x] + rest;
    assert s[..2] == "st" && s[2] == x && s[3..] == rest;
    assert !StartsWith(s, "b ");
    if x == ' ' {
      assert s[..3] == "st ";
      var t := "saint " + rest;
      assert t[..2] == "sa" && t[..1] == "s";
    } else {
      assert !StartsWith(s, "st ");
      var t := "saint" + rest;
      assert t[..2] == "sa" && t[..1] == "s";
    }
  }

  /** So "stanton street" becomes "saintnton street". */
  lemma PrefixesStanton()
    ensures Prefixes("stanton street") == "saintnton street"
  {
    assert "stanton street" == "st" + ['a'] + "nton street";
    PrefixesSaint('a', "nton street");
  }

  /** `^mt` wins its alternation, so "mt. vernon avenue" keeps its dot: "mount. vernon avenue". */
  lemma PrefixesMount(rest: string)
    ensures Prefixes("mt" + rest) == "mount" + rest
  {
    var s := "mt" + rest;
    assert s[..1] == "m" && s[..2] == "mt" && s[2..] == rest;
    assert ("mount" + rest)[..2] == "mo";
  }

  /** `^ft` likewise: "ft" becomes "fort". */
  lemma PrefixesFort(rest: string)
    ensures Prefixes("ft" + rest) == "fort" + rest
  {
    var s := "ft" + rest;
    assert s[..1] == "f" && s[..2] == "ft" && s[2..] == rest;
  }

  /** A leading "b " becomes "beach ". */
  lemma PrefixesBeach(rest: string)
    ensures Prefixes("b " + rest) == "beach " + rest
  {
    var s := "b " + rest;
    assert s[..2] == "b " && s[2..] == rest;
    var t := "beach " + rest;
    assert t[..1] == "b" && t[..2] == "be" && t[..3] == "bea";
  }

  /** Any other name is left alone by the prefix rules. */
  lemma PrefixesOther(s: string)
    requires |s| < 2 || (s[..2] != "b " && s[..2] != "st" && s[..2] != "mt" && s[..2] != "ft")
    ensures Prefixes(s) == s
  {
    if |s| >= 3 { assert s[..3][..2] == s[..2]; }
  }

  // ---------------------------------------------------------------------------
  // `clean_street`

  /** `SPECIAL_CASES`: names whose official form the rules cannot produce. */
  const SPECIAL_CASES: map<string, string> := map[
    "brooklyn bridge boulevard" := "adams street - brooklyn bridge boulevard",
    "laguardia place" := "la guardia place",
    "north powell jr boulevard" := "adam clayton powell jr. boulevard",
    "adam clayton powell jr boulevard" := "adam clayton powell jr. boulevard",
    "avenue of the americas" := "6th avenue",
    "fort green place" := "fort greene place",
    "west 106th street" := "west 106th street / duke ellington",
    "adam clayton powell boulevard" := "adam clayton powell jr. boulevard"
  ]

  /** The rules of `clean_street` before the special cases: lower-case, standardize,
    * spell out directions, make the first number ordinal. */
  function Rewritten(address: string): string {
    OrdinalRep(AbbReplace(Standardized(Lower(address))))
  }

  /** `clean_street(address)`. */
  function Cleaned(address: string): string {
    var s := Rewritten(address);
    if s in SPECIAL_CASES then SPECIAL_CASES[s] else s
  }

  /** `clean_street`, one reassignment at a time. */
  method CleanStreet(address: string) returns (r: string)
    ensures r == Cleaned(address)
  {
    r := Lower(address);
    r := StandardizeStreet(r);
    r := AbbReplace(r);
    r := OrdinalRep(r);
    if r in SPECIAL_CASES {
      r := SPECIAL_CASES[r];
    }
  }

  /** No official form is itself a special case, so one lookup settles a name. */
  lemma SpecialCasesSettle()
    ensures forall k :: k in SPECIAL_CASES ==> SPECIAL_CASES[k] !in SPECIAL_CASES
  {
  }

  /** A cleaned name never needs another lookup: it is an official form, or a name the
    * table does not list. */
  lemma CleanedNotSpecial(address: string)
    ensures Cleaned(address) !in SPECIAL_CASES
    ensures Cleaned(address) == Rewritten(address) || Rewritten(address) in SPECIAL_CASES
  {
    SpecialCasesSettle();
  }

  /** Cleaning ignores case: an address and its lower-case form clean alike. */
  lemma CleanedIgnoresCase(address: string)
    ensures Cleaned(Lower(address)) == Cleaned(address)
  {
    LowerTwice(address);
  }

  // ---------------------------------------------------------------------------
  // `_get_intersections`

  /** A block of parking: the street it is on and the two cross streets bounding it. */
  datatype Block = Block(main: string, cross1: string, cross2: string)

  /** Fragments naming one of these are not real blocks. */
  const NULL_STREETS: seq<string> := ["dead road", "dead end"]

  /** `_get_intersections(address)`: `None` for a dead-end marker, or unless the
    * fragment reads "A between B and C" with exactly one separator of each kind. */
  function Intersections(address: string): Option<Block> {
    if exists k :: 0 <= k < |NULL_STREETS| && Contains(address, NULL_STREETS[k]) then None
    else
      var halves := Split(address, " between ");
      if |halves| != 2 then None
      else
        var cross := Split(halves[1], " and ");
        if 1 + |cross| != 3 then None
        else Some(Block(Cleaned(halves[0]), Cleaned(cross[0]), Cleaned(cross[1])))
  }

  /** `_get_intersections`, with its early-return loop over the dead-end markers. */
  method GetIntersections(address: string) returns (r: Option<Block>)
    ensures r == Intersections(address)
  {
    for i := 0 to |NULL_STREETS|
      invariant forall k :: 0 <= k < i ==> !Contains(address, NULL_STREETS[k])
    {
      if Contains(address, NULL_STREETS[i]) {
        return None;
      }
    }
    var halves := Split(address, " between ");
    if |halves| != 2 {
      return None;
    }
    var main := halves[0];
    var cross := Split(halves[1], " and ");
    var total := [main] + cross;
    if |total| != 3 {
      return None;
    }
    var m := CleanStreet(main);
    var c1 := CleanStreet(cross[0]);
    var c2 := CleanStreet(cross[1]);
    r := Some(Block(m, c1, c2));
  }

  /** A block comes from a fragment "main between c1 and c2" with no dead-end marker
    * and exactly those separators, and its streets are those parts, cleaned. */
  lemma IntersectionsParts(address: string)
    requires Intersections(address).Some?
    ensures forall k :: 0 <= k < |NULL_STREETS| ==> !Contains(address, NULL_STREETS[k])
    ensures exists main, c1, c2 ::
      && ThreeParts(address, " between ", " and ", main, c1, c2)
      && Intersections(address) == Some(Block(Cleaned(main), Cleaned(c1), Cleaned(c2)))
  {
    SplitTwice(address, " between ", " and ");
  }

  /** Conversely, a fragment that reads "main between c1 and c2", with the first
    * " between " right after `main` and no other, the first " and " after it right
    * after `c1` and no other, and no dead-end marker, gives the block of the three
    * cleaned names. */
  lemma IntersectionsOf(address: string, main: string, c1: string, c2: string)
    requires forall k :: 0 <= k < |NULL_STREETS| ==> !Contains(address, NULL_STREETS[k])
    requires ThreeParts(address, " between ", " and ", main, c1, c2)
    ensures Intersections(address) == Some(Block(Cleaned(main), Cleaned(c1), Cleaned(c2)))
  {
    ThreePartsSplit(address, " between ", " and ", main, c1, c2);
  }

  /** A fragment naming a dead end, or without " between ", gives no block. */
  lemma IntersectionsRefused(address: string)
    ensures Contains(address, "dead road") ==> Intersections(address).None?
    ensures Contains(address, "dead end") ==> Intersections(address).None?
    ensures !Contains(address, " between ") ==> Intersections(address).None?
  {
    assert NULL_STREETS[0] == "dead road" && NULL_STREETS[1] == "dead end";
    SplitSingle(address, " between ");
  }
}
