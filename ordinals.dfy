/** `_ordinal_rep`, which the three address cleaners share word for word: when some
  * number in a street name is followed by whitespace, the FIRST number in the name
  * gets its English ordinal suffix, spliced onto every occurrence of its digits. */
module Ordinals {
  import opened Wrappers
  import opened Strings

  /** The guard `re.search(r'[0-9]+\s', s)`: some digit is immediately followed by whitespace. */
  predicate NumberBeforeSpace(s: string) {
    exists i :: 0 <= i < |s| - 1 && IsDigit(s[i]) && IsSpace(s[i + 1])
  }

  /** The index of the first digit at or after `k`. */
  function FirstDigitFrom(s: string, k: nat): (r: Option<nat>)
    requires k <= |s|
    ensures r.Some? ==> k <= r.value < |s| && IsDigit(s[r.value])
    ensures r.Some? ==> forall j :: k <= j < r.value ==> !IsDigit(s[j])
    ensures r.None? ==> forall j :: k <= j < |s| ==> !IsDigit(s[j])
    decreases |s| - k
  {
    if k == |s| then None
    else if IsDigit(s[k]) then Some(k)
    else FirstDigitFrom(s, k + 1)
  }

  /** A regex match: where it starts and the text it matched. */
  datatype Match = Match(start: nat, text: string)

  /** `re.search(r'[0-9]+', s)`: the leftmost, longest run of digits. */
  function FirstNumber(s: string): Option<Match> {
    match FirstDigitFrom(s, 0)
    case None => None
    case Some(i) => Some(Match(i, s[i..DigitsEnd(s, i)]))
  }

  /** The match is a maximal run of digits with no digit before it, and there is one
    * exactly when the string holds a digit. */
  lemma FirstNumberShape(s: string)
    ensures FirstNumber(s).None? <==> forall j :: 0 <= j < |s| ==> !IsDigit(s[j])
    ensures FirstNumber(s).Some? ==> var m := FirstNumber(s).value;
      && m.text != [] && AllDigits(m.text)
      && OccursAt(s, m.text, m.start)
      && (forall j :: 0 <= j < m.start ==> !IsDigit(s[j]))
      && (m.start + |m.text| < |s| ==> !IsDigit(s[m.start + |m.text|]))
  {
  }

  /** The suffix `_ordinal_rep` appends, decided on the digits as the source does:
    * a last digit 1, 2 or 3 gives "st", "nd" or "rd" unless a second-to-last digit 1
    * makes the number a teen; every other number gets "th". */
  function OrdinalSuffix(num: string): (r: string)
    requires num != []
    ensures r == "st" || r == "nd" || r == "rd" || r == "th"
    ensures |num| > 1 && num[|num| - 2] == '1' ==> r == "th"
    ensures r == "th" <==> (num[|num| - 1] !in "123" || (|num| > 1 && num[|num| - 2] == '1'))
  {
    var last := num[|num| - 1];
    if |num| > 1 then
      var tens := num[|num| - 2];
      if last == '1' && tens != '1' then "st"
      else if last == '2' && tens != '1' then "nd"
      else if last == '3' && tens != '1' then "rd"
      else "th"
    else
      if last == '1' then "st"
      else if last == '2' then "nd"
      else if last == '3' then "rd"
      else "th"
  }

  /** `_ordinal_rep(s)`. */
  function OrdinalRep(s: string): (r: string)
    ensures !NumberBeforeSpace(s) ==> r == s
  {
    match FirstNumber(s)
    case None => s
    case Some(m) =>
      if NumberBeforeSpace(s) then Replace(s, m.text, m.text + OrdinalSuffix(m.text)) else s
  }

  // ---------------------------------------------------------------------------
  // The reference: English ordinal suffixes decided on the number's value.

  /** The English rule: 11, 12 and 13 (modulo 100) take "th"; otherwise a last
    * digit 1, 2 or 3 takes "st", "nd" or "rd"; everything else takes "th". */
  function EnglishSuffix(n: nat): string {
    if 11 <= n % 100 <= 13 then "th"
    else if n % 10 == 1 then "st"
    else if n % 10 == 2 then "nd"
    else if n % 10 == 3 then "rd"
    else "th"
  }

  /** The last two digits of a number are its value modulo 10 and modulo 100. */
  lemma LastDigits(num: string)
    requires num != [] && AllDigits(num)
    ensures Value(num) % 10 == DigitValue(num[|num| - 1])
    ensures |num| > 1 ==> Value(num) % 100 == DigitValue(num[|num| - 2]) * 10 + DigitValue(num[|num| - 1])
  {
    var n := |num|;
    var last := DigitValue(num[n - 1]);
    var high := Value(num[..n - 1]);
    assert Value(num) == high * 10 + last;
    LowDigit(high, last);
    if n > 1 {
      assert num[..n - 1][..n - 2] == num[..n - 2];
      var tens := DigitValue(num[n - 2]);
      var q := Value(num[..n - 2]);
      assert high == q * 10 + tens;
      LowDigits(q, tens, last);
    }
  }

  lemma LowDigit(high: nat, d: nat)
    requires d < 10
    ensures (high * 10 + d) % 10 == d
  {
  }

  lemma LowDigits(q: nat, tens: nat, d: nat)
    requires tens < 10 && d < 10
    ensures ((q * 10 + tens) * 10 + d) % 100 == tens * 10 + d
  {
    assert (q * 10 + tens) * 10 + d == q * 100 + (tens * 10 + d);
  }

  /** The digit-by-digit test of the source is the English rule on the number's value,
    * leading zeros and all. */
  lemma SuffixIsEnglish(num: string)
    requires num != [] && AllDigits(num)
    ensures OrdinalSuffix(num) == EnglishSuffix(Value(num))
  {
    LastDigits(num);
  }

  // ---------------------------------------------------------------------------
  // What `_ordinal_rep` does to the string.

  /** When the guard holds, the text before the first number is kept, the number gets
    * its suffix, and every later occurrence of the same digits gets it too. */
  lemma OrdinalRepSplices(s: string, m: Match)
    requires NumberBeforeSpace(s) && FirstNumber(s) == Some(m)
    ensures OrdinalRep(s) == s[..m.start] + (m.text + OrdinalSuffix(m.text))
                             + Replace(s[m.start + |m.text|..], m.text, m.text + OrdinalSuffix(m.text))
  {
    var ord := m.text + OrdinalSuffix(m.text);
    ReplaceFirstNumber(s, m, ord);
    OrdinalRepReplaces(s, m, s[..m.start] + ord + Replace(s[m.start + |m.text|..], m.text, ord));
  }

  lemma OrdinalRepReplaces(s: string, m: Match, x: string)
    requires NumberBeforeSpace(s) && FirstNumber(s) == Some(m)
    requires Replace(s, m.text, m.text + OrdinalSuffix(m.text)) == x
    ensures OrdinalRep(s) == x
  {
  }

  lemma ReplaceFirstNumber(s: string, m: Match, rep: string)
    requires FirstNumber(s) == Some(m)
    ensures Replace(s, m.text, rep) == s[..m.start] + rep + Replace(s[m.start + |m.text|..], m.text, rep)
  {
    FirstNumberIsFirstOccurrence(s, m);
    ReplaceAt(s, m.text, rep, m.start);
  }

  lemma GuardFindsNumber(s: string)
    requires NumberBeforeSpace(s)
    ensures FirstNumber(s).Some?
  {
    var i :| 0 <= i < |s| - 1 && IsDigit(s[i]) && IsSpace(s[i + 1]);
    FirstNumberShape(s);
  }

  /** No occurrence of the first number's digits starts before it. */
  lemma FirstNumberIsFirstOccurrence(s: string, m: Match)
    requires FirstNumber(s) == Some(m)
    ensures m.text != [] && OccursAt(s, m.text, m.start)
    ensures forall j :: 0 <= j < m.start ==> !OccursAt(s, m.text, j)
  {
    FirstNumberShape(s);
    forall j | 0 <= j < m.start
      ensures !OccursAt(s, m.text, j)
    {
      if j + |m.text| <= |s| { assert s[j..j + |m.text|][0] == s[j]; }
    }
  }

  /** Replacing by something at least as long never shortens a string. */
  lemma {:induction false} ReplaceNotShorter(s: string, pat: string, rep: string)
    requires pat != [] && |rep| >= |pat|
    ensures |Replace(s, pat, rep)| >= |s|
    decreases |s|
  {
    match Find(s, pat)
    case None =>
    case Some(i) =>
      var rest := s[i + |pat|..];
      ReplaceNotShorter(rest, pat, rep);
      var parts := Split(s, pat);
      assert parts == [s[..i]] + Split(rest, pat);
      assert Join(parts, rep) == s[..i] + rep + Join(Split(rest, pat), rep);
  }

  /** `_ordinal_rep` leaves a string alone exactly when no digit is followed by
    * whitespace; so already-suffixed numerals such as "42nd street" are fixed points. */
  lemma OrdinalRepFixedPoints(s: string)
    ensures OrdinalRep(s) == s <==> !NumberBeforeSpace(s)
  {
    if NumberBeforeSpace(s) { OrdinalRepGrows(s); }
  }

  lemma OrdinalRepGrows(s: string)
    requires NumberBeforeSpace(s)
    ensures |OrdinalRep(s)| > |s|
  {
    GuardFindsNumber(s);
    var m := FirstNumber(s).value;
    OrdinalRepSplices(s, m);
    FirstNumberIsFirstOccurrence(s, m);
    var ord := m.text + OrdinalSuffix(m.text);
    var tail := s[m.start + |m.text|..];
    assert |ord| == |m.text| + 2;
    ReplaceNotShorter(tail, m.text, ord);
    assert |s| == |s[..m.start]| + |m.text| + |tail|;
  }

  /** A string without digits holds no number. */
  lemma NoDigitsNoNumber(s: string, num: string)
    requires num != [] && AllDigits(num)
    requires forall k :: 0 <= k < |s| ==> !IsDigit(s[k])
    ensures !Contains(s, num)
  {
    forall i | 0 <= i <= |s|
      ensures !OccursAt(s, num, i)
    {
      if i + |num| <= |s| { assert s[i..i + |num|][0] == s[i]; }
    }
  }

  /** Teens take "th" even though they end in 1, 2 or 3. */
  lemma OrdinalExampleTeen(eleven: string)
    requires eleven == "11"
    ensures OrdinalRep(eleven + " avenue") == eleven + "th avenue"
  {
    var none: string := [];
    var r := none + eleven + OrdinalSuffix(eleven) + " avenue";
    assert DigitFree(none) && DigitFree(" avenue");
    assert none + eleven + " avenue" == eleven + " avenue";
    assert r == eleven + "th avenue";
    Example(eleven + " avenue", none, eleven, " avenue", r);
  }

  /** The number need not start the string. */
  lemma OrdinalExampleFirst(west: string)
    requires west == "west "
    ensures OrdinalRep(west + "1 street") == west + "1st street"
  {
    var r := west + "1" + OrdinalSuffix("1") + " street";
    assert DigitFree("west ") && DigitFree(" street");
    assert west + "1" + " street" == west + "1 street";
    assert r == west + "1st street";
    Example(west + "1 street", west, "1", " street", r);
  }

  /** A string without digits, recursively, so that literals can be checked by evaluation. */
  predicate DigitFree(s: string) {
    s == [] || (!IsDigit(s[0]) && DigitFree(s[1..]))
  }

  lemma {:induction false} DigitFreeAll(s: string)
    requires DigitFree(s)
    ensures forall k :: 0 <= k < |s| ==> !IsDigit(s[k])
  {
    if s != [] { DigitFreeAll(s[1..]); }
  }

  /** `prefix + num + rest`, with no digit in `prefix` or `rest` and `rest` starting with
    * a space, becomes `prefix + num + suffix + rest`. */
  lemma Example(s: string, prefix: string, num: string, rest: string, r: string)
    requires num != [] && AllDigits(num) && rest != [] && rest[0] == ' '
    requires DigitFree(prefix) && DigitFree(rest)
    requires s == prefix + num + rest && r == prefix + num + OrdinalSuffix(num) + rest
    ensures OrdinalRep(s) == r
  {
    ExampleNumber(prefix, num, rest);
    DigitFreeAll(rest);
    NoDigitsNoNumber(rest, num);
    ReplaceAbsent(rest, num, num + OrdinalSuffix(num));
    ExampleSplice(prefix + num + rest, prefix, num, rest);
  }

  lemma ExampleSplice(s: string, prefix: string, num: string, rest: string)
    requires s == prefix + num + rest
    requires NumberBeforeSpace(s)
    requires FirstNumber(s) == Some(Match(|prefix|, num))
    requires Replace(rest, num, num + OrdinalSuffix(num)) == rest
    ensures OrdinalRep(s) == prefix + num + OrdinalSuffix(num) + rest
  {
    var suffix := OrdinalSuffix(num);
    OrdinalRepSplices(s, Match(|prefix|, num));
    SplicedParts(s, prefix, num, rest);
    Associative(prefix, num, suffix, rest);
  }

  lemma SplicedParts(s: string, prefix: string, num: string, rest: string)
    requires s == prefix + num + rest
    ensures s[..|prefix|] == prefix && s[|prefix| + |num|..] == rest
  {
    assert s[..|prefix|] == prefix;
  }

  lemma ExampleNumber(prefix: string, num: string, rest: string)
    requires num != [] && AllDigits(num) && rest != [] && rest[0] == ' '
    requires DigitFree(prefix) && DigitFree(rest)
    ensures NumberBeforeSpace(prefix + num + rest)
    ensures FirstNumber(prefix + num + rest) == Some(Match(|prefix|, num))
  {
    DigitFreeAll(prefix);
    DigitFreeAll(rest);
    var s := prefix + num + rest;
    var start, e := |prefix|, |prefix| + |num|;
    assert s[start..e] == num;
    assert IsDigit(s[e - 1]) && IsSpace(s[e]);
    assert IsDigit(s[start]);
    FirstDigitAt(s, start);
    DigitsEndOfRun(s, start, e);
  }

  /** The first digit of a string is the one with no digit before it. */
  lemma FirstDigitAt(s: string, i: nat)
    requires i < |s| && IsDigit(s[i])
    requires forall j :: 0 <= j < i ==> !IsDigit(s[j])
    ensures FirstDigitFrom(s, 0) == Some(i)
  {
  }
}
