/** The parts of Python's `str` that the address cleaners use, on `seq<char>`:
  * `split(sep)`, `split()`, `sep.join(...)`, `replace`, `lower`, `capitalize` and `in`. */
module Strings {
  import opened Wrappers

  /** Python's `str.isspace()`: the characters that `str.split()` and the regex class `\s` treat as whitespace. */
  predicate IsSpace(c: char) {
    || ('\t' <= c <= '\r')
    || ('\U{1C}' <= c <= '\U{1F}')
    || c == ' ' || c == '\U{85}' || c == '\U{A0}' || c == '\U{1680}'
    || ('\U{2000}' <= c <= '\U{200A}')
    || c == '\U{2028}' || c == '\U{2029}' || c == '\U{202F}' || c == '\U{205F}' || c == '\U{3000}'
  }

  /** The regex class `[0-9]`. */
  predicate IsDigit(c: char) { '0' <= c <= '9' }

  predicate IsUpper(c: char) { 'A' <= c <= 'Z' }

  predicate IsLower(c: char) { 'a' <= c <= 'z' }

  predicate NotUpper(c: char) { !IsUpper(c) }

  function LowerChar(c: char): char { if IsUpper(c) then (c as int + 32) as char else c }

  function UpperChar(c: char): char { if IsLower(c) then (c as int - 32) as char else c }

  /** `s.lower()`, on ASCII letters. */
  function Lower(s: string): string {
    seq(|s|, i requires 0 <= i < |s| => LowerChar(s[i]))
  }

  /** `s.capitalize()`: the first character upper-cased, the rest lower-cased. */
  function Capitalize(s: string): string {
    if s == [] then [] else [UpperChar(s[0])] + Lower(s[1..])
  }

  /** Every character of `s` satisfies `p`. */
  ghost predicate All(s: string, p: char -> bool) {
    forall i :: 0 <= i < |s| ==> p(s[i])
  }

  /** `p` holds of every character, checked one character at a time so that a
    * literal can be decided by unfolding. */
  predicate Each(s: string, p: char -> bool) {
    s == [] || (p(s[0]) && Each(s[1..], p))
  }

  /** `s.startswith(t)`. */
  predicate StartsWith(s: string, t: string) {
    |t| <= |s| && s[..|t|] == t
  }

  /** `s.endswith(t)`. */
  predicate EndsWith(s: string, t: string) {
    |t| <= |s| && s[|s| - |t|..] == t
  }

  /** `t` occurs in `s` starting at index `i`. */
  predicate OccursAt(s: string, t: string, i: nat) {
    i + |t| <= |s| && s[i..i + |t|] == t
  }

  /** Python's `t in s`. */
  predicate Contains(s: string, t: string) {
    exists i :: 0 <= i <= |s| && OccursAt(s, t, i)
  }

  /** The first occurrence of `t` in `s` at or after index `k`. */
  function FindFrom(s: string, t: string, k: nat): (r: Option<nat>)
    requires k <= |s|
    ensures r.Some? ==> k <= r.value && OccursAt(s, t, r.value)
    ensures r.Some? ==> forall j :: k <= j < r.value ==> !OccursAt(s, t, j)
    ensures r.None? ==> forall j :: k <= j <= |s| ==> !OccursAt(s, t, j)
    decreases |s| - k
  {
    if OccursAt(s, t, k) then Some(k)
    else if k == |s| then None
    else FindFrom(s, t, k + 1)
  }

  /** Python's `s.find(t)`, with `None` for -1. */
  function Find(s: string, t: string): (r: Option<nat>)
    ensures r.None? <==> !Contains(s, t)
    ensures r.Some? ==> OccursAt(s, t, r.value) && forall j :: 0 <= j < r.value ==> !OccursAt(s, t, j)
  {
    FindFrom(s, t, 0)
  }

  /** Python's `s.split(sep)` for a non-empty separator: the pieces between
    * the leftmost non-overlapping occurrences of `sep`. */
  function Split(s: string, sep: string): (r: seq<string>)
    requires sep != []
    ensures |r| >= 1
    decreases |s|
  {
    match Find(s, sep)
    case None => [s]
    case Some(i) => [s[..i]] + Split(s[i + |sep|..], sep)
  }

  /** Python's `sep.join(parts)`. */
  function Join(parts: seq<string>, sep: string): string {
    if |parts| == 0 then ""
    else if |parts| == 1 then parts[0]
    else parts[0] + sep + Join(parts[1..], sep)
  }

  /** Python's `s.replace(pat, rep)` for a non-empty `pat`: every leftmost
    * non-overlapping occurrence replaced, which is `rep.join(s.split(pat))`. */
  function Replace(s: string, pat: string, rep: string): string
    requires pat != []
  {
    Join(Split(s, pat), rep)
  }

  /** The length of the run of non-whitespace characters that starts `s`. */
  function RunLength(s: string): (n: nat)
    ensures n <= |s|
    ensures forall k :: 0 <= k < n ==> !IsSpace(s[k])
    ensures n < |s| ==> IsSpace(s[n])
  {
    if s == [] || IsSpace(s[0]) then 0 else 1 + RunLength(s[1..])
  }

  /** `s` holds no whitespace character. */
  predicate NoSpace(s: string) {
    forall k :: 0 <= k < |s| ==> !IsSpace(s[k])
  }

  /** Python's `s.split()`: the maximal runs of non-whitespace characters, in order. */
  function Words(s: string): (r: seq<string>)
    ensures forall k :: 0 <= k < |r| ==> r[k] != [] && NoSpace(r[k])
    decreases |s|
  {
    if s == [] then []
    else if IsSpace(s[0]) then Words(s[1..])
    else
      var n := RunLength(s);
      [s[..n]] + Words(s[n..])
  }

  // ---------------------------------------------------------------------------
  // Decimal digits, as `int(...)` reads them.

  predicate AllDigits(s: string) {
    forall k :: 0 <= k < |s| ==> IsDigit(s[k])
  }

  /** The end of the run of digits that starts at index `i`. */
  function DigitsEnd(s: string, i: nat): (j: nat)
    requires i <= |s|
    ensures i <= j <= |s|
    ensures forall k :: i <= k < j ==> IsDigit(s[k])
    ensures j < |s| ==> !IsDigit(s[j])
    decreases |s| - i
  {
    if i < |s| && IsDigit(s[i]) then DigitsEnd(s, i + 1) else i
  }

  function DigitValue(c: char): nat
    requires IsDigit(c)
  {
    c as int - '0' as int
  }

  /** The number a string of decimal digits denotes. */
  function Value(num: string): nat
    requires AllDigits(num)
  {
    if num == [] then 0 else Value(num[..|num| - 1]) * 10 + DigitValue(num[|num| - 1])
  }

  /** `s` is trimmed and single-spaced: its only whitespace characters are
    * single `' '` characters standing between two other characters. */
  ghost predicate SingleSpaced(s: string) {
    && (s != [] ==> s[0] != ' ' && s[|s| - 1] != ' ')
    && (forall k :: 0 <= k < |s| && IsSpace(s[k]) ==> s[k] == ' ')
    && (forall k :: 0 <= k < |s| - 1 && s[k] == ' ' ==> s[k + 1] != ' ')
  }

  // ---------------------------------------------------------------------------
  // Lemmas

  lemma {:induction false} SplitJoin(s: string, sep: string)
    requires sep != []
    ensures Join(Split(s, sep), sep) == s
    decreases |s|
  {
    match Find(s, sep)
    case None =>
    case Some(i) =>
      var rest := s[i + |sep|..];
      SplitJoin(rest, sep);
      SplitAt(s, sep, i);
      JoinCons(s[..i], Split(rest, sep), sep);
      assert s == s[..i] + sep + rest;
  }

  /** Joining a list of two or more parts: the first part, the separator, then the rest joined. */
  lemma JoinCons(head: string, rest: seq<string>, sep: string)
    requires rest != []
    ensures Join([head] + rest, sep) == head + sep + Join(rest, sep)
  {
    assert ([head] + rest)[1..] == rest;
  }

  /** No piece of a split contains the separator. */
  lemma {:induction false} SplitPiecesFree(s: string, sep: string)
    requires sep != []
    ensures forall k :: 0 <= k < |Split(s, sep)| ==> !Contains(Split(s, sep)[k], sep)
    decreases |s|
  {
    match Find(s, sep)
    case None =>
    case Some(i) =>
      var rest := s[i + |sep|..];
      SplitPiecesFree(rest, sep);
      SplitAt(s, sep, i);
      HeadFree(s, sep, i);
  }

  /** The text before the first occurrence of the separator does not contain it. */
  lemma HeadFree(s: string, sep: string, i: nat)
    requires sep != [] && Find(s, sep) == Some(i)
    ensures !Contains(s[..i], sep)
  {
    var head := s[..i];
    forall j | 0 <= j <= |head|
      ensures !OccursAt(head, sep, j)
    {
      if j + |sep| <= |head| {
        assert !OccursAt(s, sep, j);
        assert head[j..j + |sep|] == s[j..j + |sep|];
      }
    }
  }

  /** A string without the separator splits into itself alone, and only such a string does. */
  lemma SplitSingle(s: string, sep: string)
    requires sep != []
    ensures |Split(s, sep)| == 1 <==> !Contains(s, sep)
    ensures !Contains(s, sep) ==> Split(s, sep) == [s]
  {
  }

  /** The first piece is the text before the first occurrence of the separator. */
  lemma SplitHead(s: string, sep: string, i: nat)
    requires sep != [] && OccursAt(s, sep, i)
    requires forall j :: 0 <= j < i ==> !OccursAt(s, sep, j)
    ensures Split(s, sep)[0] == s[..i]
    ensures Split(s, sep)[1..] == Split(s[i + |sep|..], sep)
  {
    FindAt(s, sep, i);
    SplitAt(s, sep, i);
    var rest := Split(s[i + |sep|..], sep);
    assert ([s[..i]] + rest)[1..] == rest;
  }

  /** One step of `Split`: the text before the first occurrence, then the split of the rest. */
  lemma SplitAt(s: string, sep: string, i: nat)
    requires sep != [] && Find(s, sep) == Some(i)
    ensures Split(s, sep) == [s[..i]] + Split(s[i + |sep|..], sep)
  {
  }

  /** The first occurrence is the one `Find` reports. */
  lemma FindAt(s: string, t: string, i: nat)
    requires OccursAt(s, t, i)
    requires forall j :: 0 <= j < i ==> !OccursAt(s, t, j)
    ensures Find(s, t) == Some(i)
  {
  }

  /** Replacement keeps the text before the first occurrence and continues after it. */
  lemma ReplaceAt(s: string, pat: string, rep: string, i: nat)
    requires pat != [] && OccursAt(s, pat, i)
    requires forall j :: 0 <= j < i ==> !OccursAt(s, pat, j)
    ensures Replace(s, pat, rep) == s[..i] + rep + Replace(s[i + |pat|..], pat, rep)
  {
    SplitHead(s, pat, i);
    var parts := Split(s, pat);
    assert parts == [parts[0]] + parts[1..];
  }

  /** A string without the pattern is its own replacement. */
  lemma ReplaceAbsent(s: string, pat: string, rep: string)
    requires pat != [] && !Contains(s, pat)
    ensures Replace(s, pat, rep) == s
  {
    SplitSingle(s, pat);
  }

  /** Every character of every piece is a character of the split string. */
  lemma {:induction false} SplitKeeps(s: string, sep: string, p: char -> bool)
    requires sep != [] && All(s, p)
    ensures forall k :: 0 <= k < |Split(s, sep)| ==> All(Split(s, sep)[k], p)
    decreases |s|
  {
    match Find(s, sep)
    case None =>
    case Some(i) =>
      SplitKeeps(s[i + |sep|..], sep, p);
  }

  /** A join consists of characters of its parts and its separator. */
  lemma {:induction false} JoinKeeps(parts: seq<string>, sep: string, p: char -> bool)
    requires forall k :: 0 <= k < |parts| ==> All(parts[k], p)
    requires All(sep, p)
    ensures All(Join(parts, sep), p)
    decreases |parts|
  {
    if |parts| > 1 {
      JoinKeeps(parts[1..], sep, p);
    }
  }

  /** Replacement introduces no character that is neither in the string nor in the replacement. */
  lemma ReplaceKeeps(s: string, pat: string, rep: string, p: char -> bool)
    requires pat != [] && All(s, p) && All(rep, p)
    ensures All(Replace(s, pat, rep), p)
  {
    SplitKeeps(s, pat, p);
    JoinKeeps(Split(s, pat), rep, p);
  }

  lemma {:induction false} EachAll(s: string, p: char -> bool)
    requires Each(s, p)
    ensures All(s, p)
  {
    if s != [] {
      EachAll(s[1..], p);
      forall i | 0 < i < |s|
        ensures p(s[i])
      {
        assert s[i] == s[1..][i - 1];
      }
    }
  }

  /** Replacing with nothing removes every occurrence of a one-character pattern. */
  lemma RemoveChar(s: string, c: char)
    ensures All(Replace(s, [c], ""), x => x != c)
  {
    var parts := Split(s, [c]);
    SplitPiecesFree(s, [c]);
    forall k | 0 <= k < |parts|
      ensures All(parts[k], x => x != c)
    {
      forall i | 0 <= i < |parts[k]|
        ensures parts[k][i] != c
      {
        if parts[k][i] == c {
          assert OccursAt(parts[k], [c], i);
        }
      }
    }
    JoinKeeps(parts, "", x => x != c);
  }

  /** A string splits at a one-character separator that it holds nowhere before. */
  lemma SplitAtChar(x: string, c: char, y: string)
    requires forall k :: 0 <= k < |x| ==> x[k] != c
    ensures Split(x + [c] + y, [c]) == [x] + Split(y, [c])
  {
    var s := x + [c] + y;
    assert OccursAt(s, [c], |x|);
    forall j | 0 <= j < |x|
      ensures !OccursAt(s, [c], j)
    {
      assert s[j..j + 1] == [x[j]];
    }
    SplitHead(s, [c], |x|);
    assert s[..|x|] == x && s[|x| + 1..] == y;
    assert Split(s, [c]) == [Split(s, [c])[0]] + Split(s, [c])[1..];
  }

  /** Replacing a character: everything before its first occurrence is kept. */
  lemma ReplaceAtChar(x: string, c: char, y: string, rep: string)
    requires forall k :: 0 <= k < |x| ==> x[k] != c
    ensures Replace(x + [c] + y, [c], rep) == x + rep + Replace(y, [c], rep)
  {
    SplitAtChar(x, c, y);
  }

  /** A prefix free of the character passes through its replacement untouched. */
  lemma ReplaceCharFreePrefix(p: string, q: string, c: char, rep: string)
    requires forall k :: 0 <= k < |p| ==> p[k] != c
    ensures Replace(p + q, [c], rep) == p + Replace(q, [c], rep)
  {
    match Find(q, [c])
    case None =>
      CharAbsentConcat(p, q, c);
      ReplaceAbsent(q, [c], rep);
      ReplaceAbsent(p + q, [c], rep);
    case Some(i) =>
      CharFirstAt(q, c, i);
      ReplaceCharFreeSplice(p, q[..i], c, q[i + 1..], rep);
  }

  lemma ReplaceCharFreeSplice(p: string, x: string, c: char, y: string, rep: string)
    requires forall k :: 0 <= k < |p| ==> p[k] != c
    requires forall k :: 0 <= k < |x| ==> x[k] != c
    ensures Replace(p + (x + [c] + y), [c], rep) == p + Replace(x + [c] + y, [c], rep)
  {
    CharFreeConcat(p, x, c);
    ReplaceAtChar(x, c, y, rep);
    ReplaceAtChar(p + x, c, y, rep);
    Regroup(p, x, [c], y, rep, Replace(y, [c], rep));
  }

  lemma CharFreeConcat(p: string, x: string, c: char)
    requires forall k :: 0 <= k < |p| ==> p[k] != c
    requires forall k :: 0 <= k < |x| ==> x[k] != c
    ensures forall k :: 0 <= k < |p + x| ==> (p + x)[k] != c
  {
    forall k | 0 <= k < |p + x|
      ensures (p + x)[k] != c
    {
      if k < |p| { assert (p + x)[k] == p[k]; } else { assert (p + x)[k] == x[k - |p|]; }
    }
  }

  /** Moving a prefix in and out of a concatenation. */
  lemma Regroup(p: string, x: string, m: string, y: string, a: string, b: string)
    ensures p + (x + m + y) == p + x + m + y
    ensures p + x + a + b == p + (x + a + b)
  {
  }

  lemma CharAbsentConcat(p: string, q: string, c: char)
    requires forall k :: 0 <= k < |p| ==> p[k] != c
    requires !Contains(q, [c])
    ensures !Contains(p + q, [c])
  {
    forall j | 0 <= j <= |p + q|
      ensures !OccursAt(p + q, [c], j)
    {
      if j < |p| { assert (p + q)[j..j + 1] == [p[j]]; }
      else if j < |p + q| {
        assert !OccursAt(q, [c], j - |p|);
        assert (p + q)[j..j + 1] == q[j - |p|..j - |p| + 1];
      }
    }
  }

  lemma CharFirstAt(q: string, c: char, i: nat)
    requires Find(q, [c]) == Some(i)
    ensures forall k :: 0 <= k < |q[..i]| ==> q[..i][k] != c
    ensures q == q[..i] + [c] + q[i + 1..]
  {
    forall k | 0 <= k < i
      ensures q[k] != c
    {
      assert !OccursAt(q, [c], k);
      assert q[k..k + 1] == [q[k]];
    }
    assert q[i..i + 1] == [c];
  }

  /** Concatenation is associative; the solver needs it said. */
  lemma Associative(a: string, b: string, c: string, d: string)
    ensures a + (b + c) + d == a + b + c + d
  {
  }

  lemma LowerNoUpper(s: string)
    ensures All(Lower(s), NotUpper)
  {
  }

  /** `split()` recovers the words that a single space joined. */
  lemma {:induction false} WordsOfJoin(ws: seq<string>)
    requires forall k :: 0 <= k < |ws| ==> ws[k] != [] && NoSpace(ws[k])
    ensures Words(Join(ws, " ")) == ws
    decreases |ws|
  {
    if |ws| == 0 {
    } else if |ws| == 1 {
      WordsOfWord(ws[0], "");
      assert ws[0] + "" == ws[0];
    } else {
      var rest := Join(ws[1..], " ");
      WordsOfJoin(ws[1..]);
      WordsOfWord(ws[0], " " + rest);
      assert (" " + rest)[1..] == rest;
      assert ws[0] + " " + rest == ws[0] + (" " + rest);
      assert ws == [ws[0]] + ws[1..];
    }
  }

  /** A word followed by whitespace or nothing is the first word. */
  lemma WordsOfWord(w: string, t: string)
    requires w != [] && NoSpace(w)
    requires t == [] || IsSpace(t[0])
    ensures Words(w + t) == [w] + Words(t)
  {
    RunLengthOfWord(w, t);
    assert (w + t)[..|w|] == w;
    assert (w + t)[|w|..] == t;
  }

  lemma {:induction false} RunLengthOfWord(w: string, t: string)
    requires NoSpace(w)
    requires t == [] || IsSpace(t[0])
    ensures RunLength(w + t) == |w|
    decreases |w|
  {
    if w != [] {
      RunLengthOfWord(w[1..], t);
      assert (w + t)[1..] == w[1..] + t;
    }
  }

  /** Joining non-empty whitespace-free words with one space gives a trimmed, single-spaced string. */
  lemma {:induction false} JoinSingleSpaced(ws: seq<string>)
    requires forall k :: 0 <= k < |ws| ==> ws[k] != [] && NoSpace(ws[k])
    ensures SingleSpaced(Join(ws, " "))
    decreases |ws|
  {
    if |ws| > 1 {
      JoinSingleSpaced(ws[1..]);
      var w, rest := ws[0], Join(ws[1..], " ");
      var s := w + " " + rest;
      assert rest != [] by { JoinNonEmpty(ws[1..]); }
      forall k | 0 <= k < |s| && IsSpace(s[k])
        ensures s[k] == ' '
      {
        if k > |w| { assert s[k] == rest[k - |w| - 1]; }
      }
      forall k | 0 <= k < |s| - 1 && s[k] == ' '
        ensures s[k + 1] != ' '
      {
        if k > |w| { assert s[k] == rest[k - |w| - 1]; }
      }
    }
  }

  lemma JoinNonEmpty(ws: seq<string>)
    requires |ws| > 0 && ws[0] != []
    ensures Join(ws, " ") != []
  {
  }

  lemma DigitsEndOfRun(s: string, i: nat, e: nat)
    requires i <= e <= |s|
    requires forall k :: i <= k < e ==> IsDigit(s[k])
    requires e < |s| ==> !IsDigit(s[e])
    ensures DigitsEnd(s, i) == e
    decreases e - i
  {
    if i < e { DigitsEndOfRun(s, i + 1, e); }
  }

  /** Lower-casing twice is lower-casing once. */
  lemma LowerTwice(s: string)
    ensures Lower(Lower(s)) == Lower(s)
  {
    forall i | 0 <= i < |s|
      ensures Lower(Lower(s))[i] == Lower(s)[i]
    {
      assert !IsUpper(LowerChar(s[i]));
    }
  }

  /** A string that splits in two is the two pieces around the one separator. */
  lemma SplitTwo(s: string, sep: string)
    requires sep != [] && |Split(s, sep)| == 2
    ensures s == Split(s, sep)[0] + sep + Split(s, sep)[1]
    ensures !Contains(Split(s, sep)[0], sep) && !Contains(Split(s, sep)[1], sep)
  {
    var parts := Split(s, sep);
    SplitJoin(s, sep);
    SplitPiecesFree(s, sep);
    assert parts[1..][1..] == [];
  }

  /** The first piece of a split runs up to the first occurrence of the separator,
    * or to the end when there is none. */
  lemma SplitFirst(s: string, sep: string)
    requires sep != []
    ensures exists j :: 0 <= j <= |s| && Split(s, sep)[0] == s[..j] && (j == |s| || OccursAt(s, sep, j))
    ensures !Contains(Split(s, sep)[0], sep)
  {
    SplitPiecesFree(s, sep);
    match Find(s, sep)
    case None =>
      assert s[..|s|] == s;
    case Some(i) =>
  }

  /** `capitalize` keeps the length, makes the first character not lower-case and the
    * rest not upper-case, and keeps whitespace where it was. */
  lemma CapitalizeShape(s: string)
    ensures |Capitalize(s)| == |s|
    ensures s != [] ==> !IsLower(Capitalize(s)[0])
    ensures forall k :: 0 < k < |s| ==> NotUpper(Capitalize(s)[k])
    ensures forall k :: 0 <= k < |s| ==> (IsSpace(Capitalize(s)[k]) <==> IsSpace(s[k]))
  {
  }

  /** A text without `m` has no prefix with `m`. */
  lemma PrefixFree(s: string, j: nat, m: string)
    requires j <= |s| && !Contains(s, m)
    ensures !Contains(s[..j], m)
  {
    forall i | 0 <= i <= j
      ensures !OccursAt(s[..j], m, i)
    {
      if i + |m| <= j {
        assert s[..j][i..i + |m|] == s[i..i + |m|];
        assert !OccursAt(s, m, i);
      }
    }
  }

  /** `m` is a space followed by at least one non-space character. */
  predicate SpaceLed(m: string) {
    |m| >= 2 && m[0] == ' ' && forall k :: 1 <= k < |m| ==> m[k] != ' '
  }

  /** Appending `' ' + word` to a text without `m` creates no `m` when `word` has no
    * space and does not start like `m` after its space. */
  lemma AppendWordFree(p: string, word: string, m: string)
    requires SpaceLed(m) && !Contains(p, m)
    requires word != [] && word[0] != m[1]
    requires forall k :: 0 <= k < |word| ==> word[k] != ' '
    ensures !Contains(p + " " + word, m)
  {
    var s := p + " " + word;
    forall j | 0 <= j <= |s|
      ensures !OccursAt(s, m, j)
    {
      if j + |m| <= |s| {
        var w := s[j..j + |m|];
        if j + |m| <= |p| {
          assert w == p[j..j + |m|];
          assert !OccursAt(p, m, j);
        } else if j < |p| {
          assert w[|p| - j] == s[|p|] == ' ';
        } else if j == |p| {
          assert w[1] == word[0];
        } else {
          assert w[0] == word[j - |p| - 1];
        }
      }
    }
  }

  /** `t` does not occur in a text that lacks one of its characters. */
  lemma MissingChar(s: string, t: string, m: nat)
    requires m < |t| && forall k :: 0 <= k < |s| ==> s[k] != t[m]
    ensures !Contains(s, t)
  {
    forall i | 0 <= i <= |s|
      ensures !OccursAt(s, t, i)
    {
      if i + |t| <= |s| {
        assert s[i..i + |t|][m] == s[i + m];
      }
    }
  }

  /** A space-led `m` occurs in `p + q`, with `q` empty or starting with a space, only
    * inside `p` or inside `q`: it cannot run across the space that starts `q`. */
  lemma SpaceLedJoin(p: string, q: string, m: string)
    requires SpaceLed(m) && !Contains(p, m) && !Contains(q, m)
    requires q == [] || q[0] == ' '
    ensures !Contains(p + q, m)
  {
    var s := p + q;
    forall j | 0 <= j <= |s|
      ensures !OccursAt(s, m, j)
    {
      if j + |m| <= |s| {
        var w := s[j..j + |m|];
        if j + |m| <= |p| {
          assert w == p[j..j + |m|];
          assert !OccursAt(p, m, j);
        } else if j >= |p| {
          assert w == q[j - |p|..j - |p| + |m|];
          assert !OccursAt(q, m, j - |p|);
        } else {
          assert w[|p| - j] == s[|p|] == q[0];
        }
      }
    }
  }

  /** In `w + x + q`, where `x` is a space and then a word, a space-led `a` found in
    * neither `w` nor `q` can occur only right after `w`. */
  lemma OnlyAt(w: string, x: string, q: string, a: string)
    requires SpaceLed(a) && !Contains(w, a) && !Contains(q, a)
    requires x != [] && x[0] == ' ' && forall k :: 1 <= k < |x| ==> x[k] != ' '
    ensures forall p :: 0 <= p && OccursAt(w + x + q, a, p) ==> p == |w|
  {
    var s := w + x + q;
    forall p | 0 <= p <= |s| - |a|
      ensures OccursAt(s, a, p) ==> p == |w|
    {
      var y := s[p..p + |a|];
      if p + |a| <= |w| {
        assert y == w[p..p + |a|];
        assert !OccursAt(w, a, p);
      } else if p < |w| {
        assert y[|w| - p] == s[|w|];
      } else if p < |w| + |x| {
        assert y[0] == s[p];
      } else {
        assert y == q[p - |w| - |x|..p - |w| - |x| + |a|];
        assert !OccursAt(q, a, p - |w| - |x|);
      }
    }
  }

  /** When `a` occurs in `s` only at `p`, `s` ends with `a + y` only if `a + y` is
    * exactly what follows `p`. */
  lemma EndsOnlyAt(s: string, a: string, p: nat, y: string)
    requires forall j :: 0 <= j && OccursAt(s, a, j) ==> j == p
    requires p + |a| + |y| != |s|
    ensures !EndsWith(s, a + y)
  {
    var ay := a + y;
    if |ay| <= |s| {
      var j := |s| - |ay|;
      assert s[j..j + |ay|][..|a|] == s[j..j + |a|];
      assert ay[..|a|] == a;
      assert EndsWith(s, ay) ==> OccursAt(s, a, j);
    }
  }

  /** When `a` occurs in `s` only at `p`, and the character `m` places after that `a`
    * differs from `y[m]`, then `a + y` occurs nowhere in `s`, at its end or elsewhere. */
  lemma FollowedBy(s: string, a: string, p: nat, y: string, m: nat)
    requires forall j :: 0 <= j && OccursAt(s, a, j) ==> j == p
    requires m < |y| && p + |a| + m < |s| && s[p + |a| + m] != y[m]
    ensures !Contains(s, a + y) && !EndsWith(s, a + y)
  {
    var ay := a + y;
    assert ay[..|a|] == a && ay[|a| + m] == y[m];
    forall j | 0 <= j <= |s|
      ensures !OccursAt(s, ay, j)
    {
      if j + |ay| <= |s| {
        assert s[j..j + |ay|][..|a|] == s[j..j + |a|];
        assert s[j..j + |ay|][|a| + m] == s[j + |a| + m];
        assert OccursAt(s, ay, j) ==> OccursAt(s, a, j);
      }
    }
    if |ay| <= |s| {
      assert !OccursAt(s, ay, |s| - |ay|);
    }
  }

  /** When `a` occurs in `s` only at `p`, no text starting with `a` occurs before `p`. */
  lemma FirstAt(s: string, a: string, y: string, p: nat)
    requires forall j :: 0 <= j && OccursAt(s, a, j) ==> j == p
    ensures forall j :: 0 <= j < p ==> !OccursAt(s, a + y, j)
  {
    var ay := a + y;
    assert ay[..|a|] == a;
    forall j: nat | j < p
      ensures !OccursAt(s, ay, j)
    {
      if j + |ay| <= |s| {
        assert s[j..j + |ay|][..|a|] == s[j..j + |a|];
        assert OccursAt(s, ay, j) ==> OccursAt(s, a, j);
      }
    }
  }

  /** A pattern found once, right after `w`, is replaced there and nowhere else. */
  lemma ReplaceOnce(w: string, m: string, t: string, rep: string)
    requires m != [] && !Contains(t, m)
    requires forall j :: 0 <= j < |w| ==> !OccursAt(w + m + t, m, j)
    ensures Replace(w + m + t, m, rep) == w + rep + t
  {
    var s := w + m + t;
    assert s[|w|..|w| + |m|] == m;
    ReplaceAt(s, m, rep, |w|);
    assert s[..|w|] == w && s[|w| + |m|..] == t;
    ReplaceAbsent(t, m, rep);
  }

  /** A text without `m` has no suffix with `m`. */
  lemma SuffixFree(s: string, j: nat, m: string)
    requires j <= |s| && !Contains(s, m)
    ensures !Contains(s[j..], m)
  {
    forall i | 0 <= i <= |s| - j
      ensures !OccursAt(s[j..], m, i)
    {
      if i + |m| <= |s| - j {
        assert s[j..][i..i + |m|] == s[j + i..j + i + |m|];
        assert !OccursAt(s, m, j + i);
      }
    }
  }

  /** `t` does not occur in a text where two of its neighbouring characters never meet. */
  lemma MissingPair(s: string, t: string, m: nat)
    requires m + 1 < |t|
    requires forall k :: 0 <= k < |s| - 1 ==> s[k] != t[m] || s[k + 1] != t[m + 1]
    ensures !Contains(s, t)
  {
    forall i | 0 <= i <= |s|
      ensures !OccursAt(s, t, i)
    {
      if i + |t| <= |s| {
        assert s[i..i + |t|][m] == s[i + m];
        assert s[i..i + |t|][m + 1] == s[i + m + 1];
      }
    }
  }

  /** A word without spaces occurs in `p + q`, where a space separates the two, only
    * inside `p` or inside `q`. */
  lemma SpaceFreeJoin(p: string, q: string, t: string)
    requires forall k :: 0 <= k < |t| ==> t[k] != ' '
    requires !Contains(p, t) && !Contains(q, t)
    requires (p != [] && p[|p| - 1] == ' ') || (q != [] && q[0] == ' ')
    ensures !Contains(p + q, t)
  {
    var s := p + q;
    forall j | 0 <= j <= |s|
      ensures !OccursAt(s, t, j)
    {
      if j + |t| <= |s| {
        var w := s[j..j + |t|];
        if j + |t| <= |p| {
          assert w == p[j..j + |t|];
          assert !OccursAt(p, t, j);
        } else if j >= |p| {
          assert w == q[j - |p|..j - |p| + |t|];
          assert !OccursAt(q, t, j - |p|);
        } else if p != [] && p[|p| - 1] == ' ' {
          assert w[|p| - 1 - j] == s[|p| - 1];
        } else {
          assert w[|p| - j] == s[|p|];
        }
      }
    }
  }

  /** `s` reads `a + sep + b`, with the first occurrence of `sep` right after `a` and
    * none in `b`. */
  predicate SplitsAs(s: string, sep: string, a: string, b: string) {
    && s == a + sep + b
    && (forall j :: 0 <= j < |a| ==> !OccursAt(s, sep, j))
    && !Contains(b, sep)
  }

  /** `s.split(sep) == [a, b]` exactly when `s` reads `a + sep + b` with `sep` first
    * occurring after `a` and never in `b`. */
  lemma SplitPair(s: string, sep: string, a: string, b: string)
    requires sep != []
    ensures Split(s, sep) == [a, b] <==> SplitsAs(s, sep, a, b)
  {
    if SplitsAs(s, sep, a, b) {
      assert s[|a|..|a| + |sep|] == sep;
      FindAt(s, sep, |a|);
      SplitAt(s, sep, |a|);
      assert s[..|a|] == a && s[|a| + |sep|..] == b;
      SplitSingle(b, sep);
    }
    if Split(s, sep) == [a, b] {
      match Find(s, sep)
      case None =>
      case Some(i) =>
        var rest := s[i + |sep|..];
        SplitAt(s, sep, i);
        assert a == Split(s, sep)[0] == ([s[..i]] + Split(rest, sep))[0];
        assert Split(rest, sep) == Split(s, sep)[1..] == [b];
        SplitSingle(rest, sep);
        assert rest == b;
        assert s[i..i + |sep|] == sep;
        assert s == s[..i] + s[i..i + |sep|] + rest;
    }
  }

  /** A separator whose `m`-th character occurs nowhere else in it, nor in `a` or `b`,
    * occurs in `a + sep + b` only right after `a`. */
  lemma MarkedSeparator(a: string, sep: string, b: string, m: nat)
    requires m < |sep| && forall k :: 0 <= k < |sep| && k != m ==> sep[k] != sep[m]
    requires forall k :: 0 <= k < |a| ==> a[k] != sep[m]
    requires forall k :: 0 <= k < |b| ==> b[k] != sep[m]
    ensures forall j :: 0 <= j && OccursAt(a + sep + b, sep, j) ==> j == |a|
  {
    var s := a + sep + b;
    forall j | 0 <= j <= |s| - |sep|
      ensures OccursAt(s, sep, j) ==> j == |a|
    {
      assert s[j..j + |sep|][m] == s[j + m];
    }
  }

  /** `s` reads `a + sep1 + b + sep2 + c` with exactly one `sep1`, right after `a`,
    * and, after it, exactly one `sep2`, right after `b`: the fragments that
    * `s.split(sep1)` and then `.split(sep2)` cut into three parts. */
  predicate ThreeParts(s: string, sep1: string, sep2: string, a: string, b: string, c: string) {
    SplitsAs(s, sep1, a, b + sep2 + c) && SplitsAs(b + sep2 + c, sep2, b, c)
  }

  /** A text that splits in two, whose second piece splits in two again, reads as its
    * three pieces. */
  lemma SplitTwice(s: string, sep1: string, sep2: string)
    requires sep1 != [] && sep2 != []
    requires |Split(s, sep1)| == 2 && |Split(Split(s, sep1)[1], sep2)| == 2
    ensures var halves := Split(s, sep1);
      var cross := Split(halves[1], sep2);
      ThreeParts(s, sep1, sep2, halves[0], cross[0], cross[1])
  {
    var halves := Split(s, sep1);
    var cross := Split(halves[1], sep2);
    SplitJoin(halves[1], sep2);
    JoinCons(cross[0], [cross[1]], sep2);
    assert halves[1] == cross[0] + sep2 + cross[1];
    assert halves == [halves[0], halves[1]] && cross == [cross[0], cross[1]];
    SplitPair(s, sep1, halves[0], halves[1]);
    SplitPair(halves[1], sep2, cross[0], cross[1]);
  }

  /** Conversely, a text that reads as three parts splits into them. */
  lemma ThreePartsSplit(s: string, sep1: string, sep2: string, a: string, b: string, c: string)
    requires sep1 != [] && sep2 != [] && ThreeParts(s, sep1, sep2, a, b, c)
    ensures Split(s, sep1) == [a, b + sep2 + c] && Split(b + sep2 + c, sep2) == [b, c]
  {
    SplitPair(s, sep1, a, b + sep2 + c);
    SplitPair(b + sep2 + c, sep2, b, c);
  }
}
