/** What `_standardize_street` and `clean_street` do to whole names: one entry of the
  * abbreviation table in each of the four places its patterns look (at the end, at
  * the end with a dot, in the middle, in the middle with a dot), the table loop
  * carrying one abbreviation through to its full word, the ordinal words, and worked
  * names taken from permits. */
module StreetRules {
  import opened Wrappers
  import opened Strings
  import opened Ordinals
  import opened StreetNames

  // ---------------------------------------------------------------------------
  // One entry of the table

  /** A name ending in `' abb.'`, with the abbreviation nowhere else after a space, gets
    * the full word in place of the abbreviation and its dot: "5 ave." -> "5 avenue". */
  lemma ExpandOneDotted(w: string, abb: string, full: string)
    requires Solid(abb) && Solid(full) && !Contains(w, " " + abb)
    ensures ExpandOne(w + " " + abb + ".", abb, full) == w + " " + full
  {
    var a := " " + abb;
    var s := w + " " + abb + ".";
    assert s == w + a + ".";
    OnlyAt(w, a, ".", a);
    EndsOnlyAt(s, a, |w|, []);
    assert a + [] == a;
    FollowedBy(s, a, |w|, "\n", 0);
    assert SubAtEnd(s, a, " " + full) == s;
    assert s[|s| - |a + "."|..] == a + "." && s[..|s| - |a + "."|] == w;
    assert SubAtEnd(s, a + ".", " " + full) == w + " " + full;
    TailAbsent(w, abb, full, " ");
    TailAbsent(w, abb, full, ". ");
    assert a + "." + " " == a + ". ";
    ReplaceAbsent(w + " " + full, a + " ", " " + full + " ");
    ReplaceAbsent(w + " " + full, a + ". ", " " + full + " ");
  }

  /** Inside a name, `' abb '` becomes `' full '`: "w 42 st between" -> "w 42 street
    * between". */
  lemma ExpandOneMid(w: string, abb: string, full: string, t: string)
    requires Solid(abb) && Solid(full) && |abb| < |full|
    requires !Contains(w, " " + abb) && !Contains(" " + t, " " + abb)
    ensures ExpandOne(w + " " + abb + " " + t, abb, full) == w + " " + full + " " + t
  {
    MidAtEnd(w, abb, t);
    MidSpaced(w, abb, full, t);
    SpelledUndotted(w, abb, full, " " + t);
    var s3 := w + " " + full + " " + t;
    assert s3 == w + " " + full + (" " + t);
    ReplaceAbsent(s3, " " + abb + ". ", " " + full + " ");
    ExpandOneChain(w + " " + abb + " " + t, abb, full, s3, s3);
  }

  /** `' abb. '` does not occur where the longer full word stands. */
  lemma SpelledUndotted(w: string, abb: string, full: string, q: string)
    requires Solid(abb) && Solid(full) && |abb| < |full|
    requires !Contains(w, " " + abb) && !Contains(q, " " + abb)
    ensures !Contains(w + " " + full + q, " " + abb + ". ")
  {
    var a := " " + abb;
    var s := w + " " + full + q;
    assert s == w + (" " + full) + q;
    OnlyAt(w, " " + full, q, a);
    assert s[|w| + |a|] == full[|abb|];
    FollowedBy(s, a, |w|, ". ", 0);
  }

  /** Neither end pattern of the entry for `abb` matches `s`. */
  predicate AtEndIdle(s: string, abb: string) {
    && !EndsWith(s, " " + abb) && !EndsWith(s, " " + abb + "\n")
    && !EndsWith(s, " " + abb + ".") && !EndsWith(s, " " + abb + ".\n")
  }

  /** The four steps of an entry, one after the other, when the end patterns do not
    * match. */
  lemma ExpandOneChain(s: string, abb: string, full: string, s3: string, r: string)
    requires AtEndIdle(s, abb)
    requires Replace(s, " " + abb + " ", " " + full + " ") == s3
    requires Replace(s3, " " + abb + ". ", " " + full + " ") == r
    ensures ExpandOne(s, abb, full) == r
  {
    assert " " + abb + "." + "\n" == " " + abb + ".\n";
  }

  /** The end patterns do not apply to `' abb '` inside a name. */
  lemma MidAtEnd(w: string, abb: string, t: string)
    requires Solid(abb) && !Contains(w, " " + abb) && !Contains(" " + t, " " + abb)
    ensures AtEndIdle(w + " " + abb + " " + t, abb)
  {
    var a := " " + abb;
    var q := " " + t;
    var s := w + " " + abb + " " + t;
    assert s == w + a + q;
    OnlyAt(w, a, q, a);
    assert s[|w| + |a|] == ' ';
    EndsOnlyAt(s, a, |w|, []);
    assert a + [] == a;
    FollowedBy(s, a, |w|, "\n", 0);
    FollowedBy(s, a, |w|, ".", 0);
    FollowedBy(s, a, |w|, ".\n", 0);
    assert a + "." + "\n" == a + ".\n";
  }

  /** The spaced pattern is first found right after `w`, and not again in `t`. */
  lemma MidSpaced(w: string, abb: string, full: string, t: string)
    requires Solid(abb) && !Contains(w, " " + abb) && !Contains(" " + t, " " + abb)
    ensures Replace(w + " " + abb + " " + t, " " + abb + " ", " " + full + " ")
         == w + " " + full + " " + t
  {
    var m := " " + abb + " ";
    OnlyAfter(w, abb, " ", t);
    TailFree(t, abb, " ");
    ReplaceOnce(w, m, t, " " + full + " ");
    assert w + " " + abb + " " + t == w + m + t;
    assert w + (" " + full + " ") + t == w + " " + full + " " + t;
  }

  /** The first `' abb'` after `w` is the one right after it. */
  lemma OnlyAfter(w: string, abb: string, y: string, t: string)
    requires Solid(abb) && !Contains(w, " " + abb) && !Contains(y + t, " " + abb)
    ensures forall j :: 0 <= j < |w| ==> !OccursAt(w + (" " + abb + y) + t, " " + abb + y, j)
  {
    var a := " " + abb;
    var s := w + (a + y) + t;
    assert s == w + a + (y + t);
    OnlyAt(w, a, y + t, a);
    FirstAt(s, a, y, |w|);
  }

  /** A rest without `' abb'` after its leading space has no pattern of the entry. */
  lemma TailFree(t: string, abb: string, y: string)
    requires !Contains(" " + t, " " + abb)
    ensures !Contains(t, " " + abb + y)
  {
    SuffixFree(" " + t, 1, " " + abb);
    assert (" " + t)[1..] == t;
    LongerAbsent(t, " " + abb, y);
  }

  /** Inside a name, `' abb. '` becomes `' full '`: "5 ave. and" -> "5 avenue and". */
  lemma ExpandOneDottedMid(w: string, abb: string, full: string, t: string)
    requires Solid(abb) && Solid(full)
    requires !Contains(w, " " + abb) && !Contains(" " + t, " " + abb)
    ensures ExpandOne(w + " " + abb + ". " + t, abb, full) == w + " " + full + " " + t
  {
    var s := w + " " + abb + ". " + t;
    DottedMidIdle(w, abb, full, t);
    DottedMidReplaced(w, abb, full, t);
    ExpandOneChain(s, abb, full, s, w + " " + full + " " + t);
  }

  /** The end patterns and the spaced pattern do not apply to `' abb. '` inside a name. */
  lemma DottedMidIdle(w: string, abb: string, full: string, t: string)
    requires Solid(abb) && !Contains(w, " " + abb) && !Contains(" " + t, " " + abb)
    ensures var s := w + " " + abb + ". " + t;
      AtEndIdle(s, abb) && Replace(s, " " + abb + " ", " " + full + " ") == s
  {
    var a := " " + abb;
    var q := ". " + t;
    var s := w + " " + abb + ". " + t;
    assert s == w + a + q;
    assert q == "." + (" " + t);
    SpaceLedJoin(".", " " + t, a);
    OnlyAt(w, a, q, a);
    assert s[|w| + |a|] == '.' && s[|w| + |a| + 1] == ' ';
    EndsOnlyAt(s, a, |w|, []);
    assert a + [] == a;
    EndsOnlyAt(s, a, |w|, "\n");
    EndsOnlyAt(s, a, |w|, ".");
    FollowedBy(s, a, |w|, ".\n", 1);
    assert a + "." + "\n" == a + ".\n";
    FollowedBy(s, a, |w|, " ", 0);
    ReplaceAbsent(s, a + " ", " " + full + " ");
  }

  /** The dotted pattern is first found right after `w`, and not again in `t`. */
  lemma DottedMidReplaced(w: string, abb: string, full: string, t: string)
    requires Solid(abb) && !Contains(w, " " + abb) && !Contains(" " + t, " " + abb)
    ensures Replace(w + " " + abb + ". " + t, " " + abb + ". ", " " + full + " ")
         == w + " " + full + " " + t
  {
    var m := " " + abb + ". ";
    assert ". " + t == "." + (" " + t);
    SpaceLedJoin(".", " " + t, " " + abb);
    OnlyAfter(w, abb, ". ", t);
    TailFree(t, abb, ". ");
    ReplaceOnce(w, m, t, " " + full + " ");
    assert w + " " + abb + ". " + t == w + m + t;
    assert w + (" " + full + " ") + t == w + " " + full + " " + t;
  }

  /** An entry leaves its own full word alone: none of its patterns matches where the
    * longer full word stands. */
  lemma ExpandOneSpelled(w: string, abb: string, full: string, tail: string)
    requires Solid(abb) && Solid(full) && |abb| < |full|
    requires !Contains(w, " " + abb) && !Contains(tail, " " + abb)
    ensures ExpandOne(w + " " + full + tail, abb, full) == w + " " + full + tail
  {
    var a := " " + abb;
    var f := " " + full;
    var s := w + " " + full + tail;
    assert s == w + f + tail;
    OnlyAt(w, f, tail, a);
    assert s[|w| + |a|] == full[|abb|];
    EndsOnlyAt(s, a, |w|, []);
    assert a + [] == a;
    FollowedBy(s, a, |w|, "\n", 0);
    FollowedBy(s, a, |w|, ".", 0);
    FollowedBy(s, a, |w|, ".\n", 0);
    assert a + "." + "\n" == a + ".\n";
    FollowedBy(s, a, |w|, " ", 0);
    FollowedBy(s, a, |w|, ". ", 0);
    assert a + "." + " " == a + ". ";
    ReplaceAbsent(s, a + " ", " " + full + " ");
    ReplaceAbsent(s, a + ". ", " " + full + " ");
  }

  /** One entry turns its key into its full word in each of the four places. */
  lemma ExpandOneEntry(w: string, abb: string, full: string, dot: string, tail: string)
    requires Solid(abb) && Solid(full) && |abb| < |full|
    requires (dot == "" || dot == ".") && (tail == [] || tail[0] == ' ')
    requires !Contains(w, " " + abb) && !Contains(tail, " " + abb)
    ensures ExpandOne(w + " " + abb + dot + tail, abb, full) == w + " " + full + tail
  {
    var s := w + " " + abb + dot + tail;
    if tail == [] {
      assert w + " " + full + tail == w + " " + full;
      if dot == "" {
        assert s == w + " " + abb;
        ExpandOneAtEnd(w, abb, full);
      } else {
        assert s == w + " " + abb + ".";
        ExpandOneDotted(w, abb, full);
      }
    } else {
      var t := tail[1..];
      assert tail == " " + t;
      assert w + " " + full + tail == w + " " + full + " " + t;
      if dot == "" {
        assert s == w + " " + abb + " " + t;
        ExpandOneMid(w, abb, full, t);
      } else {
        assert s == w + " " + abb + ". " + t;
        ExpandOneDottedMid(w, abb, full, t);
      }
    }
  }

  // ---------------------------------------------------------------------------
  // The whole table

  /** No key of the table follows a space in `s`. */
  predicate NoKey(s: string) {
    forall i :: 0 <= i < |ABBREVIATIONS| ==> !Contains(s, " " + ABBREVIATIONS[i].0)
  }

  /** `x` and `y` differ in one of their first two characters. */
  predicate Apart(x: string, y: string) {
    |x| >= 2 && |y| >= 2 && (x[0] != y[0] || x[1] != y[1])
  }

  /** Every key and full word of the table is one word, and every key is shorter than
    * its full word. */
  lemma TableWords()
    ensures forall i :: 0 <= i < |ABBREVIATIONS| ==>
      && Solid(ABBREVIATIONS[i].0) && Solid(ABBREVIATIONS[i].1)
      && |ABBREVIATIONS[i].0| < |ABBREVIATIONS[i].1|
  {
  }

  /** Two leading letters tell every key from every other key and from every other
    * entry's full word. */
  lemma TableApart()
    ensures forall i, k :: 0 <= i < |ABBREVIATIONS| && 0 <= k < |ABBREVIATIONS| && i != k ==>
      Apart(ABBREVIATIONS[k].0, ABBREVIATIONS[i].0) && Apart(ABBREVIATIONS[k].1, ABBREVIATIONS[i].0)
  {
  }

  /** `' y'` does not occur in `' x'` when `x` is one word that starts unlike `y`. */
  lemma KeyApart(x: string, y: string)
    requires Apart(x, y) && forall k :: 0 <= k < |x| ==> x[k] != ' '
    ensures !Contains(" " + x, " " + y)
  {
    var s := " " + x;
    var m := " " + y;
    forall j | 0 <= j <= |s|
      ensures !OccursAt(s, m, j)
    {
      if j + |m| <= |s| {
        assert s[j..j + |m|][0] == s[j];
        if j == 0 {
          assert s[j..j + |m|][1] == x[0] && s[j..j + |m|][2] == x[1];
        }
      }
    }
  }

  /** A word that starts unlike key `i` brings no `' key'` into a name that had none. */
  lemma WordKeyFree(w: string, x: string, tail: string, i: nat)
    requires i < |ABBREVIATIONS| && Apart(x, ABBREVIATIONS[i].0)
    requires forall k :: 0 <= k < |x| ==> x[k] != ' '
    requires tail == [] || tail[0] == ' '
    requires NoKey(w) && NoKey(tail)
    ensures !Contains(w + " " + x + tail, " " + ABBREVIATIONS[i].0)
  {
    TableWords();
    var m := " " + ABBREVIATIONS[i].0;
    assert SpaceLed(m);
    KeyApart(x, ABBREVIATIONS[i].0);
    SpaceLedJoin(" " + x, tail, m);
    SpaceLedJoin(w, " " + x + tail, m);
    assert w + " " + x + tail == w + (" " + x + tail);
  }

  /** The rest of the table leaves alone a name holding none of its keys. */
  lemma {:induction false} ExpandAllKeeps(s: string, m: nat, n: nat)
    requires m <= n <= |ABBREVIATIONS|
    requires forall i :: m <= i < n ==> !Contains(ExpandAll(s, m), " " + ABBREVIATIONS[i].0)
    ensures ExpandAll(s, n) == ExpandAll(s, m)
    decreases n
  {
    if n > m {
      ExpandAllKeeps(s, m, n - 1);
      ExpandOneAbsent(ExpandAll(s, m), ABBREVIATIONS[n - 1].0, ABBREVIATIONS[n - 1].1);
    }
  }

  /** The table loop turns one key, at the end or before a space, with or without its
    * dot, into its full word, when no other key follows a space in the name:
    * "grand st" -> "grand street", "5 ave." -> "5 avenue". */
  lemma ExpandAllEntry(w: string, k: nat, dot: string, tail: string)
    requires k < |ABBREVIATIONS| && (dot == "" || dot == ".") && (tail == [] || tail[0] == ' ')
    requires NoKey(w) && NoKey(tail)
    ensures ExpandAll(w + " " + ABBREVIATIONS[k].0 + dot + tail, |ABBREVIATIONS|)
         == w + " " + ABBREVIATIONS[k].1 + tail
  {
    TableWords();
    TableApart();
    var (abb, full) := ABBREVIATIONS[k];
    var s := w + " " + abb + dot + tail;
    var r := w + " " + full + tail;
    assert s == w + " " + (abb + dot) + tail;
    forall i | 0 <= i < k
      ensures !Contains(s, " " + ABBREVIATIONS[i].0)
    {
      WordKeyFree(w, abb + dot, tail, i);
    }
    ExpandAllAbsent(s, k);
    ExpandOneEntry(w, abb, full, dot, tail);
    assert ExpandAll(s, k + 1) == r;
    forall i | k < i < |ABBREVIATIONS|
      ensures !Contains(r, " " + ABBREVIATIONS[i].0)
    {
      WordKeyFree(w, full, tail, i);
    }
    ExpandAllKeeps(s, k + 1, |ABBREVIATIONS|);
  }

  /** The table loop leaves a spelled-out full word alone. */
  lemma ExpandAllSpelled(w: string, k: nat, tail: string)
    requires k < |ABBREVIATIONS| && (tail == [] || tail[0] == ' ')
    requires NoKey(w) && NoKey(tail)
    ensures var s := w + " " + ABBREVIATIONS[k].1 + tail;
      ExpandAll(s, |ABBREVIATIONS|) == s
  {
    var s := w + " " + ABBREVIATIONS[k].1 + tail;
    OtherKeysFree(w, k, tail);
    ExpandAllAbsent(s, k);
    TableWords();
    ExpandOneSpelled(w, ABBREVIATIONS[k].0, ABBREVIATIONS[k].1, tail);
    ExpandAllKeeps(s, k + 1, |ABBREVIATIONS|);
  }

  /** Only its own key can follow a space where a full word stands. */
  lemma OtherKeysFree(w: string, k: nat, tail: string)
    requires k < |ABBREVIATIONS| && (tail == [] || tail[0] == ' ')
    requires NoKey(w) && NoKey(tail)
    ensures forall i :: 0 <= i < |ABBREVIATIONS| && i != k ==>
      !Contains(w + " " + ABBREVIATIONS[k].1 + tail, " " + ABBREVIATIONS[i].0)
  {
    TableWords();
    TableApart();
    forall i | 0 <= i < |ABBREVIATIONS| && i != k
      ensures !Contains(w + " " + ABBREVIATIONS[k].1 + tail, " " + ABBREVIATIONS[i].0)
    {
      WordKeyFree(w, ABBREVIATIONS[k].1, tail, i);
    }
  }

  /** An abbreviated name standardizes exactly as its spelled-out form does. */
  lemma StandardizedEntry(w: string, k: nat, dot: string, tail: string)
    requires k < |ABBREVIATIONS| && (dot == "" || dot == ".") && (tail == [] || tail[0] == ' ')
    requires NoKey(w) && NoKey(tail)
    ensures Standardized(w + " " + ABBREVIATIONS[k].0 + dot + tail)
         == Standardized(w + " " + ABBREVIATIONS[k].1 + tail)
  {
    ExpandAllEntry(w, k, dot, tail);
    ExpandAllSpelled(w, k, tail);
  }

  /** A name without spaces holds no `' key'`. */
  lemma SpacelessNoKey(x: string)
    requires forall k :: 0 <= k < |x| ==> x[k] != ' '
    ensures NoKey(x)
  {
    forall i | 0 <= i < |ABBREVIATIONS|
      ensures !Contains(x, " " + ABBREVIATIONS[i].0)
    {
      MissingChar(x, " " + ABBREVIATIONS[i].0, 0);
    }
  }

  /** A word that starts unlike every key keeps a name free of keys. */
  lemma AppendNoKey(w: string, x: string)
    requires NoKey(w) && forall k :: 0 <= k < |x| ==> x[k] != ' '
    requires forall i :: 0 <= i < |ABBREVIATIONS| ==> Apart(x, ABBREVIATIONS[i].0)
    ensures NoKey(w + " " + x)
  {
    forall i | 0 <= i < |ABBREVIATIONS|
      ensures !Contains(w + " " + x, " " + ABBREVIATIONS[i].0)
    {
      WordKeyFree(w, x, [], i);
      assert w + " " + x + [] == w + " " + x;
    }
  }

  // ---------------------------------------------------------------------------
  // The rules after the table

  /** `s` starts with none of "b ", "st", "mt", "ft", which the prefix rules rewrite. */
  predicate Unprefixed(s: string) {
    |s| < 2 || !(
      || (s[0] == 'b' && s[1] == ' ') || (s[0] == 's' && s[1] == 't')
      || (s[0] == 'm' && s[1] == 't') || (s[0] == 'f' && s[1] == 't'))
  }

  /** The ordinal words leave alone a name holding none of them. */
  lemma {:induction false} OrdinalWordsAbsent(s: string, n: nat)
    requires n <= |ORDINAL_WORDS|
    requires forall j :: 0 <= j < n ==> !Contains(s, ORDINAL_WORDS[j].0)
    ensures OrdinalWords(s, n) == s
  {
    if n > 0 {
      OrdinalWordsAbsent(s, n - 1);
      ReplaceAbsent(s, ORDINAL_WORDS[n - 1].0, ORDINAL_WORDS[n - 1].1);
    }
  }

  /** The later ordinal words leave alone a name holding none of them. */
  lemma {:induction false} OrdinalWordsKeeps(s: string, m: nat, n: nat)
    requires m <= n <= |ORDINAL_WORDS|
    requires forall j :: m <= j < n ==> !Contains(OrdinalWords(s, m), ORDINAL_WORDS[j].0)
    ensures OrdinalWords(s, n) == OrdinalWords(s, m)
    decreases n
  {
    if n > m {
      OrdinalWordsKeeps(s, m, n - 1);
      ReplaceAbsent(OrdinalWords(s, m), ORDINAL_WORDS[n - 1].0, ORDINAL_WORDS[n - 1].1);
    }
  }

  /** After the table loop, the rest of `_standardize_street` leaves alone a name with
    * no apostrophe, none of the rewritten prefixes and no ordinal word. */
  lemma AfterTableSettled(s: string)
    requires forall k :: 0 <= k < |s| ==> s[k] != '\''
    requires Unprefixed(s)
    requires forall j :: 0 <= j < |ORDINAL_WORDS| ==> !Contains(s, ORDINAL_WORDS[j].0)
    ensures OrdinalWords(Prefixes(Replace(s, "'", "")), |ORDINAL_WORDS|) == s
  {
    MissingChar(s, "'", 0);
    ReplaceAbsent(s, "'", "");
    PrefixesUnprefixed(s);
    OrdinalWordsAbsent(s, |ORDINAL_WORDS|);
  }

  /** A name with one abbreviated key standardizes to the name with the key spelled
    * out, when nothing else in it is rewritten. */
  lemma StandardizedEntrySettled(w: string, k: nat, dot: string, tail: string)
    requires k < |ABBREVIATIONS| && (dot == "" || dot == ".") && (tail == [] || tail[0] == ' ')
    requires NoKey(w) && NoKey(tail)
    requires var r := w + " " + ABBREVIATIONS[k].1 + tail;
      && (forall c :: 0 <= c < |r| ==> r[c] != '\'')
      && Unprefixed(r)
      && (forall j :: 0 <= j < |ORDINAL_WORDS| ==> !Contains(r, ORDINAL_WORDS[j].0))
    ensures Standardized(w + " " + ABBREVIATIONS[k].0 + dot + tail) == w + " " + ABBREVIATIONS[k].1 + tail
  {
    ExpandAllEntry(w, k, dot, tail);
    AfterTableSettled(w + " " + ABBREVIATIONS[k].1 + tail);
  }

  /** The same, for a key that ends the name. */
  lemma StandardizedKeyAtEnd(w: string, k: nat)
    requires k < |ABBREVIATIONS| && NoKey(w)
    requires var r := w + " " + ABBREVIATIONS[k].1;
      && (forall c :: 0 <= c < |r| ==> r[c] != '\'')
      && Unprefixed(r)
      && (forall j :: 0 <= j < |ORDINAL_WORDS| ==> !Contains(r, ORDINAL_WORDS[j].0))
    ensures Standardized(w + " " + ABBREVIATIONS[k].0) == w + " " + ABBREVIATIONS[k].1
  {
    var abb, full := ABBREVIATIONS[k].0, ABBREVIATIONS[k].1;
    assert w + " " + abb + "" + "" == w + " " + abb;
    assert w + " " + full + "" == w + " " + full;
    SpacelessNoKey("");
    StandardizedEntrySettled(w, k, "", "");
  }

  /** The same, for a dotted key that ends the name. */
  lemma StandardizedDottedAtEnd(w: string, k: nat)
    requires k < |ABBREVIATIONS| && NoKey(w)
    requires var r := w + " " + ABBREVIATIONS[k].1;
      && (forall c :: 0 <= c < |r| ==> r[c] != '\'')
      && Unprefixed(r)
      && (forall j :: 0 <= j < |ORDINAL_WORDS| ==> !Contains(r, ORDINAL_WORDS[j].0))
    ensures Standardized(w + " " + ABBREVIATIONS[k].0 + ".") == w + " " + ABBREVIATIONS[k].1
  {
    var abb, full := ABBREVIATIONS[k].0, ABBREVIATIONS[k].1;
    assert w + " " + abb + "." + "" == w + " " + abb + ".";
    assert w + " " + full + "" == w + " " + full;
    SpacelessNoKey("");
    StandardizedEntrySettled(w, k, ".", "");
  }

  /** The table loop leaves a name ending in a spelled-out full word alone. */
  lemma ExpandAllSpelledAtEnd(w: string, k: nat)
    requires k < |ABBREVIATIONS| && NoKey(w)
    ensures var s := w + " " + ABBREVIATIONS[k].1;
      ExpandAll(s, |ABBREVIATIONS|) == s
  {
    SpacelessNoKey("");
    ExpandAllSpelled(w, k, "");
    assert w + " " + ABBREVIATIONS[k].1 + "" == w + " " + ABBREVIATIONS[k].1;
  }

  /** A name starting with an ordinal word, with no other ordinal word after it, gets
    * the numeral in its place. */
  lemma OrdinalWordsLeading(k: nat, t: string)
    requires k < |ORDINAL_WORDS| && (t == [] || t[0] == ' ')
    requires forall j :: 0 <= j < |ORDINAL_WORDS| && j != k ==>
      !Contains(ORDINAL_WORDS[k].0 + t, ORDINAL_WORDS[j].0)
    requires !Contains(t, ORDINAL_WORDS[k].0)
    ensures OrdinalWords(ORDINAL_WORDS[k].0 + t, |ORDINAL_WORDS|) == ORDINAL_WORDS[k].1 + t
  {
    var w: string := [];
    assert w + ORDINAL_WORDS[k].0 + t == ORDINAL_WORDS[k].0 + t;
    assert w + ORDINAL_WORDS[k].1 + t == ORDINAL_WORDS[k].1 + t;
    OrdinalWordsEntry(w, k, t);
  }

  /** A name made of an ordinal word and a spelled-out full word standardizes to the
    * numeral and the full word. */
  lemma StandardizedOrdinalFull(k: nat, i: nat)
    requires k < |ORDINAL_WORDS| && i < |ABBREVIATIONS|
    requires var r := ORDINAL_WORDS[k].0 + " " + ABBREVIATIONS[i].1;
      && (forall c :: 0 <= c < |r| ==> r[c] != '\'')
      && Unprefixed(r)
      && (forall j :: 0 <= j < |ORDINAL_WORDS| && j != k ==> !Contains(r, ORDINAL_WORDS[j].0))
      && !Contains(" " + ABBREVIATIONS[i].1, ORDINAL_WORDS[k].0)
    ensures Standardized(ORDINAL_WORDS[k].0 + " " + ABBREVIATIONS[i].1)
      == ORDINAL_WORDS[k].1 + " " + ABBREVIATIONS[i].1
  {
    var word, full := ORDINAL_WORDS[k].0, ABBREVIATIONS[i].1;
    OrdinalFullSettled(k, i);
    OrdinalWordFirst(k, full);
  }

  /** An ordinal word followed by one more word gets the numeral in its place. */
  lemma OrdinalWordFirst(k: nat, full: string)
    requires k < |ORDINAL_WORDS|
    requires forall j :: 0 <= j < |ORDINAL_WORDS| && j != k ==>
      !Contains(ORDINAL_WORDS[k].0 + " " + full, ORDINAL_WORDS[j].0)
    requires !Contains(" " + full, ORDINAL_WORDS[k].0)
    ensures OrdinalWords(ORDINAL_WORDS[k].0 + " " + full, |ORDINAL_WORDS|)
      == ORDINAL_WORDS[k].1 + " " + full
  {
    var word := ORDINAL_WORDS[k].0;
    assert word + " " + full == word + (" " + full);
    OrdinalWordsLeading(k, " " + full);
    assert ORDINAL_WORDS[k].1 + (" " + full) == ORDINAL_WORDS[k].1 + " " + full;
  }

  /** The steps before the ordinal words leave such a name alone. */
  lemma OrdinalFullSettled(k: nat, i: nat)
    requires k < |ORDINAL_WORDS| && i < |ABBREVIATIONS|
    requires var r := ORDINAL_WORDS[k].0 + " " + ABBREVIATIONS[i].1;
      (forall c :: 0 <= c < |r| ==> r[c] != '\'') && Unprefixed(r)
    ensures var r := ORDINAL_WORDS[k].0 + " " + ABBREVIATIONS[i].1;
      Prefixes(Replace(ExpandAll(r, |ABBREVIATIONS|), "'", "")) == r
  {
    var word, full := ORDINAL_WORDS[k].0, ABBREVIATIONS[i].1;
    var r := word + " " + full;
    OrdinalTable();
    SpacelessNoKey(word);
    ExpandAllSpelledAtEnd(word, i);
    MissingChar(r, "'", 0);
    ReplaceAbsent(r, "'", "");
    PrefixesUnprefixed(r);
  }

  /** The prefix rules leave alone a name starting with none of their prefixes. */
  lemma PrefixesUnprefixed(s: string)
    requires Unprefixed(s)
    ensures Prefixes(s) == s
  {
    if |s| >= 2 {
      assert s[..2][0] == s[0] && s[..2][1] == s[1];
    }
    PrefixesOther(s);
  }

  /** No key follows a space when no space is followed by a letter starting a key. */
  lemma NoKeyAfterSpaces(s: string)
    requires forall k :: 0 <= k < |s| - 1 && s[k] == ' ' ==> s[k + 1] !in "sacbrlepd"
    ensures NoKey(s)
  {
    forall i | 0 <= i < |ABBREVIATIONS|
      ensures !Contains(s, " " + ABBREVIATIONS[i].0)
    {
      MissingPair(s, " " + ABBREVIATIONS[i].0, 0);
    }
  }

  /** `_standardize_street` leaves alone a name with no key after a space, no
    * apostrophe, none of the rewritten prefixes and no ordinal word. */
  lemma StandardizedSettled(s: string)
    requires forall k :: 0 <= k < |s| ==> s[k] != '\''
    requires NoKey(s) && Unprefixed(s)
    requires forall j :: 0 <= j < |ORDINAL_WORDS| ==> !Contains(s, ORDINAL_WORDS[j].0)
    ensures Standardized(s) == s
  {
    ExpandAllAbsent(s, |ABBREVIATIONS|);
    AfterTableSettled(s);
  }

  /** The rules of `clean_street` leave alone a lower-case name without digits that
    * `_standardize_street` and `_abb_replace` leave alone. */
  lemma RewrittenSettled(s: string)
    requires forall k :: 0 <= k < |s| ==> !IsUpper(s[k]) && !IsDigit(s[k]) && s[k] != '\''
    requires NoKey(s) && Unprefixed(s) && Unanchored(s)
    requires forall j :: 0 <= j < |ORDINAL_WORDS| ==> !Contains(s, ORDINAL_WORDS[j].0)
    ensures Rewritten(s) == s
  {
    LowerFixed(s);
    StandardizedSettled(s);
    var none: string := [];
    QuietAllNoDigits(none, s);
    assert none + s == s;
    AbbReplaceQuiet(s);
    OrdinalRepFixedPoints(s);
  }

  /** Every ordinal word holds an 'f', a 'c' or an 'h'. */
  lemma NoOrdinalWords(x: string)
    requires forall k :: 0 <= k < |x| ==> x[k] != 'h' && x[k] != 'f' && x[k] != 'c'
    ensures forall j :: 0 <= j < |ORDINAL_WORDS| ==> !Contains(x, ORDINAL_WORDS[j].0)
  {
    OrdinalTable();
    forall j | 0 <= j < |ORDINAL_WORDS|
      ensures !Contains(x, ORDINAL_WORDS[j].0)
    {
      var word := ORDINAL_WORDS[j].0;
      if j == 0 {
        MissingChar(x, word, 0);
      } else if j == 1 {
        MissingChar(x, word, 2);
      } else if j == 2 {
        MissingChar(x, word, 1);
      } else {
        MissingChar(x, word, |word| - 1);
      }
    }
  }

  /** The ordinal words are single words, longer than the numerals replacing them. */
  lemma OrdinalTable()
    ensures forall j :: 0 <= j < |ORDINAL_WORDS| ==>
      && |ORDINAL_WORDS[j].1| < 5 <= |ORDINAL_WORDS[j].0|
      && (3 <= j ==> ORDINAL_WORDS[j].0[|ORDINAL_WORDS[j].0| - 1] == 'h')
      && forall c :: 0 <= c < |ORDINAL_WORDS[j].0| ==> ORDINAL_WORDS[j].0[c] != ' '
  {
  }

  /** A word standing on its own, found once, is replaced there and nowhere else. */
  lemma WordReplaced(w: string, word: string, t: string, rep: string)
    requires word != [] && forall c :: 0 <= c < |word| ==> word[c] != ' '
    requires w == [] || w[|w| - 1] == ' '
    requires !Contains(w, word) && !Contains(t, word)
    ensures Replace(w + word + t, word, rep) == w + rep + t
  {
    var s := w + word + t;
    forall j | 0 <= j < |w|
      ensures !OccursAt(s, word, j)
    {
      if j + |word| <= |s| {
        var x := s[j..j + |word|];
        if j + |word| <= |w| {
          assert x == w[j..j + |word|];
          assert !OccursAt(w, word, j);
        } else {
          assert x[|w| - 1 - j] == s[|w| - 1];
        }
      }
    }
    ReplaceOnce(w, word, t, rep);
  }

  /** The numeral brings no ordinal word into a name that had none. */
  lemma NumeralFree(w: string, numeral: string, t: string, word: string)
    requires |numeral| < |word| && forall c :: 0 <= c < |word| ==> word[c] != ' '
    requires w == [] || w[|w| - 1] == ' '
    requires t == [] || t[0] == ' '
    requires !Contains(w, word) && !Contains(t, word)
    ensures !Contains(w + numeral + t, word)
  {
    var nt := numeral + t;
    if t != [] {
      SpaceFreeJoin(numeral, t, word);
    } else {
      assert nt == numeral;
    }
    if w != [] {
      SpaceFreeJoin(w, nt, word);
    } else {
      assert w + numeral + t == nt;
    }
    assert w + numeral + t == w + nt;
  }

  /** An ordinal word standing as a word of its own, with no other ordinal word in the
    * name, becomes its numeral: "fifth avenue" -> "5th avenue". */
  lemma OrdinalWordsEntry(w: string, k: nat, t: string)
    requires k < |ORDINAL_WORDS|
    requires (w == [] || w[|w| - 1] == ' ') && (t == [] || t[0] == ' ')
    requires forall j :: 0 <= j < |ORDINAL_WORDS| && j != k ==>
      !Contains(w + ORDINAL_WORDS[k].0 + t, ORDINAL_WORDS[j].0)
    requires !Contains(w, ORDINAL_WORDS[k].0) && !Contains(t, ORDINAL_WORDS[k].0)
    ensures OrdinalWords(w + ORDINAL_WORDS[k].0 + t, |ORDINAL_WORDS|) == w + ORDINAL_WORDS[k].1 + t
  {
    OrdinalTable();
    var (word, numeral) := ORDINAL_WORDS[k];
    var s := w + word + t;
    var r := w + numeral + t;
    OrdinalWordsAbsent(s, k);
    WordReplaced(w, word, t, numeral);
    assert OrdinalWords(s, k + 1) == r;
    LaterWordsFree(w, k, t);
    OrdinalWordsKeeps(s, k + 1, |ORDINAL_WORDS|);
  }

  /** Replacing the word by its numeral brings in no later ordinal word. */
  lemma LaterWordsFree(w: string, k: nat, t: string)
    requires k < |ORDINAL_WORDS|
    requires (w == [] || w[|w| - 1] == ' ') && (t == [] || t[0] == ' ')
    requires forall j :: 0 <= j < |ORDINAL_WORDS| && j != k ==>
      !Contains(w + ORDINAL_WORDS[k].0 + t, ORDINAL_WORDS[j].0)
    ensures forall j :: k < j < |ORDINAL_WORDS| ==>
      !Contains(w + ORDINAL_WORDS[k].1 + t, ORDINAL_WORDS[j].0)
  {
    OrdinalTable();
    var (word, numeral) := ORDINAL_WORDS[k];
    var s := w + word + t;
    assert s[..|w|] == w && s[|w| + |word|..] == t;
    forall j | k < j < |ORDINAL_WORDS|
      ensures !Contains(w + numeral + t, ORDINAL_WORDS[j].0)
    {
      var other := ORDINAL_WORDS[j].0;
      PrefixFree(s, |w|, other);
      SuffixFree(s, |w| + |word|, other);
      NumeralFree(w, numeral, t, other);
    }
  }

  // ---------------------------------------------------------------------------
  // Helpers for the worked names

  /** A text without digits has no direction letter before a digit. */
  lemma {:induction false} QuietNoDigits(t: string, c: char)
    requires forall k :: 0 <= k < |t| ==> !IsDigit(t[k])
    ensures Quiet(t, c)
    decreases |t|
  {
    if t != [] {
      QuietNoDigits(t[1..], c);
    }
  }

  /** A text with no digit after its first character is quiet for every direction. */
  lemma QuietAllNoDigits(head: string, t: string)
    requires |head| <= 1 && forall k :: 0 <= k < |t| ==> !IsDigit(t[k])
    ensures QuietAll(head + t)
  {
    assert head + t == t || (head + t)[1..] == t;
    QuietNoDigits(t, 'e');
    QuietNoDigits(t, 'w');
    QuietNoDigits(t, 'n');
    QuietNoDigits(t, 's');
  }

  /** Lower-casing leaves a text without capitals alone. */
  lemma LowerFixed(s: string)
    requires forall k :: 0 <= k < |s| ==> !IsUpper(s[k])
    ensures Lower(s) == s
  {
  }
}
