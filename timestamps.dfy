/** The permit feed's timestamps. `_clean_datetime` turns the ISO spelling
  * "2020-06-01T07:00:00.000" into a `datetime`: it joins the pieces around the `T`
  * with a space, drops everything from the first `.`, and hands the rest to
  * `datetime.strptime(..., '%Y-%m-%d %H:%M:%S')`. A `ValueError` is `None` here. */
module Timestamps {
  import opened Wrappers
  import opened Strings

  datatype DateTime = DateTime(year: int, month: int, day: int, hour: int, minute: int, second: int)

  predicate IsLeapYear(y: int) {
    y % 4 == 0 && (y % 100 != 0 || y % 400 == 0)
  }

  function DaysInMonth(y: int, m: int): (n: int)
    requires 1 <= m <= 12
    ensures 28 <= n <= 31
  {
    if m == 2 then (if IsLeapYear(y) then 29 else 28)
    else if m == 4 || m == 6 || m == 9 || m == 11 then 30
    else 31
  }

  /** What the `datetime` constructor accepts: years 1 to 9999, a day that exists in
    * its month, and a time of day without leap seconds. */
  predicate Valid(d: DateTime) {
    && 1 <= d.year <= 9999
    && 1 <= d.month <= 12
    && 1 <= d.day <= DaysInMonth(d.year, d.month)
    && 0 <= d.hour <= 23
    && 0 <= d.minute <= 59
    && 0 <= d.second <= 59
  }

  // ---------------------------------------------------------------------------
  // `datetime.strptime(s, '%Y-%m-%d %H:%M:%S')`

  /** A numeric field that a directive read: its value and the index just after it. */
  datatype Field = Field(value: nat, end: nat)

  /** The directives `%m`, `%H`, `%M` and `%S` match one or two digits. Every
    * separator after them is a non-digit, so a run of three or more digits never
    * matches, and a run of one or two matches whole. */
  function ShortNumber(s: string, i: nat): (r: Option<Field>)
    requires i <= |s|
    ensures r.Some? ==> i < r.value.end <= i + 2 && r.value.end <= |s|
    ensures r.Some? ==> r.value.end < |s| ==> !IsDigit(s[r.value.end])
  {
    var j := DigitsEnd(s, i);
    if i < j <= i + 2 then Some(Field(Value(s[i..j]), j)) else None
  }

  /** `%d` matches like the others, or a space followed by a single digit. */
  function DayNumber(s: string, i: nat): (r: Option<Field>)
    requires i <= |s|
    ensures r.Some? ==> i < r.value.end <= |s|
  {
    if i < |s| && s[i] == ' ' then
      if i + 1 < |s| && IsDigit(s[i + 1]) then Some(Field(DigitValue(s[i + 1]), i + 2)) else None
    else ShortNumber(s, i)
  }

  /** The index after the run of whitespace at `i`: the format's space matches `\s+`. */
  function SpaceEnd(s: string, i: nat): (j: nat)
    requires i <= |s|
    ensures i <= j <= |s|
    ensures j < |s| ==> !IsSpace(s[j])
    decreases |s| - i
  {
    if i < |s| && IsSpace(s[i]) then SpaceEnd(s, i + 1) else i
  }

  /** The field is present and the character `c` follows it. */
  predicate FollowedBy(s: string, f: Option<Field>, c: char) {
    f.Some? && f.value.end < |s| && s[f.value.end] == c
  }

  /** `datetime.strptime(s, '%Y-%m-%d %H:%M:%S')`: four digits of year, then the
    * fields with their separators, nothing left over, and a valid date and time. */
  function Strptime(s: string): (r: Option<DateTime>)
    ensures r.Some? ==> Valid(r.value)
  {
    if |s| < 5 || !AllDigits(s[..4]) || s[4] != '-' then None
    else
      var month := ShortNumber(s, 5);
      if !FollowedBy(s, month, '-') then None
      else
        var day := DayNumber(s, month.value.end + 1);
        if day.None? then None
        else
          var gap := SpaceEnd(s, day.value.end);
          if gap == day.value.end then None
          else
            var hour := ShortNumber(s, gap);
            if !FollowedBy(s, hour, ':') then None
            else
              var minute := ShortNumber(s, hour.value.end + 1);
              if !FollowedBy(s, minute, ':') then None
              else
                var second := ShortNumber(s, minute.value.end + 1);
                if second.None? || second.value.end != |s| then None
                else
                  var d := DateTime(Value(s[..4]), month.value.value, day.value.value,
                                    hour.value.value, minute.value.value, second.value.value);
                  if Valid(d) then Some(d) else None
  }

  // ---------------------------------------------------------------------------
  // The canonical spelling, which the feed uses

  function Digit(n: nat): (c: char)
    requires n < 10
    ensures IsDigit(c) && DigitValue(c) == n
  {
    ('0' as int + n) as char
  }

  /** `n` in two digits, with a leading zero. */
  function Pad2(n: nat): (r: string)
    requires n < 100
    ensures |r| == 2 && AllDigits(r) && Value(r) == n
  {
    var r := [Digit(n / 10), Digit(n % 10)];
    assert r[..1] == [Digit(n / 10)] && r[..1][..0] == [];
    assert Value(r[..1]) == n / 10;
    assert Value(r) == n / 10 * 10 + n % 10;
    r
  }

  /** `n` in four digits, with leading zeros. */
  function Pad4(n: nat): (r: string)
    requires n < 10000
    ensures |r| == 4 && AllDigits(r) && Value(r) == n
  {
    var hi, lo := Pad2(n / 100), Pad2(n % 100);
    var r := hi + lo;
    assert r[..3] == hi + [lo[0]] && r[..3][..2] == hi;
    assert Value(r[..3]) == Value(hi) * 10 + DigitValue(lo[0]);
    assert lo[..1] == [lo[0]];
    r
  }

  /** The fields fit the canonical widths: four digits of year, two of the rest. */
  predicate Fits(d: DateTime) {
    && 0 <= d.year < 10000
    && 0 <= d.month < 100 && 0 <= d.day < 100
    && 0 <= d.hour < 100 && 0 <= d.minute < 100 && 0 <= d.second < 100
  }

  /** "YYYY-MM-DD". */
  function DatePart(d: DateTime): string
    requires Fits(d)
  {
    Pad4(d.year) + "-" + Pad2(d.month) + "-" + Pad2(d.day)
  }

  /** "HH:MM:SS". */
  function TimePart(d: DateTime): string
    requires Fits(d)
  {
    Pad2(d.hour) + ":" + Pad2(d.minute) + ":" + Pad2(d.second)
  }

  /** The spelling `strftime('%Y-%m-%d %H:%M:%S')` gives a date and time. */
  function Format(d: DateTime): (r: string)
    requires Fits(d)
    ensures |r| == 19
  {
    DatePart(d) + " " + TimePart(d)
  }

  /** Two digits followed by a non-digit read back as their value. */
  lemma ShortNumberOfPad(s: string, i: nat, n: nat)
    requires n < 100 && i + 2 <= |s| && s[i..i + 2] == Pad2(n)
    requires i + 2 < |s| ==> !IsDigit(s[i + 2])
    ensures ShortNumber(s, i) == Some(Field(n, i + 2))
  {
    assert IsDigit(s[i]) && IsDigit(s[i + 1]) by { assert s[i] == Pad2(n)[0] && s[i + 1] == Pad2(n)[1]; }
    DigitsEndOfRun(s, i, i + 2);
  }

  /** A canonical spelling reads back as the date and time it spells when that is a
    * real one, and is refused (February 29 of a common year, second 60, hour 24, ...)
    * when it is not. */
  lemma StrptimeFormat(d: DateTime)
    requires Fits(d)
    ensures Strptime(Format(d)) == if Valid(d) then Some(d) else None
  {
    FormatDate(d);
    FormatTime(d);
  }

  /** How `Strptime` reads the date half of a canonical spelling. */
  lemma FormatDate(d: DateTime)
    requires Fits(d)
    ensures var s := Format(d);
      && AllDigits(s[..4]) && Value(s[..4]) == d.year && s[4] == '-'
      && ShortNumber(s, 5) == Some(Field(d.month, 7)) && s[7] == '-'
      && DayNumber(s, 8) == Some(Field(d.day, 10))
      && SpaceEnd(s, 10) == 11
  {
    var s := Format(d);
    var y, mo, da := Pad4(d.year), Pad2(d.month), Pad2(d.day);
    var t := TimePart(d);
    assert s == y + "-" + mo + "-" + da + " " + t;
    assert s[..4] == y;
    assert s[4] == '-' && s[7] == '-' && s[10] == ' ';
    assert s[5..7] == mo && s[8..10] == da;
    ShortNumberOfPad(s, 5, d.month);
    ShortNumberOfPad(s, 8, d.day);
    assert DayNumber(s, 8) == Some(Field(d.day, 10)) by { assert IsDigit(s[8]); }
    assert s[11] == t[0] == Pad2(d.hour)[0];
    assert SpaceEnd(s, 10) == 11 by {
      assert IsSpace(s[10]) && !IsSpace(s[11]) by { assert IsDigit(s[11]); }
    }
  }

  /** How `Strptime` reads the time half of a canonical spelling. */
  lemma FormatTime(d: DateTime)
    requires Fits(d)
    ensures var s := Format(d);
      && ShortNumber(s, 11) == Some(Field(d.hour, 13)) && s[13] == ':'
      && ShortNumber(s, 14) == Some(Field(d.minute, 16)) && s[16] == ':'
      && ShortNumber(s, 17) == Some(Field(d.second, 19))
  {
    var s := Format(d);
    var x := DatePart(d);
    var h, mi, se := Pad2(d.hour), Pad2(d.minute), Pad2(d.second);
    assert s == x + " " + h + ":" + mi + ":" + se;
    assert |x| == 10;
    assert s[13] == ':' && s[16] == ':';
    assert s[11..13] == h && s[14..16] == mi && s[17..19] == se;
    ShortNumberOfPad(s, 11, d.hour);
    ShortNumberOfPad(s, 14, d.minute);
    ShortNumberOfPad(s, 17, d.second);
  }

  // ---------------------------------------------------------------------------
  // `_clean_datetime`

  /** `' '.join(date.split(mark)).split('.')[0]`: the text handed to `strptime`. The
    * module-level cleaners split on `'T'`; the `Permit` class, whose fields were
    * lower-cased first, splits on `'t'`. */
  function StripTimestamp(date: string, mark: char): (r: string)
    ensures !Contains(r, ".")
    ensures !Contains(Join(Split(date, [mark]), " "), ".") ==> r == Join(Split(date, [mark]), " ")
    ensures CutAtDot(Join(Split(date, [mark]), " "), r)
  {
    var joined := Join(Split(date, [mark]), " ");
    SplitPiecesFree(joined, ".");
    SplitSingle(joined, ".");
    FirstPieceCut(joined);
    Split(joined, ".")[0]
  }

  /** `r` is `s` cut just before a `'.'`, or all of `s`. */
  predicate CutAtDot(s: string, r: string) {
    exists j :: 0 <= j <= |s| && r == s[..j] && (j == |s| || s[j] == '.')
  }

  /** The first `'.'`-piece of a text is the text cut at its first `'.'`, if any. */
  lemma FirstPieceCut(s: string)
    ensures CutAtDot(s, Split(s, ".")[0])
  {
    SplitFirst(s, ".");
    var j :| 0 <= j <= |s| && Split(s, ".")[0] == s[..j] && (j == |s| || OccursAt(s, ".", j));
    if j < |s| {
      assert s[j..j + 1] == ".";
    }
  }

  /** `_clean_datetime(date)`. */
  function CleanDatetime(date: string, mark: char): (r: Option<DateTime>)
    ensures r.Some? ==> Valid(r.value)
  {
    Strptime(StripTimestamp(date, mark))
  }

  /** The feed's spelling "YYYY-MM-DDTHH:MM:SS.fff" reads back as the date and time
    * it spells, whatever follows the dot, and is refused when that is no real date. */
  lemma CleanDatetimeWire(d: DateTime, mark: char, frac: string)
    requires Fits(d)
    requires !IsDigit(mark) && mark !in "-:."
    ensures CleanDatetime(DatePart(d) + [mark] + TimePart(d) + "." + frac, mark)
         == if Valid(d) then Some(d) else None
  {
    var x, t := DatePart(d), TimePart(d);
    NoMarkInParts(d, mark);
    assert x + [mark] + t + "." + frac == x + [mark] + (t + "." + frac);
    ReplaceAtChar(x, mark, t + "." + frac, " ");
    assert t + "." + frac == (t + ".") + frac;
    ReplaceCharFreePrefix(t + ".", frac, mark, " ");
    var f := Replace(frac, [mark], " ");
    assert x + " " + ((t + ".") + f) == (x + " " + t) + ['.'] + f;
    SplitAtChar(x + " " + t, '.', f);
    StrptimeFormat(d);
  }

  /** Neither the mark nor the dot occurs in the canonical date and time parts. */
  lemma NoMarkInParts(d: DateTime, mark: char)
    requires Fits(d)
    requires !IsDigit(mark) && mark !in "-:."
    ensures forall k :: 0 <= k < |DatePart(d)| ==> DatePart(d)[k] != mark
    ensures forall k :: 0 <= k < |TimePart(d) + "."| ==> (TimePart(d) + ".")[k] != mark
    ensures forall k :: 0 <= k < |DatePart(d) + " " + TimePart(d)| ==> (DatePart(d) + " " + TimePart(d))[k] != '.'
  {
    var y, mo, da := Pad4(d.year), Pad2(d.month), Pad2(d.day);
    var h, mi, se := Pad2(d.hour), Pad2(d.minute), Pad2(d.second);
    var x := DatePart(d);
    var t := TimePart(d);
    forall k | 0 <= k < |x|
      ensures x[k] != mark && x[k] != '.'
    {
      assert x[k] == '-' || IsDigit(x[k]);
    }
    forall k | 0 <= k < |t|
      ensures t[k] != mark && t[k] != '.'
    {
      assert t[k] == ':' || IsDigit(t[k]);
    }
    var full := x + " " + t;
    forall k | 0 <= k < |full|
      ensures full[k] != '.'
    {
      if k < |x| { assert full[k] == x[k]; }
      else if k > |x| { assert full[k] == t[k - |x| - 1]; }
    }
    forall k | 0 <= k < |t + "."|
      ensures (t + ".")[k] != mark
    {
      if k < |t| { assert (t + ".")[k] == t[k]; }
    }
  }
}
