/**
 * Naive `datetime` values, their ordering, and the parser both components apply to the site's
 * publication stamps (`DD.MM.YYYY | HH:MM`, optionally followed by a bracketed note).
 */
module DateTimes {
  import opened Options
  import opened Strings
  import opened Numerals

  /** A naive `datetime.datetime`. */
  datatype DateTime = DateTime(year: int, month: int, day: int, hour: int, minute: int, second: int, microsecond: int)

  predicate IsLeapYear(year: int) {
    year % 4 == 0 && (year % 100 != 0 || year % 400 == 0)
  }

  function DaysInMonth(year: int, month: int): (n: int)
    ensures 28 <= n <= 31
  {
    if month == 2 then (if IsLeapYear(year) then 29 else 28)
    else if month == 4 || month == 6 || month == 9 || month == 11 then 30
    else 31
  }

  /** The values `datetime` accepts. */
  predicate Valid(d: DateTime) {
    1 <= d.year <= 9999 && 1 <= d.month <= 12 && 1 <= d.day <= DaysInMonth(d.year, d.month)
    && 0 <= d.hour < 24 && 0 <= d.minute < 60 && 0 <= d.second < 60 && 0 <= d.microsecond < 1000000
  }

  /** Python's `a < b` on datetimes: field by field from the year down. */
  predicate Before(a: DateTime, b: DateTime) {
    if a.year != b.year then a.year < b.year
    else if a.month != b.month then a.month < b.month
    else if a.day != b.day then a.day < b.day
    else if a.hour != b.hour then a.hour < b.hour
    else if a.minute != b.minute then a.minute < b.minute
    else if a.second != b.second then a.second < b.second
    else a.microsecond < b.microsecond
  }

  function Radix(high: int, low: int, base: int): int {
    high * base + low
  }

  lemma MulNonNegative(k: int, base: int)
    requires k >= 0 && base >= 0
    ensures k * base >= 0
    decreases k
  {
    if k > 0 {
      MulNonNegative(k - 1, base);
      assert k * base == (k - 1) * base + base;
    }
  }

  /** One mixed-radix digit: comparing `high * base + low` compares `high` first, then `low`. */
  lemma RadixOrder(h1: int, l1: int, h2: int, l2: int, base: int)
    requires 0 <= l1 < base && 0 <= l2 < base
    ensures Radix(h1, l1, base) < Radix(h2, l2, base) <==> h1 < h2 || (h1 == h2 && l1 < l2)
    ensures Radix(h1, l1, base) == Radix(h2, l2, base) <==> h1 == h2 && l1 == l2
  {
    if h1 < h2 {
      MulNonNegative(h2 - h1 - 1, base);
      assert h2 * base - h1 * base == (h2 - h1 - 1) * base + base;
    } else if h2 < h1 {
      MulNonNegative(h1 - h2 - 1, base);
      assert h1 * base - h2 * base == (h1 - h2 - 1) * base + base;
    }
  }

  /** The fields of a datetime from the year (0) down to the microsecond (6). */
  function Field(d: DateTime, n: nat): int {
    if n == 0 then d.year else if n == 1 then d.month else if n == 2 then d.day
    else if n == 3 then d.hour else if n == 4 then d.minute else if n == 5 then d.second
    else d.microsecond
  }

  /** A bound above every valid value of field `n` (for `n > 0`). */
  function Base(n: nat): int {
    if n == 1 then 13 else if n == 2 then 32 else if n == 3 then 24 else if n == 6 then 1000000 else 60
  }

  /** The mixed-radix number made of fields `0..n`. */
  function KeyUpTo(d: DateTime, n: nat): int {
    if n == 0 then d.year else Radix(KeyUpTo(d, n - 1), Field(d, n), Base(n))
  }

  /** Fields `0..n` of `a` come lexicographically before those of `b`. */
  predicate LessUpTo(a: DateTime, b: DateTime, n: nat) {
    if n == 0 then a.year < b.year else LessUpTo(a, b, n - 1) || (SameUpTo(a, b, n - 1) && Field(a, n) < Field(b, n))
  }

  /** Fields `0..n` of `a` and `b` agree. */
  predicate SameUpTo(a: DateTime, b: DateTime, n: nat) {
    if n == 0 then a.year == b.year else SameUpTo(a, b, n - 1) && Field(a, n) == Field(b, n)
  }

  /** A number that orders valid datetimes as `Before` does: the sort key used for every `sorted` by date. */
  function Key(d: DateTime): int {
    KeyUpTo(d, 6)
  }

  /** Each prefix of the key orders the fields it is made of lexicographically. */
  lemma {:induction false} KeyUpToOrder(a: DateTime, b: DateTime, n: nat)
    requires Valid(a) && Valid(b) && n <= 6
    ensures KeyUpTo(a, n) < KeyUpTo(b, n) <==> LessUpTo(a, b, n)
    ensures KeyUpTo(a, n) == KeyUpTo(b, n) <==> SameUpTo(a, b, n)
  {
    if n > 0 {
      KeyUpToOrder(a, b, n - 1);
      RadixOrder(KeyUpTo(a, n - 1), Field(a, n), KeyUpTo(b, n - 1), Field(b, n), Base(n));
    }
  }

  /** On valid datetimes the key is strictly monotone and injective. */
  lemma KeyOrder(a: DateTime, b: DateTime)
    requires Valid(a) && Valid(b)
    ensures Key(a) < Key(b) <==> Before(a, b)
    ensures Key(a) == Key(b) <==> a == b
  {
    KeyUpToOrder(a, b, 6);
    assert SameUpTo(a, b, 1) == (a.year == b.year && a.month == b.month);
    assert SameUpTo(a, b, 2) == (SameUpTo(a, b, 1) && a.day == b.day);
    assert SameUpTo(a, b, 3) == (SameUpTo(a, b, 2) && a.hour == b.hour);
    assert SameUpTo(a, b, 4) == (SameUpTo(a, b, 3) && a.minute == b.minute);
    assert SameUpTo(a, b, 5) == (SameUpTo(a, b, 4) && a.second == b.second);
    assert SameUpTo(a, b, 6) == (SameUpTo(a, b, 5) && a.microsecond == b.microsecond);
    assert LessUpTo(a, b, 1) == (a.year < b.year || (a.year == b.year && a.month < b.month));
    assert LessUpTo(a, b, 2) == (LessUpTo(a, b, 1) || (SameUpTo(a, b, 1) && a.day < b.day));
    assert LessUpTo(a, b, 3) == (LessUpTo(a, b, 2) || (SameUpTo(a, b, 2) && a.hour < b.hour));
    assert LessUpTo(a, b, 4) == (LessUpTo(a, b, 3) || (SameUpTo(a, b, 3) && a.minute < b.minute));
    assert LessUpTo(a, b, 5) == (LessUpTo(a, b, 4) || (SameUpTo(a, b, 4) && a.second < b.second));
    assert LessUpTo(a, b, 6) == (LessUpTo(a, b, 5) || (SameUpTo(a, b, 5) && a.microsecond < b.microsecond));
  }

  /** The index of the first `c` at or after `from`. */
  function IndexOf(s: string, c: char, from: nat): (r: Option<nat>)
    ensures r.Some? ==> from <= r.value < |s| && s[r.value] == c && forall k :: from <= k < r.value ==> s[k] != c
    ensures r.None? ==> forall k :: from <= k < |s| ==> s[k] != c
    decreases |s| - from
  {
    if from >= |s| then None else if s[from] == c then Some(from) else IndexOf(s, c, from + 1)
  }

  /** The end of the run of blanks that starts at `i` (what a greedy `\s*` consumes). */
  function SkipSpaces(s: string, i: nat): (j: nat)
    requires i <= |s|
    ensures i <= j <= |s|
    ensures forall k :: i <= k < j ==> IsSpace(s[k])
    ensures j == |s| || !IsSpace(s[j])
    decreases |s| - i
  {
    if i < |s| && IsSpace(s[i]) then SkipSpaces(s, i + 1) else i
  }

  /** `n` ASCII digits start at index `i`. */
  predicate DigitsAt(s: string, i: nat, n: nat) {
    i + n <= |s| && forall k :: i <= k < i + n ==> IsDigit(s[k])
  }

  /** The first group of the stamp pattern, `\d{2}\.\d{2}\.\d{4}`. */
  predicate IsDateText(t: string) {
    |t| == 10 && DigitsAt(t, 0, 2) && t[2] == '.' && DigitsAt(t, 3, 2) && t[5] == '.' && DigitsAt(t, 6, 4)
  }

  /** The second group of the stamp pattern, `\d{2}:\d{2}`. */
  predicate IsTimeText(t: string) {
    |t| == 5 && DigitsAt(t, 0, 2) && t[2] == ':' && DigitsAt(t, 3, 2)
  }

  /**
   * The pattern `(\d{2}\.\d{2}\.\d{4})\s*\|\s*(\d{2}:\d{2})` matched at exactly index `i`,
   * giving its two groups.
   */
  function MatchAt(s: string, i: nat): (r: Option<(string, string)>)
    ensures r.Some? ==> IsDateText(r.value.0) && IsTimeText(r.value.1)
  {
    if !(i + 10 <= |s| && IsDateText(s[i..i + 10])) then None
    else
      var j := SkipSpaces(s, i + 10);
      if !(j < |s| && s[j] == '|') then None
      else
        var k := SkipSpaces(s, j + 1);
        if k + 5 <= |s| && IsTimeText(s[k..k + 5]) then Some((s[i..i + 10], s[k..k + 5])) else None
  }

  /** `re.search`: the leftmost match at or after `i`. */
  function Search(s: string, i: nat): (r: Option<(string, string)>)
    ensures r.Some? ==> exists k :: i <= k < |s| && MatchAt(s, k) == r && forall k' :: i <= k' < k ==> MatchAt(s, k').None?
    ensures r.None? ==> forall k :: i <= k < |s| ==> MatchAt(s, k).None?
    decreases |s| - i
  {
    if i >= |s| then None else if MatchAt(s, i).Some? then MatchAt(s, i) else Search(s, i + 1)
  }

  /** `%d` of `strptime`: one of `3[01]`, `[12]\d`, `0[1-9]`, `[1-9]`, ` [1-9]`, covering the whole field. */
  predicate DayToken(t: string) {
    (|t| == 1 && '1' <= t[0] <= '9')
    || (|t| == 2 && ((t[0] == '3' && '0' <= t[1] <= '1') || ('1' <= t[0] <= '2' && IsDigit(t[1]))
                     || (t[0] == '0' && '1' <= t[1] <= '9') || (t[0] == ' ' && '1' <= t[1] <= '9')))
  }

  /** `%m`: one of `1[0-2]`, `0[1-9]`, `[1-9]`. */
  predicate MonthToken(t: string) {
    (|t| == 1 && '1' <= t[0] <= '9')
    || (|t| == 2 && ((t[0] == '1' && '0' <= t[1] <= '2') || (t[0] == '0' && '1' <= t[1] <= '9')))
  }

  /** `%H`: one of `2[0-3]`, `[0-1]\d`, `\d`. */
  predicate HourToken(t: string) {
    (|t| == 1 && IsDigit(t[0]))
    || (|t| == 2 && ((t[0] == '2' && '0' <= t[1] <= '3') || ('0' <= t[0] <= '1' && IsDigit(t[1]))))
  }

  /** `%M`: one of `[0-5]\d`, `\d`. */
  predicate MinuteToken(t: string) {
    (|t| == 1 && IsDigit(t[0])) || (|t| == 2 && '0' <= t[0] <= '5' && IsDigit(t[1]))
  }

  /** `int(group)` of a one- or two-character field; `%d` allows a leading blank. */
  function FieldValue(t: string): nat
    requires 1 <= |t| <= 2 && IsDigit(t[|t| - 1])
  {
    if |t| == 2 && IsDigit(t[0]) then DigitValue(t[0]) * 10 + DigitValue(t[1]) else DigitValue(t[|t| - 1])
  }

  function DayField(t: string): (r: Option<nat>)
    ensures r.Some? ==> 1 <= r.value <= 31
  {
    if DayToken(t) then Some(FieldValue(t)) else None
  }

  function MonthField(t: string): (r: Option<nat>)
    ensures r.Some? ==> 1 <= r.value <= 12
  {
    if MonthToken(t) then Some(FieldValue(t)) else None
  }

  function HourField(t: string): (r: Option<nat>)
    ensures r.Some? ==> r.value < 24
  {
    if HourToken(t) then Some(FieldValue(t)) else None
  }

  function MinuteField(t: string): (r: Option<nat>)
    ensures r.Some? ==> r.value < 60
  {
    if MinuteToken(t) then Some(FieldValue(t)) else None
  }

  /** `datetime(year, month, day, hour, minute)` once every field has matched; `None` where it raises. */
  function Assemble(year: nat, month: Option<nat>, day: Option<nat>, hour: Option<nat>, minute: Option<nat>): (r: Option<DateTime>)
    requires year < 10000
    requires month.Some? ==> 1 <= month.value <= 12
    requires day.Some? ==> 1 <= day.value
    requires hour.Some? ==> hour.value < 24
    requires minute.Some? ==> minute.value < 60
    ensures r.Some? ==> Valid(r.value) && r.value.second == 0 && r.value.microsecond == 0
  {
    if month.Some? && day.Some? && hour.Some? && minute.Some? && 1 <= year && day.value <= DaysInMonth(year, month.value) then
      Some(DateTime(year, month.value, day.value, hour.value, minute.value, 0, 0))
    else
      None
  }

  /** `int(group)` of the four digits of `%Y`. */
  function YearValue(s: string, i: nat): (y: nat)
    requires DigitsAt(s, i, 4)
    ensures y < 10000
  {
    ((DigitValue(s[i]) * 10 + DigitValue(s[i + 1])) * 10 + DigitValue(s[i + 2])) * 10 + DigitValue(s[i + 3])
  }

  /** Where the hour field starts once the year's four digits (ending before `afterYear`) are read. */
  function HourStart(text: string, afterYear: nat, bar: bool): Option<nat>
    requires afterYear <= |text|
  {
    if !bar then Some(afterYear)
    else if afterYear + 1 < |text| && text[afterYear] == '|' && IsSpace(text[afterYear + 1]) then
      Some(SkipSpaces(text, afterYear + 1))
    else None
  }

  /**
   * `datetime.strptime(text, "%d.%m.%Y %H:%M")` when `bar` is false and
   * `datetime.strptime(text, "%d.%m.%Y | %H:%M")` when it is true; `None` where it raises
   * `ValueError` (no match, unconverted data, or a day the month does not have). A blank in the
   * format matches one or more blanks.
   */
  function Strptime(text: string, bar: bool): (r: Option<DateTime>)
    ensures r.Some? ==> Valid(r.value) && r.value.second == 0 && r.value.microsecond == 0
  {
    match IndexOf(text, '.', 0)
    case None => None
    case Some(p) =>
      match IndexOf(text, '.', p + 1)
      case None => None
      case Some(q) =>
        var y := q + 1;
        if !(y + 4 < |text| && DigitsAt(text, y, 4) && IsSpace(text[y + 4])) then None
        else
          match HourStart(text, SkipSpaces(text, y + 4), bar)
          case None => None
          case Some(h) =>
            match IndexOf(text, ':', h)
            case None => None
            case Some(c) =>
              Assemble(YearValue(text, y), MonthField(text[p + 1..q]), DayField(text[..p]),
                       HourField(text[h..c]), MinuteField(text[c + 1..]))
  }

  /** The part of a stamp the parser reads: the text before the first `[`, stripped. */
  function MainPart(text: string): string {
    Strip(Split(text, '[')[0])
  }

  /**
   * The publication-date parser of the feed parser: the first `DD.MM.YYYY | HH:MM` found in the
   * main part, else the whole main part read with the `" | "` format, else `now` (the source reads
   * the clock when parsing fails).
   */
  function ParsePublicationDate(text: string, now: DateTime): (r: DateTime)
    ensures r == now || (Valid(r) && r.second == 0 && r.microsecond == 0)
  {
    var main := MainPart(text);
    match Search(main, 0)
    case Some(groups) => Strptime(groups.0 + " " + groups.1, false).GetOr(now)
    case None => Strptime(main, true).GetOr(now)
  }

  /** Two digits, as `%02d` writes a number below 100. */
  function Digits2(n: nat): (s: string)
    requires n < 100
    ensures |s| == 2 && AllDigits(s)
  {
    [DigitChar(n / 10), DigitChar(n % 10)]
  }

  /** Four digits, as `%04d` writes a number below 10000. */
  function Digits4(n: nat): (s: string)
    requires n < 10000
    ensures |s| == 4 && AllDigits(s)
  {
    Digits2(n / 100) + Digits2(n % 100)
  }

  /** `DD.MM.YYYY` of a valid datetime. */
  function DateText(d: DateTime): (s: string)
    requires Valid(d)
    ensures IsDateText(s)
  {
    var s := Digits2(d.day) + "." + Digits2(d.month) + "." + Digits4(d.year);
    assert s[..2] == Digits2(d.day) && s[3..5] == Digits2(d.month) && s[6..] == Digits4(d.year);
    s
  }

  /** `HH:MM` of a valid datetime. */
  function TimeText(d: DateTime): (s: string)
    requires Valid(d)
    ensures IsTimeText(s)
  {
    var s := Digits2(d.hour) + ":" + Digits2(d.minute);
    assert s[..2] == Digits2(d.hour) && s[3..] == Digits2(d.minute);
    s
  }

  /** The site's publication stamp of a minute: `DD.MM.YYYY | HH:MM`. */
  function Stamp(d: DateTime): string
    requires Valid(d)
  {
    DateText(d) + " | " + TimeText(d)
  }

  /** A number below 100 written with two digits reads back as itself in each field it fits. */
  lemma Digits2Fields(n: nat)
    requires n < 100
    ensures FieldValue(Digits2(n)) == n
    ensures DayField(Digits2(n)) == Some(n) <==> 1 <= n <= 31
    ensures MonthField(Digits2(n)) == Some(n) <==> 1 <= n <= 12
    ensures HourField(Digits2(n)) == Some(n) <==> n < 24
    ensures MinuteField(Digits2(n)) == Some(n) <==> n < 60
  {
  }

  /** How `Strptime` without the bar splits `DD.MM.YYYY HH:MM` into its fields. */
  lemma StrptimeFields(date: string, time: string)
    requires IsDateText(date) && IsTimeText(time)
    ensures var t := date + " " + time;
      DigitsAt(t, 6, 4)
      && Strptime(t, false) == Assemble(YearValue(t, 6), MonthField(date[3..5]), DayField(date[..2]),
                                        HourField(time[..2]), MinuteField(time[3..]))
  {
    var t := date + " " + time;
    assert |t| == 16;
    assert t[..2] == date[..2] && t[2] == '.' && t[3..5] == date[3..5] && t[5] == '.';
    assert t[6..10] == date[6..] && t[10] == ' ' && t[11..13] == time[..2] && t[13] == ':' && t[14..] == time[3..];
    assert IndexOf(t, '.', 0) == Some(2);
    assert IndexOf(t, '.', 3) == Some(5);
    assert SkipSpaces(t, 10) == 11;
    assert IndexOf(t, ':', 11) == Some(13);
  }

  /** The year field of `DD.MM.YYYY HH:MM` reads back as the year. */
  lemma YearOfDateText(d: DateTime, time: string)
    requires Valid(d)
    ensures var t := DateText(d) + " " + time; DigitsAt(t, 6, 4) && YearValue(t, 6) == d.year
  {
    var t := DateText(d) + " " + time;
    var y := Digits4(d.year);
    assert DateText(d)[6..] == y;
    assert t[6] == y[0] && t[7] == y[1] && t[8] == y[2] && t[9] == y[3];
  }

  /** `strptime` reads back the date and time texts of a minute. */
  lemma StrptimeOfGroups(d: DateTime)
    requires Valid(d) && d.second == 0 && d.microsecond == 0
    ensures Strptime(DateText(d) + " " + TimeText(d), false) == Some(d)
  {
    var date, time := DateText(d), TimeText(d);
    StrptimeFields(date, time);
    var t := date + " " + time;
    TextFields(d);
    YearOfDateText(d, time);
    AssembleOf(d);
  }

  /** The day, month, hour and minute fields of the texts of a valid datetime read back as its values. */
  lemma TextFields(d: DateTime)
    requires Valid(d)
    ensures MonthField(DateText(d)[3..5]) == Some(d.month) && DayField(DateText(d)[..2]) == Some(d.day)
    ensures HourField(TimeText(d)[..2]) == Some(d.hour) && MinuteField(TimeText(d)[3..]) == Some(d.minute)
  {
    var date, time := DateText(d), TimeText(d);
    assert date[..2] == Digits2(d.day) && date[3..5] == Digits2(d.month);
    assert time[..2] == Digits2(d.hour) && time[3..] == Digits2(d.minute);
    Digits2Fields(d.day);
    Digits2Fields(d.month);
    Digits2Fields(d.hour);
    Digits2Fields(d.minute);
  }

  /** The fields of a valid minute assemble back into it. */
  lemma AssembleOf(d: DateTime)
    requires Valid(d) && d.second == 0 && d.microsecond == 0
    ensures Assemble(d.year, Some(d.month), Some(d.day), Some(d.hour), Some(d.minute)) == Some(d)
  {
  }

  /** The main part of a text followed by nothing or by a bracketed note is the text, stripped. */
  lemma MainPartBeforeNote(s: string, note: string)
    requires '[' !in s
    requires note == [] || note[0] == '['
    ensures MainPart(s + note) == Strip(s)
  {
    if note == [] {
      assert s + note == s;
      SplitWithout(s, '[');
    } else {
      assert s + note == s + ['['] + note[1..];
      SplitAt(s, '[', note[1..]);
    }
  }

  /** A greedy `\s*` that stops at a non-blank character stops exactly there. */
  lemma SkipSpacesTo(s: string, i: nat, j: nat)
    requires i <= j < |s| && !IsSpace(s[j])
    requires forall k :: i <= k < j ==> IsSpace(s[k])
    ensures SkipSpaces(s, i) == j
  {
  }

  /** `re.search` returns the match at the first index where the pattern matches. */
  lemma {:induction false} SearchFirst(s: string, i: nat, k: nat)
    requires i <= k < |s| && MatchAt(s, k).Some?
    requires forall k' :: i <= k' < k ==> MatchAt(s, k').None?
    ensures Search(s, i) == MatchAt(s, k)
    decreases k - i
  {
    if i < k {
      assert MatchAt(s, i).None?;
      SearchFirst(s, i + 1, k);
    }
  }

  /**
   * The pattern matches a date and a time with any run of blanks (or none) on each side of the
   * bar, wherever they stand in the text and whatever follows them.
   */
  lemma MatchSpaced(pre: string, date: string, sp1: string, sp2: string, time: string, rest: string)
    requires IsDateText(date) && IsTimeText(time)
    requires forall k :: 0 <= k < |sp1| ==> IsSpace(sp1[k])
    requires forall k :: 0 <= k < |sp2| ==> IsSpace(sp2[k])
    ensures MatchAt(pre + date + sp1 + "|" + sp2 + time + rest, |pre|) == Some((date, time))
  {
    var s := pre + date + sp1 + "|" + sp2 + time + rest;
    var i, j, k := |pre|, |pre| + 10 + |sp1|, |pre| + 11 + |sp1| + |sp2|;
    assert s[i..i + 10] == date;
    assert s[j] == '|';
    forall m | i + 10 <= m < j ensures IsSpace(s[m]) {
      assert s[m] == sp1[m - i - 10];
    }
    SkipSpacesTo(s, i + 10, j);
    assert s[k..k + 5] == time;
    assert s[k] == time[0];
    forall m | j + 1 <= m < k ensures IsSpace(s[m]) {
      assert s[m] == sp2[m - j - 1];
    }
    SkipSpacesTo(s, j + 1, k);
  }

  /**
   * Once the pattern matches the text before `[` at index `k` and nowhere earlier, the result
   * is `strptime` of the two groups found there, or `now` if that raises.
   */
  lemma ParseFirstMatch(text: string, now: DateTime, k: nat, date: string, time: string)
    requires MatchAt(MainPart(text), k) == Some((date, time))
    requires forall k' :: 0 <= k' < k ==> MatchAt(MainPart(text), k').None?
    ensures ParsePublicationDate(text, now) == Strptime(date + " " + time, false).GetOr(now)
  {
    SearchFirst(MainPart(text), 0, k);
  }

  /** With no `[` before the note, the main part is the stripped text before it. */
  lemma NoBracketInStamp(pre: string, date: string, sp1: string, sp2: string, time: string, tail: string)
    requires IsDateText(date) && IsTimeText(time) && '[' !in pre
    requires forall k :: 0 <= k < |sp1| ==> IsSpace(sp1[k])
    requires forall k :: 0 <= k < |sp2| ==> IsSpace(sp2[k])
    requires forall k :: 0 <= k < |tail| ==> IsSpace(tail[k])
    ensures '[' !in pre + date + sp1 + "|" + sp2 + time + tail
  {
    assert forall k :: 0 <= k < 10 ==> date[k] != '[';
    assert forall k :: 0 <= k < 5 ==> time[k] != '[';
  }

  /** Around a stamp after a lead-in, the main part drops the trailing blanks and the note. */
  lemma MainPartOfStamp(pre: string, date: string, sp1: string, sp2: string, time: string, tail: string, note: string)
    requires IsDateText(date) && IsTimeText(time)
    requires '[' !in pre && (pre == [] || !IsSpace(pre[0]))
    requires forall k :: 0 <= k < |sp1| ==> IsSpace(sp1[k])
    requires forall k :: 0 <= k < |sp2| ==> IsSpace(sp2[k])
    requires forall k :: 0 <= k < |tail| ==> IsSpace(tail[k])
    requires note == [] || note[0] == '['
    ensures MainPart(pre + date + sp1 + "|" + sp2 + time + tail + note) == pre + date + sp1 + "|" + sp2 + time
  {
    var body := pre + date + sp1 + "|" + sp2 + time;
    NoBracketInStamp(pre, date, sp1, sp2, time, tail);
    MainPartBeforeNote(body + tail, note);
    StripTrailingBlanks(body, tail);
    assert body[0] == (if pre == [] then date[0] else pre[0]);
    assert body[|body| - 1] == time[4];
    StripUnchanged(body);
  }

  /**
   * A stamp of a minute after a lead-in without digits, with any blanks around the bar and
   * before the note, parses to exactly that minute.
   */
  lemma ParseSpacedStamp(pre: string, d: DateTime, sp1: string, sp2: string, tail: string, note: string, now: DateTime)
    requires Valid(d) && d.second == 0 && d.microsecond == 0
    requires '[' !in pre && (pre == [] || !IsSpace(pre[0]))
    requires forall k :: 0 <= k < |pre| ==> !IsDigit(pre[k])
    requires forall k :: 0 <= k < |sp1| ==> IsSpace(sp1[k])
    requires forall k :: 0 <= k < |sp2| ==> IsSpace(sp2[k])
    requires forall k :: 0 <= k < |tail| ==> IsSpace(tail[k])
    requires note == [] || note[0] == '['
    ensures ParsePublicationDate(pre + DateText(d) + sp1 + "|" + sp2 + TimeText(d) + tail + note, now) == d
  {
    var date, time := DateText(d), TimeText(d);
    var body := pre + date + sp1 + "|" + sp2 + time;
    var text := body + tail + note;
    MainPartOfStamp(pre, date, sp1, sp2, time, tail, note);
    MatchSpaced(pre, date, sp1, sp2, time, []);
    assert body + [] == body;
    forall k' | 0 <= k' < |pre| ensures MatchAt(body, k').None? {
      assert body[k'] == pre[k'];
      if k' + 10 <= |body| {
        assert body[k'..k' + 10][0] == pre[k'];
      }
    }
    ParseFirstMatch(text, now, |pre|, date, time);
    StrptimeOfGroups(d);
  }

  /** The texts of the minute used in the examples below. */
  lemma ExampleTexts()
    ensures DateText(DateTime(2026, 10, 14, 9, 5, 0, 0)) == "14.10.2026"
    ensures TimeText(DateTime(2026, 10, 14, 9, 5, 0, 0)) == "09:05"
  {
    assert Digits2(14) == "14" && Digits2(10) == "10" && Digits2(20) == "20" && Digits2(26) == "26";
    assert Digits2(9) == "09" && Digits2(5) == "05";
  }

  /** A stamp after a lead-in, with no blanks around the bar and a blank before the note. */
  lemma ParseStampAfterLeadIn(now: DateTime)
    ensures ParsePublicationDate("Опубликовано 14.10.2026|09:05 [3]", now) == DateTime(2026, 10, 14, 9, 5, 0, 0)
  {
    var d := DateTime(2026, 10, 14, 9, 5, 0, 0);
    ExampleTexts();
    var pre := "Опубликовано ";
    assert "Опубликовано 14.10.2026|09:05 [3]" == pre + DateText(d) + "" + "|" + "" + TimeText(d) + " " + "[3]";
    ParseSpacedStamp(pre, d, "", "", " ", "[3]", now);
  }

  /** A stamp with two blanks on each side of the bar. */
  lemma ParseStampWideBar(now: DateTime)
    ensures ParsePublicationDate("14.10.2026  |  09:05", now) == DateTime(2026, 10, 14, 9, 5, 0, 0)
  {
    var d := DateTime(2026, 10, 14, 9, 5, 0, 0);
    ExampleTexts();
    assert "14.10.2026  |  09:05" == "" + DateText(d) + "  " + "|" + "  " + TimeText(d) + "" + "";
    ParseSpacedStamp("", d, "  ", "  ", "", "", now);
  }

  /** Parsing the stamp of a minute gives that minute back, with or without a trailing note. */
  lemma ParseStamp(d: DateTime, note: string, now: DateTime)
    requires Valid(d) && d.second == 0 && d.microsecond == 0
    requires note == [] || note[0] == '['
    ensures ParsePublicationDate(Stamp(d) + note, now) == d
  {
    assert Stamp(d) + note == [] + DateText(d) + " " + "|" + " " + TimeText(d) + [] + note;
    ParseSpacedStamp([], d, " ", " ", [], note, now);
  }

  /** A missing or blank stamp parses to `now`. */
  lemma ParseBlank(text: string, now: DateTime)
    requires forall i :: 0 <= i < |text| ==> IsSpace(text[i])
    ensures ParsePublicationDate(text, now) == now
  {
    var first := Split(text, '[')[0];
    assert '[' !in text;
    SplitWithout(text, '[');
    StripBlank(text);
    assert MainPart(text) == "";
  }

  /** Six digits, as `%06d` writes the microseconds. */
  function Digits6(n: nat): (s: string)
    requires n < 1000000
    ensures |s| == 6 && AllDigits(s)
  {
    Digits2(n / 10000) + Digits2(n / 100 % 100) + Digits2(n % 100)
  }

  /**
   * `d.isoformat()`: `YYYY-MM-DDTHH:MM:SS`, with `.ffffff` only when there are microseconds. Its
   * layout, and that its fields read back as `d`, is `IsoFormatFields`.
   */
  function IsoFormat(d: DateTime): (s: string)
    requires Valid(d)
    ensures |s| == if d.microsecond == 0 then 19 else 26
  {
    Digits4(d.year) + "-" + Digits2(d.month) + "-" + Digits2(d.day) + "T" + Digits2(d.hour) + ":"
    + Digits2(d.minute) + ":" + Digits2(d.second)
    + (if d.microsecond == 0 then "" else "." + Digits6(d.microsecond))
  }

  lemma Digits2Value(n: nat)
    requires n < 100
    ensures DecimalValue(Digits2(n)) == n
  {
    var s := Digits2(n);
    assert s[..1][..0] == [];
    assert DecimalValue(s[..1]) == DigitValue(s[0]);
  }

  lemma Digits4Value(n: nat)
    requires n < 10000
    ensures DecimalValue(Digits4(n)) == n
  {
    DecimalValueAppend(Digits2(n / 100), Digits2(n % 100));
    Digits2Value(n / 100);
    Digits2Value(n % 100);
    assert Pow10(2) == 100;
  }

  lemma Digits6Value(n: nat)
    requires n < 1000000
    ensures DecimalValue(Digits6(n)) == n
  {
    var a, b, c := Digits2(n / 10000), Digits2(n / 100 % 100), Digits2(n % 100);
    DecimalValueAppend(a, b);
    DecimalValueAppend(a + b, c);
    Digits2Value(n / 10000);
    Digits2Value(n / 100 % 100);
    Digits2Value(n % 100);
    assert Pow10(2) == 100;
    SplitHundreds(n);
  }

  lemma SplitHundreds(n: nat)
    ensures ((n / 10000) * 100 + n / 100 % 100) * 100 + n % 100 == n
  {
    var q := n / 100;
    assert n == q * 100 + n % 100;
    assert q / 100 == n / 10000;
    assert q == (q / 100) * 100 + q % 100;
  }

  /** The separators of `isoformat()` stand at fixed places. */
  lemma IsoFormatLayout(d: DateTime)
    requires Valid(d)
    ensures var s := IsoFormat(d);
      && s[4] == '-' && s[7] == '-' && s[10] == 'T' && s[13] == ':' && s[16] == ':'
      && (d.microsecond != 0 ==> s[19] == '.')
  {
  }

  /** Each field of `isoformat()` between the separators is a run of digits that reads back as the field of `d`. */
  lemma IsoFormatFields(d: DateTime)
    requires Valid(d)
    ensures var s := IsoFormat(d);
      && AllDigits(s[..4]) && DecimalValue(s[..4]) == d.year
      && AllDigits(s[5..7]) && DecimalValue(s[5..7]) == d.month
      && AllDigits(s[8..10]) && DecimalValue(s[8..10]) == d.day
      && AllDigits(s[11..13]) && DecimalValue(s[11..13]) == d.hour
      && AllDigits(s[14..16]) && DecimalValue(s[14..16]) == d.minute
      && AllDigits(s[17..19]) && DecimalValue(s[17..19]) == d.second
      && (d.microsecond != 0 ==> AllDigits(s[20..]) && DecimalValue(s[20..]) == d.microsecond)
  {
    var s := IsoFormat(d);
    assert s[..4] == Digits4(d.year);
    assert s[5..7] == Digits2(d.month);
    assert s[8..10] == Digits2(d.day);
    assert s[11..13] == Digits2(d.hour);
    assert s[14..16] == Digits2(d.minute);
    assert s[17..19] == Digits2(d.second);
    Digits4Value(d.year);
    Digits2Value(d.month);
    Digits2Value(d.day);
    Digits2Value(d.hour);
    Digits2Value(d.minute);
    Digits2Value(d.second);
    if d.microsecond != 0 {
      assert s[20..] == Digits6(d.microsecond);
      Digits6Value(d.microsecond);
    }
  }

  /** Distinct valid datetimes have distinct `isoformat()` texts. */
  lemma IsoFormatInjective(a: DateTime, b: DateTime)
    requires Valid(a) && Valid(b) && IsoFormat(a) == IsoFormat(b)
    ensures a == b
  {
    IsoFormatFields(a);
    IsoFormatFields(b);
  }
}
