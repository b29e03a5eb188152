/**
 * Date normalisation of the schedule parser (`format_pit_date`): the site
 * prints a game date as "<weekday> <month> <day>" with no year; the parser
 * drops the first token, appends a year, parses the text with
 * `strptime(..., "%b %d %Y")` and prints it with `strftime("%Y-%m-%d")`.
 * Any failure gives the input back unchanged.
 */
module PitDate {
  import opened Wrappers
  import opened Text

  /** The year the parser passes: the default of `format_pit_date`'s `year`. */
  const DefaultYear: string := "2025"

  // ---------------------------------------------------------------- digits

  predicate IsDigit(c: char) {
    '0' <= c <= '9'
  }

  predicate AllDigits(s: string) {
    forall i :: 0 <= i < |s| ==> IsDigit(s[i])
  }

  function DigitValue(c: char): (v: nat)
    requires IsDigit(c)
    ensures v < 10
  {
    (c as int) - ('0' as int)
  }

  function Digit(v: nat): (c: char)
    requires v < 10
    ensures IsDigit(c) && DigitValue(c) == v
  {
    (('0' as int) + v) as char
  }

  /** `int(s)` for a string of ASCII digits. */
  function Value(s: string): nat
    requires AllDigits(s)
  {
    if s == [] then 0 else 10 * Value(s[..|s| - 1]) + DigitValue(s[|s| - 1])
  }

  function Pow10(w: nat): (p: nat)
    ensures p >= 1
  {
    if w == 0 then 1 else 10 * Pow10(w - 1)
  }

  /**
   * The last `width` decimal digits of `n`, zero-padded. This is `%0<width>d`
   * whenever `n` has at most `width` digits, as every field of a valid date
   * has for the widths `IsoFormat` uses; a wider `n` would be cut here
   * where `strftime` would print it whole.
   */
  function Padded(n: nat, width: nat): (r: string)
    ensures |r| == width && AllDigits(r)
  {
    if width == 0 then [] else Padded(n / 10, width - 1) + [Digit(n % 10)]
  }

  /** Zero-padding and `int` undo each other: reading back a padded number gives the number. */
  lemma {:induction false} ValueOfPadded(n: nat, width: nat)
    requires n < Pow10(width)
    ensures Value(Padded(n, width)) == n
  {
    if width > 0 {
      var r := Padded(n, width);
      var q, d := n / 10, n % 10;
      assert n == 10 * q + d && d < 10;
      assert q < Pow10(width - 1) by {
        assert Pow10(width) == 10 * Pow10(width - 1);
      }
      assert r[..|r| - 1] == Padded(q, width - 1) && r[|r| - 1] == Digit(d);
      ValueOfPadded(q, width - 1);
      assert Value(r) == 10 * q + d;
    }
  }

  /** ... and padding the value of a digit string gives the string back. */
  lemma {:induction false} PaddedOfValue(s: string)
    requires AllDigits(s)
    ensures Value(s) < Pow10(|s|)
    ensures Padded(Value(s), |s|) == s
  {
    if s != [] {
      var init := s[..|s| - 1];
      PaddedOfValue(init);
      var v := Value(s);
      assert v / 10 == Value(init) && v % 10 == DigitValue(s[|s| - 1]);
      assert Digit(DigitValue(s[|s| - 1])) == s[|s| - 1];
      assert init + [s[|s| - 1]] == s;
    }
  }

  // ---------------------------------------------------------------- months

  predicate IsLetter(c: char) {
    ('a' <= c <= 'z') || ('A' <= c <= 'Z')
  }

  /** Python's `str.lower` on the ASCII letters; every other character is kept. */
  function LowerChar(c: char): (l: char)
    ensures IsLetter(l) <==> IsLetter(c)
    ensures !('A' <= l <= 'Z')
    ensures !('A' <= c <= 'Z') ==> l == c
  {
    if 'A' <= c <= 'Z' then ((c as int) + 32) as char else c
  }

  /** `s` with its upper-case ASCII letters made lower-case: no upper-case letter is left. */
  function Lower(s: string): (r: string)
    ensures |r| == |s| && forall i :: 0 <= i < |s| ==> r[i] == LowerChar(s[i])
    ensures forall i :: 0 <= i < |r| ==> !('A' <= r[i] <= 'Z')
  {
    seq(|s|, i requires 0 <= i < |s| => LowerChar(s[i]))
  }

  /**
   * `%b` in the C locale: the number of a three-letter English month
   * abbreviation, compared without regard to case as `strptime` does.
   */
  function MonthNumber(t: string): (m: Option<nat>)
    ensures m.Some? ==> 1 <= m.value <= 12
    ensures m.Some? ==> |t| == 3 && forall i :: 0 <= i < 3 ==> IsLetter(t[i])
  {
    var l := Lower(t);
    if l == "jan" then Some(1) else if l == "feb" then Some(2)
    else if l == "mar" then Some(3) else if l == "apr" then Some(4)
    else if l == "may" then Some(5) else if l == "jun" then Some(6)
    else if l == "jul" then Some(7) else if l == "aug" then Some(8)
    else if l == "sep" then Some(9) else if l == "oct" then Some(10)
    else if l == "nov" then Some(11) else if l == "dec" then Some(12)
    else None
  }

  /** `%b` ignores case: two words that agree once lower-cased name the same month, or none. */
  lemma MonthNumberIgnoresCase(t: string, u: string)
    requires |t| == |u| && forall i :: 0 <= i < |t| ==> LowerChar(t[i]) == LowerChar(u[i])
    ensures MonthNumber(t) == MonthNumber(u)
  {
    assert Lower(t) == Lower(u);
  }

  /** Each spelling of a month that differs only in case is read the same. */
  lemma MonthNumberCaseExamples()
    ensures MonthNumber("Sep") == MonthNumber("SEP") == MonthNumber("sEp") == Some(9)
    ensures MonthNumber("sept") == None
  {
    SeptemberSpelling("Sep");
    SeptemberSpelling("SEP");
    SeptemberSpelling("sEp");
  }

  lemma SeptemberSpelling(t: string)
    requires |t| == 3 && LowerChar(t[0]) == 's' && LowerChar(t[1]) == 'e' && LowerChar(t[2]) == 'p'
    ensures MonthNumber(t) == Some(9)
  {
    assert Lower(t) == "sep";
  }

  // ---------------------------------------------------------------- calendar

  predicate IsLeapYear(y: int) {
    y % 4 == 0 && (y % 100 != 0 || y % 400 == 0)
  }

  function DaysInMonth(m: int, y: int): (n: nat)
    requires 1 <= m <= 12
    ensures 28 <= n <= 31
  {
    if m == 2 then (if IsLeapYear(y) then 29 else 28)
    else if m == 4 || m == 6 || m == 9 || m == 11 then 30
    else 31
  }

  /** A calendar date as Python's `datetime.date` admits it. */
  datatype Date = Date(year: nat, month: nat, day: nat)

  predicate ValidDate(d: Date) {
    1 <= d.year <= 9999 && 1 <= d.month <= 12 && 1 <= d.day <= DaysInMonth(d.month, d.year)
  }

  /** `datetime.date(y, m, d)`: refuses year 0 and a day past the end of the month. */
  function MakeDate(y: nat, m: nat, d: nat): (r: Option<Date>)
    requires 1 <= m <= 12
    ensures r.Some? <==> 1 <= y <= 9999 && 1 <= d <= DaysInMonth(m, y)
    ensures r.Some? ==> r.value == Date(y, m, d) && ValidDate(r.value)
  {
    if 1 <= y <= 9999 && 1 <= d <= DaysInMonth(m, y) then Some(Date(y, m, d)) else None
  }

  /** February 29th exists exactly in the leap years of the Gregorian calendar. */
  lemma LeapDay(y: nat)
    ensures MakeDate(y, 2, 29).Some? <==> 1 <= y <= 9999 && IsLeapYear(y)
    ensures MakeDate(y, 2, 30) == None
  {
  }

  /** The century rule: 1900 is no leap year, 2000 and 2024 are, 2025 is not. */
  lemma LeapDayExamples()
    ensures MakeDate(1900, 2, 29) == None && MakeDate(2025, 2, 29) == None
    ensures MakeDate(2000, 2, 29) == Some(Date(2000, 2, 29))
    ensures MakeDate(2024, 2, 29) == Some(Date(2024, 2, 29))
  {
  }

  // ---------------------------------------------------------------- strptime

  /** Length of the longest whitespace prefix (the regex `\s*`). */
  function LeadingSpaces(s: string): (n: nat)
    ensures n <= |s|
    ensures forall i :: 0 <= i < n ==> IsSpace(s[i])
    ensures n < |s| ==> !IsSpace(s[n])
  {
    if s == [] || !IsSpace(s[0]) then 0 else 1 + LeadingSpaces(s[1..])
  }

  /** Length of the longest ASCII-digit prefix. */
  function LeadingDigits(s: string): (n: nat)
    ensures n <= |s|
    ensures forall i :: 0 <= i < n ==> IsDigit(s[i])
    ensures n < |s| ==> !IsDigit(s[n])
  {
    if s == [] || !IsDigit(s[0]) then 0 else 1 + LeadingDigits(s[1..])
  }

  /**
   * `%d`: the alternatives `3[01]`, `[12]\d`, `0[1-9]` and `[1-9]`. The
   * pattern's last alternative, a space and `[1-9]`, can only follow the
   * `\s+` before it, which then matches the space itself.
   */
  predicate IsDayText(t: string) {
    (|t| == 1 && '1' <= t[0] <= '9')
    || (|t| == 2 && ((t[0] == '3' && (t[1] == '0' || t[1] == '1'))
                     || ((t[0] == '1' || t[0] == '2') && IsDigit(t[1]))
                     || (t[0] == '0' && '1' <= t[1] <= '9')))
  }

  /** `%Y`: exactly four digits. */
  predicate IsYearText(t: string) {
    |t| == 4 && AllDigits(t)
  }

  /**
   * `datetime.strptime(s, "%b %d %Y")`. Each space of the format matches a
   * run of one or more whitespace characters, the whole of `s` must be
   * consumed, and the fields must form a real date.
   */
  function Strptime(s: string): (r: Option<Date>)
    ensures r.Some? ==> ValidDate(r.value)
  {
    if |s| < 3 || MonthNumber(s[..3]).None? then None
    else
      match DayAndYear(s[3..])
      case None => None
      case Some(dy) => MakeDate(dy.1, MonthNumber(s[..3]).value, dy.0)
  }

  /** The part ` %d %Y` of the format, up to the end of the text: the day and the year read. */
  function DayAndYear(s: string): Option<(nat, nat)>
  {
    var gap := LeadingSpaces(s);
    if gap == 0 then None
    else
      var dayPart := s[gap..];
      var dayText := dayPart[..LeadingDigits(dayPart)];
      if !IsDayText(dayText) then None
      else
        match SpacedYear(dayPart[|dayText|..])
        case None => None
        case Some(y) => DayTextIsDigits(dayText); Some((Value(dayText), y))
  }

  /** The part ` %Y` of the format, up to the end of the text: the year read. */
  function SpacedYear(s: string): Option<nat>
  {
    var gap := LeadingSpaces(s);
    if gap == 0 || !IsYearText(s[gap..]) then None else Some(Value(s[gap..]))
  }

  // ---------------------------------------------------------------- strftime

  /** `date.strftime("%Y-%m-%d")`. */
  function IsoFormat(d: Date): string
    requires ValidDate(d)
  {
    Padded(d.year, 4) + "-" + Padded(d.month, 2) + "-" + Padded(d.day, 2)
  }

  /** The shape `YYYY-MM-DD` of a real calendar date. */
  predicate IsIsoDate(r: string) {
    && |r| == 10 && r[4] == '-' && r[7] == '-'
    && AllDigits(r[..4]) && AllDigits(r[5..7]) && AllDigits(r[8..])
    && 1 <= Value(r[..4])
    && 1 <= Value(r[5..7]) <= 12
    && 1 <= Value(r[8..]) <= DaysInMonth(Value(r[5..7]), Value(r[..4]))
  }

  /** Printing a valid date gives its three fields back as zero-padded digits. */
  lemma IsoFormatFields(d: Date)
    requires ValidDate(d)
    ensures IsIsoDate(IsoFormat(d))
    ensures var r := IsoFormat(d);
      Value(r[..4]) == d.year && Value(r[5..7]) == d.month && Value(r[8..]) == d.day
  {
    var r := IsoFormat(d);
    assert r[..4] == Padded(d.year, 4);
    assert r[5..7] == Padded(d.month, 2);
    assert r[8..] == Padded(d.day, 2);
    ValueOfPadded(d.year, 4);
    ValueOfPadded(d.month, 2);
    ValueOfPadded(d.day, 2);
  }

  // ---------------------------------------------------------------- format_pit_date

  /** `" ".join(date_str.split()[1:])`: the text after the weekday, single-spaced. */
  function Clean(dateStr: string): string {
    Join(DropFirst(Tokens(dateStr)), " ")
  }

  /** Whether `strptime` accepts the cleaned text with the year appended. */
  predicate Parses(dateStr: string, year: string) {
    Strptime(Clean(dateStr) + " " + year).Some?
  }

  /**
   * `format_pit_date(date_str, year)`: the ISO date when the text after the
   * first token parses as month, day and year, and otherwise the input.
   */
  function FormatPitDate(dateStr: string, year: string): (r: string)
    ensures r == dateStr || IsIsoDate(r)
  {
    match Strptime(Clean(dateStr) + " " + year)
    case Some(d) => IsoFormatFields(d); IsoFormat(d)
    case None => dateStr
  }

  // ---------------------------------------------------------------- properties

  lemma DayTextIsDigits(t: string)
    requires IsDayText(t)
    ensures AllDigits(t) && 1 <= Value(t) <= 31
  {
    assert AllDigits(t);
    assert t[..|t| - 1][..|t[..|t| - 1]|] == t[..|t| - 1];
    if |t| == 2 {
      assert t[..1][..0] == [];
      assert Value(t[..1]) == DigitValue(t[0]);
    } else {
      assert t[..0] == [];
    }
  }

  /** The decision `strptime` makes on single-spaced words, stated word by word. */
  function OnWords(us: seq<string>): Option<Date> {
    if |us| == 3 && MonthNumber(us[0]).Some? && IsDayText(us[1]) && IsYearText(us[2]) then
      DayTextIsDigits(us[1]);
      MakeDate(Value(us[2]), MonthNumber(us[0]).value, Value(us[1]))
    else None
  }

  /** The words `vs`, each preceded by one space. */
  function Spaced(vs: seq<string>): string {
    if vs == [] then [] else " " + Join(vs, " ")
  }

  lemma JoinSpaced(us: seq<string>)
    requires |us| >= 1
    ensures Join(us, " ") == us[0] + Spaced(us[1..])
  {
    if |us| >= 2 { JoinCons(us, " "); }
  }

  /** A word followed by more text splits off as the first token. */
  lemma TokensCons(w: string, rest: string)
    requires IsWord(w)
    ensures Tokens(w + " " + rest) == [w] + Tokens(rest)
  {
    var s := w + " " + rest;
    assert s[|w|] == ' ';
    assert forall i :: 0 <= i < |w| ==> s[i] == w[i];
    assert WordLength(s) == |w|;
    assert s[..|w|] == w;
    assert s[|w|..] == " " + rest;
    assert (" " + rest)[1..] == rest;
  }

  /** `" ".join` and `split()` undo each other on whitespace-free, non-empty words. */
  lemma {:induction false} TokensOfJoin(ws: seq<string>)
    requires forall k :: 0 <= k < |ws| ==> IsWord(ws[k])
    ensures Tokens(Join(ws, " ")) == ws
    decreases |ws|
  {
    if |ws| == 1 {
      TokensOfWord(ws[0]);
    } else if |ws| >= 2 {
      JoinCons(ws, " ");
      TokensCons(ws[0], Join(ws[1..], " "));
      TokensOfJoin(ws[1..]);
      assert ws == [ws[0]] + ws[1..];
    }
  }

  /** `clean_date` drops the first word and keeps the remaining words, each once. */
  lemma CleanTokens(dateStr: string)
    ensures Tokens(Clean(dateStr)) == DropFirst(Tokens(dateStr))
  {
    TokensOfJoin(DropFirst(Tokens(dateStr)));
  }

  /** One leading space before a word is exactly one whitespace run. */
  lemma SpacedGap(vs: seq<string>)
    requires |vs| >= 1 && forall k :: 0 <= k < |vs| ==> IsWord(vs[k])
    ensures LeadingSpaces(Spaced(vs)) == 1 && Spaced(vs)[1..] == Join(vs, " ")
  {
    JoinSpaced(vs);
    var r := Spaced(vs);
    assert r[1] == vs[0][0];
  }

  /** ` %Y` on spaced words: exactly one four-digit word. */
  lemma {:induction false} SpacedYearOnWords(vs: seq<string>)
    requires forall k :: 0 <= k < |vs| ==> IsWord(vs[k])
    ensures SpacedYear(Spaced(vs)) == if |vs| == 1 && IsYearText(vs[0]) then Some(Value(vs[0])) else None
  {
    if vs != [] {
      SpacedGap(vs);
      JoinSpaced(vs);
      var t := Join(vs, " ");
      if |vs| >= 2 {
        assert t == vs[0] + Spaced(vs[1..]);
        assert t[|vs[0]|] == ' ';
        assert !IsDigit(t[|vs[0]|]);
      }
    }
  }

  /** ` %d %Y` on spaced words: exactly a day word and a four-digit word. */
  lemma {:induction false} DayAndYearOnWords(vs: seq<string>)
    requires forall k :: 0 <= k < |vs| ==> IsWord(vs[k])
    ensures DayAndYear(Spaced(vs)) ==
      if |vs| == 2 && IsDayText(vs[0]) && IsYearText(vs[1]) then
        DayTextIsDigits(vs[0]);
        Some((Value(vs[0]), Value(vs[1])))
      else None
  {
    if vs != [] {
      SpacedGap(vs);
      JoinSpaced(vs);
      if AllDigits(vs[0]) {
        DigitWordThenYear(vs);
      } else {
        NonDigitWordFails(vs);
      }
    }
  }

  /** The day field reads a whole word of digits, and the rest must be ` %Y`. */
  lemma DigitWordThenYear(vs: seq<string>)
    requires |vs| >= 1 && forall k :: 0 <= k < |vs| ==> IsWord(vs[k])
    requires AllDigits(vs[0])
    requires LeadingSpaces(Spaced(vs)) == 1 && Spaced(vs)[1..] == Join(vs, " ")
    requires Join(vs, " ") == vs[0] + Spaced(vs[1..])
    ensures DayAndYear(Spaced(vs)) ==
      if |vs| == 2 && IsDayText(vs[0]) && IsYearText(vs[1]) then
        DayTextIsDigits(vs[0]);
        Some((Value(vs[0]), Value(vs[1])))
      else None
  {
    var more := Spaced(vs[1..]);
    assert more == [] || more[0] == ' ';
    DigitsBeforeGap(vs[0], more);
    SpacedYearOnWords(vs[1..]);
  }

  /** A run of digits followed by nothing or a space is read whole by the digit field. */
  lemma DigitsBeforeGap(v: string, rest: string)
    requires AllDigits(v) && (rest == [] || rest[0] == ' ')
    ensures var s := v + rest;
      LeadingDigits(s) == |v| && s[..|v|] == v && s[|v|..] == rest
  {
    var s := v + rest;
    assert forall i :: 0 <= i < |v| ==> s[i] == v[i];
    assert |v| < |s| ==> s[|v|] == ' ';
  }

  /** A day word that is not all digits stops the day field early, and the parse fails. */
  lemma NonDigitWordFails(vs: seq<string>)
    requires |vs| >= 1 && forall k :: 0 <= k < |vs| ==> IsWord(vs[k])
    requires !AllDigits(vs[0])
    requires LeadingSpaces(Spaced(vs)) == 1 && Spaced(vs)[1..] == Join(vs, " ")
    requires Join(vs, " ") == vs[0] + Spaced(vs[1..])
    ensures DayAndYear(Spaced(vs)) == None
    ensures !IsDayText(vs[0])
  {
    var r := Join(vs, " ");
    var v := vs[0];
    var n := LeadingDigits(r);
    var k :| 0 <= k < |v| && !IsDigit(v[k]);
    assert r[k] == v[k];
    assert n < |v|;
    assert r[n] == v[n];
    if IsDayText(r[..n]) {
      DayTextIsDigits(r[..n]);
      assert LeadingSpaces(r[n..]) == 0;
    }
    if IsDayText(v) { DayTextIsDigits(v); }
  }

  /** A first word that is not three characters long is never a month abbreviation followed by whitespace. */
  lemma StrptimeBadMonthWord(w: string, rest: string)
    requires IsWord(w) && |w| != 3
    requires rest == [] || rest[0] == ' '
    ensures Strptime(w + rest) == None
  {
    var s := w + rest;
    if |s| >= 3 {
      if |w| < 3 {
        assert s[..3][|w|] == ' ';
        assert !IsLetter(s[..3][|w|]);
        assert MonthNumber(s[..3]).None?;
      } else {
        assert s[3..][0] == w[3];
        assert LeadingSpaces(s[3..]) == 0;
        assert DayAndYear(s[3..]) == None;
      }
    }
  }

  /** A three-character first word is read as the month, the rest as ` %d %Y`. */
  lemma StrptimeMonthWord(w: string, rest: string)
    requires |w| == 3
    ensures Strptime(w + rest) ==
      if MonthNumber(w).None? then None
      else match DayAndYear(rest)
        case None => None
        case Some(dy) => MakeDate(dy.1, MonthNumber(w).value, dy.0)
  {
    var s := w + rest;
    assert s[..3] == w;
    assert s[3..] == rest;
  }

  /**
   * On single-spaced words, `strptime` succeeds exactly on three words: a
   * month abbreviation, a day and a four-digit year that form a real date.
   */
  lemma StrptimeOnWords(us: seq<string>)
    requires |us| >= 1 && forall k :: 0 <= k < |us| ==> IsWord(us[k])
    ensures Strptime(Join(us, " ")) == OnWords(us)
  {
    var w := us[0];
    var rest := Spaced(us[1..]);
    JoinSpaced(us);
    assert Join(us, " ") == w + rest;
    if |w| != 3 {
      StrptimeBadMonthWord(w, rest);
      assert Strptime(w + rest) == None;
    } else {
      StrptimeMonthWord(w, rest);
      DayAndYearOnWords(us[1..]);
    }
  }

  /** Whether the tokens of `dateStr` and the year are what `strptime` accepts: anything, month, day; year. */
  predicate AcceptsTokens(dateStr: string, year: string) {
    var ts := Tokens(dateStr);
    |ts| == 3 && OnWords([ts[1], ts[2], year]).Some?
  }

  /** The joined remainder with the year appended, as the words it is made of. */
  lemma CleanWithYear(dateStr: string, year: string)
    requires IsWord(year)
    requires DropFirst(Tokens(dateStr)) != []
    ensures Clean(dateStr) + " " + year == Join(DropFirst(Tokens(dateStr)) + [year], " ")
  {
    JoinSnoc(DropFirst(Tokens(dateStr)), " ", year);
  }

  /** What `strptime` makes of the cleaned text with a whitespace-free year appended, token by token. */
  lemma StrptimeOfClean(dateStr: string, year: string)
    requires IsWord(year)
    ensures var ts := Tokens(dateStr);
      Strptime(Clean(dateStr) + " " + year) ==
        if |ts| == 3 then OnWords([ts[1], ts[2], year]) else None
  {
    if DropFirst(Tokens(dateStr)) == [] {
      StrptimeOfEmptyClean(dateStr, year);
    } else {
      StrptimeOfRemainder(dateStr, year);
    }
  }

  /** With at most one token the cleaned text is empty, and the year alone, after a space, fails. */
  lemma StrptimeOfEmptyClean(dateStr: string, year: string)
    requires DropFirst(Tokens(dateStr)) == []
    ensures |Tokens(dateStr)| != 3 && Strptime(Clean(dateStr) + " " + year) == None
  {
    assert Clean(dateStr) == [];
    assert Clean(dateStr) + " " + year == " " + year;
    SpaceFirstFails(" " + year);
  }

  lemma StrptimeOfRemainder(dateStr: string, year: string)
    requires IsWord(year) && DropFirst(Tokens(dateStr)) != []
    ensures var ts := Tokens(dateStr);
      Strptime(Clean(dateStr) + " " + year) ==
        if |ts| == 3 then OnWords([ts[1], ts[2], year]) else None
  {
    var ts := Tokens(dateStr);
    CleanWithYear(dateStr, year);
    var us := DropFirst(ts) + [year];
    StrptimeOnWords(us);
    if |ts| == 3 {
      PairThenOne(DropFirst(ts), year);
    } else {
      assert |us| != 3;
    }
  }

  lemma PairThenOne<T>(pair: seq<T>, last: T)
    requires |pair| == 2
    ensures pair + [last] == [pair[0], pair[1], last]
  {
  }

  /**
   * `format_pit_date` at the level of tokens: for a whitespace-free year it
   * succeeds exactly when the input has three tokens whose last two, with the
   * year, are a month abbreviation, a day and a four-digit year forming a
   * real date; the result then carries that year text, month and day.
   * Otherwise the input comes back unchanged.
   */
  lemma FormatPitDateOnTokens(dateStr: string, year: string)
    requires IsWord(year)
    ensures Parses(dateStr, year) <==> AcceptsTokens(dateStr, year)
    ensures !AcceptsTokens(dateStr, year) ==> FormatPitDate(dateStr, year) == dateStr
    ensures AcceptsTokens(dateStr, year) ==>
      var ts := Tokens(dateStr);
      var r := FormatPitDate(dateStr, year);
      && IsIsoDate(r)
      && r[..4] == year
      && Value(r[5..7]) == MonthNumber(ts[1]).value
      && (DayTextIsDigits(ts[2]); Value(r[8..]) == Value(ts[2]))
  {
    StrptimeOfClean(dateStr, year);
    if AcceptsTokens(dateStr, year) {
      var ts := Tokens(dateStr);
      var d := OnWords([ts[1], ts[2], year]).value;
      FormatPitDateParsed(dateStr, year, d);
      IsoOfWords(d, ts[1], ts[2], year);
    }
  }

  /** The printed date of month, day and year words has the year as written and their month and day. */
  lemma IsoOfWords(d: Date, month: string, day: string, year: string)
    requires OnWords([month, day, year]) == Some(d)
    ensures AllDigits(day)
    ensures var r := IsoFormat(d);
      && IsIsoDate(r)
      && r[..4] == year
      && Value(r[5..7]) == MonthNumber(month).value
      && Value(r[8..]) == Value(day)
  {
    DayTextIsDigits(day);
    assert d == Date(Value(year), MonthNumber(month).value, Value(day));
    IsoFormatFields(d);
    assert IsoFormat(d)[..4] == Padded(d.year, 4);
    PaddedOfValue(year);
  }

  /** Text that starts with whitespace never parses: `%b` must come first. */
  lemma SpaceFirstFails(s: string)
    requires |s| > 0 && IsSpace(s[0])
    ensures Strptime(s) == None
  {
    if |s| >= 3 {
      assert s[..3][0] == s[0] && !IsLetter(s[0]);
    }
  }

  /** A one-token input ("N/A", "TBD") leaves nothing to parse and comes back unchanged, whatever the year. */
  lemma FormatPitDateSingleToken(dateStr: string, year: string)
    requires |Tokens(dateStr)| <= 1
    ensures !Parses(dateStr, year)
    ensures FormatPitDate(dateStr, year) == dateStr
  {
    assert Clean(dateStr) == [];
    assert Clean(dateStr) + " " + year == " " + year;
    SpaceFirstFails(" " + year);
  }

  /** Text with two or more tokens contains whitespace. */
  lemma SomeSpace(s: string)
    requires |Tokens(s)| >= 2
    ensures exists i :: 0 <= i < |s| && IsSpace(s[i])
  {
    if forall i :: 0 <= i < |s| ==> !IsSpace(s[i]) {
      TokensOfWord(s);
    }
  }

  /**
   * `format_pit_date` changes its input exactly when it parses it: a parsed
   * date never prints as the input, for any year text.
   */
  lemma FormatPitDateChanged(dateStr: string, year: string)
    ensures FormatPitDate(dateStr, year) != dateStr <==> Parses(dateStr, year)
    ensures Parses(dateStr, year) ==> IsIsoDate(FormatPitDate(dateStr, year))
  {
    var st := Strptime(Clean(dateStr) + " " + year);
    if st.Some? {
      var r := FormatPitDate(dateStr, year);
      assert r == IsoFormat(st.value);
      IsoFormatFields(st.value);
      IsoDateHasNoSpace(r);
      if |Tokens(dateStr)| <= 1 {
        FormatPitDateSingleToken(dateStr, year);
      }
      SomeSpace(dateStr);
    }
  }

  lemma IsoDateHasNoSpace(r: string)
    requires IsIsoDate(r)
    ensures forall i :: 0 <= i < |r| ==> !IsSpace(r[i])
  {
    forall i | 0 <= i < |r| ensures !IsSpace(r[i]) {
      if i < 4 { assert IsDigit(r[..4][i]); }
      else if i < 7 && i != 4 { assert IsDigit(r[5..7][i - 5]); }
      else if i > 7 { assert IsDigit(r[8..][i - 8]); }
    }
  }

  /**
   * The first token is skipped whatever it is: two inputs that differ only
   * in it parse alike and give the same date.
   */
  lemma FormatPitDateIgnoresFirstToken(first1: string, first2: string, rest: string, year: string)
    requires IsWord(first1) && IsWord(first2)
    ensures Parses(first1 + " " + rest, year) <==> Parses(first2 + " " + rest, year)
    ensures Parses(first1 + " " + rest, year) ==>
      FormatPitDate(first1 + " " + rest, year) == FormatPitDate(first2 + " " + rest, year)
  {
    TokensCons(first1, rest);
    TokensCons(first2, rest);
    assert Clean(first1 + " " + rest) == Clean(first2 + " " + rest);
  }

  /** When the cleaned text parses, the result is that date printed. */
  lemma FormatPitDateParsed(dateStr: string, year: string, d: Date)
    requires Strptime(Clean(dateStr) + " " + year) == Some(d)
    ensures FormatPitDate(dateStr, year) == IsoFormat(d)
  {
  }

  /** Whatever the weekday, month and day words, the cleaned text with the year parses as the three words do. */
  lemma StrptimeOfThreeWords(weekday: string, month: string, day: string, year: string)
    requires IsWord(weekday) && IsWord(month) && IsWord(day) && IsWord(year)
    ensures Strptime(Clean(weekday + " " + month + " " + day) + " " + year) == OnWords([month, day, year])
  {
    ThreeTokens(weekday, month, day);
    StrptimeOfClean(weekday + " " + month + " " + day, year);
  }

  /** The printed date reuses the year text and the day text, zero-padding a one-digit day. */
  lemma IsoFormatOfWords(d: Date, month: string, day: string, year: string)
    requires OnWords([month, day, year]) == Some(d)
    ensures IsoFormat(d) == year + "-" + Padded(MonthNumber(month).value, 2) + "-" + (if |day| == 2 then day else "0" + day)
  {
    DayTextIsDigits(day);
    assert d == Date(Value(year), MonthNumber(month).value, Value(day));
    PaddedOfValue(year);
    PaddedDay(day);
  }

  /** `%d` printed back: a two-digit day as written, a one-digit day with a leading zero. */
  lemma PaddedDay(day: string)
    requires IsDayText(day)
    ensures AllDigits(day) && Padded(Value(day), 2) == if |day| == 2 then day else "0" + day
  {
    DayTextIsDigits(day);
    PaddedOfValue(day);
    if |day| == 1 {
      PaddedSingleDigit(Value(day));
    }
  }

  /** A one-digit number takes one leading zero in a two-digit field. */
  lemma PaddedSingleDigit(v: nat)
    requires v < 10
    ensures Padded(v, 2) == "0" + Padded(v, 1)
  {
    assert v / 10 == 0 && v % 10 == v;
    assert Padded(0, 1) == [Digit(0)] == "0";
    assert Padded(v, 1) == [Digit(v)];
  }

  /**
   * A weekday word, a month abbreviation and a day word in a year that has
   * them print as the year text, the two-digit month and the two-digit day.
   */
  lemma FormatPitDateOfWords(weekday: string, month: string, day: string, year: string)
    requires IsWord(weekday) && OnWords([month, day, year]).Some?
    ensures FormatPitDate(weekday + " " + month + " " + day, year) ==
      year + "-" + Padded(MonthNumber(month).value, 2) + "-" + (if |day| == 2 then day else "0" + day)
  {
    var d := OnWords([month, day, year]).value;
    assert IsWord(month) && IsWord(day) && IsWord(year);
    StrptimeOfThreeWords(weekday, month, day, year);
    FormatPitDateParsed(weekday + " " + month + " " + day, year, d);
    IsoFormatOfWords(d, month, day, year);
  }

  /** Three words whose last two, with the year, do not form a date come back unchanged. */
  lemma FormatPitDateRejectsWords(weekday: string, month: string, day: string, year: string)
    requires IsWord(weekday) && IsWord(month) && IsWord(day) && IsWord(year)
    requires OnWords([month, day, year]).None?
    ensures FormatPitDate(weekday + " " + month + " " + day, year) == weekday + " " + month + " " + day
  {
    ThreeTokens(weekday, month, day);
    FormatPitDateOnTokens(weekday + " " + month + " " + day, year);
  }

  /** The example of the source's documentation: "Sat Oct 18" in 2025 is "2025-10-18". */
  lemma FormatPitDateExample(dateStr: string, year: string)
    requires dateStr == "Sat Oct 18" && year == DefaultYear
    ensures FormatPitDate(dateStr, year) == "2025-10-18"
  {
    var weekday, month, day := dateStr[..3], dateStr[4..7], dateStr[8..];
    assert dateStr == weekday + " " + month + " " + day;
    assert IsWord(weekday);
    DateWordsExample(month, day, year);
    FormatPitDateOfWords(weekday, month, day, year);
  }

  lemma DateWordsExample(month: string, day: string, year: string)
    requires month == "Oct" && day == "18" && year == DefaultYear
    ensures OnWords([month, day, year]).Some?
    ensures year + "-" + Padded(MonthNumber(month).value, 2) + "-" + day == "2025-10-18"
  {
    DefaultYearValue(year);
    MonthOfWord(month, "oct", 10);
    assert Value(day) == 18 by {
      assert day[..1] == "1" && "1"[..0] == [];
    }
    assert IsDayText(day);
    assert MakeDate(2025, 10, 18).Some?;
    assert Padded(10, 2) == "10";
  }

  /** The default year reads as the four-digit year 2025. */
  lemma DefaultYearValue(year: string)
    requires year == DefaultYear
    ensures IsYearText(year) && IsWord(year) && Value(year) == 2025
  {
    assert year[..3] == "202" && "202"[..2] == "20" && "20"[..1] == "2" && "2"[..0] == [];
  }

  lemma MonthOfWord(month: string, lower: string, m: nat)
    requires (lower == "oct" && m == 10) || (lower == "feb" && m == 2)
    requires month == [lower[0] - 32 as char] + lower[1..]
    ensures MonthNumber(month) == Some(m)
  {
    assert Lower(month) == lower;
  }

  /**
   * Inputs the parser meets that are not dates come back unchanged: the
   * placeholder "N/A", a "TBD", a day past the end of February, and
   * February 29 in 2025, which is not a leap year.
   */
  lemma FormatPitDateFallbackExamples(na: string, tbd: string, feb30: string, feb29: string, year: string)
    requires na == "N/A" && tbd == "TBD" && feb30 == "Sat Feb 30" && feb29 == "Sat Feb 29"
    requires year == DefaultYear
    ensures FormatPitDate(na, year) == na
    ensures FormatPitDate(tbd, year) == tbd
    ensures FormatPitDate(feb30, year) == feb30
    ensures FormatPitDate(feb29, year) == feb29
  {
    PlaceholderWord(na, year);
    PlaceholderWord(tbd, year);
    LateFebruary(feb30, "30", year);
    LateFebruary(feb29, "29", year);
  }

  lemma PlaceholderWord(w: string, year: string)
    requires w == "N/A" || w == "TBD"
    ensures FormatPitDate(w, year) == w
  {
    assert forall i :: 0 <= i < |w| ==> !IsSpace(w[i]);
    TokensOfWord(w);
    FormatPitDateSingleToken(w, year);
  }

  lemma LateFebruary(dateStr: string, day: string, year: string)
    requires dateStr == "Sat Feb " + day && (day == "29" || day == "30") && year == DefaultYear
    ensures FormatPitDate(dateStr, year) == dateStr
  {
    var weekday, month := dateStr[..3], dateStr[4..7];
    assert dateStr == weekday + " " + month + " " + day;
    assert IsWord(weekday) && IsWord(month) && IsWord(day);
    DefaultYearValue(year);
    MonthOfWord(month, "feb", 2);
    LateFebruaryDay(day);
    FormatPitDateRejectsWords(weekday, month, day, year);
  }

  lemma LateFebruaryDay(day: string)
    requires day == "29" || day == "30"
    ensures AllDigits(day) && Value(day) >= 29 > DaysInMonth(2, 2025)
  {
    assert day[..1] == "2" || day[..1] == "3";
    assert day[..1][..0] == [];
  }

  lemma ThreeTokens(a: string, b: string, c: string)
    requires IsWord(a) && IsWord(b) && IsWord(c)
    ensures Tokens(a + " " + b + " " + c) == [a, b, c]
  {
    var bc := b + " " + c;
    RegroupRight(a, " ", b, c);
    TokensCons(a, bc);
    TokensCons(b, c);
    TokensOfWord(c);
    ConsThree(a, b, c);
  }

  lemma RegroupRight<T>(a: seq<T>, sep: seq<T>, b: seq<T>, c: seq<T>)
    ensures a + sep + b + sep + c == a + sep + (b + sep + c)
  {
  }

  lemma ConsThree<T>(a: T, b: T, c: T)
    ensures [a] + ([b] + [c]) == [a, b, c]
  {
  }
}
