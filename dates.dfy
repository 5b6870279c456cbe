/**
 * The date and age normaliser of the scraper: the three surface forms of a
 * birth date, the `strptime` formats that validate them, the canonical
 * `YYYY-MM-DD` form that `strftime("%Y-%m-%d")` writes (the calendar date of
 * section 5.2.1.1 of ISO 8601:2004, extended format), and the age computed
 * from a date of birth. "Today" is a parameter.
 */
module Dates {
  import opened Wrappers
  import opened Text

  datatype Date = Date(year: int, month: int, day: int)

  /** The exception `datetime.strptime` raises when its input does not parse. */
  datatype DateError = ValueError(input: string)

  predicate IsLeapYear(y: int) {
    y % 4 == 0 && (y % 100 != 0 || y % 400 == 0)
  }

  function DaysInMonth(y: int, m: int): int {
    if m == 2 then (if IsLeapYear(y) then 29 else 28)
    else if m == 4 || m == 6 || m == 9 || m == 11 then 30
    else 31
  }

  /** A date that `datetime.date` accepts: years 1 to 9999 of the proleptic Gregorian calendar. */
  predicate ValidDate(d: Date) {
    1 <= d.year <= 9999 && 1 <= d.month <= 12 && 1 <= d.day <= DaysInMonth(d.year, d.month)
  }

  /** The full English month names of `%B`, as `strptime` keeps them: lower case. */
  const MonthNames: seq<string> := ["january", "february", "march", "april", "may", "june",
                                    "july", "august", "september", "october", "november", "december"]

  /** What `%B` accepts: a full month name, ignoring case. */
  function MonthNumber(name: string): (m: Option<int>)
    ensures m.Some? ==> 1 <= m.value <= 12 && Lower(name) == MonthNames[m.value - 1]
    ensures m.None? ==> forall k :: 0 <= k < 12 ==> Lower(name) != MonthNames[k]
  {
    match First(k => 0 <= k < 12 && Lower(name) == MonthNames[k], 0, 12)
    case Some(k) => Some(k + 1)
    case None => None
  }

  /** What `%d` accepts as a whole token: 1 to 31 in one or two digits, or a space and one digit. */
  function DayToken(t: string): Option<int> {
    if |t| == 1 && '1' <= t[0] <= '9' then Some(DigitsValue(t))
    else if |t| == 2 && AllDigits(t) && 1 <= DigitsValue(t) <= 31 then Some(DigitsValue(t))
    else if |t| == 2 && t[0] == ' ' && '1' <= t[1] <= '9' then Some(DigitsValue(t[1..]))
    else None
  }

  /**
   * `%m` followed by `-`, read at `i`: `1[0-2]|0[1-9]|[1-9]`. Gives the month
   * and the index just past the `-`.
   */
  function MonthTokenAt(s: string, i: nat): Option<(int, nat)> {
    if i + 2 < |s| && s[i + 2] == '-'
       && ((s[i] == '1' && '0' <= s[i + 1] <= '2') || (s[i] == '0' && '1' <= s[i + 1] <= '9'))
    then Some((DigitsValue(s[i..i + 2]), i + 3))
    else if i + 1 < |s| && s[i + 1] == '-' && '1' <= s[i] <= '9'
    then Some((DigitsValue(s[i..i + 1]), i + 2))
    else None
  }

  /** `datetime.strptime(s, "%Y-%m-%d")`: the whole string must match and name a real date. */
  function ParseYmd(s: string): (r: Option<Date>)
    ensures r.Some? ==> ValidDate(r.value)
  {
    if |s| < 7 || !AllDigits(s[..4]) || s[4] != '-' then None
    else
      match MonthTokenAt(s, 5)
      case None => None
      case Some((month, next)) =>
        match DayToken(s[next..])
        case None => None
        case Some(day) =>
          var d := Date(DigitsValue(s[..4]), month, day);
          if ValidDate(d) then Some(d) else None
  }

  function DigitChar(n: int): char
    requires 0 <= n < 10
  {
    ('0' as int + n) as char
  }

  function Pad2(n: int): string
    requires 0 <= n < 100
  {
    [DigitChar(n / 10), DigitChar(n % 10)]
  }

  function Pad4(n: int): string
    requires 0 <= n < 10000
  {
    Pad2(n / 100) + Pad2(n % 100)
  }

  /** `strftime("%Y-%m-%d")`, the canonical form every parsed date is written in. */
  function FormatIso(d: Date): (r: string)
    requires ValidDate(d)
    ensures |r| == 10 && r[4] == '-' && r[7] == '-'
  {
    Pad4(d.year) + "-" + Pad2(d.month) + "-" + Pad2(d.day)
  }

  /** The pieces of a "day month year" or "month day, year" match. */
  datatype Parts = Parts(dayText: string, monthText: string, year: int, end: nat)

  /** `strptime` with `%d %B %Y` or `%B %d, %Y` on a matched group, given its pieces. */
  function ParseParts(p: Parts): (r: Option<Date>)
    ensures r.Some? ==> ValidDate(r.value)
  {
    match (DayToken(p.dayText), MonthNumber(p.monthText))
    case (Some(day), Some(month)) =>
      var d := Date(p.year, month, day);
      if ValidDate(d) then Some(d) else None
    case _ => None
  }

  /** `\d{4}` at `n`, read as a year. */
  function YearAt(s: string, n: nat): (r: Option<int>)
    ensures r.Some? ==> n + 4 <= |s| && IsDigit(s[n + 3])
  {
    if n + 4 <= |s| && AllDigits(s[n..n + 4]) then Some(DigitsValue(s[n..n + 4])) else None
  }

  /** A separator at `j`: `\s+` when `spaced`, else a single literal space. Gives its length. */
  function Sep(s: string, j: nat, spaced: bool): nat {
    if spaced then Run(s, j, IsSpace) else if j < |s| && s[j] == ' ' then 1 else 0
  }

  /** `\d{1,2}S[A-Za-z]+S\d{4}` matched at `i`, S being the separator of `Sep`. */
  function DmyAt(s: string, i: nat, spaced: bool): (r: Option<Parts>)
    ensures r.Some? ==> i < r.value.end <= |s| && IsDigit(s[r.value.end - 1])
  {
    var d := Run(s, i, IsDigit);
    var w1 := Sep(s, i + d, spaced);
    var k := i + d + w1;
    var l := Run(s, k, IsLetter);
    var w2 := Sep(s, k + l, spaced);
    var n := k + l + w2;
    if d < 1 || d > 2 || w1 == 0 || l == 0 || w2 == 0 || YearAt(s, n).None? then None
    else Some(Parts(s[i..i + d], s[k..k + l], YearAt(s, n).value, n + 4))
  }

  /** The literal character `c` at `j`: gives the length matched, 1 or 0. */
  function Lit(s: string, j: nat, c: char): nat {
    if j < |s| && s[j] == c then 1 else 0
  }

  /** `[A-Za-z]+\s+\d{1,2},\s+\d{4}` matched at `i`. */
  function MdyAt(s: string, i: nat): (r: Option<Parts>)
    ensures r.Some? ==> i < r.value.end <= |s| && IsDigit(s[r.value.end - 1])
  {
    var l := Run(s, i, IsLetter);
    var w1 := Run(s, i + l, IsSpace);
    var j := i + l + w1;
    var d := Run(s, j, IsDigit);
    var c := Lit(s, j + d, ',');
    var w2 := Run(s, j + d + c, IsSpace);
    var n := j + d + c + w2;
    if l == 0 || w1 == 0 || d < 1 || d > 2 || c == 0 || w2 == 0 || YearAt(s, n).None? then None
    else Some(Parts(s[j..j + d], s[i..i + l], YearAt(s, n).value, n + 4))
  }

  /** `\b` before a word character at `i`. */
  predicate BoundaryBefore(s: string, i: int) {
    i <= 0 || (i <= |s| && !IsWordChar(s[i - 1]))
  }

  /** `\b` after a word character ending at `e`. */
  predicate BoundaryAfter(s: string, e: int) {
    e < 0 || e >= |s| || !IsWordChar(s[e])
  }

  /** `\((\d{4}-\d{2}-\d{2})\)` matched at `i`. */
  predicate IsoMarkerAt(s: string, i: int) {
    && 0 <= i && i + 12 <= |s|
    && s[i] == '(' && AllDigits(s[i + 1..i + 5]) && s[i + 5] == '-'
    && AllDigits(s[i + 6..i + 8]) && s[i + 8] == '-'
    && AllDigits(s[i + 9..i + 11]) && s[i + 11] == ')'
  }

  /** `\b(\d{1,2}\s+[A-Za-z]+\s+\d{4})\b` matched at `i`. */
  predicate SpacedDmyAt(s: string, i: int) {
    0 <= i && BoundaryBefore(s, i) && DmyAt(s, i, true).Some? && BoundaryAfter(s, DmyAt(s, i, true).value.end)
  }

  /** `\b([A-Za-z]+\s+\d{1,2},\s+\d{4})\b` matched at `i`. */
  predicate MdyMatchAt(s: string, i: int) {
    0 <= i && BoundaryBefore(s, i) && MdyAt(s, i).Some? && BoundaryAfter(s, MdyAt(s, i).value.end)
  }

  /** The first "D Month YYYY" match, parsed; `None` if there is none or it does not parse. */
  function DmyDate(s: string): (r: Option<Date>)
    ensures r.Some? ==> ValidDate(r.value)
  {
    match First(i => SpacedDmyAt(s, i), 0, |s| + 1)
    case Some(i) => ParseParts(DmyAt(s, i, true).value)
    case None => None
  }

  /** The first "Month D, YYYY" match, parsed; `None` if there is none or it does not parse. */
  function MdyDate(s: string): (r: Option<Date>)
    ensures r.Some? ==> ValidDate(r.value)
  {
    match First(i => MdyMatchAt(s, i), 0, |s| + 1)
    case Some(i) => ParseParts(MdyAt(s, i).value)
    case None => None
  }

  /**
   * `extract_date_of_birth`: a parenthesised ISO date, returned as written;
   * else the first "D Month YYYY"; else the first "Month D, YYYY".
   */
  function ExtractDateOfBirth(s: string): (r: Option<string>)
    ensures r.Some? ==> |r.value| == 10
  {
    match First(i => IsoMarkerAt(s, i), 0, |s|)
    case Some(i) => Some(s[i + 1..i + 11])
    case None =>
      match DmyDate(s)
      case Some(d) => Some(FormatIso(d))
      case None =>
        match MdyDate(s)
        case Some(d) => Some(FormatIso(d))
        case None => None
  }

  /** `today.year - dob.year - ((today.month, today.day) < (dob.month, dob.day))`. */
  function AgeOn(dob: Date, today: Date): int {
    var before := today.month < dob.month || (today.month == dob.month && today.day < dob.day);
    today.year - dob.year - (if before then 1 else 0)
  }

  /** `calculate_age_from_dob`: parses `YYYY-MM-DD`, raising if it is not a real date. */
  function CalculateAgeFromDob(dob: string, today: Date): (r: Result<int, DateError>)
    ensures r.Err? <==> ParseYmd(dob).None?
    ensures r.Ok? ==> r.value == AgeOn(ParseYmd(dob).value, today)
  {
    match ParseYmd(dob)
    case None => Err(ValueError(dob))
    case Some(d) => Ok(AgeOn(d, today))
  }

  /** `\(age\xa0?(\d+)\)` matched at `i`; gives the number. */
  function AgeAnnotationAt(s: string, i: int): Option<int> {
    if !OccursAt(s, i, "(age") then None
    else
      var j := if i + 4 < |s| && s[i + 4] == Nbsp then i + 5 else i + 4;
      var n := Run(s, j, IsDigit);
      if n == 0 || j + n >= |s| || s[j + n] != ')' then None
      else
        RunFacts(s, j, IsDigit);
        Some(DigitsValue(s[j..j + n]))
  }

  /** The first "(age N)" annotation. */
  function AgeAnnotation(s: string): Option<int> {
    match First(i => AgeAnnotationAt(s, i).Some?, 0, |s|)
    case Some(i) => AgeAnnotationAt(s, i)
    case None => None
  }

  /**
   * `extract_age`: the explicit "(age N)" when present; otherwise the age
   * computed from the extracted date of birth, which raises when that is a
   * parenthesised ISO date that is not a real date.
   */
  function ExtractAge(s: string, today: Date): (r: Result<Option<int>, DateError>)
    ensures AgeAnnotation(s).Some? ==> r == Ok(AgeAnnotation(s))
    ensures AgeAnnotation(s).None? && ExtractDateOfBirth(s).None? ==> r == Ok(None)
    ensures AgeAnnotation(s).None? && ExtractDateOfBirth(s).Some? ==>
      match ParseYmd(ExtractDateOfBirth(s).value)
      case Some(d) => r == Ok(Some(AgeOn(d, today)))
      case None => r.Err?
  {
    match AgeAnnotation(s)
    case Some(n) => Ok(Some(n))
    case None =>
      match ExtractDateOfBirth(s)
      case None => Ok(None)
      case Some(dob) =>
        if dob == "" then Ok(None)
        else
          var age :- CalculateAgeFromDob(dob, today);
          Ok(Some(age))
  }

  // ---------------------------------------------------------------------
  // The canonical form and the spelled-out forms of a date
  // ---------------------------------------------------------------------

  /** The day as Wikipedia writes it in prose: no leading zero. */
  function DayText(n: int): string
    requires 1 <= n <= 31
  {
    if n < 10 then [DigitChar(n)] else Pad2(n)
  }

  /** A month name as `strftime("%B")` writes it: capitalised. */
  function MonthTitle(m: int): string
    requires 1 <= m <= 12
  {
    var name := MonthNames[m - 1];
    [(name[0] as int - 32) as char] + name[1..]
  }

  /** "12 May 1996". */
  function DmyText(d: Date): string
    requires ValidDate(d)
  {
    DayText(d.day) + " " + MonthTitle(d.month) + " " + Pad4(d.year)
  }

  /** "May 12, 1996". */
  function MdyText(d: Date): string
    requires ValidDate(d)
  {
    MonthTitle(d.month) + " " + DayText(d.day) + ", " + Pad4(d.year)
  }

  function Pow10(n: nat): nat {
    if n == 0 then 1 else 10 * Pow10(n - 1)
  }

  lemma {:induction false} DigitsValueAppend(a: string, b: string)
    requires AllDigits(a) && AllDigits(b)
    ensures AllDigits(a + b)
    ensures DigitsValue(a + b) == DigitsValue(a) * Pow10(|b|) + DigitsValue(b)
    decreases |b|
  {
    assert AllDigits(a + b) by {
      forall i | 0 <= i < |a + b| ensures IsDigit((a + b)[i]) {
        if i < |a| { assert (a + b)[i] == a[i]; } else { assert (a + b)[i] == b[i - |a|]; }
      }
    }
    if b == [] {
      assert a + b == a;
    } else {
      var b' := b[..|b| - 1];
      var last := b[|b| - 1] as int - '0' as int;
      assert (a + b)[..|a + b| - 1] == a + b';
      assert (a + b)[|a + b| - 1] == b[|b| - 1];
      DigitsValueAppend(a, b');
      assert DigitsValue(a + b) == DigitsValue(a + b') * 10 + last;
      assert DigitsValue(b) == DigitsValue(b') * 10 + last;
      ShiftDigit(DigitsValue(a), DigitsValue(b'), Pow10(|b'|), last);
    }
  }

  /** Appending a digit to the lower part scales the upper part by ten. */
  lemma ShiftDigit(va: int, vb: int, p: int, last: int)
    ensures (va * p + vb) * 10 + last == va * (10 * p) + (vb * 10 + last)
  {
  }

  lemma Pad2Value(n: int)
    requires 0 <= n < 100
    ensures AllDigits(Pad2(n)) && DigitsValue(Pad2(n)) == n
  {
    var s := Pad2(n);
    assert s[..1][..0] == [];
    assert DigitsValue(s[..1]) == n / 10;
    assert DigitsValue(s) == (n / 10) * 10 + n % 10;
  }

  lemma Pad4Value(n: int)
    requires 0 <= n < 10000
    ensures AllDigits(Pad4(n)) && DigitsValue(Pad4(n)) == n
  {
    Pad2Value(n / 100);
    Pad2Value(n % 100);
    DigitsValueAppend(Pad2(n / 100), Pad2(n % 100));
    assert Pow10(2) == 100;
  }

  /** Reading back the canonical form gives the date: `strptime(strftime(d)) == d`. */
  lemma FormatIsoParses(d: Date)
    requires ValidDate(d)
    ensures ParseYmd(FormatIso(d)) == Some(d)
  {
    var s := FormatIso(d);
    Pad4Value(d.year);
    Pad2Value(d.month);
    Pad2Value(d.day);
    assert s[..4] == Pad4(d.year);
    assert s[5..7] == Pad2(d.month);
    assert s[8..] == Pad2(d.day);
    assert MonthTokenAt(s, 5) == Some((d.month, 8));
  }

  lemma MonthNamesAreLowerCase()
    ensures forall k :: 0 <= k < 12 ==> |MonthNames[k]| >= 3
    ensures forall k, i :: 0 <= k < 12 && 0 <= i < |MonthNames[k]| ==> 'a' <= MonthNames[k][i] <= 'z'
  {
  }

  lemma MonthTitleLetters(m: int)
    requires 1 <= m <= 12
    ensures |MonthTitle(m)| >= 3
    ensures forall k :: 0 <= k < |MonthTitle(m)| ==> IsLetter(MonthTitle(m)[k])
    ensures MonthNumber(MonthTitle(m)) == Some(m)
  {
    MonthTitleLower(m);
    MonthNamesDistinct();
    FirstIsUnique(k => 0 <= k < 12 && Lower(MonthTitle(m)) == MonthNames[k], 0, 12, m - 1);
  }

  lemma MonthTitleLower(m: int)
    requires 1 <= m <= 12
    ensures |MonthTitle(m)| >= 3
    ensures forall k :: 0 <= k < |MonthTitle(m)| ==> IsLetter(MonthTitle(m)[k])
    ensures Lower(MonthTitle(m)) == MonthNames[m - 1]
  {
    var name := MonthNames[m - 1];
    var t := MonthTitle(m);
    MonthNamesAreLowerCase();
    assert |t| == |name|;
    forall i | 0 <= i < |t| ensures Lower(t)[i] == name[i] && IsLetter(t[i]) {
      assert 'a' <= name[i] <= 'z';
      if i > 0 { assert t[i] == name[i]; }
    }
    assert Lower(t) == name;
  }

  lemma MonthNamesDistinct()
    ensures forall j, k :: 0 <= j < k < 12 ==> MonthNames[j] != MonthNames[k]
  {
  }

  lemma DayTextValue(n: int)
    requires 1 <= n <= 31
    ensures 1 <= |DayText(n)| <= 2 && AllDigits(DayText(n))
    ensures DayToken(DayText(n)) == Some(n)
  {
    if n < 10 {
      var t := DayText(n);
      assert t[..0] == [];
      assert DigitsValue(t) == n;
    } else {
      Pad2Value(n);
    }
  }

  /** The parenthesised canonical form is recognised and returned as written. */
  lemma IsoFormRecognised(d: Date)
    requires ValidDate(d)
    ensures ExtractDateOfBirth("(" + FormatIso(d) + ")") == Some(FormatIso(d))
  {
    var iso := FormatIso(d);
    var s := "(" + iso + ")";
    Pad4Value(d.year);
    Pad2Value(d.month);
    Pad2Value(d.day);
    assert s[1..5] == Pad4(d.year);
    assert s[6..8] == Pad2(d.month);
    assert s[9..11] == Pad2(d.day);
    assert IsoMarkerAt(s, 0);
    FirstIsUnique(i => IsoMarkerAt(s, i), 0, |s|, 0);
    assert s[1..11] == iso;
  }

  /** The character `c` occurs nowhere in `s`. */
  predicate Lacks(s: string, c: char) {
    forall k :: 0 <= k < |s| ==> s[k] != c
  }

  /** A string without an opening parenthesis holds no ISO marker. */
  lemma NoIsoMarker(s: string)
    requires Lacks(s, '(')
    ensures First(i => IsoMarkerAt(s, i), 0, |s|) == None
  {
  }

  lemma LacksAppend(x: string, y: string, c: char)
    requires Lacks(x, c) && Lacks(y, c)
    ensures Lacks(x + y, c)
  {
    forall k | |x| <= k < |x + y|
      ensures (x + y)[k] != c
    {
      assert (x + y)[k] == y[k - |x|];
    }
  }

  /** Five pieces none of which holds `c`, nor does their concatenation. */
  lemma LacksFive(a: string, b: string, c: string, d: string, e: string, ch: char)
    requires Lacks(a, ch) && Lacks(b, ch) && Lacks(c, ch) && Lacks(d, ch) && Lacks(e, ch)
    ensures Lacks(a + b + c + d + e, ch)
  {
    LacksAppend(a, b, ch);
    LacksAppend(a + b, c, ch);
    LacksAppend(a + b + c, d, ch);
    LacksAppend(a + b + c + d, e, ch);
  }


  /** The runs and pieces that `DmyAt` reads in "D Month YYYY". */
  lemma DmyPieces(day: string, month: string, year: string)
    requires 1 <= |day| <= 2 && AllDigits(day) && AllDigits(year) && |year| == 4
    requires |month| >= 1 && forall k :: 0 <= k < |month| ==> IsLetter(month[k])
    ensures var s := day + " " + month + " " + year;
      var a, b := |day|, |month|;
      && |s| == a + b + 6
      && Run(s, 0, IsDigit) == a && Run(s, a, IsSpace) == 1 && Run(s, a + 1, IsLetter) == b
      && Run(s, a + 1 + b, IsSpace) == 1
      && s[0..a] == day && s[a + 1..a + 1 + b] == month && s[a + b + 2..a + b + 6] == year
  {
    DmyRuns(day, month, year);
    DmySlices(day, month, year);
  }

  /** Character by character, "D Month YYYY". */
  lemma DmyChars(day: string, month: string, year: string)
    requires |year| == 4
    ensures var s := day + " " + month + " " + year;
      var a, b := |day|, |month|;
      && |s| == a + b + 6
      && (forall k :: 0 <= k < a ==> s[k] == day[k])
      && (forall k :: a + 1 <= k < a + 1 + b ==> s[k] == month[k - a - 1])
      && s[a] == ' ' && s[a + 1 + b] == ' '
      && (forall k :: a + b + 2 <= k < |s| ==> s[k] == year[k - a - b - 2])
  {
  }

  lemma DmyRuns(day: string, month: string, year: string)
    requires 1 <= |day| <= 2 && AllDigits(day) && AllDigits(year) && |year| == 4
    requires |month| >= 1 && forall k :: 0 <= k < |month| ==> IsLetter(month[k])
    ensures var s := day + " " + month + " " + year;
      var a, b := |day|, |month|;
      && Run(s, 0, IsDigit) == a && Run(s, a, IsSpace) == 1 && Run(s, a + 1, IsLetter) == b
      && Run(s, a + 1 + b, IsSpace) == 1
  {
    var s := day + " " + month + " " + year;
    var a, b := |day|, |month|;
    DmyChars(day, month, year);
    RunExact(s, 0, IsDigit, a);
    RunExact(s, a, IsSpace, 1);
    RunExact(s, a + 1, IsLetter, b);
    RunExact(s, a + 1 + b, IsSpace, 1);
  }

  lemma DmySlices(day: string, month: string, year: string)
    requires |year| == 4
    ensures var s := day + " " + month + " " + year;
      var a, b := |day|, |month|;
      && |s| == a + b + 6
      && s[0..a] == day && s[a + 1..a + 1 + b] == month && s[a + b + 2..a + b + 6] == year
  {
    var s := day + " " + month + " " + year;
    var a, b := |day|, |month|;
    DmyChars(day, month, year);
    assert s[0..a] == day;
    assert s[a + 1..a + 1 + b] == month;
    assert s[a + b + 2..a + b + 6] == year;
  }

  /** Four digits `year` at `n` are read as the year they spell. */
  lemma YearOfPiece(s: string, n: nat, year: string)
    requires n + 4 <= |s| && s[n..n + 4] == year && AllDigits(year) && |year| == 4
    ensures YearAt(s, n) == Some(DigitsValue(year))
  {
  }

  /** `DmyAt` with `\s+` separators at the start of `s`, from the lengths of the pieces it reads. */
  lemma DmyAtStart(s: string, d: nat, l: nat)
    requires Run(s, 0, IsDigit) == d && 1 <= d <= 2 && Run(s, d, IsSpace) == 1
    requires Run(s, d + 1, IsLetter) == l > 0 && Run(s, d + 1 + l, IsSpace) == 1
    requires YearAt(s, d + l + 2).Some?
    ensures DmyAt(s, 0, true) == Some(Parts(s[0..d], s[d + 1..d + 1 + l], YearAt(s, d + l + 2).value, d + l + 6))
  {
  }

  lemma DmyShape(day: string, month: string, year: string)
    requires 1 <= |day| <= 2 && AllDigits(day) && AllDigits(year) && |year| == 4
    requires |month| >= 1 && forall k :: 0 <= k < |month| ==> IsLetter(month[k])
    ensures var s := day + " " + month + " " + year;
      DmyAt(s, 0, true) == Some(Parts(day, month, DigitsValue(year), |s|))
  {
    DmyPieces(day, month, year);
    DmyFromPieces(day + " " + month + " " + year, day, month, year);
  }

  /** `DmyAt` at the start of a string already cut into its pieces. */
  lemma DmyFromPieces(s: string, day: string, month: string, year: string)
    requires 1 <= |day| <= 2 && AllDigits(year) && |year| == 4 && |month| >= 1
    requires var a, b := |day|, |month|;
      && |s| == a + b + 6
      && Run(s, 0, IsDigit) == a && Run(s, a, IsSpace) == 1 && Run(s, a + 1, IsLetter) == b
      && Run(s, a + 1 + b, IsSpace) == 1
      && s[0..a] == day && s[a + 1..a + 1 + b] == month && s[a + b + 2..a + b + 6] == year
    ensures DmyAt(s, 0, true) == Some(Parts(day, month, DigitsValue(year), |s|))
  {
    var a, b := |day|, |month|;
    YearOfPiece(s, a + b + 2, year);
    DmyAtStart(s, a, b);
  }

  /** "D Month YYYY" yields the canonical form of the same date. */
  lemma DmyFormRecognised(d: Date)
    requires ValidDate(d)
    ensures ExtractDateOfBirth(DmyText(d)) == Some(FormatIso(d))
  {
    var day, month, year := DayText(d.day), MonthTitle(d.month), Pad4(d.year);
    var s := DmyText(d);
    DayTextValue(d.day);
    MonthTitleLetters(d.month);
    Pad4Value(d.year);
    DmyShape(day, month, year);
    LacksFive(day, " ", month, " ", year, '(');
    NoIsoMarker(s);
    assert SpacedDmyAt(s, 0);
    FirstIsUnique(i => SpacedDmyAt(s, i), 0, |s| + 1, 0);
    assert ParseParts(Parts(day, month, d.year, |s|)) == Some(d);
  }

  /** The runs and pieces that `MdyAt` reads in "Month D, YYYY". */
  lemma MdyPieces(month: string, day: string, year: string)
    requires 1 <= |day| <= 2 && AllDigits(day) && AllDigits(year) && |year| == 4
    requires |month| >= 1 && forall k :: 0 <= k < |month| ==> IsLetter(month[k])
    ensures var s := month + " " + day + ", " + year;
      var a, b := |month|, |day|;
      && |s| == a + b + 7
      && Run(s, 0, IsLetter) == a && Run(s, a, IsSpace) == 1 && Run(s, a + 1, IsDigit) == b
      && Lit(s, a + 1 + b, ',') == 1 && Run(s, a + b + 2, IsSpace) == 1
      && s[0..a] == month && s[a + 1..a + 1 + b] == day && s[a + b + 3..a + b + 7] == year
  {
    MdyRuns(month, day, year);
    MdySlices(month, day, year);
  }

  /** Character by character, "Month D, YYYY". */
  lemma MdyChars(month: string, day: string, year: string)
    requires |year| == 4
    ensures var s := month + " " + day + ", " + year;
      var a, b := |month|, |day|;
      && |s| == a + b + 7
      && (forall k :: 0 <= k < a ==> s[k] == month[k])
      && (forall k :: a + 1 <= k < a + 1 + b ==> s[k] == day[k - a - 1])
      && s[a] == ' ' && s[a + 1 + b] == ',' && s[a + b + 2] == ' '
      && (forall k :: a + b + 3 <= k < |s| ==> s[k] == year[k - a - b - 3])
  {
  }

  lemma MdyRuns(month: string, day: string, year: string)
    requires 1 <= |day| <= 2 && AllDigits(day) && AllDigits(year) && |year| == 4
    requires |month| >= 1 && forall k :: 0 <= k < |month| ==> IsLetter(month[k])
    ensures var s := month + " " + day + ", " + year;
      var a, b := |month|, |day|;
      && Run(s, 0, IsLetter) == a && Run(s, a, IsSpace) == 1 && Run(s, a + 1, IsDigit) == b
      && Lit(s, a + 1 + b, ',') == 1 && Run(s, a + b + 2, IsSpace) == 1
  {
    var s := month + " " + day + ", " + year;
    var a, b := |month|, |day|;
    MdyChars(month, day, year);
    RunExact(s, 0, IsLetter, a);
    RunExact(s, a, IsSpace, 1);
    RunExact(s, a + 1, IsDigit, b);
    RunExact(s, a + b + 2, IsSpace, 1);
  }

  lemma MdySlices(month: string, day: string, year: string)
    requires |year| == 4
    ensures var s := month + " " + day + ", " + year;
      var a, b := |month|, |day|;
      && |s| == a + b + 7
      && s[0..a] == month && s[a + 1..a + 1 + b] == day && s[a + b + 3..a + b + 7] == year
  {
    var s := month + " " + day + ", " + year;
    var a, b := |month|, |day|;
    MdyChars(month, day, year);
    assert s[0..a] == month;
    assert s[a + 1..a + 1 + b] == day;
    assert s[a + b + 3..a + b + 7] == year;
  }

  lemma MdyShape(month: string, day: string, year: string)
    requires 1 <= |day| <= 2 && AllDigits(day) && AllDigits(year) && |year| == 4
    requires |month| >= 1 && forall k :: 0 <= k < |month| ==> IsLetter(month[k])
    ensures var s := month + " " + day + ", " + year;
      MdyAt(s, 0) == Some(Parts(day, month, DigitsValue(year), |s|))
  {
    MdyPieces(month, day, year);
    MdyFromPieces(month + " " + day + ", " + year, month, day, year);
  }

  /** `MdyAt` at the start of a string already cut into its pieces. */
  lemma MdyFromPieces(s: string, month: string, day: string, year: string)
    requires 1 <= |day| <= 2 && AllDigits(year) && |year| == 4 && |month| >= 1
    requires var a, b := |month|, |day|;
      && |s| == a + b + 7
      && Run(s, 0, IsLetter) == a && Run(s, a, IsSpace) == 1 && Run(s, a + 1, IsDigit) == b
      && Lit(s, a + 1 + b, ',') == 1 && Run(s, a + b + 2, IsSpace) == 1
      && s[0..a] == month && s[a + 1..a + 1 + b] == day && s[a + b + 3..a + b + 7] == year
    ensures MdyAt(s, 0) == Some(Parts(day, month, DigitsValue(year), |s|))
  {
    YearOfPiece(s, |month| + |day| + 3, year);
  }

  /** In "Month D, YYYY" no run of one or two digits is followed by whitespace. */
  lemma MdyHasNoDmy(month: string, day: string, year: string)
    requires 1 <= |day| <= 2 && AllDigits(day) && AllDigits(year) && |year| == 4
    requires |month| >= 1 && forall k :: 0 <= k < |month| ==> IsLetter(month[k])
    ensures var s := month + " " + day + ", " + year;
      forall i :: 0 <= i < |s| + 1 ==> !SpacedDmyAt(s, i)
  {
    var s := month + " " + day + ", " + year;
    var a, b := |month|, |day|;
    assert forall k :: 0 <= k < a ==> s[k] == month[k];
    assert forall k :: a + 1 <= k < a + 1 + b ==> s[k] == day[k - a - 1];
    assert s[a] == ' ' && s[a + 1 + b] == ',' && s[a + b + 2] == ' ';
    assert forall k :: a + b + 3 <= k < |s| ==> s[k] == year[k - a - b - 3];
    forall i | 0 <= i < |s| + 1 ensures !SpacedDmyAt(s, i) {
      if a + 1 <= i < a + 1 + b {
        RunExact(s, i, IsDigit, a + 1 + b - i);
        assert Run(s, a + 1 + b, IsSpace) == 0;
      } else if a + b + 3 <= i {
        RunExact(s, i, IsDigit, |s| - i);
      } else {
        assert i < |s| && !IsDigit(s[i]);
      }
    }
  }

  /** "Month D, YYYY" yields the canonical form of the same date. */
  lemma MdyFormRecognised(d: Date)
    requires ValidDate(d)
    ensures ExtractDateOfBirth(MdyText(d)) == Some(FormatIso(d))
  {
    var day, month, year := DayText(d.day), MonthTitle(d.month), Pad4(d.year);
    var s := MdyText(d);
    DayTextValue(d.day);
    MonthTitleLetters(d.month);
    Pad4Value(d.year);
    LacksFive(month, " ", day, ", ", year, '(');
    NoIsoMarker(s);
    MdyHasNoDmy(month, day, year);
    assert DmyDate(s) == None;
    MdyShape(month, day, year);
    assert MdyMatchAt(s, 0);
    FirstIsUnique(i => MdyMatchAt(s, i), 0, |s| + 1, 0);
    assert ParseParts(Parts(day, month, d.year, |s|)) == Some(d);
  }

  /** The lexicographic order of (year, month, day) triples. */
  predicate LexLeq(y1: int, m1: int, d1: int, y2: int, m2: int, d2: int) {
    y1 < y2 || (y1 == y2 && (m1 < m2 || (m1 == m2 && d1 <= d2)))
  }

  /** By `today`, the `n`-th anniversary of `dob` has come. */
  predicate AnniversaryReached(dob: Date, today: Date, n: int) {
    LexLeq(dob.year + n, dob.month, dob.day, today.year, today.month, today.day)
  }

  /** The computed age counts the anniversaries reached: the `n`-th has come exactly when `n` is at most the age. */
  lemma AgeCountsAnniversaries(dob: Date, today: Date, n: int)
    ensures AnniversaryReached(dob, today, n) <==> n <= AgeOn(dob, today)
  {
  }

  /**
   * `extract_age` raises exactly when there is no "(age N)" annotation and
   * the date it falls back to is a parenthesised ISO marker that is not a
   * real date: the two spelled-out forms always re-parse.
   */
  lemma ExtractAgeRaisesOnlyOnBadMarker(s: string, today: Date)
    ensures ExtractAge(s, today).Err? <==>
      && AgeAnnotation(s).None?
      && First(i => IsoMarkerAt(s, i), 0, |s|).Some?
      && ParseYmd(ExtractDateOfBirth(s).value).None?
  {
    if AgeAnnotation(s).None? {
      if First(i => IsoMarkerAt(s, i), 0, |s|).None? {
        var d := SpelledOutDate(s);
      } else {
        assert ExtractDateOfBirth(s).value != "";
      }
    }
  }

  /**
   * Without an ISO marker, the date `extract_date_of_birth` formats (the
   * "D Month YYYY" one, else the "Month D, YYYY" one), which `strptime` reads
   * back from the formatted text.
   */
  function SpelledOutDate(s: string): (r: Option<Date>)
    requires First(i => IsoMarkerAt(s, i), 0, |s|).None?
    ensures r.Some? ==> ValidDate(r.value)
    ensures r.Some? <==> ExtractDateOfBirth(s).Some?
    ensures r.Some? ==> ExtractDateOfBirth(s).value == FormatIso(r.value)
    ensures r.Some? ==> ParseYmd(ExtractDateOfBirth(s).value) == r
  {
    var d := if DmyDate(s).Some? then DmyDate(s) else MdyDate(s);
    if d.Some? then FormatIsoParses(d.value); d else d
  }

  /** "(1996-13-40)" is taken as the date of birth although no such date exists. */
  lemma ImpossibleMarkerKept()
    ensures ExtractDateOfBirth("(1996-13-40)") == Some("1996-13-40")
  {
    var s := "(1996-13-40)";
    assert s[1..5] == "1996" && s[6..8] == "13" && s[9..11] == "40";
    assert AllDigits("1996") && AllDigits("13") && AllDigits("40");
    assert IsoMarkerAt(s, 0);
    FirstIsUnique(i => IsoMarkerAt(s, i), 0, |s|, 0);
    assert s[1..11] == "1996-13-40";
  }

  /**
   * An "(age N)" annotation is recognised after any text that holds none,
   * with or without a no-break space before the digits, whatever follows it.
   */
  lemma AgeAnnotationRecognised(p: string, sp: string, ds: string, q: string)
    requires forall k :: !OccursAt(p, k, "(age")
    requires sp == [] || sp == [Nbsp]
    requires ds != [] && AllDigits(ds)
    ensures AgeAnnotation(p + "(age" + sp + ds + ")" + q) == Some(DigitsValue(ds))
  {
    var s := p + "(age" + sp + ds + ")" + q;
    var i := |p|;
    AgeAnnotationAtPiece(s, i, sp, ds, q);
    forall k | 0 <= k < i
      ensures AgeAnnotationAt(s, k).None?
    {
      if k + 4 <= i {
        assert s[k..k + 4] == p[k..k + 4];
        assert !OccursAt(p, k, "(age");
      } else {
        assert s[k..k + 4][i - k] == '(';
      }
    }
    FirstIsUnique(k => AgeAnnotationAt(s, k).Some?, 0, |s|, i);
  }

  /** The annotation itself, read where it starts. */
  lemma AgeAnnotationAtPiece(s: string, i: nat, sp: string, ds: string, q: string)
    requires i <= |s| && s[i..] == "(age" + sp + ds + ")" + q
    requires sp == [] || sp == [Nbsp]
    requires ds != [] && AllDigits(ds)
    ensures AgeAnnotationAt(s, i) == Some(DigitsValue(ds))
  {
    var j := i + 4 + |sp|;
    assert s[i..i + 4] == "(age";
    assert s[j..] == ds + (")" + q);
    assert i + 4 < |s| && (s[i + 4] == Nbsp <==> sp != []);
    Piece(s, j, ds, ")" + q, IsDigit);
  }

  /** Text without the letter "a" holds no "(age". */
  lemma NoAgeWithoutA(p: string)
    requires Lacks(p, 'a')
    ensures forall k :: !OccursAt(p, k, "(age")
  {
    assert "(age"[1] == 'a';
    forall k
      ensures !OccursAt(p, k, "(age")
    {
      if 0 <= k && k + 4 <= |p| {
        assert p[k..k + 4][1] == p[k + 1];
      }
    }
  }

  /**
   * An explicit age wins over a date of birth that would raise: the text of
   * "(1996-13-40) (age 28)", with the no-break space Wikipedia writes, gives 28.
   */
  lemma AgeAnnotationBeforeBadMarker(today: Date)
    ensures ExtractAge("(1996-13-40) (age\U{a0}28)", today) == Ok(Some(28))
  {
    var p := "(1996-13-40) ";
    assert p + "(age" + [Nbsp] + "28" + ")" + "" == "(1996-13-40) (age\U{a0}28)";
    assert Lacks(p, 'a');
    NoAgeWithoutA(p);
    assert DigitsValue("28") == DigitsValue("2") * 10 + 8;
    AgeAnnotationRecognised(p, [Nbsp], "28", "");
  }

  /** With a plain space after "age" the annotation is not recognised: the pattern admits only a no-break space. */
  lemma PlainSpaceAgeIgnored()
    ensures AgeAnnotation("(age 28)") == None
  {
    var s := "(age 28)";
    forall k | 0 <= k < |s|
      ensures AgeAnnotationAt(s, k).None?
    {
      if k == 0 {
        assert s[4] == ' ';
        assert Run(s, 4, IsDigit) == 0;
      } else if k + 4 <= |s| {
        assert s[k..k + 4][0] == s[k] != '(' == "(age"[0];
      }
    }
  }

  /** With no comma anywhere, the "Month D, YYYY" search finds nothing. */
  lemma MdyNeedsComma(s: string)
    requires Lacks(s, ',')
    ensures MdyDate(s) == None
  {
    forall i | 0 <= i <= |s|
      ensures MdyAt(s, i).None?
    {
    }
  }

  /** "31 February" is no date in any year. */
  lemma FebruaryThirtyFirst(year: int, end: nat)
    ensures ParseParts(Parts("31", "February", year, end)) == None
  {
    assert DayToken("31") == Some(31) by {
      assert DigitsValue("31") == DigitsValue("3") * 10 + 1;
    }
    match MonthNumber("February")
    case Some(m) =>
      assert Lower("February")[0] == 'f';
      assert m == 2;
    case None =>
  }

  /** A run that ends inside `t` is the same run in any text that starts with `t`. */
  lemma RunInPrefix(t: string, rest: string, i: nat, p: char -> bool)
    requires i + Run(t, i, p) < |t|
    ensures Run(t + rest, i, p) == Run(t, i, p)
  {
    RunFacts(t, i, p);
    var n := Run(t, i, p);
    assert forall k :: i <= k <= i + n ==> (t + rest)[k] == t[k];
    RunExact(t + rest, i, p, n);
  }

  /** A "D Month YYYY" text at the start of `s` is the first match, whatever follows it after a space. */
  lemma DmyMatchFirstAtStart(day: string, month: string, year: string, rest: string)
    requires 1 <= |day| <= 2 && AllDigits(day) && AllDigits(year) && |year| == 4
    requires |month| >= 1 && forall k :: 0 <= k < |month| ==> IsLetter(month[k])
    requires rest == [] || rest[0] == ' '
    ensures var s := day + " " + month + " " + year + rest;
      && First(i => SpacedDmyAt(s, i), 0, |s| + 1) == Some(0)
      && DmyAt(s, 0, true) == Some(Parts(day, month, DigitsValue(year), |day| + |month| + 6))
  {
    var t := day + " " + month + " " + year;
    var s := t + rest;
    var a, b := |day|, |month|;
    DmyPieces(day, month, year);
    RunInPrefix(t, rest, 0, IsDigit);
    RunInPrefix(t, rest, a, IsSpace);
    RunInPrefix(t, rest, a + 1, IsLetter);
    RunInPrefix(t, rest, a + 1 + b, IsSpace);
    assert s[0..a] == day && s[a + 1..a + 1 + b] == month && s[a + b + 2..a + b + 6] == year;
    YearOfPiece(s, a + b + 2, year);
    DmyAtStart(s, a, b);
    assert SpacedDmyAt(s, 0);
    FirstIsUnique(i => SpacedDmyAt(s, i), 0, |s| + 1, 0);
  }

  /** The text below holds neither an opening parenthesis nor a comma. */
  lemma FebruaryTextLacks(s: string)
    requires s == "31 February 1990 or 5 May 1991"
    ensures Lacks(s, '(') && Lacks(s, ',')
  {
    var a, b, c, d, e := "31 Febr", "uary 19", "90 or 5", " May 19", "91";
    assert s == a + b + c + d + e;
    LacksFive(a, b, c, d, e, '(');
    LacksFive(a, b, c, d, e, ',');
  }

  /**
   * Only the first "D Month YYYY" match is parsed: when it names no real day,
   * a later real date in the same text is not looked at, and with no
   * "Month D, YYYY" date to fall back to nothing is extracted.
   */
  lemma FirstDmyMatchHidesLater()
    ensures DmyDate("31 February 1990 or 5 May 1991") == None
    ensures ExtractDateOfBirth("31 February 1990 or 5 May 1991") == None
  {
    var s := "31 February 1990 or 5 May 1991";
    assert s == "31" + " " + "February" + " " + "1990" + " or 5 May 1991";
    assert AllDigits("1990") && DigitsValue("1990") >= 0;
    DmyMatchFirstAtStart("31", "February", "1990", " or 5 May 1991");
    FebruaryThirtyFirst(DigitsValue("1990"), 16);
    assert DmyDate(s) == None;
    FebruaryTextLacks(s);
    NoIsoMarker(s);
    MdyNeedsComma(s);
  }
}
