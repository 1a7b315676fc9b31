/** The daily challenge: a date string is read as a number, fed through one
    step of a 32-bit linear congruential generator, and scaled to an index
    into the scenario catalog; upcoming challenges walk the calendar. */
module DailyChallenge {
  import opened Wrappers
  import opened Types
  import opened Calendar
  import opened IsoDate

  const TWO_32: int := 0x1_0000_0000
  const TWO_31: int := 0x8000_0000
  const LCG_MULTIPLIER: int := 1664525
  const LCG_INCREMENT: int := 1013904223
  const NO_SCENARIOS: string := "No scenarios available"

  // ---------------------------------------------------------------------------
  // dateSeed: the date string without hyphens, read as a base-10 integer
  // ---------------------------------------------------------------------------

  /** The string with every hyphen removed, other characters kept in order. */
  function RemoveHyphens(s: string): (t: string)
    ensures |t| <= |s|
  {
    if s == [] then [] else (if s[0] == '-' then [] else [s[0]]) + RemoveHyphens(s[1..])
  }

  /** Nothing but the hyphens goes: the result has none, and every other
      character of `s` is still there. */
  lemma {:induction false} RemoveHyphensRemovesOnlyHyphens(s: string, c: char)
    ensures '-' !in RemoveHyphens(s)
    ensures c != '-' ==> (c in RemoveHyphens(s) <==> c in s)
  {
    if s != [] {
      RemoveHyphensRemovesOnlyHyphens(s[1..], c);
      assert s == [s[0]] + s[1..];
    }
  }

  lemma {:induction false} RemoveHyphensConcat(a: string, b: string)
    ensures RemoveHyphens(a + b) == RemoveHyphens(a) + RemoveHyphens(b)
  {
    if a != [] {
      assert (a + b)[1..] == a[1..] + b;
      RemoveHyphensConcat(a[1..], b);
    } else {
      assert a + b == b;
    }
  }

  lemma {:induction false} RemoveHyphensKeepsHyphenFree(s: string)
    requires forall i :: 0 <= i < |s| ==> s[i] != '-'
    ensures RemoveHyphens(s) == s
  {
    if s != [] {
      RemoveHyphensKeepsHyphenFree(s[1..]);
    }
  }

  predicate IsSpace(c: char)
  {
    c == ' ' || c == '\t' || c == '\n' || c == '\r'
  }

  function SkipSpaces(s: string): (t: string)
    ensures |t| <= |s|
    ensures t != [] ==> !IsSpace(t[0])
  {
    if s != [] && IsSpace(s[0]) then SkipSpaces(s[1..]) else s
  }

  /** The longest prefix of `s` made of decimal digits. */
  function DigitPrefix(s: string): (t: string)
    ensures |t| <= |s| && AllDigits(t)
  {
    if s == [] || !IsDigit(s[0]) then [] else [s[0]] + DigitPrefix(s[1..])
  }

  /** The prefix is the longest one: the character after it, if any, is
      not a digit. */
  lemma {:induction false} DigitPrefixIsLongest(s: string)
    ensures DigitPrefix(s) == s[..|DigitPrefix(s)|]
    ensures |DigitPrefix(s)| < |s| ==> !IsDigit(s[|DigitPrefix(s)|])
  {
    if s != [] && IsDigit(s[0]) {
      DigitPrefixIsLongest(s[1..]);
    }
  }

  /** Skipping white space drops a prefix of spaces and nothing else. */
  lemma {:induction false} SkipSpacesDropsSpaces(s: string)
    ensures var t := SkipSpaces(s);
      t == s[|s| - |t|..] && forall i :: 0 <= i < |s| - |t| ==> IsSpace(s[i])
  {
    if s != [] && IsSpace(s[0]) {
      SkipSpacesDropsSpaces(s[1..]);
    }
  }

  lemma {:induction false} DigitPrefixOfDigits(s: string)
    requires AllDigits(s)
    ensures DigitPrefix(s) == s
  {
    if s != [] {
      DigitPrefixOfDigits(s[1..]);
    }
  }

  /** Base-10 integer parsing: leading white space, an optional sign, then the
      longest run of digits; `None` stands for NaN (no digits at all). */
  function ParseInt(s: string): (r: Option<int>)
    ensures r.None? <==> DigitPrefix(SignFree(SkipSpaces(s))) == []
  {
    var t := SkipSpaces(s);
    var digits := DigitPrefix(SignFree(t));
    if digits == [] then None
    else if t[0] == '-' then Some(-(ParseDigits(digits) as int))
    else Some(ParseDigits(digits))
  }

  function SignFree(t: string): string
  {
    if t != [] && (t[0] == '+' || t[0] == '-') then t[1..] else t
  }

  lemma {:induction false} SkipSpacesOver(ws: string, t: string)
    requires forall i :: 0 <= i < |ws| ==> IsSpace(ws[i])
    requires t == [] || !IsSpace(t[0])
    ensures SkipSpaces(ws + t) == t
  {
    if ws == [] {
      assert ws + t == t;
    } else {
      assert (ws + t)[1..] == ws[1..] + t;
      SkipSpacesOver(ws[1..], t);
    }
  }

  lemma {:induction false} DigitPrefixOver(digits: string, rest: string)
    requires AllDigits(digits)
    requires rest == [] || !IsDigit(rest[0])
    ensures DigitPrefix(digits + rest) == digits
  {
    if digits == [] {
      assert digits + rest == rest;
    } else {
      assert (digits + rest)[1..] == digits[1..] + rest;
      DigitPrefixOver(digits[1..], rest);
    }
  }

  /** White space, an optional sign and a run of digits, followed by anything
      that does not start with a digit, parse to the signed value of the run:
      whatever follows the run is ignored. */
  lemma ParseIntOfPrefix(ws: string, sign: string, digits: string, rest: string)
    requires forall i :: 0 <= i < |ws| ==> IsSpace(ws[i])
    requires sign == "" || sign == "+" || sign == "-"
    requires digits != [] && AllDigits(digits)
    requires rest == [] || !IsDigit(rest[0])
    ensures ParseInt(ws + (sign + (digits + rest)))
         == Some(if sign == "-" then -(ParseDigits(digits) as int) else ParseDigits(digits))
  {
    var t := sign + (digits + rest);
    SignedRun(sign, digits, rest);
    SkipSpacesOver(ws, t);
    DigitPrefixOver(digits, rest);
    ParseIntOfParts(ws + t, t, digits);
  }

  /** `ParseInt` in terms of what skipping spaces and reading digits found. */
  lemma ParseIntOfParts(s: string, t: string, digits: string)
    requires SkipSpaces(s) == t && DigitPrefix(SignFree(t)) == digits && digits != []
    ensures ParseInt(s) == Some(if t[0] == '-' then -(ParseDigits(digits) as int) else ParseDigits(digits))
  {
  }

  /** A sign and a run of digits: the first character is no space, it is
      `-` only for a minus sign, and dropping the sign leaves the run. */
  lemma SignedRun(sign: string, digits: string, rest: string)
    requires sign == "" || sign == "+" || sign == "-"
    requires digits != [] && AllDigits(digits)
    ensures var t := sign + (digits + rest);
      t != [] && !IsSpace(t[0]) && SignFree(t) == digits + rest && (t[0] == '-' <==> sign == "-")
  {
    var u := digits + rest;
    assert u[0] == digits[0];
    if sign != "" {
      assert (sign + u)[1..] == u;
    }
  }

  /** The numeric seed of a date string; `None` is NaN. The seed of
      `DDDD-DD-DD` is the eight-digit number its digits spell. */
  function DateSeed(dateStr: string): (r: Option<int>)
    ensures IsoShape(dateStr) ==>
      r == Some(ParseDigits(dateStr[..4]) * 10000 + ParseDigits(dateStr[5..7]) * 100 + ParseDigits(dateStr[8..]))
  {
    if IsoShape(dateStr) then
      ShapeDigitsValue(dateStr);
      ParseInt(RemoveHyphens(dateStr))
    else
      ParseInt(RemoveHyphens(dateStr))
  }

  /** On an ISO date the seed is the number YYYYMMDD. */
  lemma DateSeedOfIsoDate(s: string)
    requires IsIsoDate(s)
    ensures var d := ParseDate(s).value;
      DateSeed(s) == Some(d.year * 10000 + d.month * 100 + d.day)
  {
    IsoDateFields(s);
  }

  /** Parsing `DDDD-DD-DD` without its hyphens reads its eight digits. */
  lemma ShapeDigitsValue(s: string)
    requires IsoShape(s)
    ensures ParseInt(RemoveHyphens(s)) == Some(ParseDigits(s[..4]) * 10000 + ParseDigits(s[5..7]) * 100 + ParseDigits(s[8..]))
  {
    var y, m, dd := s[..4], s[5..7], s[8..];
    HyphensOfIsoDate(s);
    DateDigitsValue(y, m, dd);
    ParseIntOfDigits(y + (m + dd));
  }

  /** Removing the hyphens of `YYYY-MM-DD` leaves `YYYYMMDD`. */
  lemma HyphensOfIsoDate(s: string)
    requires IsoShape(s)
    ensures RemoveHyphens(s) == s[..4] + (s[5..7] + s[8..])
  {
    var y, m, dd := s[..4], s[5..7], s[8..];
    var rest2 := "-" + dd;
    var rest1 := m + rest2;
    var rest0 := "-" + rest1;
    assert s == y + rest0;
    assert RemoveHyphens("-") == [];
    RemoveHyphensConcat(y, rest0);
    RemoveHyphensConcat("-", rest1);
    RemoveHyphensConcat(m, rest2);
    RemoveHyphensConcat("-", dd);
    RemoveHyphensKeepsHyphenFree(y);
    RemoveHyphensKeepsHyphenFree(m);
    RemoveHyphensKeepsHyphenFree(dd);
  }

  /** The value of the eight digits `YYYYMMDD`. */
  lemma DateDigitsValue(y: string, m: string, dd: string)
    requires |y| == 4 && |m| == 2 && |dd| == 2
    requires AllDigits(y) && AllDigits(m) && AllDigits(dd)
    ensures AllDigits(y + (m + dd))
    ensures ParseDigits(y + (m + dd)) == ParseDigits(y) * 10000 + ParseDigits(m) * 100 + ParseDigits(dd)
  {
    ParseDigitsConcat(m, dd);
    ParseDigitsConcat(y, m + dd);
    assert Pow10(2) == 100 && Pow10(4) == 10000;
  }

  /** `parseInt` of a non-empty run of digits is its decimal value. */
  lemma ParseIntOfDigits(digits: string)
    requires digits != [] && AllDigits(digits)
    ensures ParseInt(digits) == Some(ParseDigits(digits))
  {
    assert SkipSpaces(digits) == digits;
    assert SignFree(digits) == digits;
    DigitPrefixOfDigits(digits);
  }

  /** Different dates have different seeds. */
  lemma DateSeedInjective(s1: string, s2: string)
    requires IsIsoDate(s1) && IsIsoDate(s2)
    requires DateSeed(s1) == DateSeed(s2)
    ensures s1 == s2
  {
    DateSeedOfIsoDate(s1);
    DateSeedOfIsoDate(s2);
    var d1, d2 := ParseDate(s1).value, ParseDate(s2).value;
    SplitDateNumber(d1.year, d1.month, d1.day, d2.year, d2.month, d2.day);
    IsoDateInjective(s1, s2);
  }

  lemma SplitDateNumber(y1: int, m1: int, e1: int, y2: int, m2: int, e2: int)
    requires 0 <= m1 < 100 && 0 <= e1 < 100 && 0 <= m2 < 100 && 0 <= e2 < 100
    requires y1 * 10000 + m1 * 100 + e1 == y2 * 10000 + m2 * 100 + e2
    ensures y1 == y2 && m1 == m2 && e1 == e2
  {
    var v := y1 * 10000 + m1 * 100 + e1;
    assert v / 10000 == y1 && v / 10000 == y2;
    assert (v % 10000) / 100 == m1 && (v % 10000) / 100 == m2;
  }

  // ---------------------------------------------------------------------------
  // seededRandom: one LCG step in 32-bit integer arithmetic
  // ---------------------------------------------------------------------------

  /** ECMAScript ToUint32 of an integral number. */
  function ToUint32(x: int): (r: int)
    ensures 0 <= r < TWO_32
  {
    x % TWO_32
  }

  /** ECMAScript ToInt32 of an integral number. */
  function ToInt32(x: int): (r: int)
    ensures -TWO_31 <= r < TWO_31
    ensures ToUint32(r) == ToUint32(x)
  {
    var u := x % TWO_32;
    if u >= TWO_31 then u - TWO_32 else u
  }

  /** A bitwise-or with zero: ToInt32, with NaN mapped to 0. */
  function NumberToInt32(n: Option<int>): (r: int)
    ensures -TWO_31 <= r < TWO_31
  {
    if n.None? then 0 else ToInt32(n.value)
  }

  /** 32-bit integer multiplication: the low 32 bits of the product, as a signed integer. */
  function Imul(a: int, b: int): (r: int)
    ensures -TWO_31 <= r < TWO_31
  {
    ToInt32((ToUint32(a) * ToUint32(b)) % TWO_32)
  }

  /** The generator's unsigned 32-bit state after one step: the seed as a
      signed 32-bit integer, multiplied with 32-bit wrap-around, plus the
      increment, reinterpreted as unsigned. */
  function SeededUint(seed: Option<int>): (u: int)
    ensures 0 <= u < TWO_32
  {
    ToUint32(Imul(NumberToInt32(seed), LCG_MULTIPLIER) + LCG_INCREMENT)
  }

  /** The generator's value in [0, 1). */
  function SeededRandom(seed: Option<int>): (r: real)
    ensures 0.0 <= r < 1.0
  {
    SeededUint(seed) as real / TWO_32 as real
  }

  /** The signed and unsigned steps amount to the textbook LCG
      `u = (seed * 1664525 + 1013904223) mod 2^32`; NaN acts as seed 0. */
  lemma LcgClosedForm(seed: Option<int>)
    ensures var x := if seed.None? then 0 else seed.value;
      SeededUint(seed) == (x * LCG_MULTIPLIER + LCG_INCREMENT) % TWO_32
  {
    var x := if seed.None? then 0 else seed.value;
    var s := NumberToInt32(seed);
    assert s % TWO_32 == x % TWO_32;
    ModMul(s, x, LCG_MULTIPLIER);
    var p := (ToUint32(s) * LCG_MULTIPLIER) % TWO_32;
    assert p == (x * LCG_MULTIPLIER) % TWO_32;
    assert ToUint32(Imul(s, LCG_MULTIPLIER)) == p;
    ModAdd(Imul(s, LCG_MULTIPLIER), x * LCG_MULTIPLIER, LCG_INCREMENT);
  }

  lemma ModMul(a: int, b: int, k: int)
    requires a % TWO_32 == b % TWO_32
    ensures ((a % TWO_32) * k) % TWO_32 == (b * k) % TWO_32
  {
    var q := b / TWO_32;
    assert b == q * TWO_32 + a % TWO_32;
    assert b * k == (q * k) * TWO_32 + (a % TWO_32) * k;
  }

  lemma ModAdd(a: int, b: int, c: int)
    requires a % TWO_32 == b % TWO_32
    ensures (a + c) % TWO_32 == (b + c) % TWO_32
  {
  }

  /** The generator does no bit mixing: the seeds of consecutive numbers
      step the unsigned state by the multiplier, modulo 2^32. */
  lemma ConsecutiveSeedsStep(x: int)
    ensures SeededUint(Some(x + 1)) == (SeededUint(Some(x)) + LCG_MULTIPLIER) % TWO_32
  {
    LcgClosedForm(Some(x));
    LcgClosedForm(Some(x + 1));
    var a := x * LCG_MULTIPLIER + LCG_INCREMENT;
    assert (x + 1) * LCG_MULTIPLIER + LCG_INCREMENT == a + LCG_MULTIPLIER;
    ModAdd(a % TWO_32, a, LCG_MULTIPLIER);
  }

  // ---------------------------------------------------------------------------
  // getDailyScenario
  // ---------------------------------------------------------------------------

  /** The floor of the generator's value times `n`, in integers:
      `(u * n) div 2^32` for the generator's unsigned value `u`. */
  function ScenarioIndex(u: int, n: int): (idx: int)
    requires 0 <= u < TWO_32 && n > 0
    ensures 0 <= idx < n
  {
    var idx := (u * n) / TWO_32;
    IndexBounds(u, n, idx);
    idx
  }

  /** The integer index is exactly the floor of `seededRandom(seed) * n`,
      where `seededRandom(seed)` is `u / 2^32` for `u = SeededUint(seed)`. */
  lemma ScenarioIndexIsFloor(u: int, n: int)
    requires 0 <= u < TWO_32 && n > 0
    ensures var idx := ScenarioIndex(u, n);
      idx as real <= (u as real / TWO_32 as real) * n as real < idx as real + 1.0
  {
    IndexBounds(u, n, ScenarioIndex(u, n));
    FloorOfScaled(u, n, ScenarioIndex(u, n));
  }

  lemma IndexBounds(u: int, n: int, idx: int)
    requires 0 <= u < TWO_32 && n > 0 && idx == (u * n) / TWO_32
    ensures 0 <= idx < n
    ensures idx * TWO_32 <= u * n < (idx + 1) * TWO_32
  {
    assert u * n < TWO_32 * n;
    assert idx * TWO_32 <= u * n;
  }

  lemma FloorOfScaled(u: int, n: int, idx: int)
    requires idx * TWO_32 <= u * n < (idx + 1) * TWO_32
    ensures idx as real <= (u as real / TWO_32 as real) * n as real < idx as real + 1.0
  {
    var t := TWO_32 as real;
    var x := (u as real / t) * n as real;
    assert x * t == (u * n) as real;
    assert idx as real * t <= x * t < (idx as real + 1.0) * t;
  }

  /** Today's scenario, or the "No scenarios available" error on an empty catalog. */
  function GetDailyScenario(dateStr: string, scenarios: seq<Scenario>): (r: Result<Scenario, string>)
    ensures r.Failure? <==> |scenarios| == 0
    ensures r.Failure? ==> r.error == NO_SCENARIOS
    ensures r.Success? ==> r.value in scenarios
  {
    if |scenarios| == 0 then Failure(NO_SCENARIOS)
    else Success(scenarios[ScenarioIndex(SeededUint(DateSeed(dateStr)), |scenarios|)])
  }

  /** A one-scenario catalog always gives that scenario. */
  lemma SingleScenarioAlwaysChosen(dateStr: string, s: Scenario)
    ensures GetDailyScenario(dateStr, [s]) == Success(s)
  {
    var r := GetDailyScenario(dateStr, [s]);
    assert r.value in [s];
  }

  /** The choice is a function of the seed: dates with equal seeds get the
      same scenario from the same catalog. */
  lemma ChoiceDependsOnSeedOnly(a: string, b: string, scenarios: seq<Scenario>)
    requires |scenarios| > 0
    requires DateSeed(a) == DateSeed(b)
    ensures GetDailyScenario(a, scenarios) == GetDailyScenario(b, scenarios)
  {
  }

  /** The seed of 2026-03-02 is 20260302. */
  lemma SeedExample()
    ensures DateSeed("2026-03-02") == Some(20260302)
  {
    var d := CivilDate(2026, 3, 2);
    var s := FormatDate(d);
    assert s == "2026-03-02" by {
      PaddedExampleFields();
    }
    DateSeedOfIsoDate(s);
  }

  /** A run of digits followed by anything without hyphens that does not
      start with a digit seeds with the run alone: separators other than
      hyphens cut the seed short. */
  lemma SeedStopsAtSeparator(digits: string, rest: string)
    requires digits != [] && AllDigits(digits)
    requires forall i :: 0 <= i < |rest| ==> rest[i] != '-'
    requires rest == [] || !IsDigit(rest[0])
    ensures DateSeed(digits + rest) == Some(ParseDigits(digits))
  {
    var s := digits + rest;
    assert RemoveHyphens(s) == s by {
      RemoveHyphensConcat(digits, rest);
      RemoveHyphensKeepsHyphenFree(digits);
      RemoveHyphensKeepsHyphenFree(rest);
    }
    assert s == "" + ("" + s);
    ParseIntOfPrefix("", "", digits, rest);
  }

  /** The seed of 2026/03/02 is the year 2026 alone. */
  lemma SlashedDateSeed()
    ensures DateSeed("2026/03/02") == Some(2026)
  {
    assert ParseDigits("2026") == 2026 by {
      PaddedExampleFields();
      assert Pow10(4) == 10000;
      ParsePad(2026, 4);
    }
    assert "2026/03/02" == "2026" + "/03/02";
    SeedStopsAtSeparator("2026", "/03/02");
  }

  lemma PaddedExampleFields()
    ensures PadDigits(2026, 4) == "2026" && PadDigits(3, 2) == "03" && PadDigits(2, 2) == "02"
  {
    assert PadDigits(0, 1) == "0";
    assert PadDigits(2, 1) == "2";
    assert PadDigits(3, 1) == "3";
    assert PadDigits(20, 2) == "20";
    assert PadDigits(202, 3) == "202";
  }

  // ---------------------------------------------------------------------------
  // addDays
  // ---------------------------------------------------------------------------

  /** `addDays(dateStr, n)`: the ISO date `n` days after (before, when `n` is
      negative) `dateStr`, for results with a four-digit year. */
  function AddDays(dateStr: string, n: int): (r: string)
    requires IsIsoDate(dateStr)
    requires FIRST_DAY <= DayNumber(ParseDate(dateStr).value) + n <= LAST_DAY
    ensures IsIsoDate(r)
    ensures DayNumber(ParseDate(r).value) == DayNumber(ParseDate(dateStr).value) + n
  {
    var d := ShiftDays(ParseDate(dateStr).value, n);
    ShiftDaysDayNumber(ParseDate(dateStr).value, n);
    RepresentableIffInRange(d);
    FormatDate(d)
  }

  /** `AddDays(s, n)` is the only ISO date `n` days from `s`. */
  lemma AddDaysUnique(s: string, n: int, t: string)
    requires IsIsoDate(s) && IsIsoDate(t)
    requires FIRST_DAY <= DayNumber(ParseDate(s).value) + n <= LAST_DAY
    ensures t == AddDays(s, n) <==> DayNumber(ParseDate(t).value) == DayNumber(ParseDate(s).value) + n
  {
    var r := AddDays(s, n);
    if DayNumber(ParseDate(t).value) == DayNumber(ParseDate(s).value) + n {
      DayNumberInjective(ParseDate(t).value, ParseDate(r).value);
      IsoDateInjective(t, r);
    }
  }

  lemma AddDaysZero(s: string)
    requires IsIsoDate(s)
    ensures AddDays(s, 0) == s
  {
    AddDaysUnique(s, 0, s);
  }

  /** Adding `a` days and then `b` days is adding `a + b` days. */
  lemma AddDaysCompose(s: string, a: int, b: int)
    requires IsIsoDate(s)
    requires FIRST_DAY <= DayNumber(ParseDate(s).value) + a <= LAST_DAY
    requires FIRST_DAY <= DayNumber(ParseDate(s).value) + a + b <= LAST_DAY
    ensures AddDays(AddDays(s, a), b) == AddDays(s, a + b)
  {
    var t1 := AddDays(s, a);
    var t2 := AddDays(t1, b);
    var t3 := AddDays(s, a + b);
    DayNumberInjective(ParseDate(t2).value, ParseDate(t3).value);
    IsoDateInjective(t2, t3);
  }

  /** Going `n` days forward and `n` days back returns to the start. */
  lemma AddDaysInverse(s: string, n: int)
    requires IsIsoDate(s)
    requires FIRST_DAY <= DayNumber(ParseDate(s).value) + n <= LAST_DAY
    ensures AddDays(AddDays(s, n), -n) == s
  {
    var t := AddDays(s, n);
    var u := AddDays(t, -n);
    DayNumberInjective(ParseDate(u).value, ParseDate(s).value);
    IsoDateInjective(u, s);
  }

  /** `AddDays` on formatted dates whose day numbers are `n` apart. */
  lemma AddDaysBetween(a: CivilDate, n: int, b: CivilDate)
    requires Representable(a) && Representable(b)
    requires DayNumber(b) == DayNumber(a) + n
    ensures FIRST_DAY <= DayNumber(a) + n <= LAST_DAY
    ensures AddDays(FormatDate(a), n) == FormatDate(b)
  {
    AddDaysUnique(FormatDate(a), n, FormatDate(b));
  }

  // ---------------------------------------------------------------------------
  // getUpcomingChallenges
  // ---------------------------------------------------------------------------

  datatype Challenge = Challenge(date: string, scenario: Scenario)

  /** Entry `i` of `cs` is an ISO date whose day number is `i` past `from`'s. */
  predicate DatedFrom(from: string, cs: seq<Challenge>)
    requires IsIsoDate(from)
  {
    forall i :: 0 <= i < |cs| ==>
      IsIsoDate(cs[i].date)
      && DayNumber(ParseDate(cs[i].date).value) == DayNumber(ParseDate(from).value) + i
  }

  /** Today's pick as a function of the date. */
  function DailyPick(scenarios: seq<Scenario>): string -> Result<Scenario, string>
  {
    dateStr => GetDailyScenario(dateStr, scenarios)
  }

  /** Every entry of `cs` carries the scenario `pick` gives its date. */
  predicate PickedBy(pick: string -> Result<Scenario, string>, cs: seq<Challenge>)
  {
    forall i :: 0 <= i < |cs| ==> pick(cs[i].date) == Success(cs[i].scenario)
  }

  /** The upcoming list from `from`: entry `i` is dated `addDays(from, i)`
      and carries that date's daily scenario; the first entry is `from`
      itself and each later one is the day after the one before. */
  predicate UpcomingFrom(from: string, scenarios: seq<Scenario>, cs: seq<Challenge>)
    requires IsIsoDate(from)
    requires DayNumber(ParseDate(from).value) + |cs| - 1 <= LAST_DAY
  {
    (forall i :: 0 <= i < |cs| ==>
      cs[i].date == AddDays(from, i)
      && GetDailyScenario(cs[i].date, scenarios) == Success(cs[i].scenario)
      && (i + 1 < |cs| ==> cs[i + 1].date == AddDays(cs[i].date, 1)))
    && (|cs| > 0 ==> cs[0].date == from)
  }

  /** `days` consecutive challenges starting at `fromDateStr`; fails on the
      first day when the catalog is empty. */
  method GetUpcomingChallenges(fromDateStr: string, days: int, scenarios: seq<Scenario>)
    returns (r: Result<seq<Challenge>, string>)
    requires IsIsoDate(fromDateStr)
    requires DayNumber(ParseDate(fromDateStr).value) + days - 1 <= LAST_DAY
    ensures days <= 0 ==> r == Success([])
    ensures days > 0 && |scenarios| == 0 ==> r == Failure(NO_SCENARIOS)
    ensures |scenarios| > 0 ==> r.Success?
    ensures r.Success? ==> |r.value| == (if days > 0 then days else 0)
    ensures r.Success? ==> UpcomingFrom(fromDateStr, scenarios, r.value)
  {
    var start := ParseDate(fromDateStr).value;
    RepresentableIffInRange(start);
    var result: seq<Challenge> := [];
    var d := start;
    var i := 0;
    while i < days
      invariant 0 <= i <= (if days > 0 then days else 0)
      invariant |result| == i
      invariant IsCalendarDate(d) && DayNumber(d) == DayNumber(start) + i
      invariant DatedFrom(fromDateStr, result)
      invariant PickedBy(DailyPick(scenarios), result)
    {
      RepresentableIffInRange(d);
      var dateStr := FormatDate(d);
      var pick := GetDailyScenario(dateStr, scenarios);
      if pick.Failure? {
        return Failure(pick.error);
      }
      ExtendDatedFrom(fromDateStr, result, dateStr, pick.value);
      ExtendPickedBy(DailyPick(scenarios), result, Challenge(dateStr, pick.value));
      result := result + [Challenge(dateStr, pick.value)];
      DayNumberNext(d);
      d := NextDay(d);
      i := i + 1;
    }
    UpcomingFacts(fromDateStr, scenarios, result);
    r := Success(result);
  }

  lemma ExtendDatedFrom(from: string, cs: seq<Challenge>, date: string, s: Scenario)
    requires IsIsoDate(from) && IsIsoDate(date)
    requires DayNumber(ParseDate(date).value) == DayNumber(ParseDate(from).value) + |cs|
    requires DatedFrom(from, cs)
    ensures DatedFrom(from, cs + [Challenge(date, s)])
  {
    var cs' := cs + [Challenge(date, s)];
    forall i | 0 <= i < |cs'|
      ensures IsIsoDate(cs'[i].date)
      ensures DayNumber(ParseDate(cs'[i].date).value) == DayNumber(ParseDate(from).value) + i
    {
      if i < |cs| {
        assert cs'[i] == cs[i];
      }
    }
  }

  lemma ExtendPickedBy(pick: string -> Result<Scenario, string>, cs: seq<Challenge>, c: Challenge)
    requires PickedBy(pick, cs)
    requires pick(c.date) == Success(c.scenario)
    ensures PickedBy(pick, cs + [c])
  {
    var cs' := cs + [c];
    forall i | 0 <= i < |cs'|
      ensures pick(cs'[i].date) == Success(cs'[i].scenario)
    {
      if i < |cs| {
        assert cs'[i] == cs[i];
      }
    }
  }

  /** What the loop keeps, restated as the upcoming-list property. */
  lemma UpcomingFacts(from: string, scenarios: seq<Scenario>, cs: seq<Challenge>)
    requires IsIsoDate(from)
    requires DayNumber(ParseDate(from).value) + |cs| - 1 <= LAST_DAY
    requires DatedFrom(from, cs) && PickedBy(DailyPick(scenarios), cs)
    ensures UpcomingFrom(from, scenarios, cs)
  {
    ConsecutiveDates(from, cs);
    forall i | 0 <= i < |cs|
      ensures GetDailyScenario(cs[i].date, scenarios) == Success(cs[i].scenario)
    {
      assert DailyPick(scenarios)(cs[i].date) == Success(cs[i].scenario);
    }
  }

  /** Entries whose day numbers count up from `from` are `addDays(from, i)`:
      the first is `from`, and each is the day after the one before. */
  lemma ConsecutiveDates(from: string, cs: seq<Challenge>)
    requires IsIsoDate(from)
    requires DayNumber(ParseDate(from).value) + |cs| - 1 <= LAST_DAY
    requires DatedFrom(from, cs)
    ensures forall i :: 0 <= i < |cs| ==>
      cs[i].date == AddDays(from, i)
      && (i + 1 < |cs| ==> cs[i + 1].date == AddDays(cs[i].date, 1))
    ensures |cs| > 0 ==> cs[0].date == from
  {
    RepresentableIffInRange(ParseDate(from).value);
    forall i | 0 <= i < |cs|
      ensures cs[i].date == AddDays(from, i)
      ensures i + 1 < |cs| ==> cs[i + 1].date == AddDays(cs[i].date, 1)
    {
      DatedEntry(from, i, cs[i].date);
      if i + 1 < |cs| {
        DatedEntry(cs[i].date, 1, cs[i + 1].date);
      }
    }
    if |cs| > 0 {
      AddDaysZero(from);
    }
  }

  /** An ISO date `n` day numbers after `s` is `addDays(s, n)`. */
  lemma DatedEntry(s: string, n: nat, t: string)
    requires IsIsoDate(s) && IsIsoDate(t)
    requires DayNumber(ParseDate(t).value) == DayNumber(ParseDate(s).value) + n
    ensures FIRST_DAY <= DayNumber(ParseDate(s).value) + n <= LAST_DAY
    ensures t == AddDays(s, n)
  {
    RepresentableIffInRange(ParseDate(s).value);
    RepresentableIffInRange(ParseDate(t).value);
    AddDaysUnique(s, n, t);
  }

  // ---------------------------------------------------------------------------
  // isDailyLockConflict
  // ---------------------------------------------------------------------------

  predicate Listed(slug: string, scenarios: seq<Scenario>)
  {
    exists i :: 0 <= i < |scenarios| && scenarios[i].slug == slug
  }

  /** A daily lock blocks the target only when it was taken today, on a
      different slug that the catalog still lists (a stale slug never blocks):
      a conflict names a scenario of the catalog other than the target. */
  function IsDailyLockConflict(lockedDate: Option<string>, lockedSlug: Option<string>,
                               today: string, targetSlug: string, scenarios: seq<Scenario>): (conflict: bool)
    ensures conflict ==> lockedDate == Some(today)
    ensures conflict ==> exists s :: s in scenarios && Some(s.slug) == lockedSlug && s.slug != targetSlug
  {
    lockedDate == Some(today)
    && lockedSlug.Some?
    && lockedSlug.value != targetSlug
    && Listed(lockedSlug.value, scenarios)
  }

  /** Each row of the lock's truth table that lets the user through. */
  lemma LockConflictCases(lockedDate: Option<string>, lockedSlug: Option<string>,
                          today: string, targetSlug: string, scenarios: seq<Scenario>)
    ensures lockedDate.None? ==> !IsDailyLockConflict(lockedDate, lockedSlug, today, targetSlug, scenarios)
    ensures lockedDate.Some? && lockedDate.value != today
      ==> !IsDailyLockConflict(lockedDate, lockedSlug, today, targetSlug, scenarios)
    ensures lockedSlug.None? ==> !IsDailyLockConflict(lockedDate, lockedSlug, today, targetSlug, scenarios)
    ensures lockedSlug == Some(targetSlug)
      ==> !IsDailyLockConflict(lockedDate, lockedSlug, today, targetSlug, scenarios)
    ensures lockedSlug.Some? && (forall i :: 0 <= i < |scenarios| ==> scenarios[i].slug != lockedSlug.value)
      ==> !IsDailyLockConflict(lockedDate, lockedSlug, today, targetSlug, scenarios)
  {
  }

  /** A lock taken today on a still-listed slug blocks exactly the other slugs. */
  lemma TodayLockBlocksOthers(today: string, slug: string, targetSlug: string, scenarios: seq<Scenario>, k: int)
    requires 0 <= k < |scenarios| && scenarios[k].slug == slug
    ensures IsDailyLockConflict(Some(today), Some(slug), today, targetSlug, scenarios) <==> targetSlug != slug
  {
  }

  /** Removing scenarios from the catalog never creates a conflict: a lock
      that blocks under the smaller catalog blocks under the larger one. */
  lemma ShrinkingCatalogNeverBlocksMore(lockedDate: Option<string>, lockedSlug: Option<string>,
                                        today: string, targetSlug: string,
                                        smaller: seq<Scenario>, larger: seq<Scenario>)
    requires forall s :: s in smaller ==> s in larger
    requires IsDailyLockConflict(lockedDate, lockedSlug, today, targetSlug, smaller)
    ensures IsDailyLockConflict(lockedDate, lockedSlug, today, targetSlug, larger)
  {
    var i :| 0 <= i < |smaller| && smaller[i].slug == lockedSlug.value;
    assert smaller[i] in larger;
    var j :| 0 <= j < |larger| && larger[j] == smaller[i];
  }
}
