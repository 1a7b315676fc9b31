/** The `YYYY-MM-DD` text form of a calendar date: what
    `Date.prototype.toISOString().slice(0, 10)` prints for years 0..9999,
    and the canonical date part that `new Date(s + "T00:00:00Z")` reads. */
module IsoDate {
  import opened Wrappers
  import opened Calendar

  predicate IsDigit(c: char)
  {
    '0' <= c <= '9'
  }

  predicate AllDigits(s: string)
  {
    forall i :: 0 <= i < |s| ==> IsDigit(s[i])
  }

  function DigitChar(v: int): (c: char)
    requires 0 <= v < 10
    ensures IsDigit(c)
  {
    (48 + v) as char
  }

  function DigitValue(c: char): (v: int)
    requires IsDigit(c)
    ensures 0 <= v < 10
  {
    c as int - 48
  }

  function Pow10(n: nat): (p: nat)
    ensures p >= 1
  {
    if n == 0 then 1 else 10 * Pow10(n - 1)
  }

  /** The last `width` decimal digits of `v`, zero-padded on the left. */
  function PadDigits(v: nat, width: nat): (s: string)
    ensures |s| == width && AllDigits(s)
  {
    if width == 0 then [] else PadDigits(v / 10, width - 1) + [DigitChar(v % 10)]
  }

  /** The value of a decimal digit string; a string of `k` digits is below 10^k. */
  function ParseDigits(s: string): (v: nat)
    requires AllDigits(s)
    ensures v < Pow10(|s|)
  {
    if s == [] then 0 else ParseDigits(s[..|s| - 1]) * 10 + DigitValue(s[|s| - 1])
  }

  /** Padding a value that fits and reading it back gives the value. */
  lemma {:induction false} ParsePad(v: nat, width: nat)
    requires v < Pow10(width)
    ensures ParseDigits(PadDigits(v, width)) == v
  {
    if width > 0 {
      var s := PadDigits(v, width);
      assert s[..|s| - 1] == PadDigits(v / 10, width - 1);
      ParsePad(v / 10, width - 1);
    }
  }

  /** Reading a digit string and padding it to its own width gives it back. */
  lemma {:induction false} PadParse(s: string)
    requires AllDigits(s)
    ensures PadDigits(ParseDigits(s), |s|) == s
  {
    if s != [] {
      var init := s[..|s| - 1];
      var v := ParseDigits(s);
      assert v / 10 == ParseDigits(init) && v % 10 == DigitValue(s[|s| - 1]);
      PadParse(init);
      assert s == init + [s[|s| - 1]];
    }
  }

  /** Digits read left to right: the value of `a + b` shifts `a` by `|b|` places. */
  lemma {:induction false} ParseDigitsConcat(a: string, b: string)
    requires AllDigits(a) && AllDigits(b)
    ensures AllDigits(a + b)
    ensures ParseDigits(a + b) == ParseDigits(a) * Pow10(|b|) + ParseDigits(b)
  {
    assert AllDigits(a + b);
    if b != [] {
      var b' := b[..|b| - 1];
      assert (a + b)[..|a + b| - 1] == a + b';
      ParseDigitsConcat(a, b');
      calc {
        ParseDigits(a + b);
        ParseDigits(a + b') * 10 + DigitValue(b[|b| - 1]);
        (ParseDigits(a) * Pow10(|b'|) + ParseDigits(b')) * 10 + DigitValue(b[|b| - 1]);
        { MulAssoc10(ParseDigits(a), Pow10(|b'|)); }
        ParseDigits(a) * Pow10(|b|) + ParseDigits(b);
      }
    } else {
      assert a + b == a;
    }
  }

  lemma MulAssoc10(x: nat, p: nat)
    ensures (x * p) * 10 == x * (10 * p)
  {
  }

  /** A date `toISOString` prints with a plain four-digit year. */
  predicate Representable(d: CivilDate)
  {
    IsCalendarDate(d) && 0 <= d.year <= 9999
  }

  /** Day numbers of 0000-01-01 and 9999-12-31, the ends of the four-digit range. */
  const FIRST_DAY: int := -719528
  const LAST_DAY: int := 2932896

  lemma RangeEnds()
    ensures DayNumber(CivilDate(0, 1, 1)) == FIRST_DAY
    ensures DayNumber(CivilDate(9999, 12, 31)) == LAST_DAY
  {
  }

  /** A calendar date has a four-digit year exactly when its day number lies
      between those of 0000-01-01 and 9999-12-31. */
  lemma RepresentableIffInRange(d: CivilDate)
    requires IsCalendarDate(d)
    ensures Representable(d) <==> FIRST_DAY <= DayNumber(d) <= LAST_DAY
  {
    var lo, hi := CivilDate(0, 1, 1), CivilDate(9999, 12, 31);
    RangeEnds();
    if d != lo && !Before(d, lo) && 0 <= d.year {
      DayNumberMonotone(lo, d);
    }
    if d.year < 0 {
      DayNumberMonotone(d, lo);
    }
    if d != hi && !Before(hi, d) && d.year <= 9999 {
      DayNumberMonotone(d, hi);
    }
    if d.year > 9999 {
      DayNumberMonotone(hi, d);
    }
  }

  /** `toISOString().slice(0, 10)` of midnight UTC on `d`; parsing the text
      gives the date back. */
  function FormatDate(d: CivilDate): (s: string)
    requires Representable(d)
    ensures |s| == 10 && s[4] == '-' && s[7] == '-'
    ensures ParseDate(s) == Some(d)
  {
    var s := PadDigits(d.year, 4) + "-" + PadDigits(d.month, 2) + "-" + PadDigits(d.day, 2);
    ParseOfPadded(d, s);
    s
  }

  /** Ten characters `DDDD-DD-DD`. */
  predicate IsoShape(s: string)
  {
    |s| == 10 && s[4] == '-' && s[7] == '-'
    && AllDigits(s[..4]) && AllDigits(s[5..7]) && AllDigits(s[8..])
  }

  /** The date part of an ISO 8601 timestamp: `YYYY-MM-DD` naming a day that
      exists, and `None` for every other string. This is stricter than the
      JavaScript date parser, which takes any day from 1 to 31 and rolls an
      overflow into the next month. */
  function ParseDate(s: string): (r: Option<CivilDate>)
    ensures r.Some? ==> Representable(r.value)
  {
    if IsoShape(s) then
      var d := CivilDate(ParseDigits(s[..4]), ParseDigits(s[5..7]), ParseDigits(s[8..]));
      if IsCalendarDate(d) then
        assert Pow10(4) == 10000;
        Some(d)
      else None
    else None
  }

  predicate IsIsoDate(s: string)
  {
    ParseDate(s).Some?
  }

  /** An ISO date string has the `YYYY-MM-DD` shape and names the date
      its three digit groups spell. */
  lemma IsoDateFields(s: string)
    requires IsIsoDate(s)
    ensures IsoShape(s)
    ensures ParseDate(s).value == CivilDate(ParseDigits(s[..4]), ParseDigits(s[5..7]), ParseDigits(s[8..]))
  {
  }

  lemma ParseOfPadded(d: CivilDate, s: string)
    requires Representable(d)
    requires s == PadDigits(d.year, 4) + "-" + PadDigits(d.month, 2) + "-" + PadDigits(d.day, 2)
    ensures ParseDate(s) == Some(d)
  {
    assert s[..4] == PadDigits(d.year, 4);
    assert s[5..7] == PadDigits(d.month, 2);
    assert s[8..] == PadDigits(d.day, 2);
    assert Pow10(4) == 10000 && Pow10(2) == 100;
    ParsePad(d.year, 4);
    ParsePad(d.month, 2);
    ParsePad(d.day, 2);
  }

  /** Parsing then formatting gives the string back: the accepted strings are
      exactly the canonical ones. */
  lemma ParseFormat(s: string)
    requires IsIsoDate(s)
    ensures FormatDate(ParseDate(s).value) == s
  {
    IsoDateFields(s);
    var y, m, dd := s[..4], s[5..7], s[8..];
    PadParse(y);
    PadParse(m);
    PadParse(dd);
    assert s == y + "-" + m + "-" + dd;
  }

  /** Two ISO strings name the same day exactly when they are equal. */
  lemma IsoDateInjective(s1: string, s2: string)
    requires IsIsoDate(s1) && IsIsoDate(s2)
    requires ParseDate(s1) == ParseDate(s2)
    ensures s1 == s2
  {
    ParseFormat(s1);
    ParseFormat(s2);
  }
}
