/**
  The playback clock (`formatTime`): a time in seconds shown as minutes, a
  colon, and the seconds within the minute padded to two digits. NaN, the
  duration of a player with no media yet, shows as "0:00".

  JavaScript numbers are modelled as NaN or a real value; the infinities are
  not modelled. `Math.floor` is Floor, JavaScript's `%` truncates toward zero
  (the result takes the sign of the dividend), and a number converts to its
  decimal digits, with a leading '-' when it is negative.
 */
module Clock {

  datatype Option<T> = None | Some(value: T)

  /** A JavaScript number handed to `formatTime`. */
  datatype Seconds = NaN | Finite(value: real)

  /** The decimal digit character of d. */
  function DigitChar(d: nat): (c: char)
    requires d < 10
    ensures '0' <= c <= '9'
  {
    ('0' as int + d) as char
  }

  predicate IsDigit(c: char)
  {
    '0' <= c <= '9'
  }

  predicate AllDigits(s: string)
  {
    forall k :: 0 <= k < |s| ==> IsDigit(s[k])
  }

  /** `String(n)` for a non-negative integer: its decimal digits, no leading zero. */
  function NatToDecimal(n: nat): (s: string)
    ensures |s| > 0 && AllDigits(s)
    ensures n < 10 <==> |s| == 1
    decreases n
  {
    if n < 10 then [DigitChar(n)] else NatToDecimal(n / 10) + [DigitChar(n % 10)]
  }

  /** `String(i)` for an integer. */
  function IntToDecimal(i: int): string
  {
    if i < 0 then "-" + NatToDecimal(-i) else NatToDecimal(i)
  }

  /** The number a string of decimal digits denotes. */
  function DecimalValue(s: string): nat
    requires AllDigits(s)
    decreases |s|
  {
    if |s| == 0 then 0 else DecimalValue(s[..|s| - 1]) * 10 + (s[|s| - 1] as int - '0' as int)
  }

  /** Reading the digits of n back gives n, and they have no leading zero. */
  lemma {:induction false} DecimalRoundTrip(n: nat)
    ensures DecimalValue(NatToDecimal(n)) == n
    ensures NatToDecimal(n)[0] == '0' ==> n == 0
    decreases n
  {
    if n >= 10 {
      var s := NatToDecimal(n);
      DecimalRoundTrip(n / 10);
      assert s[..|s| - 1] == NatToDecimal(n / 10);
    }
  }

  /** `s.padStart(width, fill)`: s preceded by enough copies of fill to reach the width. */
  function PadStart(s: string, width: nat, fill: char): (r: string)
    ensures |r| == if |s| >= width then |s| else width
    ensures r[|r| - |s|..] == s
    ensures forall k :: 0 <= k < |r| - |s| ==> r[k] == fill
  {
    if |s| >= width then s else seq(width - |s|, _ => fill) + s
  }

  /** Rounds toward zero, as JavaScript's `%` does with its implicit quotient. */
  function Trunc(x: real): (i: int)
    ensures x >= 0.0 ==> i as real <= x < i as real + 1.0
    ensures x < 0.0 ==> i as real - 1.0 < x <= i as real
  {
    if x >= 0.0 then x.Floor else -((-x).Floor)
  }

  /** JavaScript's `x % m`: the remainder of the quotient truncated toward zero. */
  function JsRemainder(x: real, m: real): (r: real)
    requires m != 0.0
    ensures m > 0.0 && x >= 0.0 ==> 0.0 <= r < m
    ensures m > 0.0 && x < 0.0 ==> -m < r <= 0.0
    ensures (x - r) / m == Trunc(x / m) as real
  {
    TruncatedQuotient(x, m);
    x - m * (Trunc(x / m) as real)
  }

  /** The truncated quotient q of x by m leaves x - m * q, which has the sign of x and lies within m of 0. */
  lemma TruncatedQuotient(x: real, m: real)
    requires m != 0.0
    ensures m > 0.0 && x >= 0.0 ==> 0.0 <= x - m * (Trunc(x / m) as real) < m
    ensures m > 0.0 && x < 0.0 ==> -m < x - m * (Trunc(x / m) as real) <= 0.0
    ensures (m * (Trunc(x / m) as real)) / m == Trunc(x / m) as real
  {
    var q := Trunc(x / m) as real;
    var y := x / m;
    QuotientTimesDivisor(x, m);
    DivisionCancels(q, m);
    RemainderOfFraction(x, y, q, m);
    if m > 0.0 {
      SignOfQuotient(x, m);
      RemainderWithinDivisor(x, y, q, m);
    }
  }

  /** x = y * m with m > 0 leaves x - m * q within m of 0 when q is y rounded toward zero. */
  lemma RemainderWithinDivisor(x: real, y: real, q: real, m: real)
    requires m > 0.0 && y * m == x
    ensures 0.0 <= y - q < 1.0 ==> 0.0 <= x - m * q < m
    ensures -1.0 < y - q <= 0.0 ==> -m < x - m * q <= 0.0
  {
    var r := x - m * q;
    RemainderOfFraction(x, y, q, m);
    ScaledFraction(y - q, m, r);
  }

  lemma RemainderOfFraction(x: real, y: real, q: real, m: real)
    requires y * m == x
    ensures x - m * q == (y - q) * m
  {
  }

  lemma QuotientTimesDivisor(x: real, m: real)
    requires m != 0.0
    ensures (x / m) * m == x
  {
  }

  lemma DivisionCancels(q: real, m: real)
    requires m != 0.0
    ensures (m * q) / m == q
  {
  }

  lemma SignOfQuotient(x: real, m: real)
    requires m > 0.0
    ensures x >= 0.0 <==> x / m >= 0.0
  {
  }

  /** A fraction f of m with -1 < f < 1 lies strictly within m of 0, with the sign of f. */
  lemma ScaledFraction(f: real, m: real, r: real)
    requires m > 0.0 && r == f * m
    ensures 0.0 <= f < 1.0 ==> 0.0 <= r < m
    ensures -1.0 < f <= 0.0 ==> -m < r <= 0.0
  {
    if 0.0 <= f < 1.0 {
      NonNegativeFraction(f, m, r);
    }
    if -1.0 < f <= 0.0 {
      NonPositiveFraction(f, m, r);
    }
  }

  lemma NonNegativeFraction(f: real, m: real, r: real)
    requires m > 0.0 && r == f * m && 0.0 <= f < 1.0
    ensures 0.0 <= r < m
  {
    PositiveProduct(1.0 - f, m);
    NonNegativeProduct(f, m);
    assert m - r == (1.0 - f) * m;
  }

  lemma NonPositiveFraction(f: real, m: real, r: real)
    requires m > 0.0 && r == f * m && -1.0 < f <= 0.0
    ensures -m < r <= 0.0
  {
    PositiveProduct(1.0 + f, m);
    NonNegativeProduct(-f, m);
    assert m + r == (1.0 + f) * m;
    assert -r == (-f) * m;
  }

  lemma PositiveProduct(a: real, b: real)
    requires a > 0.0 && b > 0.0
    ensures a * b > 0.0
  {
  }

  lemma NonNegativeProduct(a: real, b: real)
    requires a >= 0.0 && b > 0.0
    ensures a * b >= 0.0
  {
  }

  /** `formatTime`: NaN shows as "0:00"; a time of at least 0 seconds shows as minutes, a colon and two seconds digits. */
  function FormatTime(t: Seconds): (r: string)
    ensures t.NaN? ==> r == "0:00"
    ensures t.Finite? && t.value >= 0.0 ==> ClockShaped(r)
  {
    match t
    case NaN => "0:00"
    case Finite(x) =>
      var mins := (x / 60.0).Floor;
      var secs := JsRemainder(x, 60.0).Floor;
      var r := IntToDecimal(mins) + ":" + PadStart(IntToDecimal(secs), 2, '0');
      if x >= 0.0 then ElapsedClockShape(x); r else r
  }

  /** For a time s of at least 0 seconds, the minutes shown are Floor(s) div 60 and the seconds Floor(s) mod 60. */
  lemma ClockFields(x: real)
    requires x >= 0.0
    ensures (x / 60.0).Floor == x.Floor / 60
    ensures JsRemainder(x, 60.0).Floor == x.Floor % 60
  {
    var n := x.Floor;
    var q := n / 60;
    var r := n % 60;
    assert n == 60 * q + r;
    assert (n as real) <= x < (n as real) + 1.0;
    assert (q as real) <= x / 60.0 < (q as real) + 1.0;
    assert Trunc(x / 60.0) == q;
    assert JsRemainder(x, 60.0) == x - 60.0 * (q as real);
    assert (r as real) <= x - 60.0 * (q as real) < (r as real) + 1.0;
  }

  /** Index of the first occurrence of c in s. */
  function IndexOf(s: string, c: char): (r: Option<nat>)
    ensures r.Some? ==> r.value < |s| && s[r.value] == c && c !in s[..r.value]
    ensures r.None? ==> c !in s
  {
    if |s| == 0 then None
    else if s[0] == c then Some(0)
    else
      match IndexOf(s[1..], c)
      case None => None
      case Some(i) =>
        assert s[..i + 1] == [s[0]] + s[1..][..i];
        Some(i + 1)
  }

  /** At least one minutes digit, a colon, and two seconds digits. */
  predicate ClockShaped(r: string)
  {
    |r| >= 4 && r[|r| - 3] == ':' && AllDigits(r[..|r| - 3]) && AllDigits(r[|r| - 2..])
  }

  /** The clock text of x >= 0 seconds has the shape minutes, colon, two seconds digits. */
  lemma ElapsedClockShape(x: real)
    requires x >= 0.0
    ensures ClockShaped(IntToDecimal((x / 60.0).Floor) + ":" + PadStart(IntToDecimal(JsRemainder(x, 60.0).Floor), 2, '0'))
  {
    var n := x.Floor;
    var m := NatToDecimal(n / 60);
    var p := PadStart(NatToDecimal(n % 60), 2, '0');
    assert IntToDecimal((x / 60.0).Floor) + ":" + PadStart(IntToDecimal(JsRemainder(x, 60.0).Floor), 2, '0') == m + ":" + p by {
      ClockFields(x);
    }
    TwoDigitSeconds(n % 60);
    JoinedClockShape(m, p);
  }

  /** A minutes field and a two-digit seconds field joined by a colon: the colon is third from the end, digits on both sides. */
  lemma JoinedClockShape(m: string, p: string)
    requires |m| > 0 && AllDigits(m)
    requires |p| == 2 && AllDigits(p)
    ensures ClockShaped(m + ":" + p)
  {
    var r := m + ":" + p;
    assert r[..|r| - 3] == m;
    assert r[|r| - 2..] == p;
  }

  /** Reads a clock "m:ss" back as its minutes and seconds; None for any other string. */
  function ParseClock(s: string): Option<(nat, nat)>
  {
    match IndexOf(s, ':')
    case None => None
    case Some(i) =>
      var minutes := s[..i];
      var seconds := s[i + 1..];
      if |minutes| > 0 && AllDigits(minutes) && |seconds| == 2 && AllDigits(seconds)
      then Some((DecimalValue(minutes), DecimalValue(seconds)))
      else None
  }

  /** The first c in a string is the one right after a prefix without c. */
  lemma {:induction false} IndexOfAfterPrefix(m: string, c: char, rest: string)
    requires c !in m
    ensures IndexOf(m + [c] + rest, c) == Some(|m|)
    decreases |m|
  {
    var s := m + [c] + rest;
    if |m| > 0 {
      assert s[1..] == m[1..] + [c] + rest;
      IndexOfAfterPrefix(m[1..], c, rest);
    }
  }

  /** Joining a minutes field and a two-digit seconds field with a colon reads back as the two fields. */
  lemma ParseJoinedClock(m: string, p: string)
    requires |m| > 0 && AllDigits(m)
    requires |p| == 2 && AllDigits(p)
    ensures ParseClock(m + ":" + p) == Some((DecimalValue(m), DecimalValue(p)))
  {
    var s := m + ":" + p;
    assert ':' !in m by {
      assert forall k :: 0 <= k < |m| ==> m[k] != ':';
    }
    IndexOfAfterPrefix(m, ':', p);
    assert s[..|m|] == m;
    assert s[|m| + 1..] == p;
  }

  /** The two-digit seconds field of the clock, for seconds below 60. */
  lemma TwoDigitSeconds(r: nat)
    requires r < 60
    ensures |PadStart(NatToDecimal(r), 2, '0')| == 2
    ensures AllDigits(PadStart(NatToDecimal(r), 2, '0'))
    ensures DecimalValue(PadStart(NatToDecimal(r), 2, '0')) == r
  {
    var d := NatToDecimal(r);
    var p := PadStart(d, 2, '0');
    DecimalRoundTrip(r);
    if r < 10 {
      assert p == ['0'] + d;
      assert p[..1] == ['0'];
    } else {
      assert p == d;
    }
  }

  /**
    The clock of a time s of at least 0 seconds (or of NaN, shown as 0) reads
    back as Floor(s) div 60 minutes and Floor(s) mod 60 seconds, so it shows
    exactly the whole seconds elapsed, with the seconds field below 60.
   */
  lemma FormatTimeRoundTrip(t: Seconds)
    requires t.Finite? ==> t.value >= 0.0
    ensures var whole := if t.NaN? then 0 else t.value.Floor;
      whole >= 0 &&
      ParseClock(FormatTime(t)) == Some((whole / 60, whole % 60))
  {
    match t
    case NaN =>
      NaNClock();
    case Finite(x) =>
      ElapsedClock(x);
  }

  /** NaN shows as "0:00", which reads back as 0 minutes and 0 seconds. */
  lemma NaNClock()
    ensures FormatTime(NaN) == "0:00"
    ensures ParseClock("0:00") == Some((0, 0))
  {
    ParseJoinedClock("0", "00");
    assert "0" + ":" + "00" == "0:00";
    assert DecimalValue("00") == 0 by {
      assert "00"[..1] == "0";
    }
  }

  /** The clock of x >= 0 seconds reads back as Floor(x) div 60 minutes and Floor(x) mod 60 seconds. */
  lemma ElapsedClock(x: real)
    requires x >= 0.0
    ensures ParseClock(FormatTime(Finite(x))) == Some((x.Floor / 60, x.Floor % 60))
  {
    ClockText(x);
    WholeSecondsReadBack(x.Floor);
  }

  /** The clock of x >= 0 seconds is the digits of Floor(x) div 60, a colon, and Floor(x) mod 60 padded to two digits. */
  lemma ClockText(x: real)
    requires x >= 0.0
    ensures FormatTime(Finite(x)) == NatToDecimal(x.Floor / 60) + ":" + PadStart(NatToDecimal(x.Floor % 60), 2, '0')
  {
    ClockFields(x);
  }

  /** The clock text of n whole seconds reads back as n div 60 minutes and n mod 60 seconds. */
  lemma WholeSecondsReadBack(n: nat)
    ensures ParseClock(NatToDecimal(n / 60) + ":" + PadStart(NatToDecimal(n % 60), 2, '0')) == Some((n / 60, n % 60))
  {
    var m := NatToDecimal(n / 60);
    var p := PadStart(NatToDecimal(n % 60), 2, '0');
    DecimalRoundTrip(n / 60);
    TwoDigitSeconds(n % 60);
    ParseJoinedClock(m, p);
  }


  /** JavaScript semantics on a negative time: -5 seconds shows as "-1:-5". */
  lemma NegativeTimeExample()
    ensures FormatTime(Finite(-5.0)) == "-1:-5"
  {
    assert (-5.0 / 60.0).Floor == -1;
    assert Trunc(-5.0 / 60.0) == 0;
    assert JsRemainder(-5.0, 60.0).Floor == -5;
    assert IntToDecimal(-5) == "-5";
    assert IntToDecimal(-1) == "-1";
  }
}
