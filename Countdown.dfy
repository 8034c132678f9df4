/** The offer countdown: the time left until the end time, split into days,
    hours, minutes and seconds with `Math.floor` and `%`, each shown with
    two characters at least; an end time that has passed moves to thirty
    days after the moment of the reset. Times are whole milliseconds, as
    `getTime()` returns them. */
module Countdown {

  const SecondMs := 1000
  const MinuteMs := 60 * 1000
  const HourMs := 60 * 60 * 1000
  const DayMs := 24 * 60 * 60 * 1000

  /** `CONFIG.countdownDays`. */
  const CountdownDays := 30
  /** How far ahead the end time is set: thirty days, in milliseconds. */
  const SpanMs := CountdownDays * (24 * 60 * 60 * 1000)

  /** JavaScript's `%` on integers: the remainder takes the sign of the
      dividend (Dafny's `%` never returns a negative value). */
  function JsRem(a: int, b: int): int
    requires b > 0
  {
    if a >= 0 then a % b else -((-a) % b)
  }

  /** `JsRem` agrees with Euclidean remainder on a dividend that is not
      negative, and is never positive on a negative one. */
  lemma {:induction false} JsRemSign(a: int, b: int)
    requires b > 0
    ensures a >= 0 ==> JsRem(a, b) == a % b && 0 <= JsRem(a, b) < b
    ensures a < 0 ==> -b < JsRem(a, b) <= 0
  {
  }

  datatype Parts = Parts(days: int, hours: int, minutes: int, seconds: int)

  /** The four figures `updateCountdown` computes from `distance`. Every
      divisor is positive, so `Math.floor(x / y)` is Dafny's `x / y`. */
  function Decompose(distance: int): Parts {
    Parts(
      distance / DayMs,
      JsRem(distance, DayMs) / HourMs,
      JsRem(distance, HourMs) / MinuteMs,
      JsRem(distance, MinuteMs) / SecondMs)
  }

  /** The milliseconds the four figures stand for. */
  function Recompose(p: Parts): int {
    p.days * DayMs + p.hours * HourMs + p.minutes * MinuteMs + p.seconds * SecondMs
  }

  /** For a distance that has not run out, every figure is in its range and
      together they account for the distance, down to the last whole
      second. */
  lemma {:induction false} DecomposeBounds(d: int)
    requires d >= 0
    ensures var p := Decompose(d);
      && p.days >= 0 && 0 <= p.hours < 24 && 0 <= p.minutes < 60 && 0 <= p.seconds < 60
      && Recompose(p) <= d < Recompose(p) + SecondMs
      && Recompose(p) == d - d % SecondMs
  {
    SplitRem(d, HourMs, 24);
    SplitRem(d, MinuteMs, 60);
    SplitRem(d, SecondMs, 60);
  }

  /** The remainder by `a * k`, divided by `a`, is a figure below `k`, and
      what is left over is the remainder by `a`. */
  lemma {:induction false} SplitRem(d: int, a: int, k: int)
    requires d >= 0 && a > 0 && k > 0
    ensures d % (a * k) == (d % (a * k)) / a * a + d % a
    ensures 0 <= (d % (a * k)) / a < k
  {
    var r, q := d % (a * k), d / (a * k);
    assert d == q * (a * k) + r;
    var x, y := r / a, r % a;
    assert r == x * a + y;
    assert d == (q * k + x) * a + y by {
      assert q * (a * k) == (q * k) * a;
      assert (q * k) * a + x * a == (q * k + x) * a;
    }
    RemUnique(d, a, q * k + x, y);
    if x >= k {
      MulMono(x, k, a);
      assert false;
    }
  }

  lemma {:induction false} MulMono(x: int, k: int, a: int)
    requires x >= k && a > 0
    ensures x * a >= k * a
  {
    assert x * a == k * a + (x - k) * a;
  }

  /** A remainder in `[0, a)` is the remainder. */
  lemma {:induction false} RemUnique(d: int, a: int, q: int, r: int)
    requires a > 0 && 0 <= r < a && d == q * a + r
    ensures d % a == r
  {
    var q0, r0 := d / a, d % a;
    assert d == q0 * a + r0;
    if q > q0 {
      MulMono(q - q0, 1, a);
      assert false;
    } else if q < q0 {
      MulMono(q0 - q, 1, a);
      assert false;
    }
  }

  /** The figures of a distance below a hundred days all have at most two
      decimal digits; in particular those of any distance up to thirty days
      do. */
  lemma {:induction false} FiguresBelowHundred(d: int)
    requires 0 <= d < 100 * DayMs
    ensures var p := Decompose(d);
      0 <= p.days < 100 && 0 <= p.hours < 100 && 0 <= p.minutes < 100 && 0 <= p.seconds < 100
  {
    DecomposeBounds(d);
  }

  /** A full span shows 30 days, 0 hours, 0 minutes and 0 seconds. */
  lemma {:induction false} FullSpan()
    ensures Decompose(SpanMs) == Parts(30, 0, 0, 0)
  {
  }

  /** The decimal digit for `n < 10`. */
  function DigitChar(n: nat): char
    requires n < 10
  {
    ('0' as int + n) as char
  }

  /** `String(n)` for a whole number: its decimal digits, after a `-` when
      negative. */
  function IntToString(n: int): string {
    if n < 0 then "-" + NatToString(-n) else NatToString(n)
  }

  function NatToString(n: nat): (s: string)
    ensures |s| >= 1
    ensures n < 10 <==> |s| == 1
    ensures forall i :: 0 <= i < |s| ==> '0' <= s[i] <= '9'
    ensures n >= 10 ==> s[0] != '0'
  {
    if n < 10 then [DigitChar(n)] else NatToString(n / 10) + [DigitChar(n % 10)]
  }

  /** The number a string of decimal digits stands for. */
  function DigitsValue(s: string): int {
    if s == [] then 0 else 10 * DigitsValue(s[..|s| - 1]) + (s[|s| - 1] as int - '0' as int)
  }

  /** `NatToString` writes `n` in decimal. */
  lemma {:induction false} NatToStringValue(n: nat)
    ensures DigitsValue(NatToString(n)) == n
  {
    if n >= 10 {
      var s := NatToString(n);
      NatToStringValue(n / 10);
      assert s[..|s| - 1] == NatToString(n / 10);
    }
  }

  /** `s.padStart(width, fill)` with a one-character fill: `s` itself when it
      is long enough, otherwise `s` after enough copies of `fill`. */
  function PadStart(s: string, width: nat, fill: char): (r: string)
    ensures |r| == if |s| >= width then |s| else width
    ensures r[|r| - |s|..] == s
    ensures forall i :: 0 <= i < |r| - |s| ==> r[i] == fill
  {
    if |s| >= width then s else [fill] + PadStart(s, width - 1, fill)
  }

  /** One figure of the countdown as shown. */
  function Cell(n: int): string {
    PadStart(IntToString(n), 2, '0')
  }

  /** A figure from 0 to 99 is shown as exactly two decimal digits that
      stand for it, with a leading `0` below ten. */
  lemma {:induction false} CellTwoDigits(n: int)
    requires 0 <= n < 100
    ensures |Cell(n)| == 2
    ensures forall i :: 0 <= i < 2 ==> '0' <= Cell(n)[i] <= '9'
    ensures DigitsValue(Cell(n)) == n
    ensures n < 10 ==> Cell(n)[0] == '0'
  {
    if n < 10 {
      var d := DigitChar(n);
      CellOneDigit(n);
      PairValue('0', d);
    } else {
      CellTwoDigitFigure(n);
    }
  }

  /** Below ten the figure gets a leading `0`. */
  lemma {:induction false} CellOneDigit(n: int)
    requires 0 <= n < 10
    ensures Cell(n) == ['0', DigitChar(n)]
  {
    var d := DigitChar(n);
    assert IntToString(n) == [d];
    assert PadStart([d], 2, '0') == ['0'] + PadStart([d], 1, '0');
  }

  /** The value of two digits. */
  lemma {:induction false} PairValue(x: char, y: char)
    ensures DigitsValue([x, y]) == 10 * (x as int - '0' as int) + (y as int - '0' as int)
  {
    assert [x, y][..1] == [x];
    assert [x][..0] == [];
    assert DigitsValue([x]) == x as int - '0' as int;
    assert DigitsValue([x, y]) == 10 * DigitsValue([x]) + (y as int - '0' as int);
  }

  /** From ten to ninety-nine the figure is its own two digits. */
  lemma {:induction false} CellTwoDigitFigure(n: int)
    requires 10 <= n < 100
    ensures Cell(n) == NatToString(n) && |Cell(n)| == 2
    ensures DigitsValue(Cell(n)) == n
  {
    var s := NatToString(n);
    NatToStringValue(n);
    assert |s| == 2 by {
      assert NatToString(n / 10) == [DigitChar(n / 10)];
    }
  }

  /** What the four countdown elements show. */
  datatype Face = Face(days: string, hours: string, minutes: string, seconds: string)

  function Show(p: Parts): Face {
    Face(Cell(p.days), Cell(p.hours), Cell(p.minutes), Cell(p.seconds))
  }

  /** A distance from zero up to a hundred days is shown with two digits in
      every element, each standing for its figure. */
  lemma {:induction false} FaceTwoDigits(d: int)
    requires 0 <= d < 100 * DayMs
    ensures var f, p := Show(Decompose(d)), Decompose(d);
      && |f.days| == 2 && |f.hours| == 2 && |f.minutes| == 2 && |f.seconds| == 2
      && DigitsValue(f.days) == p.days && DigitsValue(f.hours) == p.hours
      && DigitsValue(f.minutes) == p.minutes && DigitsValue(f.seconds) == p.seconds
  {
    var p := Decompose(d);
    FiguresBelowHundred(d);
    CellTwoDigits(p.days);
    CellTwoDigits(p.hours);
    CellTwoDigits(p.minutes);
    CellTwoDigits(p.seconds);
  }

  /** The end time after one run of `updateCountdown` that reads the clock
      as `now`, and again as `resetNow` when the end time has passed. */
  function NextEnd(endTime: int, now: int, resetNow: int): int {
    if endTime - now < 0 then resetNow + SpanMs else endTime
  }

  /** An end time still ahead is kept; one that has passed moves to a full
      span after the second clock read. Provided the clock has not gone back
      between the two reads, the distance shown is never negative, and a
      reset shows at least the full span: 30 days, or exactly
      `30:00:00:00` when both reads agree. */
  lemma {:induction false} NextEndFacts(endTime: int, now: int, resetNow: int)
    ensures endTime >= now ==> NextEnd(endTime, now, resetNow) == endTime
    ensures endTime < now ==> NextEnd(endTime, now, resetNow) == resetNow + SpanMs
    ensures resetNow >= now ==> NextEnd(endTime, now, resetNow) - now >= 0
    ensures endTime < now && resetNow >= now ==>
              NextEnd(endTime, now, resetNow) - now >= SpanMs
              && Decompose(NextEnd(endTime, now, resetNow) - now).days >= CountdownDays
    ensures endTime < now && resetNow == now ==>
              Show(Decompose(NextEnd(endTime, now, resetNow) - now)) == Show(Parts(30, 0, 0, 0))
  {
    if endTime < now && resetNow >= now {
      var d := resetNow + SpanMs - now;
      assert d / DayMs >= SpanMs / DayMs;
      if resetNow == now {
        FullSpan();
      }
    }
  }

  /** The timer's closure: the end time it counts down to. */
  class CountdownTimer {
    var endTime: int

    /** Set up on load: the end time is thirty days after `now`. */
    constructor(now: int)
      ensures endTime == now + SpanMs
    {
      endTime := now + SpanMs;
    }

    /** One run of `updateCountdown`. The clock is read as `now`; when the
        end time has passed, the clock is read again, as `resetNow`, to set
        the new end time, while the distance still uses `now`. */
    method Tick(now: int, resetNow: int) returns (face: Face)
      modifies this
      ensures endTime == NextEnd(old(endTime), now, resetNow)
      ensures face == Show(Decompose(endTime - now))
    {
      if endTime < now {
        endTime := resetNow + SpanMs;
      }
      face := Show(Decompose(endTime - now));
    }
  }
}
