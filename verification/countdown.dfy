/**
 * The countdown of CountdownTimer.tsx: each tick splits the milliseconds
 * left before the event into days, hours, minutes and seconds, and each
 * value is shown padded to two digits. The interval and the clock that
 * drive it are not modelled: a tick takes the distance as a parameter.
 */
module Countdown {
  import opened Values

  datatype TimeLeft = TimeLeft(days: int, hours: int, minutes: int, seconds: int)

  /** The state before the first tick. */
  const INITIAL := TimeLeft(0, 0, 0, 0)

  /** The initial state is what a distance of zero shows. */
  lemma InitialIsZeroDistance()
    ensures INITIAL == Decompose(0) && Millis(INITIAL) == 0
  {
  }

  /** What one tick does: stop the timer, or set a new state. */
  datatype Tick = Stop | Update(left: TimeLeft)

  /** The milliseconds a state stands for. */
  function Millis(t: TimeLeft): int
  {
    t.days * 86400000 + t.hours * 3600000 + t.minutes * 60000 + t.seconds * 1000
  }

  /** A state whose hours, minutes and seconds are in clock range. */
  predicate InRange(t: TimeLeft)
  {
    t.days >= 0 && 0 <= t.hours < 24 && 0 <= t.minutes < 60 && 0 <= t.seconds < 60
  }

  /** The `Math.floor` expressions of the tick, for a distance that is not negative. */
  function Decompose(distance: nat): (t: TimeLeft)
    ensures InRange(t)
    ensures t.days == distance / 86400000
    ensures Millis(t) <= distance < Millis(t) + 1000
  {
    // 86400000 ms a day, 3600000 an hour, 60000 a minute, 1000 a second
    DecomposeCovers(distance);
    TimeLeft(distance / 86400000,
             (distance % 86400000) / 3600000,
             (distance % 3600000) / 60000,
             (distance % 60000) / 1000)
  }

  /** The remainders of the tick nest: the distance modulo an hour is the
      remainder of the day's remainder, and so on down to the second. */
  lemma DecomposeCovers(d: nat)
    ensures var t := TimeLeft(d / 86400000, (d % 86400000) / 3600000, (d % 3600000) / 60000, (d % 60000) / 1000);
      InRange(t) && Millis(t) <= d < Millis(t) + 1000
  {
    var days := d / 86400000;
    var r1 := d % 86400000;
    var hours := r1 / 3600000;
    var r2 := r1 % 3600000;
    assert d == (days * 24 + hours) * 3600000 + r2;
    assert d % 3600000 == r2;
    var minutes := r2 / 60000;
    var r3 := r2 % 60000;
    assert d == ((days * 24 + hours) * 60 + minutes) * 60000 + r3;
    assert d % 60000 == r3;
    var seconds := r3 / 1000;
    assert r3 == seconds * 1000 + r3 % 1000;
  }

  /** The decomposition is the only in-range state that covers the distance
      to within a second. */
  lemma DecomposeUnique(distance: nat, t: TimeLeft)
    requires InRange(t) && Millis(t) <= distance < Millis(t) + 1000
    ensures t == Decompose(distance)
  {
    var e := distance - Millis(t);
    var r3 := t.seconds * 1000 + e;
    var r2 := t.minutes * 60000 + r3;
    var r1 := t.hours * 3600000 + r2;
    QuotientRemainder(distance, t.days, r1, 86400000);
    QuotientRemainder(distance, t.days * 24 + t.hours, r2, 3600000);
    QuotientRemainder(r1, t.hours, r2, 3600000);
    QuotientRemainder(distance, (t.days * 24 + t.hours) * 60 + t.minutes, r3, 60000);
    QuotientRemainder(r2, t.minutes, r3, 60000);
    QuotientRemainder(r3, t.seconds, e, 1000);
  }

  /** Quotient and remainder are unique, for the unit lengths of the timer. */
  lemma QuotientRemainder(d: int, q: int, r: int, unit: int)
    requires unit == 86400000 || unit == 3600000 || unit == 60000 || unit == 1000
    requires d == q * unit + r && 0 <= r < unit
    ensures d / unit == q && d % unit == r
  {
    if unit == 86400000 {
      assert d == q * 86400000 + r;
    } else if unit == 3600000 {
      assert d == q * 3600000 + r;
    } else if unit == 60000 {
      assert d == q * 60000 + r;
    } else {
      assert d == q * 1000 + r;
    }
  }

  /** One tick: a negative distance stops the timer and leaves the state as it
      was; otherwise the state becomes the decomposition. */
  function OnTick(distance: int): (r: Tick)
    ensures r == Stop <==> distance < 0
    ensures r.Update? ==> InRange(r.left) && Millis(r.left) <= distance < Millis(r.left) + 1000
  {
    if distance < 0 then Stop else Update(Decompose(distance))
  }

  /** `String(value).padStart(2, '0')`. */
  function PadStart(s: string, width: nat, fill: char): (r: string)
    ensures |r| == if |s| >= width then |s| else width
    ensures r[|r| - |s|..] == s
    ensures forall i :: 0 <= i < |r| - |s| ==> r[i] == fill
  {
    if |s| >= width then s else [fill] + PadStart(s, width - 1, fill)
  }

  /** A value as the timer shows it: its decimal text, zero-padded to two places. */
  function Display(value: nat): (r: string)
    ensures |r| >= 2 && |r| >= |NatToString(value)|
    ensures r[|r| - |NatToString(value)|..] == NatToString(value)
    ensures forall i :: 0 <= i < |r| - |NatToString(value)| ==> r[i] == '0'
  {
    PadStart(NatToString(value), 2, '0')
  }

  /** Every displayed value has at least two characters: one leading zero
      for 0 to 9 and none for larger values. */
  lemma DisplayShape(value: nat)
    ensures |Display(value)| >= 2
    ensures value < 10 ==> Display(value) == ['0', DigitChar(value)]
    ensures value >= 10 ==> Display(value) == NatToString(value)
  {
    SingleDigit(value);
    if value < 10 {
      assert PadStart(NatToString(value), 1, '0') == NatToString(value);
    }
  }
}
