/** Countdown and SteadyTimer (Clock.h, Clock.cpp): game timers driven by
    the caller's elapsed time. Float times are reals. */
module Clocks {
  import opened Seqs
  import opened MathUtil

  /** A countdown from a fixed time: it is counted down by the caller,
      reports when it has run out, and can be rewound to its start. */
  class Countdown {
    var from: real
    var now: real
    var checked: bool

    /** A new countdown starts at its time but is not running until
        rewound. */
    constructor (f: real)
      ensures from == f && now == f && checked
      ensures !Running() && TimeLeft() == StdMax(0.0, f)
    {
      from := f;
      now := f;
      checked := true;
    }

    /** doCountdown: subtract only while time remains. */
    method DoCountdown(howmuch: real)
      modifies this
      ensures now == if old(now) > 0.0 then old(now) - howmuch else old(now)
      ensures from == old(from) && checked == old(checked)
    {
      if now > 0.0 {
        now := now - howmuch;
      }
    }

    /** check: the countdown is done once no time remains; reporting it
        stops the countdown from running. */
    method Check() returns (done: bool)
      modifies this
      ensures done <==> now <= 0.0
      ensures checked == (old(checked) || done)
      ensures from == old(from) && now == old(now)
      ensures done ==> !Running()
    {
      done := now <= 0.0;
      if done {
        checked := true;
      }
    }

    /** rewind: back to the start time, running. */
    method Rewind()
      modifies this
      ensures now == from && !checked && from == old(from)
      ensures Running() && TimeLeft() == StdMax(0.0, from)
    {
      now := from;
      checked := false;
    }

    /** checkAndRewind: true exactly when check is, and then rewinds. */
    method CheckAndRewind() returns (done: bool)
      modifies this
      ensures done <==> old(now) <= 0.0
      ensures from == old(from)
      ensures done ==> now == from && !checked
      ensures !done ==> now == old(now) && checked == old(checked)
    {
      done := Check();
      if done {
        Rewind();
      }
    }

    /** countdownAndRewind: count down, then checkAndRewind. */
    method CountdownAndRewind(howmuch: real) returns (done: bool)
      modifies this
      ensures var n := if old(now) > 0.0 then old(now) - howmuch else old(now);
        (done <==> n <= 0.0) &&
        (done ==> now == from && !checked) &&
        (!done ==> now == n && checked == old(checked))
      ensures from == old(from)
    {
      DoCountdown(howmuch);
      done := CheckAndRewind();
    }

    /** running: not yet reported as done since the last rewind. */
    function Running(): (r: bool)
      reads this
      ensures r <==> !checked
    {
      !checked
    }

    /** timeLeft: the remaining time, never negative. */
    function TimeLeft(): (t: real)
      reads this
      ensures t >= 0.0 && t >= now
      ensures t == now || t == 0.0
    {
      StdMax(0.0, now)
    }

    /** clear: out of time and already reported. */
    method Clear()
      modifies this
      ensures now == 0.0 && checked && from == old(from)
      ensures !Running() && TimeLeft() == 0.0
    {
      now := 0.0;
      checked := true;
    }

    /** getMaxTime: the start time. */
    function GetMaxTime(): (t: real)
      reads this
      ensures t == from
    {
      from
    }
  }

  /** After clear, check reports done and the countdown is not running. */
  method ClearedIsDone(c: Countdown) returns (done: bool)
    modifies c
    ensures done && !c.Running()
  {
    c.Clear();
    done := c.Check();
  }

  /** fabs. */
  function RealAbs(x: real): (r: real)
    ensures r >= 0.0 && (r == x || r == -x)
  {
    if x < 0.0 then -x else x
  }

  /** The number of whole steps the catch-up branch of SteadyTimer::check
      adds, the float-to-int cast truncating toward zero. */
  function CatchUpSteps(left: real, step: real): int
    requires step != 0.0
  {
    Trunc(RealAbs((left - step) / step))
  }

  lemma MulLess(a: real, b: real, c: real)
    requires a < b && c > 0.0
    ensures a * c < b * c
  {
    var d := b - a;
    assert d * c > 0.0;
    assert b * c == a * c + d * c;
  }

  lemma MulAtMost(a: real, b: real, c: real)
    requires a <= b && c > 0.0
    ensures a * c <= b * c
  {
    if a < b {
      MulLess(a, b, c);
    }
  }

  lemma Quotient(x: real, c: real)
    requires c > 0.0
    ensures (x / c) * c == x
    ensures (-x) / c == -(x / c)
    ensures x >= c ==> x / c >= 1.0
  {
  }

  /** The left time after the catch-up: that many whole steps added. */
  function CatchUp(left: real, step: real): real
    requires step != 0.0
  {
    left + CatchUpSteps(left, step) as real * step
  }

  /** When the timer has fallen behind by more than a step, adding the
      whole steps lands it in (0, step]. */
  lemma CatchUpBounds(left: real, step: real)
    requires step > 0.0 && left <= 0.0
    ensures 0.0 < CatchUp(left, step) <= step
  {
    var q := (step - left) / step;
    Quotient(step - left, step);
    assert (left - step) / step == -q && q >= 1.0;
    var t := CatchUpSteps(left, step);
    assert t as real <= q < t as real + 1.0;
    MulAtMost(t as real, q, step);
    MulLess(q, t as real + 1.0, step);
    assert (t as real + 1.0) * step == t as real * step + step;
  }

  /** A timer that fires once per step of elapsed time, keeping the phase
      of its steps. */
  class SteadyTimer {
    var stepTime: real
    var leftTime: real

    /** The time left until the next firing lies within one step. */
    predicate Valid()
      reads this
    {
      stepTime > 0.0 && 0.0 <= leftTime <= stepTime
    }

    /** The source draws the first left time uniformly from [0, step);
        here it is a parameter. */
    constructor (step: real, initialLeft: real)
      ensures stepTime == step && leftTime == initialLeft
      ensures step > 0.0 && 0.0 <= initialLeft <= step ==> Valid()
    {
      stepTime := step;
      leftTime := initialLeft;
    }

    /** check: fires iff the elapsed time uses up what was left; when it
        fires, the next firing is a whole number of steps on, the fewest
        that leave time remaining. The source asserts the new left time
        lies in [0, step]; that holds whenever the timer was valid and
        the elapsed time is not negative. */
    method Check(elapsed: real) returns (fired: bool)
      modifies this
      ensures fired <==> old(leftTime) - elapsed <= 0.0
      ensures stepTime == old(stepTime)
      ensures !fired ==> leftTime == old(leftTime) - elapsed
      ensures fired ==>
        var l := old(leftTime) - elapsed + stepTime;
        leftTime == if l <= 0.0 && stepTime != 0.0 then CatchUp(l, stepTime) else l
      ensures old(Valid()) && elapsed >= 0.0 ==> Valid()
    {
      var left := leftTime - elapsed;
      if left <= 0.0 {
        left := left + stepTime;
        if left <= 0.0 && stepTime != 0.0 {
          if stepTime > 0.0 {
            CatchUpBounds(left, stepTime);
          }
          left := CatchUp(left, stepTime);
        }
        fired := true;
      } else {
        fired := false;
      }
      leftTime := left;
    }
  }
}
