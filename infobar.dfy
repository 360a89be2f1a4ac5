/** The status line: a refresh throttle and the arithmetic behind the
    run-time clock and the frame-time figures. Times are C `uint32_t`
    milliseconds. */
module InfoBar {
  import opened Arith
  import opened Wrappers

  const RefreshRateInMillis: U32 := 500

  datatype RunTime = RunTime(hours: nat, minutes: nat, seconds: nat)

  /** `printRunTime`'s split of a millisecond clock into whole hours,
      minutes and seconds: minutes and seconds stay below 60 and together
      they make up the elapsed whole seconds. */
  function SplitRunTime(time: U32): (r: RunTime)
    ensures r.seconds < 60 && r.minutes < 60
    ensures r.hours * 3600 + r.minutes * 60 + r.seconds == time / 1000
  {
    var s := time / 1000;
    DivDiv(time, 1000, 60);
    DivDiv(time / 1000, 60, 60);
    DivDiv(time, 1000, 3600);
    var m := s / 60;
    assert s == 60 * m + s % 60;
    assert m == 60 * (m / 60) + m % 60;
    assert (m / 60) * 3600 + (m % 60) * 60 == 60 * m;
    RunTime(time / 3600000, (time / 60000) % 60, (time / 1000) % 60)
  }

  /** The split is the only one with minutes and seconds below 60. */
  lemma RunTimeUnique(time: U32, r: RunTime)
    requires r.seconds < 60 && r.minutes < 60
    requires r.hours * 3600 + r.minutes * 60 + r.seconds == time / 1000
    ensures r == SplitRunTime(time)
  {
    var s := time / 1000;
    var t := SplitRunTime(time);
    assert s == 60 * (r.hours * 60 + r.minutes) + r.seconds;
    DivModUnique(s, 60, r.hours * 60 + r.minutes, r.seconds);
    assert s == 60 * (t.hours * 60 + t.minutes) + t.seconds;
    DivModUnique(s, 60, t.hours * 60 + t.minutes, t.seconds);
    DivModUnique(r.hours * 60 + r.minutes, 60, r.hours, r.minutes);
    DivModUnique(t.hours * 60 + t.minutes, 60, t.hours, t.minutes);
  }

  /** Worked example: 3 725 000 ms is 1 h 2 min 5 s. */
  lemma RunTimeExample()
    ensures SplitRunTime(3725000) == RunTime(1, 2, 5)
  {
  }

  /** `frameTime - processingTime` in `uint32_t`: the plain difference, or
      that difference plus 2^32 when processing took longer than the frame.
      Adding the processing time back gives the frame time modulo 2^32. */
  function IdleTime(frameTime: U32, processingTime: U32): (r: U32)
    ensures processingTime <= frameTime ==> r == frameTime - processingTime
    ensures processingTime > frameTime ==> r == frameTime - processingTime + U32Modulus
    ensures (r + processingTime) % U32Modulus == frameTime
  {
    (frameTime - processingTime) % U32Modulus
  }

  /** What one refresh shows, the battery voltage aside: the run time and
      the frame, processing and idle times. */
  datatype Status = Status(runTime: RunTime, frameTime: U32, processingTime: U32, idleTime: U32)

  /** The threshold after one `update` at `time`: a call strictly past the
      threshold moves it on by exactly one refresh period, wrapping at 2^32. */
  function Step(next: U32, time: U32): U32
  {
    if time > next then (next + RefreshRateInMillis) % U32Modulus else next
  }

  /** The threshold after a series of calls. */
  function Threshold(start: U32, times: seq<U32>): U32
  {
    if times == [] then start else Step(Threshold(start, times[..|times| - 1]), times[|times| - 1])
  }

  /** How many of those calls refreshed the bar. */
  function Refreshes(start: U32, times: seq<U32>): (n: nat)
    ensures n <= |times|
  {
    if times == [] then 0
    else
      var before := Threshold(start, times[..|times| - 1]);
      Refreshes(start, times[..|times| - 1]) + (if times[|times| - 1] > before then 1 else 0)
  }

  /** The threshold only ever moves in whole refresh periods from where it
      started: after any series of calls it is the start plus 500 ms per
      refresh, modulo 2^32. It is never reset to the current time. */
  lemma {:induction false} ThresholdAdvances(start: U32, times: seq<U32>)
    ensures Threshold(start, times) == (start + RefreshRateInMillis * Refreshes(start, times)) % U32Modulus
  {
    if times != [] {
      var prefix := times[..|times| - 1];
      ThresholdAdvances(start, prefix);
      var n := Refreshes(start, prefix);
      if times[|times| - 1] > Threshold(start, prefix) {
        ModAdd(start + RefreshRateInMillis * n, RefreshRateInMillis, U32Modulus);
        assert RefreshRateInMillis * (n + 1) == RefreshRateInMillis * n + RefreshRateInMillis;
      }
    }
  }

  /** Catching up: when the threshold lags more than k periods behind the
      time, k calls at that time all refresh, one period at a time. */
  lemma {:induction false} CatchUp(start: U32, time: U32, k: nat)
    requires start + RefreshRateInMillis * k < time
    ensures Refreshes(start, seq(k, _ => time)) == k
    ensures Threshold(start, seq(k, _ => time)) == start + RefreshRateInMillis * k
  {
    if k > 0 {
      var times := seq(k, _ => time);
      assert times[..k - 1] == seq(k - 1, _ => time);
      CatchUp(start, time, k - 1);
    }
  }

  class InfoBar {
    var nextRefreshInMillis: U32

    /** The first call with a positive time refreshes. */
    constructor ()
      ensures nextRefreshInMillis == 0
    {
      nextRefreshInMillis := 0;
    }

    /** `update`: refreshes only when the time is strictly past the
        threshold, and then moves the threshold on by one period. The clock
        reading that `printRunTime` takes from `millis()` is a parameter. */
    method Update(timeInMillis: U32, processingTime: U32, frameTime: U32, clockMillis: U32)
      returns (shown: Option<Status>)
      modifies this
      ensures shown.Some? <==> timeInMillis > old(nextRefreshInMillis)
      ensures nextRefreshInMillis == Step(old(nextRefreshInMillis), timeInMillis)
      ensures shown.Some? ==> nextRefreshInMillis == (old(nextRefreshInMillis) + RefreshRateInMillis) % U32Modulus
      ensures shown.None? ==> nextRefreshInMillis == old(nextRefreshInMillis)
      ensures shown.Some? ==>
        shown.value == Status(SplitRunTime(clockMillis), frameTime, processingTime, IdleTime(frameTime, processingTime))
    {
      shown := None;
      if timeInMillis > nextRefreshInMillis {
        nextRefreshInMillis := (nextRefreshInMillis + RefreshRateInMillis) % U32Modulus;
        shown := Some(Status(SplitRunTime(clockMillis), frameTime, processingTime, IdleTime(frameTime, processingTime)));
      }
    }
  }
}
