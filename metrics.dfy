/** The frame-rate figure the window reports: frames counted since the timer was
    last restarted, divided by the elapsed seconds, rounded to the nearest
    integer (halves rounded up, as std::round does for positive values). */
module Metrics {

  /** Milliseconds that must pass before the frame rate is recomputed. */
  const REPORT_INTERVAL_MS: nat := 1000

  function Abs(x: int): nat
  {
    if x < 0 then -x else x
  }

  /** Multiplying a strict inequality between integers by a natural number `e`
      separates the products by at least `e`. */
  lemma {:induction false} MulStrict(a: int, b: int, e: nat)
    ensures a < b ==> a * e + e <= b * e
    decreases e
  {
    if e > 0 {
      MulStrict(a, b, e - 1);
      assert a * e == a * (e - 1) + a;
      assert b * e == b * (e - 1) + b;
    }
  }

  /** round(frames / (elapsedMs / 1000)) in exact arithmetic. */
  function RoundedFps(frames: nat, elapsedMs: nat): (r: nat)
    requires elapsedMs > 0
    ensures 2 * r * elapsedMs <= 2000 * frames + elapsedMs < 2 * r * elapsedMs + 2 * elapsedMs
  {
    (2000 * frames + elapsedMs) / (2 * elapsedMs)
  }

  /** The reported rate is an integer nearest to the true rate 1000 * frames / elapsedMs. */
  lemma RoundedFpsNearest(frames: nat, elapsedMs: nat, k: int)
    requires elapsedMs > 0
    ensures Abs(1000 * frames - RoundedFps(frames, elapsedMs) * elapsedMs) <= Abs(1000 * frames - k * elapsedMs)
  {
    var r := RoundedFps(frames, elapsedMs);
    var e := elapsedMs;
    assert 2 * r * e == 2 * (r * e);
    MulStrict(k, r, e);
    MulStrict(r, k, e);
  }

  /** When the rate is exactly an integer, that integer is reported. */
  lemma RoundedFpsExactRate(frames: nat, elapsedMs: nat, rate: nat)
    requires elapsedMs > 0 && 1000 * frames == rate * elapsedMs
    ensures RoundedFps(frames, elapsedMs) == rate
  {
    var r := RoundedFps(frames, elapsedMs);
    var e := elapsedMs;
    assert 2 * r * e == 2 * (r * e);
    MulStrict(r, rate, e);
    MulStrict(rate, r, e);
  }

  /** The report is made only after at least a second, so it never exceeds the
      number of frames counted. */
  lemma RoundedFpsAtMostFrames(frames: nat, elapsedMs: nat)
    requires elapsedMs >= REPORT_INTERVAL_MS
    ensures RoundedFps(frames, elapsedMs) <= frames
  {
    var r := RoundedFps(frames, elapsedMs);
    var e := elapsedMs;
    assert 2 * r * e == 2 * (r * e);
    MulStrict(frames, r, e);
    MulStrict(1000, e, frames);
    assert e * frames == frames * e;
  }

  /** More frames over the same interval never lower the reported rate. */
  lemma RoundedFpsMonotone(a: nat, b: nat, elapsedMs: nat)
    requires elapsedMs > 0 && a <= b
    ensures RoundedFps(a, elapsedMs) <= RoundedFps(b, elapsedMs)
  {
    var ra := RoundedFps(a, elapsedMs);
    var rb := RoundedFps(b, elapsedMs);
    var e := elapsedMs;
    var x, y := ra * e, rb * e;
    assert 2 * ra * e == 2 * x && 2 * rb * e == 2 * y;
    assert 2 * x <= 2000 * a + e && 2000 * b + e < 2 * y + 2 * e;
    MulStrict(rb, ra, e);
  }

  // ---------------------------------------------------------------------------
  // The counter the window keeps between reports.

  /** The millisecond the timer was last (re)started, the frames rendered since,
      and the last reported rate. */
  datatype Counter = Counter(timerStart: nat, frames: nat, fps: nat)

  /** The guard's callback at time `now`: once a second or more has passed, report
      the rounded rate of the frames counted, clear the count and restart the timer;
      before that, change nothing. */
  function Report(c: Counter, now: nat): (r: Counter)
    requires c.timerStart <= now
    ensures r == c <==> now - c.timerStart < REPORT_INTERVAL_MS
    ensures r != c ==> r.timerStart == now && r.frames == 0
                       && r.fps == RoundedFps(c.frames, now - c.timerStart) && r.fps <= c.frames
  {
    if now - c.timerStart >= REPORT_INTERVAL_MS then
      RoundedFpsAtMostFrames(c.frames, now - c.timerStart);
      Counter(now, 0, RoundedFps(c.frames, now - c.timerStart))
    else c
  }

  /** One rendered frame at time `now`: the count goes up, then the guard runs. */
  function Frame(c: Counter, now: nat): (r: Counter)
    requires c.timerStart <= now
    ensures r.frames == c.frames + 1 && r.timerStart == c.timerStart && r.fps == c.fps
            <==> now - c.timerStart < REPORT_INTERVAL_MS
    ensures now - c.timerStart >= REPORT_INTERVAL_MS ==> r.timerStart == now && r.frames == 0
  {
    Report(c.(frames := c.frames + 1), now)
  }

  predicate Ascending(times: seq<nat>)
  {
    forall i, j :: 0 <= i < j < |times| ==> times[i] <= times[j]
  }

  /** Frames rendered at the times `times`, in order. */
  function Frames(c: Counter, times: seq<nat>): (r: Counter)
    requires Ascending(times) && (|times| > 0 ==> c.timerStart <= times[0])
    ensures c.timerStart <= r.timerStart && r.frames <= c.frames + |times|
    ensures |times| > 0 ==> r.timerStart <= times[|times| - 1]
    decreases |times|
  {
    if times == [] then c
    else
      var next := Frame(c, times[0]);
      assert Ascending(times[1..]);
      Frames(next, times[1..])
  }

  /** Frames within a second of the timer start are only counted: nothing is
      reported and the timer keeps running. */
  lemma {:induction false} FramesWithinInterval(c: Counter, times: seq<nat>)
    requires Ascending(times) && (|times| > 0 ==> c.timerStart <= times[0])
    requires forall t <- times :: t - c.timerStart < REPORT_INTERVAL_MS
    ensures Frames(c, times) == c.(frames := c.frames + |times|)
    decreases |times|
  {
    if times != [] {
      assert times[0] in times;
      var next := Frame(c, times[0]);
      assert next == c.(frames := c.frames + 1);
      assert forall t <- times[1..] :: t in times;
      assert Ascending(times[1..]);
      FramesWithinInterval(next, times[1..]);
    }
  }

  /** The first frame a second or more after the timer start reports the rounded
      rate of every frame since the start, itself included, measured up to that
      frame; the count is cleared and the timer restarted there. */
  lemma FirstReportCountsAll(c: Counter, times: seq<nat>)
    requires Ascending(times) && |times| > 0 && c.timerStart <= times[0]
    requires forall k :: 0 <= k < |times| - 1 ==> times[k] - c.timerStart < REPORT_INTERVAL_MS
    requires times[|times| - 1] - c.timerStart >= REPORT_INTERVAL_MS
    ensures var last := times[|times| - 1]; var r := Frames(c, times);
      r.timerStart == last && r.frames == 0 && r.fps == RoundedFps(c.frames + |times|, last - c.timerStart)
  {
    CountedUntilLast(c, times);
    var counted := c.(frames := c.frames + |times|);
    assert Report(counted, times[|times| - 1]) != counted;
  }

  /** Frames before the last of a run within a second of the timer start are only
      counted, so the guard of the last frame sees all of them. */
  lemma {:induction false} CountedUntilLast(c: Counter, times: seq<nat>)
    requires Ascending(times) && |times| > 0 && c.timerStart <= times[0]
    requires forall k :: 0 <= k < |times| - 1 ==> times[k] - c.timerStart < REPORT_INTERVAL_MS
    ensures c.timerStart <= times[|times| - 1]
    ensures Frames(c, times) == Report(c.(frames := c.frames + |times|), times[|times| - 1])
    decreases |times|
  {
    if |times| == 1 {
      assert Frames(c, times) == Frames(Frame(c, times[0]), []);
    } else {
      var next := c.(frames := c.frames + 1);
      assert Frame(c, times[0]) == next;
      var rest := times[1..];
      assert Ascending(rest);
      assert forall k :: 0 <= k < |rest| - 1 ==> rest[k] == times[k + 1];
      CountedUntilLast(next, rest);
      assert rest[|rest| - 1] == times[|times| - 1];
    }
  }

  /** Frames over a sequence of times are the frames over its first `n` times,
      then over the rest. */
  lemma {:induction false} FramesPrefix(c: Counter, times: seq<nat>, n: nat)
    requires Ascending(times) && (|times| > 0 ==> c.timerStart <= times[0]) && n <= |times|
    ensures Ascending(times[..n]) && Ascending(times[n..])
    ensures n < |times| ==> Frames(c, times[..n]).timerStart <= times[n]
    ensures Frames(c, times) == Frames(Frames(c, times[..n]), times[n..])
    decreases n
  {
    if n > 0 {
      var next := Frame(c, times[0]);
      assert times[1..][..n - 1] == times[..n][1..];
      assert times[1..][n - 1..] == times[n..];
      FramesPrefix(next, times[1..], n - 1);
    }
  }
}
