/** The timer-driven animations of BMI.py: the progress bar easing toward its target
    (`animate_progress`) and the two colour cycles (`animate_title`, `animate_result_color`).
    Each callback that reschedules itself through `root.after` is one tick here. */
module Animation {

  /** Within this distance of the target the bar jumps to it and the chain stops. */
  const SnapDistance := 0.5
  /** The largest move of one tick. */
  const MaxStep := 1.8

  function Abs(x: real): real {
    if x < 0.0 then -x else x
  }

  function Min(x: real, y: real): real {
    if x <= y then x else y
  }

  function Max(x: real, y: real): real {
    if x <= y then y else x
  }

  /** The outcome of one tick: the new value of the bar, and whether the chain stops. */
  datatype Move = Move(value: real, done: bool)

  /** One run of `animate_progress(target)` on a bar that shows `value`. The chain stops,
      with the bar on the target, exactly when the bar starts within `SnapDistance` of it;
      otherwise the bar moves toward the target without passing it, by `MaxStep` or the whole
      remaining distance, whichever is smaller, so the distance falls by at least
      `SnapDistance`. */
  function Step(value: real, target: real): (m: Move)
    ensures m.done <==> Abs(value - target) < SnapDistance
    ensures m.done ==> m.value == target
    ensures Min(value, target) <= m.value <= Max(value, target)
    ensures !m.done ==> Abs(m.value - target) == Abs(value - target) - Min(MaxStep, Abs(value - target))
    ensures !m.done ==> Abs(m.value - target) <= Abs(value - target) - SnapDistance
  {
    if Abs(value - target) < SnapDistance then Move(target, true)
    else
      var step := Min(MaxStep, Abs(target - value));
      Move(if target > value then value + step else value - step, false)
  }

  /** A bar inside `[lo, hi]` sent to a target inside `[lo, hi]` stays inside it. */
  lemma StepStaysInRange(value: real, target: real, lo: real, hi: real)
    requires lo <= value <= hi && lo <= target <= hi
    ensures lo <= Step(value, target).value <= hi
  {
  }

  /** The measure that every tick that does not stop lowers by at least one. */
  function Remaining(value: real, target: real): nat {
    (2.0 * Abs(value - target)).Floor
  }

  lemma StepLowersRemaining(value: real, target: real)
    ensures !Step(value, target).done ==> Remaining(Step(value, target).value, target) < Remaining(value, target)
  {
  }

  /** The values the bar shows, one per tick, from `value` until the chain stops: at least
      one, and a single one exactly when the bar starts within `SnapDistance` of the target,
      in which case the bar is put on the target. */
  function Trace(value: real, target: real): (shown: seq<real>)
    ensures |shown| > 0
    ensures |shown| == 1 <==> Abs(value - target) < SnapDistance
    ensures |shown| == 1 ==> shown[0] == target
    decreases Remaining(value, target)
  {
    var m := Step(value, target);
    StepLowersRemaining(value, target);
    if m.done then [m.value] else [m.value] + Trace(m.value, target)
  }

  /** The chain always stops, with the bar on the target. */
  lemma {:induction false} TraceEndsOnTarget(value: real, target: real)
    ensures Trace(value, target)[|Trace(value, target)| - 1] == target
    decreases Remaining(value, target)
  {
    var m := Step(value, target);
    StepLowersRemaining(value, target);
    if !m.done {
      TraceEndsOnTarget(m.value, target);
    }
  }

  /** The bar never overshoots: every value shown lies between the start and the target, and
      none is further from the target than the one before it. */
  lemma {:induction false} TraceApproaches(value: real, target: real)
    ensures forall k | 0 <= k < |Trace(value, target)| ::
              Min(value, target) <= Trace(value, target)[k] <= Max(value, target)
    ensures forall k | 0 <= k < |Trace(value, target)| ::
              Abs(Trace(value, target)[k] - target) <= Abs(value - target)
    ensures forall k | 0 < k < |Trace(value, target)| ::
              Abs(Trace(value, target)[k] - target) <= Abs(Trace(value, target)[k - 1] - target)
    decreases Remaining(value, target)
  {
    var m := Step(value, target);
    StepLowersRemaining(value, target);
    if !m.done {
      TraceApproaches(m.value, target);
      var rest := Trace(m.value, target);
      assert Trace(value, target) == [m.value] + rest;
      assert forall k | 0 < k < |rest| + 1 :: Trace(value, target)[k] == rest[k - 1];
    }
  }

  /** The chain takes at most two ticks plus one per `MaxStep` of distance: on a bar of 40,
      at most 24 ticks. */
  lemma {:induction false} TraceLength(value: real, target: real)
    ensures |Trace(value, target)| as real <= 2.0 + Abs(value - target) / MaxStep
    decreases Remaining(value, target)
  {
    var m := Step(value, target);
    StepLowersRemaining(value, target);
    if !m.done {
      TraceLength(m.value, target);
      if Abs(value - target) <= MaxStep {
        assert m.value == target;
        assert Trace(m.value, target) == [target];
      }
    }
  }

  /** Two chains of `animate_progress` on the one bar, each started by a calculation and
      neither cancelled, take turns. With the bar at least `MaxStep` above the first target
      and not above the second, a tick of each brings it back where it was, and neither
      stops: the two chains never end. */
  lemma InterleavedChainsCycle(value: real, first: real, second: real)
    requires first + MaxStep <= value <= second
    ensures !Step(value, first).done
    ensures !Step(Step(value, first).value, second).done
    ensures Step(Step(value, first).value, second).value == value
  {
  }

  /** The progress bar, a `ttk.Progressbar` whose value starts at 0. */
  class ProgressBar {
    var value: real

    constructor ()
      ensures value == 0.0
    {
      value := 0.0;
    }

    /** One run of `animate_progress(target)`. */
    method Tick(target: real) returns (done: bool)
      modifies this
      ensures Move(value, done) == Step(old(value), target)
    {
      var current := value;
      if Abs(current - target) < SnapDistance {
        value := target;
        return true;
      }
      var step := Min(MaxStep, Abs(target - current));
      value := if target > current then current + step else current - step;
      done := false;
    }

    /** `animate_progress(target)` and every callback it schedules, run to the end with
        nothing in between: the values shown, ending on the target. */
    method Animate(target: real) returns (shown: seq<real>)
      modifies this
      ensures shown == Trace(old(value), target)
      ensures value == target
    {
      ghost var start := value;
      shown := [];
      var done := false;
      while !done
        invariant !done ==> shown + Trace(value, target) == Trace(start, target)
        invariant done ==> shown == Trace(start, target) && value == target
        decreases if done then 0 else 1 + Remaining(value, target)
      {
        ghost var before := value;
        StepLowersRemaining(before, target);
        done := Tick(target);
        assert Trace(before, target) == [value] + (if done then [] else Trace(value, target));
        shown := shown + [value];
      }
    }
  }

  const TitlePalette: seq<string> := ["#FFD369", "#00ADB5", "#FF2E63", "#76ABAE"]
  const ResultPalette: seq<string> := ["#FFD369", "#FFFFFF", "#00ADB5", "#FF2E63"]

  /** The colour `colors[i % len(colors)]` the `i`-th callback of a cycle shows. */
  function ColorAt(palette: seq<string>, i: nat): (c: string)
    requires |palette| > 0
    ensures c in palette
  {
    palette[i % |palette|]
  }

  /** The cycle repeats after one pass through the palette, and the first pass shows the
      palette in order. */
  lemma ColorAtCycles(palette: seq<string>, i: nat)
    requires |palette| > 0
    ensures ColorAt(palette, i + |palette|) == ColorAt(palette, i)
    ensures i < |palette| ==> ColorAt(palette, i) == palette[i]
  {
    ModAddPeriod(i, |palette|);
    if i < |palette| {
      ModUnique(i, |palette|, 0, i);
    }
  }

  lemma MulAtLeast(a: int, n: int)
    requires a >= 1 && n > 0
    ensures a * n >= n
  {
    assert a * n == (a - 1) * n + n;
  }

  /** The remainder is the one `r` in `[0, n)` with `x == k * n + r` for some `k`. */
  lemma ModUnique(x: int, n: int, k: int, r: int)
    requires n > 0 && 0 <= r < n && x == k * n + r
    ensures x % n == r
  {
    var k', r' := x / n, x % n;
    assert x == k' * n + r';
    if k' < k {
      assert (k - k') * n == k * n - k' * n;
      MulAtLeast(k - k', n);
    } else if k' > k {
      assert (k' - k) * n == k' * n - k * n;
      MulAtLeast(k' - k, n);
    }
  }

  lemma ModAddPeriod(i: int, n: int)
    requires n > 0
    ensures (i + n) % n == i % n
  {
    assert i == (i / n) * n + i % n;
    ModUnique(i + n, n, i / n + 1, i % n);
  }

  /** A chain of colour callbacks (`animate_title` or `animate_result_color`): the counter
      `i` of the next callback. */
  class ColorCycle {
    const palette: seq<string>
    var next: nat
    var running: bool

    constructor (palette: seq<string>)
      requires |palette| > 0
      ensures this.palette == palette && next == 0 && !running
    {
      this.palette := palette;
      next := 0;
      running := false;
    }

    /** The first call, with `i = 0`: shows the first colour and schedules `i = 1`. */
    method Start() returns (color: string)
      requires |palette| > 0
      modifies this
      ensures color == palette[0] && next == 1 && running
    {
      color := ColorAt(palette, 0);
      next := 1;
      running := true;
    }

    /** A scheduled callback: shows the colour for its counter and schedules the next one. */
    method Tick() returns (color: string)
      requires |palette| > 0 && running
      modifies this
      ensures color == ColorAt(palette, old(next)) && next == old(next) + 1 && running
    {
      color := ColorAt(palette, next);
      next := next + 1;
    }
  }
}
