/**
 The spawner: frame times are summed into an accumulator, and each frame in
 which the sum reaches SpawnInterval resets it to zero and releases one spike
 at a pseudo-random lateral position.

 The random number generator is a parameter: `rand` is whatever the C library
 generator returned this frame, a non-negative int.
 */
module Spawner {
  import opened Entities

  /** The accumulator after one frame, and whether a spike was released. */
  datatype Tick = Tick(acc: real, spawn: bool)

  function Accumulate(acc: real, dt: real): (t: Tick)
    // a spike is released exactly when the summed time reaches the interval
    ensures t.spawn <==> acc + dt >= SpawnInterval
    // no time is lost while waiting; a release restarts the count from zero,
    // discarding the overshoot, so it uses up at least a whole interval
    ensures !t.spawn ==> t.acc == acc + dt
    ensures t.spawn ==> t.acc == 0.0
    ensures t.acc + (if t.spawn then SpawnInterval else 0.0) <= acc + dt
    // the accumulator stays inside [0, SpawnInterval)
    ensures 0.0 <= acc && dt >= 0.0 ==> 0.0 <= t.acc < SpawnInterval
  {
    var sum := acc + dt;
    if sum >= SpawnInterval then Tick(0.0, true) else Tick(sum, false)
  }

  /** The accumulator after a run of frames and the number of spikes released. */
  datatype Tally = Tally(acc: real, spawns: nat)

  function Schedule(acc: real, dts: seq<real>): Tally
    decreases |dts|
  {
    if |dts| == 0 then Tally(acc, 0)
    else
      var t := Accumulate(acc, dts[0]);
      var rest := Schedule(t.acc, dts[1..]);
      Tally(rest.acc, rest.spawns + (if t.spawn then 1 else 0))
  }

  function Sum(dts: seq<real>): real
    decreases |dts|
  {
    if |dts| == 0 then 0.0 else dts[0] + Sum(dts[1..])
  }

  predicate NonNegative(dts: seq<real>) {
    forall i :: 0 <= i < |dts| ==> dts[i] >= 0.0
  }

  /** Rate bound: every release accounts for a whole SpawnInterval of frame
      time, so a run of total length T releases at most (acc + T) / SpawnInterval
      spikes. */
  lemma {:induction false} SpawnRateBound(acc: real, dts: seq<real>)
    ensures Schedule(acc, dts).acc + SpawnInterval * (Schedule(acc, dts).spawns as real)
            <= acc + Sum(dts)
    decreases |dts|
  {
    if |dts| > 0 {
      var t := Accumulate(acc, dts[0]);
      SpawnRateBound(t.acc, dts[1..]);
    }
  }

  /** Starting from a valid accumulator with non-negative frame times, a run
      releases nothing exactly when its total time stays below what is left of
      the current interval; in that case all of it is still accumulated. */
  lemma {:induction false} NoSpawnIff(acc: real, dts: seq<real>)
    requires 0.0 <= acc < SpawnInterval
    requires NonNegative(dts)
    ensures Schedule(acc, dts).spawns == 0 <==> acc + Sum(dts) < SpawnInterval
    ensures Schedule(acc, dts).spawns == 0 ==> Schedule(acc, dts).acc == acc + Sum(dts)
    decreases |dts|
  {
    if |dts| > 0 {
      var t := Accumulate(acc, dts[0]);
      if t.spawn {
        SumNonNegative(dts[1..]);
      } else {
        NoSpawnIff(t.acc, dts[1..]);
      }
    }
  }

  lemma {:induction false} SumNonNegative(dts: seq<real>)
    requires NonNegative(dts)
    ensures Sum(dts) >= 0.0
    decreases |dts|
  {
    if |dts| > 0 {
      SumNonNegative(dts[1..]);
    }
  }

  /** Running one part of a run after the other. */
  lemma {:induction false} ScheduleConcat(acc: real, a: seq<real>, b: seq<real>)
    ensures var first := Schedule(acc, a);
            var second := Schedule(first.acc, b);
            Schedule(acc, a + b) == Tally(second.acc, first.spawns + second.spawns)
    decreases |a|
  {
    if |a| == 0 {
      assert a + b == b;
    } else {
      var t := Accumulate(acc, a[0]);
      assert (a + b)[1..] == a[1..] + b;
      ScheduleConcat(t.acc, a[1..], b);
    }
  }

  /** k frames that all last dt. */
  function Repeat(dt: real, k: nat): (dts: seq<real>)
    ensures |dts| == k
    ensures forall i :: 0 <= i < k ==> dts[i] == dt
  {
    seq(k, _ => dt)
  }

  /** The arithmetic of one more frame of length dt. */
  lemma NextFrame(dt: real, n: nat, i: nat, start: real, next: real)
    requires dt > 0.0 && i < n && start == i as real * dt && next == (i + 1) as real * dt
    requires (n - 1) as real * dt < SpawnInterval <= n as real * dt
    ensures start + dt == next
    ensures i + 1 < n ==> next < SpawnInterval
    ensures i + 1 == n ==> next >= SpawnInterval
  {
    if i + 1 < n {
      assert (i + 1) as real <= (n - 1) as real;
      assert next <= (n - 1) as real * dt;
    }
  }

  /** With frames of constant length dt, and n the least frame count with
      n * dt >= SpawnInterval, the frames from `start` = i * dt of accumulated
      time up to the n-th release exactly one spike and leave the accumulator
      at zero. */
  lemma {:induction false} FillsOnce(dt: real, n: nat, i: nat, start: real)
    requires dt > 0.0 && i < n && start == i as real * dt
    requires (n - 1) as real * dt < SpawnInterval <= n as real * dt
    ensures Schedule(start, Repeat(dt, n - i)) == Tally(0.0, 1)
    decreases n - i
  {
    var dts := Repeat(dt, n - i);
    var next := (i + 1) as real * dt;
    NextFrame(dt, n, i, start, next);
    assert dts[0] == dt;
    var t := Accumulate(start, dt);
    if i + 1 == n {
      assert t == Tick(0.0, true);
      assert dts[1..] == [];
    } else {
      assert t == Tick(next, false);
      assert dts[1..] == Repeat(dt, n - (i + 1));
      FillsOnce(dt, n, i + 1, next);
    }
  }

  /** Because a release discards the overshoot, frames of constant length dt
      release exactly one spike every n frames, where n is the least count
      with n * dt >= SpawnInterval; the effective period is n * dt, not
      SpawnInterval. */
  lemma {:induction false} ConstantFramesPeriod(dt: real, n: nat, m: nat)
    requires dt > 0.0 && n >= 1
    requires (n - 1) as real * dt < SpawnInterval <= n as real * dt
    ensures Schedule(0.0, Repeat(dt, m * n)) == Tally(0.0, m)
    decreases m
  {
    if m == 0 {
      assert Repeat(dt, m * n) == [];
    } else {
      assert m * n == n + (m - 1) * n;
      assert Repeat(dt, m * n) == Repeat(dt, n) + Repeat(dt, (m - 1) * n);
      FillsOnce(dt, n, 0, 0.0);
      ScheduleConcat(0.0, Repeat(dt, n), Repeat(dt, (m - 1) * n));
      ConstantFramesPeriod(dt, n, m - 1);
    }
  }

  /** One-second frames release a spike every second frame: three spikes in
      six seconds, where a schedule that kept the overshoot would release five. */
  lemma OneSecondFramesSpawnEveryTwo()
    ensures Schedule(0.0, Repeat(1.0, 6)) == Tally(0.0, 3)
  {
    ConstantFramesPeriod(1.0, 2, 3);
  }

  /** The number of distinct lateral positions: rand is reduced modulo this. */
  const Slots: nat := 2001

  /** ((rand mod 2001) / 1000 - 1) * SpawnXLimit. */
  function SpawnX(rand: nat): (x: real)
    ensures -SpawnXLimit <= x <= SpawnXLimit
  {
    ((rand % Slots) as real / 1000.0 - 1.0) * SpawnXLimit
  }

  /** The 2001 positions are evenly spaced from the left limit to the right
      limit, so distinct residues give distinct positions. */
  lemma SpawnXEvenlySpaced(k: nat)
    requires k < Slots - 1
    ensures SpawnX(0) == -SpawnXLimit && SpawnX(Slots - 1) == SpawnXLimit
    ensures SpawnX(k + 1) - SpawnX(k) == SpawnXLimit / 1000.0
  {
  }

  lemma SpawnXMonotone(a: nat, b: nat)
    requires a % Slots < b % Slots
    ensures SpawnX(a) < SpawnX(b)
  {
  }

  /** Residues k and 2000 - k land mirror-symmetrically about the centre. */
  lemma SpawnXSymmetric(k: nat)
    requires k < Slots
    ensures SpawnX(Slots - 1 - k) == -SpawnX(k)
  {
  }

  /** A freshly released spike: at the top, at speed SpikeSpeed. */
  function NewObstacle(rand: nat): (o: Obstacle)
    ensures WellFormed(o)
    ensures o.y == SpawnY
  {
    Obstacle(SpawnX(rand), SpawnY, SpikeSpeed)
  }
}
