/**
 One frame of Block Dodger's game logic, and runs of frames.

 The frame reads three things from outside: the keys held (`keys`), the time
 since the previous frame (`dt`, never negative since the clock is monotone)
 and one value of the C library generator (`rand`). Given those, the frame
 is a pure function of the game state.
 */
module Frame {
  import opened Entities
  import opened Player
  import opened Spawner
  import opened Motion
  import opened Collision
  import opened Despawn

  /** Everything the loop carries from one frame to the next. */
  datatype State = State(playerX: real, spawnAcc: real, gameOver: bool, obstacles: seq<Obstacle>)

  /** The state before the first frame. */
  const Initial: State := State(0.0, 0.0, false, [])

  /** What holds between any two frames. */
  predicate Inv(s: State) {
    && OnScreen(s.playerX)
    && 0.0 <= s.spawnAcc < SpawnInterval
    && AllWellFormed(s.obstacles)
  }

  /** Move, spawn, fall, collide, despawn, in the order of the game loop. The
      collision scan sees the spikes after they fell but before despawning,
      and is skipped once the game is over; nothing else looks at the flag. */
  function Step(s: State, keys: Keys, dt: real, rand: nat): (r: State)
    ensures OnScreen(r.playerX)
    ensures dt >= 0.0 && 0.0 <= s.spawnAcc ==> 0.0 <= r.spawnAcc < SpawnInterval
    ensures |r.obstacles| <= |s.obstacles| + 1
    // game over is latched ...
    ensures s.gameOver ==> r.gameOver
    // ... and is entered exactly when the player touches a spike on screen
    ensures !s.gameOver ==>
      (r.gameOver <==> exists i :: 0 <= i < |r.obstacles| && Hits(r.playerX, r.obstacles[i]))
  {
    var x := Move(s.playerX, Direction(keys), dt);
    var t := Accumulate(s.spawnAcc, dt);
    var spawned := if t.spawn then s.obstacles + [NewObstacle(rand)] else s.obstacles;
    var moved := Advance(spawned, dt);
    var gameOver := if s.gameOver then true else AnyHit(x, moved);
    HitsSurvive(x, moved);
    State(x, t.acc, gameOver, Survivors(moved))
  }

  /** Scanning before or after despawning gives the same answer: a spike
      touching the player is never below the despawn line. */
  lemma HitsSurvive(px: real, obs: seq<Obstacle>)
    ensures AnyHit(px, obs) <==> AnyHit(px, Survivors(obs))
  {
    if AnyHit(px, obs) {
      var i :| 0 <= i < |obs| && Hits(px, obs[i]);
      HitIsOnScreen(px, obs[i]);
      SurvivorsMembers(obs, obs[i]);
      var j :| 0 <= j < |Survivors(obs)| && Survivors(obs)[j] == obs[i];
      assert Hits(px, Survivors(obs)[j]);
    }
    if AnyHit(px, Survivors(obs)) {
      var j :| 0 <= j < |Survivors(obs)| && Hits(px, Survivors(obs)[j]);
      SurvivorsMembers(obs, Survivors(obs)[j]);
    }
  }

  lemma InitialInv()
    ensures Inv(Initial)
  {
  }

  /** A frame with a non-negative frame time keeps the invariant. */
  lemma StepPreservesInv(s: State, keys: Keys, dt: real, rand: nat)
    requires Inv(s) && dt >= 0.0
    ensures Inv(Step(s, keys, dt, rand))
  {
    var x := Move(s.playerX, Direction(keys), dt);
    var t := Accumulate(s.spawnAcc, dt);
    var spawned := if t.spawn then s.obstacles + [NewObstacle(rand)] else s.obstacles;
    assert AllWellFormed(spawned);
    var moved := Advance(spawned, dt);
    var r := Step(s, keys, dt, rand);
    assert r.obstacles == Survivors(moved);
    forall i | 0 <= i < |r.obstacles|
      ensures WellFormed(r.obstacles[i])
    {
      SurvivorsMembers(moved, r.obstacles[i]);
      var j :| 0 <= j < |moved| && moved[j] == r.obstacles[i];
      FallKeepsShape(spawned[j], dt);
    }
  }

  /** The game-over flag only decides whether the scan runs: the player, the
      spawner and the spikes carry on exactly as before. */
  lemma GameOverDoesNotFreeze(s: State, keys: Keys, dt: real, rand: nat)
    ensures var live := Step(s.(gameOver := false), keys, dt, rand);
            var over := Step(s.(gameOver := true), keys, dt, rand);
            && over.gameOver
            && over.playerX == live.playerX
            && over.spawnAcc == live.spawnAcc
            && over.obstacles == live.obstacles
  {
  }

  /** Spawning at the end, falling and despawning: the old spikes are
      filtered as if alone and the new one, if it survives, follows them. */
  lemma SpawnFallDespawn(obs: seq<Obstacle>, spawn: bool, o: Obstacle, dt: real)
    ensures Survivors(Advance(if spawn then obs + [o] else obs, dt))
         == Survivors(Advance(obs, dt)) + (if spawn && !Gone(Fall(o, dt)) then [Fall(o, dt)] else [])
  {
    if spawn {
      AdvanceConcat(obs, [o], dt);
      assert Advance([o], dt) == [] + [Fall(o, dt)];
      SurvivorsConcat(Advance(obs, dt), Advance([o], dt));
      SurvivorsSnoc([], Fall(o, dt));
    } else {
      assert Survivors(Advance(obs, dt)) + [] == Survivors(Advance(obs, dt));
    }
  }

  /** A frame keeps the surviving old spikes in order at the front and adds at
      most one spike, last; it adds one exactly when the accumulator reaches
      the interval and the frame is short enough for the new spike not to fall
      straight through the despawn line. */
  lemma StepAppendsAtMostOne(s: State, keys: Keys, dt: real, rand: nat)
    ensures var r := Step(s, keys, dt, rand);
            var kept := Survivors(Advance(s.obstacles, dt));
            && |kept| <= |r.obstacles| <= |kept| + 1
            && r.obstacles[..|kept|] == kept
            && (|r.obstacles| == |kept| + 1 <==>
                  s.spawnAcc + dt >= SpawnInterval && SpikeSpeed * dt <= SpawnY - DespawnY)
            && (|r.obstacles| == |kept| + 1 ==>
                  r.obstacles[|kept|] == Obstacle(SpawnX(rand), SpawnY - SpikeSpeed * dt, SpikeSpeed))
  {
    var t := Accumulate(s.spawnAcc, dt);
    AppendsAtMostOne(s.obstacles, t.spawn, dt, rand, Step(s, keys, dt, rand).obstacles);
  }

  lemma AppendsAtMostOne(obs: seq<Obstacle>, spawn: bool, dt: real, rand: nat, result: seq<Obstacle>)
    requires result == Survivors(Advance(if spawn then obs + [NewObstacle(rand)] else obs, dt))
    ensures var kept := Survivors(Advance(obs, dt));
            && |kept| <= |result| <= |kept| + 1
            && result[..|kept|] == kept
            && (|result| == |kept| + 1 <==> spawn && SpikeSpeed * dt <= SpawnY - DespawnY)
            && (|result| == |kept| + 1 ==>
                  result[|kept|] == Obstacle(SpawnX(rand), SpawnY - SpikeSpeed * dt, SpikeSpeed))
  {
    var kept := Survivors(Advance(obs, dt));
    var f := Fall(NewObstacle(rand), dt);
    assert f == Obstacle(SpawnX(rand), SpawnY - SpikeSpeed * dt, SpikeSpeed);
    assert Gone(f) <==> !(SpikeSpeed * dt <= SpawnY - DespawnY);
    SpawnFallDespawn(obs, spawn, NewObstacle(rand), dt);
    var extra := if spawn && !Gone(f) then [f] else [];
    assert result == kept + extra;
    assert (kept + extra)[..|kept|] == kept;
  }

  /** The inputs of one frame. */
  datatype Input = Input(keys: Keys, dt: real, rand: nat)

  /** The game loop over a sequence of frames. */
  function Run(s: State, frames: seq<Input>): (r: State)
    ensures |frames| > 0 ==> OnScreen(r.playerX)
    ensures |r.obstacles| <= |s.obstacles| + |frames|
    decreases |frames|
  {
    if |frames| == 0 then s
    else Run(Step(s, frames[0].keys, frames[0].dt, frames[0].rand), frames[1..])
  }

  lemma {:induction false} RunPreservesInv(s: State, frames: seq<Input>)
    requires Inv(s) && NonNegative(Dts(frames))
    ensures Inv(Run(s, frames))
    decreases |frames|
  {
    if |frames| > 0 {
      StepPreservesInv(s, frames[0].keys, frames[0].dt, frames[0].rand);
      RunPreservesInv(Step(s, frames[0].keys, frames[0].dt, frames[0].rand), frames[1..]);
    }
  }

  /** Once over, the game stays over for every later frame. */
  lemma {:induction false} RunGameOverLatched(s: State, frames: seq<Input>)
    requires s.gameOver
    ensures Run(s, frames).gameOver
    decreases |frames|
  {
    if |frames| > 0 {
      RunGameOverLatched(Step(s, frames[0].keys, frames[0].dt, frames[0].rand), frames[1..]);
    }
  }

  function Dts(frames: seq<Input>): (dts: seq<real>)
    ensures |dts| == |frames|
    ensures forall i :: 0 <= i < |frames| ==> dts[i] == frames[i].dt
  {
    seq(|frames|, i requires 0 <= i < |frames| => frames[i].dt)
  }

  /** The game's accumulator follows the spawn schedule of its frame times. */
  lemma {:induction false} RunFollowsSchedule(s: State, frames: seq<Input>)
    ensures Run(s, frames).spawnAcc == Schedule(s.spawnAcc, Dts(frames)).acc
    decreases |frames|
  {
    if |frames| > 0 {
      var s' := Step(s, frames[0].keys, frames[0].dt, frames[0].rand);
      RunFollowsSchedule(s', frames[1..]);
      assert Dts(frames)[1..] == Dts(frames[1..]);
    }
  }

  /** Collision is only checked at frame boundaries: a lone spike that starts
      the frame clear above the player's square and ends it clear below does
      not end a running game. Such a jump needs speed * dt of at least twice
      PlayerHalf + SpikeHalfY, that is dt of about 0.71 s or more. */
  lemma LongFrameSkipsCollision(s: State, keys: Keys, dt: real, rand: nat)
    requires !s.gameOver && |s.obstacles| == 1 && s.spawnAcc + dt < SpawnInterval
    requires s.obstacles[0].y - PlayerY >= PlayerHalf + SpikeHalfY
    requires PlayerY - Fall(s.obstacles[0], dt).y >= PlayerHalf + SpikeHalfY
    ensures !Step(s, keys, dt, rand).gameOver
    ensures s.obstacles[0].speed * dt >= 2.0 * (PlayerHalf + SpikeHalfY)
  {
    var x := Move(s.playerX, Direction(keys), dt);
    var moved := Advance(s.obstacles, dt);
    assert moved == [Fall(s.obstacles[0], dt)];
    assert !Hits(x, moved[0]);
    assert !AnyHit(x, moved);
  }

  /** For example, a one-second frame carries a spike from y = -0.7 to
      y = -1.15, past the player's square at y = -0.9. */
  lemma OneSecondFrameSkipsCollision()
    ensures !Step(State(0.0, 0.0, false, [Obstacle(0.0, -0.7, SpikeSpeed)]), Keys(false, false), 1.0, 0).gameOver
  {
    LongFrameSkipsCollision(State(0.0, 0.0, false, [Obstacle(0.0, -0.7, SpikeSpeed)]), Keys(false, false), 1.0, 0);
  }

  /** The input and movement statements of the game loop. */
  method MovePlayer(x: real, keys: Keys, dt: real) returns (playerX: real)
    ensures playerX == Move(x, Direction(keys), dt)
  {
    var dx := 0.0;
    if keys.left { dx := dx - 1.0; }
    if keys.right { dx := dx + 1.0; }
    assert dx == Direction(keys);
    playerX := x + dx * PlayerSpeed * dt;
    assert playerX == x + Direction(keys) * PlayerSpeed * dt;
    if playerX > PlayerXLimit { playerX := PlayerXLimit; }
    if playerX < -PlayerXLimit { playerX := -PlayerXLimit; }
    assert Move(x, Direction(keys), dt) == Clamp(x + Direction(keys) * PlayerSpeed * dt);
    assert playerX == Clamp(x + Direction(keys) * PlayerSpeed * dt);
  }

  /** The spawn statements of the game loop. */
  method SpawnPart(acc: real, obs: seq<Obstacle>, dt: real, rand: nat)
    returns (spawnAcc: real, obstacles: seq<Obstacle>)
    ensures spawnAcc == Accumulate(acc, dt).acc
    ensures obstacles == if Accumulate(acc, dt).spawn then obs + [NewObstacle(rand)] else obs
  {
    spawnAcc := acc + dt;
    obstacles := obs;
    if spawnAcc >= SpawnInterval {
      spawnAcc := 0.0;
      var rx := ((rand % Slots) as real / 1000.0 - 1.0) * SpawnXLimit;
      obstacles := obstacles + [Obstacle(rx, SpawnY, SpikeSpeed)];
    }
  }

  /** The frame as the game writes it: statements over mutable locals and
      in-place loops over the spike vector. */
  method FrameUpdate(s: State, keys: Keys, dt: real, rand: nat) returns (r: State)
    ensures r == Step(s, keys, dt, rand)
  {
    var playerX := MovePlayer(s.playerX, keys, dt);
    var spawnAcc, obstacles := SpawnPart(s.spawnAcc, s.obstacles, dt, rand);
    obstacles := AdvanceInPlace(obstacles, dt);

    var gameOver := s.gameOver;
    if !gameOver {
      var hit, _ := Scan(playerX, obstacles);
      if hit { gameOver := true; }
    }
    assert gameOver == if s.gameOver then true else AnyHit(playerX, obstacles);

    obstacles := RemoveIf(obstacles);
    r := State(playerX, spawnAcc, gameOver, obstacles);
  }
}
