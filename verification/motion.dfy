/**
 Every spike falls by speed * dt each frame; nothing else about it changes.
 */
module Motion {
  import opened Entities

  function Fall(o: Obstacle, dt: real): (o': Obstacle)
    ensures o'.x == o.x && o'.speed == o.speed
    ensures o.y - o'.y == o.speed * dt
  {
    o.(y := o.y - o.speed * dt)
  }

  /** The whole sequence falls, element by element, in place. */
  function Advance(obs: seq<Obstacle>, dt: real): (r: seq<Obstacle>)
    ensures |r| == |obs|
    ensures forall i :: 0 <= i < |obs| ==> r[i] == Fall(obs[i], dt)
  {
    seq(|obs|, i requires 0 <= i < |obs| => Fall(obs[i], dt))
  }

  /** Splitting a frame in two moves every spike to the same place. */
  lemma AdvanceAdditive(obs: seq<Obstacle>, a: real, b: real)
    ensures Advance(Advance(obs, a), b) == Advance(obs, a + b)
  {
    var lhs := Advance(Advance(obs, a), b);
    var rhs := Advance(obs, a + b);
    forall i | 0 <= i < |obs|
      ensures lhs[i] == rhs[i]
    {
      assert obs[i].speed * (a + b) == obs[i].speed * a + obs[i].speed * b;
    }
  }

  /** Advancing distributes over concatenation, so the relative order of
      spikes, and the position of a just-released one at the end, is kept. */
  lemma AdvanceConcat(a: seq<Obstacle>, b: seq<Obstacle>, dt: real)
    ensures Advance(a + b, dt) == Advance(a, dt) + Advance(b, dt)
  {
  }

  /** A well-formed spike stays well formed, except for possibly dropping
      below the despawn line, and never rises. */
  lemma FallKeepsShape(o: Obstacle, dt: real)
    requires WellFormed(o) && dt >= 0.0
    ensures Fall(o, dt).speed == SpikeSpeed
    ensures -SpawnXLimit <= Fall(o, dt).x <= SpawnXLimit
    ensures Fall(o, dt).y <= o.y <= SpawnY
  {
  }

  /** The loop of the game: each element's y is decreased in place. */
  method AdvanceInPlace(obs: seq<Obstacle>, dt: real) returns (r: seq<Obstacle>)
    ensures r == Advance(obs, dt)
  {
    r := obs;
    var i := 0;
    while i < |r|
      invariant 0 <= i <= |r| == |obs|
      invariant forall j :: 0 <= j < i ==> r[j] == Fall(obs[j], dt)
      invariant r[i..] == obs[i..]
    {
      assert r[i] == obs[i..][0];
      r := r[i := r[i].(y := r[i].y - r[i].speed * dt)];
      i := i + 1;
    }
  }
}
