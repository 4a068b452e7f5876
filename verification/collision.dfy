/**
 Axis-aligned bounding-box collision between the player's square and a
 spike's bounding box. Two boxes collide when their centres are strictly
 closer than the sum of their half extents on both axes.
 */
module Collision {
  import opened Entities

  /** The overlap test for two centres, with the player's and a spike's half
      extents summed per axis. */
  predicate Overlap(x1: real, y1: real, x2: real, y2: real) {
    && Abs(x1 - x2) < PlayerHalf + SpikeHalfX
    && Abs(y1 - y2) < PlayerHalf + SpikeHalfY
  }

  /** The player at horizontal position px touches spike o. */
  predicate Hits(px: real, o: Obstacle) {
    Overlap(px, PlayerY, o.x, o.y)
  }

  /** The test does not depend on which centre is taken as the player's. */
  lemma OverlapSymmetric(x1: real, y1: real, x2: real, y2: real)
    ensures Overlap(x1, y1, x2, y2) <==> Overlap(x2, y2, x1, y1)
  {
  }

  /** t lies strictly inside the interval of half width h around c. */
  predicate Within(t: real, c: real, h: real) {
    Abs(t - c) < h
  }

  /** Two open intervals share a point exactly when their centres are closer
      than the sum of their half widths. */
  lemma IntervalsMeet(c1: real, h1: real, c2: real, h2: real)
    requires h1 > 0.0 && h2 > 0.0
    ensures Abs(c1 - c2) < h1 + h2 <==> exists t :: Within(t, c1, h1) && Within(t, c2, h2)
  {
    if Abs(c1 - c2) < h1 + h2 {
      // the midpoint of the intersection of the two intervals
      var lo := if c1 - h1 < c2 - h2 then c2 - h2 else c1 - h1;
      var hi := if c1 + h1 < c2 + h2 then c1 + h1 else c2 + h2;
      var t := (lo + hi) / 2.0;
      assert Within(t, c1, h1) && Within(t, c2, h2);
    }
  }

  /** The overlap test agrees with the geometric meaning of "the two open
      boxes share a point". */
  lemma HitsIffBoxesShareAPoint(px: real, o: Obstacle)
    ensures Hits(px, o) <==>
      exists x, y :: && Within(x, px, PlayerHalf) && Within(y, PlayerY, PlayerHalf)
                     && Within(x, o.x, SpikeHalfX) && Within(y, o.y, SpikeHalfY)
  {
    IntervalsMeet(px, PlayerHalf, o.x, SpikeHalfX);
    IntervalsMeet(PlayerY, PlayerHalf, o.y, SpikeHalfY);
    if Hits(px, o) {
      var x :| Within(x, px, PlayerHalf) && Within(x, o.x, SpikeHalfX);
      var y :| Within(y, PlayerY, PlayerHalf) && Within(y, o.y, SpikeHalfY);
      assert Within(x, px, PlayerHalf) && Within(y, PlayerY, PlayerHalf)
          && Within(x, o.x, SpikeHalfX) && Within(y, o.y, SpikeHalfY);
    }
  }

  /** Whether the player at px touches any spike of the sequence. */
  predicate AnyHit(px: real, obs: seq<Obstacle>)
    ensures AnyHit(px, obs) <==> exists i :: 0 <= i < |obs| && Hits(px, obs[i])
    decreases |obs|
  {
    if |obs| == 0 then false
    else Hits(px, obs[0]) || AnyHit(px, obs[1..])
  }

  /** The scan of the game: front to back, stopping at the first spike that
      touches the player. */
  method Scan(px: real, obs: seq<Obstacle>) returns (hit: bool, at: nat)
    ensures hit <==> exists i :: 0 <= i < |obs| && Hits(px, obs[i])
    ensures hit ==> at < |obs| && Hits(px, obs[at])
    ensures hit ==> forall j :: 0 <= j < at ==> !Hits(px, obs[j])
  {
    hit := false;
    at := 0;
    while at < |obs|
      invariant at <= |obs|
      invariant forall j :: 0 <= j < at ==> !Hits(px, obs[j])
    {
      if Hits(px, obs[at]) {
        hit := true;
        break;
      }
      at := at + 1;
    }
  }

  /** A touching spike is far above the despawn line: its centre is within
      PlayerHalf + SpikeHalfY of the player's. */
  lemma HitIsOnScreen(px: real, o: Obstacle)
    requires Hits(px, o)
    ensures o.y > DespawnY
  {
  }
}
