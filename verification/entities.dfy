/**
 The fixed geometry of Block Dodger and the one entity that moves on its own,
 the falling spike. All coordinates are normalised device coordinates: the
 visible screen is the square [-1, 1] x [-1, 1], y grows upwards.

 The game keeps these as 32-bit floats; here they are exact reals.
 */
module Entities {

  /** Half the side of the player's square. */
  const PlayerHalf: real := 0.08
  /** Horizontal player speed, in screen units per second. */
  const PlayerSpeed: real := 0.8
  /** The player's centre sits just above the bottom edge. */
  const PlayerY: real := -1.0 + PlayerHalf + 0.02
  /** The largest |x| for which the whole square is still on screen. */
  const PlayerXLimit: real := 1.0 - PlayerHalf

  /** Seconds of accumulated frame time between two spawns. */
  const SpawnInterval: real := 1.2
  /** Spikes appear above the top edge ... */
  const SpawnY: real := 1.2
  /** ... fall at this constant speed ... */
  const SpikeSpeed: real := 0.45
  /** ... and are discarded once their centre is below this line. */
  const DespawnY: real := -1.2
  /** Spikes spawn with their centre x in [-SpawnXLimit, SpawnXLimit]. */
  const SpawnXLimit: real := 0.9

  /** Half extents of a spike's bounding box. */
  const SpikeHalfX: real := 0.07
  const SpikeHalfY: real := 0.08

  /** A falling spike: the centre of its bounding box and its fall speed. */
  datatype Obstacle = Obstacle(x: real, y: real, speed: real)

  /** What every spike that the game holds between two frames looks like. */
  predicate WellFormed(o: Obstacle) {
    && o.speed == SpikeSpeed
    && -SpawnXLimit <= o.x <= SpawnXLimit
    && DespawnY <= o.y <= SpawnY
  }

  predicate AllWellFormed(obs: seq<Obstacle>) {
    forall i :: 0 <= i < |obs| ==> WellFormed(obs[i])
  }

  function Abs(r: real): (a: real)
    ensures a >= 0.0
    ensures a == r || a == -r
  {
    if r < 0.0 then -r else r
  }
}
