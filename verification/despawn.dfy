/**
 Removal of spikes that have fallen below the screen: an erase of the tail
 that a stable remove_if leaves behind.
 */
module Despawn {
  import opened Entities

  /** The removal predicate of the game. */
  predicate Gone(o: Obstacle) {
    o.y < DespawnY
  }

  /** The spikes that are kept, in their original relative order. */
  function Survivors(obs: seq<Obstacle>): (r: seq<Obstacle>)
    ensures |r| <= |obs|
    ensures forall i :: 0 <= i < |r| ==> !Gone(r[i])
    decreases |obs|
  {
    if |obs| == 0 then []
    else
      var init := Survivors(obs[..|obs| - 1]);
      var last := obs[|obs| - 1];
      if Gone(last) then init else init + [last]
  }

  /** Filtering one more spike appends it unless it is below the line. */
  lemma SurvivorsSnoc(obs: seq<Obstacle>, o: Obstacle)
    ensures Survivors(obs + [o]) == if Gone(o) then Survivors(obs) else Survivors(obs) + [o]
  {
    assert (obs + [o])[..|obs|] == obs;
  }

  /** Stability: filtering a concatenation filters each part and keeps the
      parts in order. */
  lemma {:induction false} SurvivorsConcat(a: seq<Obstacle>, b: seq<Obstacle>)
    ensures Survivors(a + b) == Survivors(a) + Survivors(b)
    decreases |b|
  {
    if |b| == 0 {
      assert a + b == a;
    } else {
      var b', last := b[..|b| - 1], b[|b| - 1];
      assert a + b == (a + b') + [last];
      assert b == b' + [last];
      SurvivorsSnoc(a + b', last);
      SurvivorsSnoc(b', last);
      SurvivorsConcat(a, b');
    }
  }

  /** Nothing on screen is removed: exactly the spikes below the line go. */
  lemma {:induction false} SurvivorsKeepsAllOnScreen(obs: seq<Obstacle>)
    ensures (forall i :: 0 <= i < |obs| ==> !Gone(obs[i])) <==> Survivors(obs) == obs
    decreases |obs|
  {
    if |obs| > 0 {
      var init := obs[..|obs| - 1];
      SurvivorsKeepsAllOnScreen(init);
      if forall i :: 0 <= i < |obs| ==> !Gone(obs[i]) {
        assert forall i :: 0 <= i < |init| ==> !Gone(init[i]) by {
          forall i | 0 <= i < |init| ensures !Gone(init[i]) {
            assert init[i] == obs[i];
          }
        }
        assert obs == init + [obs[|obs| - 1]];
      }
    }
  }

  /** Every copy of a kept spike survives: the result loses exactly the
      occurrences of spikes below the line. */
  lemma {:induction false} SurvivorsCounts(obs: seq<Obstacle>, o: Obstacle)
    ensures multiset(Survivors(obs))[o] == if Gone(o) then 0 else multiset(obs)[o]
    decreases |obs|
  {
    if |obs| > 0 {
      var init := obs[..|obs| - 1];
      SurvivorsCounts(init, o);
      assert obs == init + [obs[|obs| - 1]];
    }
  }

  /** A spike is kept exactly when it was there and is not below the line. */
  lemma SurvivorsMembers(obs: seq<Obstacle>, o: Obstacle)
    ensures o in Survivors(obs) <==> o in obs && !Gone(o)
  {
    SurvivorsCounts(obs, o);
    assert o in Survivors(obs) <==> multiset(Survivors(obs))[o] > 0;
    assert o in obs <==> multiset(obs)[o] > 0;
  }

  /** The game's remove_if followed by erase: kept spikes are moved to the
      front in order, then the tail is cut off. */
  method RemoveIf(obs: seq<Obstacle>) returns (r: seq<Obstacle>)
    ensures r == Survivors(obs)
  {
    var a := obs;
    var write := 0;
    var read := 0;
    while read < |a|
      invariant write <= read <= |a| == |obs|
      invariant a[..write] == Survivors(obs[..read])
      invariant forall k :: read <= k < |a| ==> a[k] == obs[k]
    {
      var o := a[read];
      assert obs[..read + 1] == obs[..read] + [o];
      SurvivorsSnoc(obs[..read], o);
      if !Gone(o) {
        var kept := a[..write];
        a := a[write := o];
        assert a[..write + 1] == kept + [o];
        write := write + 1;
      }
      read := read + 1;
    }
    assert obs[..read] == obs;
    r := a[..write];
  }
}
