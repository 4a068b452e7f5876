/**
 The player's horizontal movement: the two sampled key pairs give a direction,
 the position is integrated over the frame time and then clamped so that the
 square never leaves the screen.
 */
module Player {
  import opened Entities

  /** The keys sampled once per frame: A or Left, and D or Right. */
  datatype Keys = Keys(left: bool, right: bool)

  /** The three values the sampled direction can take. */
  predicate IsDirection(dx: real) {
    dx == -1.0 || dx == 0.0 || dx == 1.0
  }

  /** Left subtracts one and right adds one, so holding both cancels out. */
  function Direction(k: Keys): (dx: real)
    ensures IsDirection(dx)
    ensures dx < 0.0 <==> k.left && !k.right
    ensures dx > 0.0 <==> k.right && !k.left
  {
    (if k.left then -1.0 else 0.0) + (if k.right then 1.0 else 0.0)
  }

  /** The square is entirely on screen. */
  predicate OnScreen(x: real) {
    -PlayerXLimit <= x <= PlayerXLimit
  }

  /** The upper bound is applied first, then the lower bound. */
  function Clamp(x: real): (c: real)
    ensures OnScreen(c)
    ensures OnScreen(x) ==> c == x
    ensures x > PlayerXLimit ==> c == PlayerXLimit
    ensures x < -PlayerXLimit ==> c == -PlayerXLimit
  {
    var capped := if x > PlayerXLimit then PlayerXLimit else x;
    if capped < -PlayerXLimit then -PlayerXLimit else capped
  }

  /** Clamping an already clamped position changes nothing. */
  lemma ClampIdempotent(x: real)
    ensures Clamp(Clamp(x)) == Clamp(x)
  {
  }

  /** The clamped position is the on-screen position closest to the input. */
  lemma ClampIsNearest(x: real, y: real)
    requires OnScreen(y)
    ensures Abs(Clamp(x) - x) <= Abs(y - x)
  {
  }

  /** One frame of player movement. */
  function Move(x: real, dx: real, dt: real): (x': real)
    ensures OnScreen(x')
    ensures OnScreen(x + dx * PlayerSpeed * dt) ==> x' == x + dx * PlayerSpeed * dt
  {
    Clamp(x + dx * PlayerSpeed * dt)
  }

  /** From an on-screen position, a frame moves the player in the pressed
      direction only, by no more than PlayerSpeed * dt, and not at all
      when no direction (or both) is pressed. */
  lemma MoveFollowsInput(x: real, dx: real, dt: real)
    requires OnScreen(x) && IsDirection(dx) && dt >= 0.0
    ensures dx == 0.0 ==> Move(x, dx, dt) == x
    ensures dx < 0.0 ==> Move(x, dx, dt) <= x
    ensures dx > 0.0 ==> Move(x, dx, dt) >= x
    ensures Abs(Move(x, dx, dt) - x) <= PlayerSpeed * dt
  {
  }
}
