# Block Dodger: the per-frame game update

Block Dodger is a small arcade game. The player moves a square along the bottom
of the screen. Spikes fall from the top, and touching one ends the game. All
of the game's own logic is the update at the top of the main loop in
`glfwVisualStudioSetup/src/main.cpp`. Every frame runs five parts in order:

1. The player's x is integrated from the held keys and clamped to the screen.
2. Frame time is summed into an accumulator. A spike is released when the
   accumulator reaches 1.2 s. The spike gets a pseudo-random lateral position.
3. Every spike falls by `speed * dt`.
4. An axis-aligned bounding-box test against the player sets the game-over
   flag. The test is skipped once the flag is set.
5. Spikes whose centre has gone below y = -1.2 are erased, stably.

This project lifts that update into one pure function, `Frame.Step`, over an
immutable `Frame.State`. It proves what each part guarantees and what the
whole frame keeps invariant. Each part has its own module:

- `Entities`: the constants, `Obstacle`, and the well-formedness of a spike.
- `Player`: key sampling, integration and clamping.
- `Spawner`: the accumulator, the multi-frame spawn schedule, and the lateral
  spawn position.
- `Motion`: the fall of the spikes.
- `Collision`: the overlap test, its geometric meaning, and the front-to-back
  scan that stops at the first hit.
- `Despawn`: the stable filter and the `remove_if`/`erase` compaction loop.
- `Frame`: the state, `Step`, runs of frames, and `FrameUpdate`. That method
  is the statement-by-statement form of the loop body, and it is proved equal
  to `Step`.

The outside world becomes parameters:
- The clock is a parameter: `dt`, the frame time. Lemmas that need it ask for
  `dt >= 0`, because the clock is monotone.
- The keyboard is a parameter: `Keys(left, right)`. `left` means A or Left is
  held and `right` means D or Right is held.
- The C library generator is a parameter: `rand`, a non-negative integer that
  the model reduces modulo 2001 exactly as the game does.

All coordinates and times are exact reals. The game uses 32-bit floats and a
64-bit accumulator instead.

Collisions are checked only at frame boundaries. `Frame.LongFrameSkipsCollision`
records the consequence: a long enough frame lets a spike pass through the
player without ending the game. This follows from the design and is not
evidently unintended, so it is stated as a property, not as a defect.

## Model

| member | source | states |
|---|---|---|
| Player.Direction | glfwVisualStudioSetup/src/main.cpp:284-289 | the sampled direction is -1, 0 or 1; it is negative exactly when only a left key is held and positive exactly when only a right key is held, so holding both cancels out |
| Player.Clamp | glfwVisualStudioSetup/src/main.cpp:293-295 | the clamped x keeps the whole square on screen (within ±PLAYER_X_LIMIT = ±0.92); an on-screen x is left unchanged; an x beyond a limit is pinned to that limit |
| Player.ClampIdempotent | glfwVisualStudioSetup/src/main.cpp:293-295 | clamping twice is the same as clamping once |
| Player.ClampIsNearest | glfwVisualStudioSetup/src/main.cpp:289-295 | the clamped x is the on-screen position closest to the integrated x |
| Player.Move | glfwVisualStudioSetup/src/main.cpp:291-295 | after a frame the player is on screen; when the integrated position x + dx·0.8·dt is already on screen, the player is exactly there |
| Player.MoveFollowsInput | glfwVisualStudioSetup/src/main.cpp:284-295 | from an on-screen position the player moves only in the pressed direction, stays put with no net key, and moves at most PLAYER_SPEED·dt |
| Spawner.Accumulate | glfwVisualStudioSetup/src/main.cpp:298-301 | a spike is released exactly when accumulator + dt reaches SPAWN_INTERVAL = 1.2; without a release all the time is kept; a release resets the accumulator to 0, discarding the overshoot, so it uses up at least a whole interval; the accumulator stays in [0, 1.2) for dt >= 0 |
| Spawner.SpawnRateBound | glfwVisualStudioSetup/src/main.cpp:298-301 | over any run of frames, final accumulator + 1.2 × releases never exceeds initial accumulator + total frame time, so releases are at most one per 1.2 s |
| Spawner.NoSpawnIff | glfwVisualStudioSetup/src/main.cpp:298-301 | from an accumulator in [0, 1.2) and with non-negative frame times, a run releases nothing exactly when initial accumulator + total time stays below 1.2, and then the accumulator holds all of that time |
| Spawner.ScheduleConcat | glfwVisualStudioSetup/src/main.cpp:298-301 | running two parts of a run one after the other gives the accumulator of the second part and the sum of the releases of both |
| Spawner.FillsOnce | glfwVisualStudioSetup/src/main.cpp:298-301 | with frames of constant length dt and n the least count with n·dt ≥ 1.2, the frames from accumulated time i·dt up to the n-th release exactly one spike and end with the accumulator at 0 |
| Spawner.ConstantFramesPeriod | glfwVisualStudioSetup/src/main.cpp:298-301 | because a release resets to 0, frames of constant length dt release exactly one spike every n frames (n the least count with n·dt ≥ 1.2): m·n frames from an empty accumulator release m spikes and end empty |
| Spawner.OneSecondFramesSpawnEveryTwo | glfwVisualStudioSetup/src/main.cpp:298-301 | six one-second frames release three spikes, one every 2 s, and not the five that keeping the overshoot would give |
| Spawner.SpawnX | glfwVisualStudioSetup/src/main.cpp:303-304 | the spawn x ((rand mod 2001)/1000 - 1)·0.9 lies in [-SPAWN_X_LIMIT, SPAWN_X_LIMIT] = [-0.9, 0.9] for every generator value |
| Spawner.SpawnXEvenlySpaced | glfwVisualStudioSetup/src/main.cpp:304 | residue 0 gives -0.9 and residue 2000 gives 0.9, and neighbouring residues are 0.0009 apart |
| Spawner.SpawnXMonotone | glfwVisualStudioSetup/src/main.cpp:304 | a larger residue gives a position further right, so the 2001 residues give 2001 distinct positions |
| Spawner.SpawnXSymmetric | glfwVisualStudioSetup/src/main.cpp:304 | residues k and 2000 - k give mirror positions about the centre |
| Spawner.NewObstacle | glfwVisualStudioSetup/src/main.cpp:305 | a new spike is well formed: speed SPIKE_SPEED = 0.45, x within the spawn limits, y = SPAWN_Y = 1.2 |
| Motion.Fall | glfwVisualStudioSetup/src/main.cpp:310 | one spike's fall keeps its x and speed and lowers its y by exactly speed·dt |
| Motion.Advance | glfwVisualStudioSetup/src/main.cpp:309-310 | the fall of all spikes keeps the length of the sequence, and each index holds the fallen copy of the spike that was there |
| Motion.AdvanceInPlace | glfwVisualStudioSetup/src/main.cpp:309-310 | the in-place loop gives every spike its fallen copy, at the same index: y lowered by speed·dt, x and speed unchanged, length and order kept |
| Motion.AdvanceAdditive | glfwVisualStudioSetup/src/main.cpp:309-310 | falling for a then for b is the same as falling for a + b |
| Motion.AdvanceConcat | glfwVisualStudioSetup/src/main.cpp:305-310 | falling distributes over concatenation, so a spike appended last is still last after falling |
| Motion.FallKeepsShape | glfwVisualStudioSetup/src/main.cpp:309-310 | for dt >= 0 a well-formed spike keeps its speed and x, and its y never rises above SPAWN_Y |
| Collision.OverlapSymmetric | glfwVisualStudioSetup/src/main.cpp:323-324 | the overlap test does not change when the two centres swap |
| Collision.IntervalsMeet | glfwVisualStudioSetup/src/main.cpp:323-324 | on one axis, a centre distance below h1 + h2 holds exactly when the two open intervals share a point |
| Collision.HitsIffBoxesShareAPoint | glfwVisualStudioSetup/src/main.cpp:315-326 | the strict test on both axes (abs(px - sx) < 0.15 and abs(-0.9 - sy) < 0.16) holds exactly when the player's open square and the spike's open box share a point |
| Collision.AnyHit | glfwVisualStudioSetup/src/main.cpp:318-331 | the scan finds a hit exactly when some spike of the sequence overlaps the player |
| Collision.Scan | glfwVisualStudioSetup/src/main.cpp:318-331 | the loop that breaks on the first hit reports a hit exactly when one exists; when it does, it stops at the first overlapping spike |
| Collision.HitIsOnScreen | glfwVisualStudioSetup/src/main.cpp:187-202 | a spike that overlaps the player is above DESPAWN_Y |
| Despawn.Survivors | glfwVisualStudioSetup/src/main.cpp:335-339 | the filtered sequence is no longer than its input and holds no spike below DESPAWN_Y = -1.2 |
| Despawn.SurvivorsSnoc | glfwVisualStudioSetup/src/main.cpp:335-339 | filtering one more spike appends it exactly when it is not below the line |
| Despawn.SurvivorsConcat | glfwVisualStudioSetup/src/main.cpp:335-339 | stability: filtering a concatenation is the concatenation of the filtered parts, in order |
| Despawn.SurvivorsKeepsAllOnScreen | glfwVisualStudioSetup/src/main.cpp:335-339 | the filter returns its input unchanged exactly when no spike is below the line |
| Despawn.SurvivorsCounts | glfwVisualStudioSetup/src/main.cpp:335-339 | every occurrence of a spike at or above the line is kept, and every occurrence of one below it is removed |
| Despawn.SurvivorsMembers | glfwVisualStudioSetup/src/main.cpp:335-339 | a spike is in the result exactly when it was in the input and is not below the line |
| Despawn.RemoveIf | glfwVisualStudioSetup/src/main.cpp:335-339 | the two-index compaction followed by cutting the tail yields exactly the stable filter |
| Frame.Step | glfwVisualStudioSetup/src/main.cpp:279-339 | after a frame the player is on screen, the accumulator stays in [0, 1.2), at most one spike is added, game over is never cleared, and a running game ends exactly when the player overlaps a spike of the new state |
| Frame.HitsSurvive | glfwVisualStudioSetup/src/main.cpp:313-339 | scanning for collisions before the despawn filter, as the game does, gives the same answer as scanning after it |
| Frame.InitialInv | glfwVisualStudioSetup/src/main.cpp:261-267 | the starting state (x = 0, empty accumulator, no spikes, game running) satisfies the frame invariant |
| Frame.StepPreservesInv | glfwVisualStudioSetup/src/main.cpp:291-339 | for dt >= 0 a frame keeps the invariant: player on screen, accumulator in [0, 1.2), every spike with speed 0.45, x in [-0.9, 0.9] and y in [-1.2, 1.2] |
| Frame.GameOverDoesNotFreeze | glfwVisualStudioSetup/src/main.cpp:284-332 | game over only decides whether the scan runs: movement, spawning and falling produce the same player, accumulator and spikes whether or not the game is over |
| Frame.SpawnFallDespawn | glfwVisualStudioSetup/src/main.cpp:298-339 | appending, falling and filtering leaves the old spikes filtered as if alone, followed by the fallen new spike if it survives |
| Frame.AppendsAtMostOne | glfwVisualStudioSetup/src/main.cpp:298-339 | after spawn, fall and despawn, the surviving old spikes come first in order, followed by at most one spike: the new one, at y = 1.2 - 0.45·dt, present exactly when it was released and has not fallen past the line |
| Frame.StepAppendsAtMostOne | glfwVisualStudioSetup/src/main.cpp:298-339 | a frame adds at most one spike, and it goes last; one is added exactly when accumulator + dt reaches 1.2 and 0.45·dt ≤ 2.4 |
| Frame.Run | glfwVisualStudioSetup/src/main.cpp:271-339 | after at least one frame the player is on screen, and a run of k frames adds at most k spikes |
| Frame.RunPreservesInv | glfwVisualStudioSetup/src/main.cpp:271-339 | every run of frames with non-negative frame times keeps the invariant |
| Frame.RunGameOverLatched | glfwVisualStudioSetup/src/main.cpp:313-332 | once the game is over it stays over through any run of frames |
| Frame.RunFollowsSchedule | glfwVisualStudioSetup/src/main.cpp:298-301 | the game's accumulator after a run equals the one the spawn schedule predicts from the frame times alone |
| Frame.LongFrameSkipsCollision | glfwVisualStudioSetup/src/main.cpp:309-332 | collisions are only checked at frame boundaries: a lone spike that starts a frame at least 0.16 above the player's centre and ends it at least 0.16 below does not end a running game, provided no spike is released in that frame; such a frame has 0.45·dt ≥ 0.32 |
| Frame.OneSecondFrameSkipsCollision | glfwVisualStudioSetup/src/main.cpp:309-332 | a one-second frame moves a spike from y = -0.7 to y = -1.15, past the player at y = -0.9, and the game does not end |
| Frame.MovePlayer | glfwVisualStudioSetup/src/main.cpp:284-295 | the game's key sampling, integration and two clamping statements compute Move |
| Frame.SpawnPart | glfwVisualStudioSetup/src/main.cpp:298-306 | the game's spawn statements give the accumulator and spike list of Accumulate and NewObstacle |
| Frame.FrameUpdate | glfwVisualStudioSetup/src/main.cpp:279-339 | the loop body written as statements and in-place loops gives exactly Step |

## Left out

- Window, context and GL loader setup and their error exits (main.cpp:148-178): these are calls into foreign libraries with no game logic.
- Shader loading, shader compilation, mesh creation and destruction, and shutdown (main.cpp:24-134, 206-258, 376-384): these wrap file I/O and the graphics API.
- Rendering (main.cpp:341-372): it only issues GL calls. This includes the player being drawn twice per frame, once green and once coloured by the game-over flag.
- Clock and key sampling (main.cpp:279-289): these become the parameters `dt` and `Keys`. The model does not compute `dt` from two clock readings.
- The generator: `srand`/`rand()` (main.cpp:149, 304) become the parameter `rand`.
- Floating point: 32-bit float and 64-bit double rounding is not modelled. That includes the float constants, which are not exactly 0.08, 0.92, …, and the cast of `dt` from double to float. All arithmetic is on exact reals. So any comparison whose two sides are within float rounding of each other may be decided differently by the game: for instance `SPAWN_INTERVAL` is the float 1.2f ≈ 1.2000000477 compared with a double accumulator, so an accumulator + dt between 1.2 and that value releases a spike in the model but not in the game. Positions and the accumulator also drift from the exact values over many frames, so after a long run a comparison with a small margin can go either way.
- This version of the game has no score, best score, restart key or difficulty ramp, so none are modelled.

