# Floppy bird population, modelled in Dafny

This project models the simulation core of a small "floppy bird" game. A population of
birds falls under gravity through a field of scrolling walls. Each bird jumps when its
four-weight neuron says so. It dies when it leaves the screen or touches a wall, and its
score is then how long it lived. When every bird is dead, one generation ends: the walls
are cleared, a reference bird is chosen from the scores, every neuron is corrected toward
the reference neuron (or restarted at random), and every bird comes back to life.

Modules, one per class of `floppy_bird.py`, plus two small helpers:

- `Wrappers`: `Option`.
- `Geometry`: the integer rectangle `(x, y, w, h)` and strict axis-aligned overlap.
- `Neurons`: the `Neuron` class. Its weights are a fixed `array<real>` of length 4 that is
  changed in place. The random draws are a `Draw` value.
- `Birds`: the `Bird` class, with the physics, the death test and the life cycle. The
  neuron's output, as a function of the input vector, is a parameter.
- `WallField`: the `Walls` class. Its wall list is a `seq<Rect>` field that the methods
  reassign. `RemovePass` states the removal loop exactly as the program runs it.
- `Games`: the `Game` class, with the nearest-wall scan, the all-dead test and the
  generation transition. Pure functions describe the score scan and the correction loop.

Inputs from outside are parameters:
- the current time `now` (`time.time()`);
- the random draws (one `Draw` per bird for `correct`, magnitudes and signs for a new
  neuron, and the gap height for `create`);
- the neuron's output `calculate`, a function from the input vector to a real;
- the screen size.

Four behaviours of the program are easy to miss:

- The nearest-wall scan keeps only rectangles with `y > 20`, so it always picks the
  *lower* wall of a pair. The third decision input is the top edge of that lower wall,
  which is the bottom edge of the gap. It is not the top wall's y origin.
- The best-score scan starts at 0 and the worst-score scan starts at 100. So the spread
  gate compares against 100, not against the worst bird, once every score is above 100
  (`HighCloseScoresStillGiveReference`).
- The removal pass of `Walls.update` removes items from the list it is iterating over.
  It can skip the element that follows a removed one (`SkippedWallSurvives`). It is not a
  clean filter.
- A new pair is spawned at `screen_width + 5`. The lower wall's height is the whole
  screen height, so it reaches below the screen.

## Model

| member | source | states |
|---|---|---|
| `Neurons.Restarted` | floppy_bird.py:21-24 | the restarted weights are the four magnitude draws, each negated exactly when its sign draw is above 0.5; all four lie in [-1, 1] |
| `Neurons.Neuron.Restart` | floppy_bird.py:34-37 | the in-place restart loop leaves exactly `Restarted(magnitudes, signs)` in the weight buffer |
| `Neurons.Neuron.constructor` | floppy_bird.py:18-26 | a new neuron owns a fresh buffer of four weights, equal to one restart from its draws |
| `Neurons.Imitated` | floppy_bird.py:39-40 | each imitated weight moves exactly 0.2 of the way toward the reference weight and ends between the old weight and the reference weight |
| `Neurons.Imitates` | floppy_bird.py:33 | `correct` imitates exactly when there is a reference bird and the branch draw is not above 0.9; its consequences are stated by `Neurons.Corrected` and `Games.ReferenceKeepsItsWeights` |
| `Neurons.Corrected` | floppy_bird.py:33-40 | `correct` keeps four weights; the restart branch (draw above 0.9 or no reference) gives weights in [-1, 1]; weights that start in [-1, 1] stay there whatever the reference, as long as its weights are in [-1, 1] too |
| `Neurons.Neuron.Correct` | floppy_bird.py:32-40 | the in-place loop gives `Corrected` of the weights before the call, even when the reference neuron is this neuron |
| `Neurons.ImitatingSelfIsIdentity` | floppy_bird.py:40 | imitating one's own weights leaves them unchanged |
| `Neurons.ImitationExample` | floppy_bird.py:40 | from [0,0,0,0] toward [1,0,0,0] the result is [0.2,0,0,0] |
| `Birds.Bird.constructor` | floppy_bird.py:44-53 | a new bird is alive, has speed 0, has its rectangle at the given position, remembers its start height and has its score set to `now` |
| `Birds.Bird.Jump` | floppy_bird.py:55-56 | the speed becomes -15 and nothing else changes |
| `Birds.NextSpeed` | floppy_bird.py:64-65 | after a surviving tick the speed is at most 15; it is -14 after a jump; otherwise it is the old speed plus one, or 15 once the cap is reached |
| `Birds.SpeedStaysInRange` | floppy_bird.py:55-67 | whatever sequence of jumps happens, a speed in [-15, 15] stays in [-15, 15] |
| `Birds.FreeFall` | floppy_bird.py:64-65 | without jumps the speed after k ticks is min(speed + k, 15) |
| `Birds.HitsAnyIff` | floppy_bird.py:81-85 | the wall loop of `should_kill` finds a hit exactly when some wall of the list strictly overlaps the bird |
| `Birds.HitsAny` | floppy_bird.py:82-85 | the early-return loop of `should_kill` over the walls, head first; `Birds.HitsAnyIff` proves it finds a hit exactly when some wall overlaps |
| `Birds.Bird.ShouldKill` | floppy_bird.py:78-85 | the bird must die exactly when `top < 0`, `bottom > screen_height`, or it strictly overlaps some wall |
| `Birds.DecisionInputs` | floppy_bird.py:88-91 | the four inputs: the bird's bottom and speed, then the nearest wall's top and right edge, or 600 and 1920 when there is no nearest wall; `Decide` and `Update` feed exactly this vector to the neuron |
| `Games.GapBottomIsWallInput` | floppy_bird.py:88-91 | when the nearest wall is the lower wall of a spawned pair, the third input is the bottom edge of the gap (top-wall height + 300), in [400, screen_height - 100], and the fourth is `screen_width + 75` |
| `Birds.Bird.Decide` | floppy_bird.py:87-94 | the bird jumps exactly when the neuron's output on `DecisionInputs` of its rectangle, its speed and the nearest wall is below 0.4 |
| `Birds.Bird.Update` | floppy_bird.py:58-67 | a dead bird is not changed; a live bird that must die ends dead at its start height, with score `now - start` and speed unchanged; a surviving bird has speed `NextSpeed`, jumping exactly when the neuron's output on `DecisionInputs` is below 0.4, and moves down by exactly that speed; the speed range is kept |
| `Birds.Bird.Die` | floppy_bird.py:69-72 | the bird is dead, back at its start height, and its score is the length of its life |
| `Birds.Bird.Resurrect` | floppy_bird.py:74-76 | the bird is alive and its score is the new start time; position and speed are kept |
| `WallField.RemoveFirst` | floppy_bird.py:109 | `list.remove` deletes exactly one element equal to the given wall |
| `WallField.FirstIndex` | floppy_bird.py:109 | the position `list.remove` searches for holds the wall and no earlier position does |
| `WallField.RemoveFirstDeletesFirst` | floppy_bird.py:109 | `list.remove` deletes the first equal element and keeps every other element in order |
| `WallField.RemovePass` | floppy_bird.py:107-109 | the removal loop from list position `i` on: it looks at the element at `i`, removes it by value with `RemoveFirst` when `right < 0`, and moves on to `i + 1` either way; `WallField.RemovePassDrops` and `WallField.RemovalOnlyDropsOffscreen` prove what it removes, and `WallField.Walls.Update` is proved to follow it |
| `WallField.Scrolled` | floppy_bird.py:112 | a scrolled wall's right edge is 5 further left, and its top and bottom stay where they were |
| `WallField.RemovalOnlyDropsOffscreen` | floppy_bird.py:107-109 | the removal pass adds no wall, removes only walls with `right < 0`, keeps every wall with `right >= 0` with its multiplicity, and keeps the survivors in order |
| `WallField.RemovePassDrops` | floppy_bird.py:107-109 | from any list position, the rest of the removal pass deletes only off-screen walls and keeps the order |
| `WallField.SkippedWallSurvives` | floppy_bird.py:107-109 | when both walls of a pair are off screen, the pass removes the top one and skips the bottom one, which survives the tick |
| `WallField.Walls.Update` | floppy_bird.py:105-113 | after `update`, the walls are exactly the survivors of the removal pass, in order, each moved left by 5 with width and height unchanged |
| `WallField.NewPair` | floppy_bird.py:116-121 | a spawned pair is two 70-wide walls at `screen_width + 5`; the top wall starts at y = 0 with height in [100, screen_height - 400]; the top wall is exactly the drawn height tall, and the bottom wall starts at the drawn height + 300, exactly 300 below it, and is screen_height tall |
| `WallField.Walls.Create` | floppy_bird.py:115-121 | `create` keeps all earlier walls and appends the two walls of `NewPair`, top wall first |
| `WallField.Walls.constructor` | floppy_bird.py:98-103 | a new wall field is empty and remembers the screen size |
| `Games.NearestIsLowerWall` | floppy_bird.py:221 | the nearest-wall scan never considers the top wall of a spawned pair; it considers the bottom wall exactly when that wall's distance is in (0, 1920] |
| `Games.Qualifies` | floppy_bird.py:220-221 | the test `closest_wall` applies before comparing distances: the wall's right edge is ahead of the bird's left edge by more than 0 and at most 1920 (the starting `closest_distance`), and the wall's y is above 20; `Games.Game.ClosestWall` and `Games.NearestIsLowerWall` use it |
| `Games.Game.constructor` | floppy_bird.py:141-143 | a game over birds whose neurons have four weights in buffers of their own starts out valid |
| `Games.Game.ClosestWall` | floppy_bird.py:215-227 | the result is none exactly when no wall has `y > 20` and distance in (0, 1920]; otherwise it is such a wall, no such wall is nearer, and every later such wall is strictly farther (ties go to the later wall) |
| `Games.MaxScoreIsMaximum` | floppy_bird.py:199-205 | the running best score is at least 0, bounds every score, and is either 0 or one of the scores |
| `Games.MinScoreIsMinimum` | floppy_bird.py:200-207 | the running worst score is at most 100, is below or equal to every score, and is either 100 or one of the scores |
| `Games.MaxScore` | floppy_bird.py:199-205 | the running `max_score` after the scan, starting at 0 and replaced only by a strictly greater score; `Games.MaxScoreIsMaximum` proves its bounds |
| `Games.MinScore` | floppy_bird.py:200-207 | the running `min_score` after the scan, starting at 100 and replaced only by a strictly smaller score; `Games.MinScoreIsMinimum` proves its bounds |
| `Games.FirstBest` | floppy_bird.py:201-205 | the running `max_bird`, moved only on a strictly greater score; when present it is a valid bird index (and `Games.FirstBestIsFirstMaximum` proves it is the first best bird) |
| `Games.Reference` | floppy_bird.py:208-209 | the bird `finish` corrects toward: none when the spread is below 0.5, else `FirstBest`; when present it is a valid bird index (`Games.ReferenceChoice` characterises it both ways) |
| `Games.FirstBestIsFirstMaximum` | floppy_bird.py:201-205 | the running best bird is none exactly when no score is above 0; otherwise it holds the best score, that score is above 0, and every earlier bird scored strictly less |
| `Games.ReferenceChoice` | floppy_bird.py:199-209 | the reference bird is none exactly when the spread is below 0.5 or no score is above 0; otherwise it is the first bird with the highest score, and that score is above 0 |
| `Games.CloseScoresGiveNoReference` | floppy_bird.py:208-209 | scores 10.0 and 10.3 give no reference bird |
| `Games.HighCloseScoresStillGiveReference` | floppy_bird.py:200-209 | scores 110.0 and 110.3 still give a reference bird (the second), because the worst-score scan starts at 100 |
| `Games.Game.ChooseReference` | floppy_bird.py:199-209 | the scan with its spread gate returns `Reference` of the birds' scores |
| `Games.CorrectFirst` | floppy_bird.py:210-211 | the weights after the first `k` turns of the correction loop: the same number of birds, four weights each, where each turn corrects one bird toward the reference's weights as they stand at that moment (`Games.CorrectFirstAt`) |
| `Games.CorrectAll` | floppy_bird.py:210-211 | the weights after the whole correction loop: one four-weight vector per bird |
| `Games.CorrectFirstAt` | floppy_bird.py:210-212 | after k corrections, the birds not yet reached are untouched; each bird reached was corrected once from its own weights, toward the reference's original weights if the reference comes at or after it, or toward the reference's already corrected weights if it came before |
| `Games.ReferenceKeepsItsWeights` | floppy_bird.py:210-211 | on the imitation branch, the reference bird imitates itself and keeps its weights |
| `Games.NoReferenceRestartsAll` | floppy_bird.py:208-211 | with no reference bird, every bird's new weights are a restart from its own draws |
| `Games.CorrectFirstBounded` | floppy_bird.py:210-211 | if every weight starts in [-1, 1], every weight stays in [-1, 1] through the correction loop |
| `Games.Game.CorrectAndResurrect` | floppy_bird.py:210-212 | after the last loop of `finish`, the weights are `CorrectAll` of the old weights, every bird is alive with score `now`, and positions and speeds are unchanged |
| `Games.Game.CorrectAndResurrectBird` | floppy_bird.py:211-212 | one turn of that loop advances the weights from `CorrectFirst(.., i)` to `CorrectFirst(.., i + 1)` and resurrects bird i, leaving every other bird as it was |
| `Games.Game.Finish` | floppy_bird.py:196-213 | after `finish` the wall list is empty, the weights are `CorrectAll` of the old weights toward `Reference` of the old scores, every bird is alive with score `now`, and positions and speeds are unchanged |
| `Games.Game.CheckForAliveBirds` | floppy_bird.py:186-193 | `finish` runs exactly when no bird is alive, with the effect above; otherwise walls, weights, liveness and scores are unchanged |

## Left out

- Drawing, the display, events, the clock and the spawn timer are not modelled. This
  covers `pygame.draw.rect`, `display`, `event.get`, `Clock.tick`, the `set_timer` calls
  in `finish` and the spawn-delay multiplier. They are input and output only.
- The window set-up of `Game.__init__`, `initialize_birds` and the `play` loop are not
  modelled. They set up the window and run forever. The `Game` constructor takes the
  birds and the walls already built. The keyboard jump is available as `Bird.Jump`.
- `sigmoid` and `Neuron.calculate` are not modelled. They use floating-point `numpy.exp`
  and a dot product. `Decide` and `Update` receive the neuron's output as a parameter.
- `random.random`, `random.randint` and `time.time()` are parameters. The bird and wall
  colours are not modelled.
- Weights are exact reals. The model does not capture numpy float64 rounding.
- Scores and times are exact reals. `time.time()`, `time.time() - self.score` and the
  `< 0.5` spread gate work on Python floats, whose rounding is not modelled.
- `WallField.Walls.Create` and `WallField.NewPair`: require the gap height to lie in
  [100, screen_height - 400]. When screen_height < 500 that range is empty and
  `random.randint` raises `ValueError`. The model has no such error path.
- Pygame limits rectangles to C integers. Its `colliderect` also rejects rectangles of
  zero width or height. Neither rule is modelled. Every rectangle the game builds has a
  positive size.
- `Neuron.bird`, the neuron's back-reference to its bird, is never read. It is not
  modelled. `learning_rate` and `random` are module constants.
- `should_kill`'s `walls is not None` test is not modelled. The walls are always a list.
- The `print` in `closest_wall` and the drawing of the nearest wall are not modelled.
- Rectangles are values. The model does not capture that `closest_wall` returns a rect
  object shared with the wall list, because that rect is only read afterwards.
- `Games.Game.ClosestWall`: requires at least one bird. With an empty population the
  program raises `IndexError` at `self.birds[0]`, and the model has no such error path.
- `Birds.Bird.Update`: requires the speed to be in [-15, 15]. The constructor sets up
  this invariant and `Jump` and `Update` keep it.
