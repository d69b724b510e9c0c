# Catch the Fruits: a Dafny model of the game core and its training harness

"Catch the Fruits" is a pygame arcade game in which fruits and bombs fall
on a player who moves left and right along the bottom edge. It is also
the fitness function of a NEAT trainer. Each genome's network plays a
time-limited game: 0.1 per tick survived, 100 per fruit caught, and 1000
off with an immediate stop when a bomb hits. The best network can then be
watched playing interactively (+1 point per fruit, stop on a bomb).
Training can resume from the newest `neat-checkpoint-N` file.

The project models this core in five modules:

- `Wrappers` (`wrappers.dfy`): the `Option` and `Result` datatypes.
- `Game` (`game.dfy`) models `game.py`.
  - The configuration constants and the box collision test.
  - `Player` and `Item` as classes whose `x`/`y` fields are updated in place.
  - `GameState`, with its constructor, `SpawnItem` and `GetNearestItems`, the running-minimum loop.
  - Beside each class, the same entity as a value (`ItemV`, `MovedX`, `Fall`, `Spawn`, `Nearest`).
- `Episode` (`episode.dfy`) is the reference model: the training episode and the interactive loop as pure functions of their inputs.
  - The inputs are the controller (the network, as a function from an observation to its two outputs), the random draws of each spawn and, interactively, the frames.
  - One tick is `SpawnStep`, then `Act`, then the item pass `UpdatePass`. `Tick` combines them.
  - A training run is `TrainFrom`/`Train`, and its `Fitness` is counted in tenths.
  - An interactive session is `PlayFrom`/`Play`.
  - The lemmas state what these promise: bounds, invariants, the meaning of the item pass, and examples.
- `AI` (`ai.dfy`) models `AI.py` as imperative Dafny over the `Game` classes.
  - `UpdateItems` is the in-place item loop over a snapshot, with `list.remove`.
  - `EvalGenome` is `eval_genome_parallel`.
  - `PlayWinner` is `play_winner` over a finite sequence of frames.
  - `Evaluate` is `ParallelEvaluator.evaluate`.
  - Each method is proved to compute exactly what `Episode` specifies.
- `Checkpoint` (`checkpoint.dfy`) models option 2 of `main.py`.
  - Candidates are filtered by prefix.
  - The chosen file has the largest `int(f.split('-')[-1])`.
  - This includes Python's `int()` on strings: a sign, digits with single underscores, `ValueError` as a failure, and surrounding whitespace. Whitespace here means the ASCII space, tab, LF, VT, FF and CR, and the characters above U+007F that `str.isspace()` accepts; U+001C to U+001F are not skipped.

Fitness is an integer number of tenths: `TICK_FITNESS = 1`, and `FRUIT_FITNESS = 10 * FRUIT_FITNESS_REWARD = 1000` and `BOMB_FITNESS = 10 * BOMB_FITNESS_PENALTY = 10000` come from the game's constants.

Randomness enters as a stream `Rng = nat -> Draw`, where the k-th spawn uses draw `k`. A draw is `random.random()`, the fruit's `randint(0, 770)` and the velocity's `randint(4, 10)`.

Notes on the code:

- Both loops call the same `spawn_item`, so bombs spawn at the player's x in training and in interactive play alike.
- A fault inside one evaluation is not caught, and no fallback fitness is assigned.
- A bomb that hits is not removed from the item list before the loop returns.
- Positions are integers.

## Model

| member | source | states |
|---|---|---|
| Game.CollidesSymmetric | game.py:43-47 | collides_with gives the same answer with its two boxes swapped |
| Game.TouchingBoxesDoNotCollide | game.py:43-47 | boxes that only share an edge, on x or on y, do not collide because all four comparisons are strict |
| Game.CollidesIffSharedPixel | game.py:43-47 | for boxes of positive size, collision holds exactly when some pixel lies inside both |
| Game.Collides | game.py:43-47 | the strict box-overlap test of collides_with; its symmetry, edge and pixel meaning are the three lemmas above |
| Game.Item.CollidesWith | game.py:43-47 | an item collides with the player exactly when Collides holds for their boxes |
| Game.Fall | game.py:63-64 | the value of an item after move(); FallMovesDown states what it changes |
| Game.MovedX | game.py:51-55 | the moved x is in [0, WIDTH - width]; inside the bounds it is exactly x ± 10; it is unchanged only at an edge; a right move from left of the bound increases x and a left move from inside decreases it |
| Game.FiveRightMovesFromStart | game.py:51-55 | five right moves from x = 350 reach x = 400 |
| Game.Player.constructor | game.py:33-38 | the player has the given position and size |
| Game.Player.Move | game.py:53-55 | the new x is MovedX of the old x, and nothing else changes |
| Game.Item.constructor | game.py:59-61 | an item has the given kind, position and velocity, and the 30×30 image size |
| Game.Item.Move | game.py:63-64 | the item's value after the move is Fall of its value before: y rises by y_vel |
| Game.FallMovesDown | game.py:61-64 | a move raises y by exactly y_vel, between 4 and 10, and keeps kind, x and velocity |
| Game.Spawn | game.py:85-89 | every item spawns at y = 0 with the drawn velocity; it is a fruit exactly when the draw is below 0.8, a fruit has the drawn x in [0, 770], and a bomb is at the player's x |
| Game.GameState.SpawnItem | game.py:85-89 | spawn_item returns a fresh item whose value is Spawn of the draw at the player's current x |
| Game.Nearest | game.py:91-108 | a found index is in range and has the kind asked for |
| Game.NearestN | game.py:91-108 | the search over the first n items finds an index below n of the kind asked for |
| Game.NearestIsFirstMinimum | game.py:91-108 | nothing is found iff no item has the kind; otherwise the found item is at least as near as every item of its kind and strictly nearer than every earlier one, so ties go to the first |
| Game.NearestNIsFirstMinimum | game.py:91-108 | the same for the first n items |
| Game.GameState.GetNearestItems | game.py:91-108 | the loop returns the objects at the indices Nearest picks for fruits and for bombs |
| Game.GameState.constructor | game.py:77-83 | a fresh game has the player at (350, 500) with size 100×100, no items, score 0, timer 0 and spawn rate 500 |
| Episode.SpawnStep | AI.py:52-57 | the timer is below 500 afterwards; reaching 500 appends exactly one item made from the next draw and resets the timer to 0; otherwise the timer rises by dt and the items stay |
| Episode.SpawnCadence | AI.py:52-57 | with 16 ms ticks the timer after tick t is 16·(t mod 32) and there have been t/32 spawns, so items spawn on ticks 32, 64, … |
| Episode.Act | AI.py:83-84 | the player moves only if the action decision exceeds 0.5; it moves right only if the move decision is at least 0.5 and left only if it is below; it stays on screen; away from the edges it moves exactly ±10 |
| Episode.Observe | AI.py:60-81 | the network sees the player's x and the nearest fruit and bomb that Nearest picks, or none |
| Episode.PassStep | AI.py:90-99 | one iteration of the item loop on a value: move, drop if fallen, stop on a bomb hit, count and drop a caught fruit; UpdatePassMeaning states the whole loop |
| Episode.UpdatePass | AI.py:89-99 | the fruits caught plus the items kept are at most the items passed over |
| Episode.UpdatePassN | AI.py:89-99 | the same over the first n items |
| Episode.UpdatePassNAgree | AI.py:89-99 | the pass over the first n items depends on nothing after them |
| Episode.UpdatePassSnoc | AI.py:89-99 | one more item at the end is one more step of the loop |
| Episode.UpdatePassStopsAtBomb | AI.py:93-97 | after a bomb hit the remaining items are never looked at |
| Episode.UpdatePassMeaning | AI.py:89-99 | a bomb hits iff some moved item is an on-screen bomb touching the player; without a hit the kept items are exactly the survivors in their original order and every colliding fruit is counted; with a hit only the fruits before the first such bomb count |
| Episode.UpdatePassBombIff | AI.py:93-97 | a pass reports a bomb exactly when some moved item is an on-screen bomb touching the player |
| Episode.UpdatePassWithoutBomb | AI.py:89-99 | a pass without a bomb keeps exactly the survivors in order and catches exactly the colliding fruits |
| Episode.UpdatePassFirstBomb | AI.py:93-99 | a pass with a bomb counts exactly the fruits caught before the first bomb that hits |
| Episode.SurvivorsAreOnScreen | AI.py:91-93 | every kept item is on screen and clear of the player |
| Episode.Tick | AI.py:52-99 | a tick spawns at most once, and caught plus kept items never exceed the items there were plus the one spawned |
| Episode.TrainFrom | AI.py:46-102 | a run never exceeds 2000 ticks; it reaches exactly 2000 unless a bomb hit, and a bomb hit comes in a tick that started |
| Episode.Resume | AI.py:49-50 | a run below the limit starts at least one more tick |
| Episode.NextTick | AI.py:49-99 | a run after one more tick keeps the same bounds |
| Episode.TrainFromTick | AI.py:49-99 | the rest of a run is one tick followed, unless a bomb hit, by the rest of the run from the next world |
| Episode.TrainFromSafeTick | AI.py:49-99 | after a tick without a bomb the run continues from the next world with one more step |
| Episode.TrainFromBombTick | AI.py:93-97 | a tick with a bomb ends the run there, with that tick's fruits counted |
| Episode.Train | AI.py:46-102 | a training run from the start world; TrainKeepsInvariant and TrainFitnessBounds state what it keeps and where its fitness lies |
| Episode.Fitness | AI.py:44-99 | 0.1 per tick, 100 per fruit and -1000 on a bomb, in tenths; FitnessAfterTick states the per-tick step |
| Episode.FitnessAfterTick | AI.py:86-99 | each tick adds exactly 0.1, plus 100 per fruit caught, minus 1000 on a bomb |
| Episode.KeptOnScreen | AI.py:89-92 | passing over on-screen items leaves only on-screen items |
| Episode.SurvivorsFall | AI.py:89-92 | survivors of items with y ≥ 0 have y ≥ 0 |
| Episode.TickKeepsBetween | AI.py:49-99 | one tick keeps the player on screen, the timer and spawn count on schedule, and the items on screen |
| Episode.TrainKeepsInvariant | AI.py:46-102 | whatever the network and the draws, a run keeps that state, spawns on schedule and catches no more fruits than were spawned |
| Episode.TrainFitnessBounds | AI.py:44-102 | every training fitness lies between -999.9 and 6400.0, and at most 62 fruits are caught |
| Episode.Play | AI.py:140-187 | an interactive session from the start world with score 0; PlayScoreAtMostSpawned bounds its score |
| Episode.PlayFrom | AI.py:149-187 | the rest of a session over the remaining frames, ending FramesExhausted when they run out |
| Episode.PlayFrame | AI.py:141-147 | a quit event ends the session UserQuit with the score so far |
| Episode.PlayTickOf | AI.py:149-187 | one interactive tick: a bomb ends the session BombHit, otherwise the caught fruits are added and the session goes on |
| Episode.PlayFromFrame | AI.py:140-187 | an interactive frame ends on a quit event without moving anything, ends on a bomb with that tick's points counted, and otherwise continues with one point per caught fruit |
| Episode.PlayFromSafeTick | AI.py:149-187 | a frame without a quit event and without a bomb continues with the score raised by the fruits caught |
| Episode.PlayFromBombTick | AI.py:182-185 | a frame whose tick hits a bomb ends the session without any penalty to the score |
| Episode.PlayScoreBounds | AI.py:178-187 | along a session the score never falls, and the score plus the items still falling never exceeds the items spawned so far |
| Episode.PlayScoreAtMostSpawned | AI.py:140-187 | a whole session ends with a score between 0 and the number of items it spawned |
| Episode.FruitCaughtExample | AI.py:93-99 | a fruit that lands on the player is removed and counted once |
| Episode.BombHitExample | AI.py:93-97 | a bomb that lands on the player reports a hit and catches nothing |
| AI.RemoveFirst | AI.py:92 | list.remove of a present object drops exactly one element; for an absent object, where Python raises ValueError, the model returns the list unchanged |
| AI.RemoveFirstAt | AI.py:92 | list.remove of an object drops its first occurrence and keeps the rest in order |
| AI.RemoveFirstIndex | AI.py:92 | removing the object at position j, absent before j, shifts the later objects down by one and keeps the earlier ones |
| AI.TracksFront | AI.py:89-90 | the next snapshot item is the first live item after the kept ones and is not among them |
| AI.TracksDrop | AI.py:91-92 | removing a fallen item or a caught fruit keeps the loop invariant, counting the fruit |
| AI.TracksKeep | AI.py:89-99 | an item that neither fell nor collided stays, in its place |
| AI.TracksBomb | AI.py:93-97 | a bomb hit at item i is the hit of the whole pass, with the fruits caught before it |
| AI.TracksDone | AI.py:89-99 | at the end of the loop the live list holds exactly the kept items, distinct and from the snapshot |
| AI.HandleItem | AI.py:90-99 | one iteration moves the item, then removes it if it fell, reports a bomb, or removes and counts a fruit |
| AI.UpdateItems | AI.py:89-99 | the in-place loop catches the fruits, and reports the bomb, that UpdatePass computes from the items before the loop; without a bomb the list afterwards has exactly the kept values; score, timer and player are unchanged |
| AI.ViewOfItemAt | game.py:91-108 | the object get_nearest_items returns has the value the pure search picks |
| AI.ViewsSnoc | AI.py:55-56 | appending an item appends its value |
| AI.SpawnAndReset | AI.py:55-57 | the new item's value is Spawn of the draw at the player's x, added at the end; the timer resets to 0 |
| AI.SpawnPhase | AI.py:52-57 | the game after the spawn check is SpawnStep of the game before it |
| AI.DecidePhase | AI.py:60-84 | the player's new x is Act of the network's outputs on the nearest fruit and bomb |
| AI.Step | AI.py:52-99 | a tick of the imperative game returns the catches and bomb flag of Tick, and leaves the game equal to Tick's next world |
| AI.TrainTick | AI.py:49-99 | a training tick keeps fitness equal to the fitness Episode computes for the run so far, and on a bomb returns the run's final fitness |
| AI.EvalGenome | AI.py:36-102 | eval_genome_parallel returns exactly the Fitness of the specified run for the network and draws |
| AI.AddScore | AI.py:187 | the score rises by the given amount and nothing else changes |
| AI.PlayTick | AI.py:149-187 | an interactive tick keeps the game in step with the specified session and ends it with the right score on a bomb |
| AI.PlayWinner | AI.py:130-187 | play_winner ends with exactly the score and reason of Play over the frames |
| AI.Genome.constructor | AI.py:16-24 | stands for the NEAT genome whose `fitness` attribute evaluate writes; its `net` is the network `FeedForwardNetwork.create` builds from it, taken as given, and its fitness starts unset |
| AI.Evaluate | AI.py:16-24 | every genome gets the fitness of the job at its last position in the list, that is the specified fitness for its network on that job's draws, in input order |
| Checkpoint.IsCandidate | main.py:24 | a name is a candidate when it starts with "neat-checkpoint-" |
| Checkpoint.Candidates | main.py:24 | a name is a candidate exactly when it is listed and starts with "neat-checkpoint-" |
| Checkpoint.CandidatesAppend | main.py:24 | filtering keeps listing order across concatenation |
| Checkpoint.LastSegment | main.py:26 | split('-')[-1]; LastSegmentMeaning states what it returns |
| Checkpoint.LastSegmentMeaning | main.py:26 | split('-')[-1] is the dash-free end of the name that follows its last '-' |
| Checkpoint.LastSegmentAfterDash | main.py:26 | after a name part ending in '-' the last segment is the dash-free remainder |
| Checkpoint.TrimStart | main.py:26 | the leading-whitespace strip of int(); TrimStartMeaning states what it drops and keeps |
| Checkpoint.TrimEnd | main.py:26 | the trailing-whitespace strip of int(); TrimEndMeaning states what it drops and keeps |
| Checkpoint.TrimStartMeaning | main.py:26 | int() drops exactly the leading whitespace |
| Checkpoint.TrimStartKeeps | main.py:26 | what int() keeps after the leading strip is an end of the text that is empty or starts with a non-whitespace character |
| Checkpoint.TrimStartDrops | main.py:26 | every character the leading strip drops is whitespace |
| Checkpoint.TrimEndMeaning | main.py:26 | int() drops exactly the trailing whitespace |
| Checkpoint.TrimStartPadded | main.py:26 | leading whitespace goes and the rest stays |
| Checkpoint.TrimEndPadded | main.py:26 | trailing whitespace goes and the rest stays |
| Checkpoint.Unstripped | main.py:26 | text without whitespace at either end is read as it is |
| Checkpoint.ParsePadded | main.py:26 | int() ignores surrounding whitespace |
| Checkpoint.Grouped | main.py:26 | digits with single underscores between them, as int() accepts |
| Checkpoint.DigitsValue | main.py:26 | the number a grouped digit string spells, underscores ignored |
| Checkpoint.ParseInt | main.py:26 | int() on a string: strip whitespace, an optional sign, grouped digits, None for ValueError; the Parse lemmas state its behaviour |
| Checkpoint.ParseGroupedDigits | main.py:26 | int() reads grouped digits as the number they spell |
| Checkpoint.ParseSignedDigits | main.py:26 | int() reads a sign and grouped digits as the signed number |
| Checkpoint.Decimal | main.py:26 | a decimal numeral is a non-empty string of digits |
| Checkpoint.DigitsValueSnoc | main.py:26 | one more digit at the end multiplies the value by ten and adds the digit |
| Checkpoint.DecimalValue | main.py:26 | the digits of a numeral spell its number |
| Checkpoint.DecimalGrouped | main.py:26 | a numeral is accepted by int() |
| Checkpoint.ParseDecimal | main.py:26 | int(str(n)) == n for every n ≥ 0 whose numeral a file name can spell |
| Checkpoint.ParseWithoutMinus | main.py:26 | text without '-' never reads as a negative number |
| Checkpoint.ParseRejects | main.py:26 | int() raises on "", "pkl", "_7", "1__0" and on "5" followed by U+001C, which is not whitespace to int() |
| Checkpoint.ParseUnderscore | main.py:26 | int("1_000") == 1000 |
| Checkpoint.Key | main.py:26 | the key function int(f.split('-')[-1]) |
| Checkpoint.KeyNotNegative | main.py:26 | a checkpoint key, taken after the last '-', is never negative |
| Checkpoint.KeyOfCheckpoint | main.py:26 | the key of "neat-checkpoint-" followed by the numeral of n is n |
| Checkpoint.Keys | main.py:26 | one key per candidate |
| Checkpoint.KeysAt | main.py:26 | the j-th key is the key of the j-th candidate |
| Checkpoint.MaxFrom | main.py:26 | the rest of max() ends at a position from the current best on, or fails at a position not yet visited |
| Checkpoint.MaxByKey | main.py:26 | max() returns a position in range, or the position of a failing key |
| Checkpoint.MaxFromMeaning | main.py:26 | the rest of max() succeeds iff every key is there, at the first largest key, and otherwise fails at the first missing key |
| Checkpoint.MaxByKeyMeaning | main.py:26 | max() with a key returns the first position of the largest key, and fails exactly when some key fails, at the first such position |
| Checkpoint.SelectCheckpoint | main.py:24-30 | option 2 of main(): a new population, the checkpoint of largest key, or the candidate whose key fails; the Select lemmas state each case |
| Checkpoint.SelectNewPopulation | main.py:24-30 | training starts from a new population exactly when no file name is a candidate |
| Checkpoint.SelectRestore | main.py:24-27 | the restored checkpoint is a listed candidate; every candidate has an integer key; its key is at least every other candidate's and strictly above those listed before it |
| Checkpoint.SelectFailure | main.py:26 | selection fails exactly when some candidate's suffix is not an integer, and it names the first such candidate |
| Checkpoint.SelectLaterOfTwo | main.py:26-27 | of two candidates with rising keys the later one is restored |
| Checkpoint.SelectByNumber | main.py:24-27 | from neat-checkpoint-9, winner.pkl and neat-checkpoint-10, checkpoint 10 is restored: keys compare as integers, not as text |

## Left out

- Rendering, the window, fonts, `Game.draw` and `AssetLoader` are presentation with no effect on outcomes. An item's size is the constant 30×30 of the scaled images. The fruit sprite chosen by `random.choice` is cosmetic and not drawn.
- NEAT is foreign library code and is not modelled: `neat.Config`, `FeedForwardNetwork.create`/`activate`, `Population.run`, the reporters and `Checkpointer`, and `train()` around them (AI.py:104-128). The network is an arbitrary function from an observation to its two outputs.
- The float normalisation of the nine network inputs (AI.py:63-78) is floating-point arithmetic. The observation instead carries the data the inputs are computed from: the player's x and the nearest fruit and bomb, or none.
- Distances are compared as squared integers. `sqrt` is monotone on these integer values, so the same item is chosen.
- Fitness is exact in tenths. The rounding of repeatedly adding the float 0.1 is not modelled.
- `multiprocessing.Pool` and `starmap`: the concurrency is out. The jobs are evaluated one after another in job order, each with its own random stream `rngs(k)`, and only the order-preserving assignment of results is modelled.
- Python's `random` is replaced by explicit draws, one `Draw` per spawn.
- `pygame.event` and `clock.tick`: each frame of the interactive loop is an input `Frame(dt, quit)`. The infinite loop runs over a finite sequence of frames, and the ending `FramesExhausted` only means that the sequence ran out.
- In `play_winner` the timer advances by `dt` before the quit check. The model ends a quit frame before that update; the score and the ending are the same either way.
- `pickle`, `winner.pkl`, `os.listdir`, `os.path`, `input` and `print` in main.py are I/O. The directory listing is the parameter of `SelectCheckpoint`; the menu options 1 and 3 are not modelled.
- Checkpoint.ParseInt: `int()` also accepts non-ASCII Unicode decimal digits; the model accepts only the ASCII digits 0-9. CPython 3.11 and later also rejects strings of more than 4300 digits (`sys.int_max_str_digits`), which no file name can hold; the model reads digit strings of any length.
- AI.RemoveFirst: `list.remove` raises `ValueError` when the object is absent; the model returns the list unchanged, a case the item loop never reaches.
- AI.UpdateItems: after a bomb hit it does not state the item list, because the loop returns at once and the list is never read again.
- AI.Step: after a bomb hit it does not state the world, for the same reason.
