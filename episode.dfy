/** The training episode and the interactive loop as functions of their
    inputs: the controller's decisions, the random draws and, interactively,
    the frame timings. The imperative loops in module AI are proved to
    compute exactly these. */
module Episode {
  import opened Wrappers
  import opened Game

  /** The training loop's step limit. */
  const MAX_STEPS: nat := 2000
  /** Milliseconds the training loop adds to the spawn timer per tick. */
  const TICK_MS: int := 16
  /** Fitness is counted in tenths: 0.1 per tick, 100 per fruit, 1000 per bomb. */
  const TICK_FITNESS: int := 1
  const FRUIT_FITNESS: int := 10 * FRUIT_FITNESS_REWARD
  const BOMB_FITNESS: int := 10 * BOMB_FITNESS_PENALTY

  /** The network's two outputs: the move decision and the action decision. */
  datatype Outputs = Outputs(move: real, act: real)

  /** What the network's nine inputs are computed from: the player's x and
      the nearest fruit and nearest bomb, if any. */
  datatype Observation = Observation(playerX: int, fruit: Option<ItemV>, bomb: Option<ItemV>)

  type Controller = Observation -> Outputs

  /** The draws of the k-th spawn of a run. */
  type Rng = nat -> Draw

  /** A game as a value: the player's x, the items in list order, the spawn
      timer, and how many spawns have used the random draws so far. */
  datatype World = World(playerX: int, items: seq<ItemV>, timer: int, spawned: nat)

  /** A fresh GameState. */
  const START: World := World(START_X, [], 0, 0)

  function Pick(s: seq<ItemV>, k: Option<nat>): Option<ItemV> {
    if k.Some? && k.value < |s| then Some(s[k.value]) else None
  }

  function Observe(w: World): Observation {
    Observation(w.playerX,
                Pick(w.items, Nearest(w.items, Fruit, w.playerX, START_Y)),
                Pick(w.items, Nearest(w.items, Bomb, w.playerX, START_Y)))
  }

  /** Advance the spawn timer by `dt`; on reaching the spawn rate, append
      one item and reset the timer to zero. */
  function SpawnStep(w: World, dt: int, rng: Rng): (r: World)
    ensures r.timer < SPAWN_RATE
    ensures r.playerX == w.playerX && |w.items| <= |r.items| && r.items[..|w.items|] == w.items
    ensures w.timer + dt >= SPAWN_RATE ==>
              r.timer == 0 && r.spawned == w.spawned + 1 &&
              r.items == w.items + [Spawn(rng(w.spawned), w.playerX)]
    ensures w.timer + dt < SPAWN_RATE ==>
              r.timer == w.timer + dt && r.spawned == w.spawned && r.items == w.items
  {
    var t := w.timer + dt;
    if t >= SPAWN_RATE then
      w.(items := w.items + [Spawn(rng(w.spawned), w.playerX)], timer := 0, spawned := w.spawned + 1)
    else
      w.(timer := t)
  }

  /** Items spawn on every 32nd tick of 16 ms: after tick t the timer is
      16 * (t % 32), there have been t / 32 spawns, and this tick spawns
      exactly when t + 1 is a multiple of 32. */
  lemma SpawnCadence(w: World, rng: Rng, t: nat)
    requires w.timer == TICK_MS * (t % 32) && w.spawned == t / 32
    ensures var r := SpawnStep(w, TICK_MS, rng);
      && r.timer == TICK_MS * ((t + 1) % 32)
      && r.spawned == (t + 1) / 32
      && (|r.items| == |w.items| + 1 <==> (t + 1) % 32 == 0)
  {
    if t % 32 == 31 {
      assert (t + 1) % 32 == 0 && (t + 1) / 32 == t / 32 + 1;
    } else {
      assert (t + 1) % 32 == t % 32 + 1 && (t + 1) / 32 == t / 32;
    }
  }

  /** The player's x after the gated move: act only if the action decision
      exceeds 0.5, to the right iff the move decision is at least 0.5. */
  function Act(px: int, out: Outputs): (r: int)
    ensures r != px ==> out.act > 0.5
    ensures 0 <= px <= WIDTH - PLAYER_WIDTH ==> (r > px ==> out.move >= 0.5) && (r < px ==> out.move < 0.5)
    ensures 0 <= px <= WIDTH - PLAYER_WIDTH ==> 0 <= r <= WIDTH - PLAYER_WIDTH
    ensures out.act > 0.5 && SPEED <= px <= WIDTH - PLAYER_WIDTH - SPEED ==>
              r == (if out.move >= 0.5 then px + SPEED else px - SPEED)
  {
    if out.act > 0.5 then MovedX(px, out.move >= 0.5, PLAYER_WIDTH) else px
  }

  /** The outcome of one pass over the items: the items left in the list, the
      fruits caught, and whether a bomb hit the player. */
  datatype Pass = Pass(kept: seq<ItemV>, caught: nat, bombHit: bool)

  /** A moved item that leaves the list because it fell past the bottom. */
  predicate OffScreen(it: ItemV) {
    it.y > HEIGHT
  }

  predicate HitsPlayer(it: ItemV, px: int) {
    Collides(ItemBox(it), PlayerBox(px))
  }

  /** A moved item that stays in the list. */
  predicate Survives(it: ItemV, px: int) {
    !OffScreen(it) && !HitsPlayer(it, px)
  }

  predicate CatchesFruit(it: ItemV, px: int) {
    !OffScreen(it) && HitsPlayer(it, px) && it.kind == Fruit
  }

  predicate HitsBomb(it: ItemV, px: int) {
    !OffScreen(it) && HitsPlayer(it, px) && it.kind == Bomb
  }

  /** What the item loop does with one item `it` after moving it. */
  function PassStep(p: Pass, it: ItemV, px: int): Pass {
    if p.bombHit || OffScreen(it) then p
    else if HitsPlayer(it, px) then
      if it.kind == Bomb then p.(bombHit := true)
      else p.(caught := p.caught + 1)
    else p.(kept := p.kept + [it])
  }

  /** The item loop: move each item in list order; drop it if it fell past
      the bottom; otherwise on collision catch a fruit or stop at a bomb. */
  function UpdatePass(s: seq<ItemV>, px: int): (p: Pass)
    ensures p.caught + |p.kept| <= |s|
  {
    UpdatePassN(s, |s|, px)
  }
  /** The same loop over the first `n` items. */
  function UpdatePassN(s: seq<ItemV>, n: nat, px: int): (p: Pass)
    requires n <= |s|
    ensures p.caught + |p.kept| <= n
  {
    if n == 0 then Pass([], 0, false)
    else PassStep(UpdatePassN(s, n - 1, px), Fall(s[n - 1]), px)
  }

  /** The loop over the first `n` items looks at nothing after them. */
  lemma {:induction false} UpdatePassNAgree(s: seq<ItemV>, t: seq<ItemV>, n: nat, px: int)
    requires n <= |s| && n <= |t| && forall j :: 0 <= j < n ==> s[j] == t[j]
    ensures UpdatePassN(s, n, px) == UpdatePassN(t, n, px)
    decreases n
  {
    if n != 0 {
      UpdatePassNAgree(s, t, n - 1, px);
    }
  }

  /** One more item at the end is one more step of the loop. */
  lemma UpdatePassSnoc(s: seq<ItemV>, it: ItemV, px: int)
    ensures UpdatePass(s + [it], px) == PassStep(UpdatePass(s, px), Fall(it), px)
  {
    UpdatePassNAgree(s + [it], s, |s|, px);
  }

  /** The loop stops at the first bomb that hits: what comes after it is
      never looked at. */
  lemma {:induction false} UpdatePassStopsAtBomb(s: seq<ItemV>, n: nat, px: int)
    requires n <= |s| && UpdatePass(s[..n], px).bombHit
    ensures UpdatePass(s, px) == UpdatePass(s[..n], px)
    decreases |s|
  {
    if n == |s| {
      assert s[..n] == s;
    } else {
      var t := s[..|s| - 1];
      assert t[..n] == s[..n];
      UpdatePassStopsAtBomb(t, n, px);
      assert s == t + [s[|s| - 1]];
      UpdatePassSnoc(t, s[|s| - 1], px);
    }
  }

  /** The moved items that survive, in their original order. */
  function Survivors(s: seq<ItemV>, px: int): seq<ItemV>
    decreases |s|
  {
    if s == [] then []
    else
      var it := Fall(s[|s| - 1]);
      Survivors(s[..|s| - 1], px) + (if Survives(it, px) then [it] else [])
  }

  /** How many of the moved items are fruits that hit the player. */
  function Catches(s: seq<ItemV>, px: int): nat
    decreases |s|
  {
    if s == [] then 0
    else Catches(s[..|s| - 1], px) + (if CatchesFruit(Fall(s[|s| - 1]), px) then 1 else 0)
  }

  /** The pass hits a bomb iff some moved item is an on-screen bomb touching
      the player. Without one it keeps exactly the survivors in order and
      catches every colliding fruit; with one it counts only the fruits caught
      before the first such bomb. */
  lemma UpdatePassMeaning(s: seq<ItemV>, px: int)
    ensures var p := UpdatePass(s, px);
      && (p.bombHit <==> exists k :: 0 <= k < |s| && HitsBomb(Fall(s[k]), px))
      && (!p.bombHit ==> p.kept == Survivors(s, px) && p.caught == Catches(s, px))
      && (p.bombHit ==> exists k :: 0 <= k < |s| && HitsBomb(Fall(s[k]), px) &&
                          p.caught == Catches(s[..k], px) &&
                          forall j :: 0 <= j < k ==> !HitsBomb(Fall(s[j]), px))
  {
    UpdatePassBombIff(s, px);
    UpdatePassWithoutBomb(s, px);
    UpdatePassFirstBomb(s, px);
  }

  lemma {:induction false} UpdatePassBombIff(s: seq<ItemV>, px: int)
    ensures UpdatePass(s, px).bombHit <==> exists k :: 0 <= k < |s| && HitsBomb(Fall(s[k]), px)
    decreases |s|
  {
    if s != [] {
      var init := s[..|s| - 1];
      UpdatePassBombIff(init, px);
      assert forall j :: 0 <= j < |init| ==> s[j] == init[j];
      assert s == init + [s[|s| - 1]];
      UpdatePassSnoc(init, s[|s| - 1], px);
    }
  }

  lemma {:induction false} UpdatePassWithoutBomb(s: seq<ItemV>, px: int)
    ensures var p := UpdatePass(s, px);
      !p.bombHit ==> p.kept == Survivors(s, px) && p.caught == Catches(s, px)
    decreases |s|
  {
    if s != [] {
      var init := s[..|s| - 1];
      UpdatePassWithoutBomb(init, px);
      assert s == init + [s[|s| - 1]];
      UpdatePassSnoc(init, s[|s| - 1], px);
    }
  }

  lemma {:induction false} UpdatePassFirstBomb(s: seq<ItemV>, px: int)
    ensures var p := UpdatePass(s, px);
      p.bombHit ==> exists k :: 0 <= k < |s| && HitsBomb(Fall(s[k]), px) &&
                      p.caught == Catches(s[..k], px) &&
                      forall j :: 0 <= j < k ==> !HitsBomb(Fall(s[j]), px)
    decreases |s|
  {
    if s != [] {
      var init := s[..|s| - 1];
      var last := s[|s| - 1];
      assert s == init + [last];
      UpdatePassSnoc(init, last, px);
      var p := UpdatePass(init, px);
      if p.bombHit {
        UpdatePassFirstBomb(init, px);
        var k :| 0 <= k < |init| && HitsBomb(Fall(init[k]), px) &&
                 p.caught == Catches(init[..k], px) &&
                 forall j :: 0 <= j < k ==> !HitsBomb(Fall(init[j]), px);
        assert init[..k] == s[..k] && s[k] == init[k];
        assert forall j :: 0 <= j < k ==> s[j] == init[j];
      } else if HitsBomb(Fall(last), px) {
        UpdatePassWithoutBomb(init, px);
        UpdatePassBombIff(init, px);
        assert s[..|s| - 1] == init;
        assert forall j :: 0 <= j < |init| ==> s[j] == init[j];
      }
    }
  }

  /** Every item that stays after a pass is on screen and clear of the player. */
  lemma {:induction false} SurvivorsAreOnScreen(s: seq<ItemV>, px: int)
    ensures forall k :: 0 <= k < |Survivors(s, px)| ==> Survives(Survivors(s, px)[k], px)
    decreases |s|
  {
    if s != [] {
      SurvivorsAreOnScreen(s[..|s| - 1], px);
    }
  }

  /** The result of one tick: the next world, the fruits caught, and
      whether a bomb hit (after which the next world is never used). */
  datatype TickResult = TickResult(next: World, caught: nat, bombHit: bool)

  /** One tick after the timer has advanced by `dt`: spawn check, the
      controller's gated move on the observed world, then the item pass. */
  function Tick(ctrl: Controller, rng: Rng, w: World, dt: int): (r: TickResult)
    ensures r.next.spawned == w.spawned || r.next.spawned == w.spawned + 1
    ensures r.caught + |r.next.items| <= |w.items| + (r.next.spawned - w.spawned)
  {
    var w1 := SpawnStep(w, dt, rng);
    var px := Act(w1.playerX, ctrl(Observe(w1)));
    var p := UpdatePass(w1.items, px);
    TickResult(World(px, p.kept, w1.timer, w1.spawned), p.caught, p.bombHit)
  }

  /** How a run ended, the ticks that started, the fruits caught, and the
      last world. */
  datatype Outcome = Outcome(ticks: nat, caught: nat, bombHit: bool, world: World)

  /** Where a training run stands between ticks: the world, the ticks
      that have started and the fruits caught so far. */
  datatype Run = Run(world: World, steps: nat, caught: nat)

  /** The training loop from the point `r` on. */
  function TrainFrom(ctrl: Controller, rng: Rng, r: Run): (o: Outcome)
    requires r.steps <= MAX_STEPS
    ensures r.steps <= o.ticks <= MAX_STEPS && r.caught <= o.caught
    ensures !o.bombHit ==> o.ticks == MAX_STEPS
    ensures o.bombHit ==> o.ticks > r.steps
    decreases MAX_STEPS - r.steps, 2
  {
    if r.steps == MAX_STEPS then Outcome(r.steps, r.caught, false, r.world)
    else Resume(ctrl, rng, r)
  }

  /** The training loop from `r` on, when it has not reached the step
      limit. A layer of its own, so that unfolding TrainFrom twice does not
      yet expose a whole tick. */
  function Resume(ctrl: Controller, rng: Rng, r: Run): (o: Outcome)
    requires r.steps < MAX_STEPS
    ensures r.steps < o.ticks <= MAX_STEPS && r.caught <= o.caught
    ensures !o.bombHit ==> o.ticks == MAX_STEPS
    decreases MAX_STEPS - r.steps, 1
  {
    NextTick(ctrl, rng, r)
  }

  /** The next tick of the training loop, then the rest of it. */
  function NextTick(ctrl: Controller, rng: Rng, r: Run): (o: Outcome)
    requires r.steps < MAX_STEPS
    ensures r.steps < o.ticks <= MAX_STEPS && r.caught <= o.caught
    ensures !o.bombHit ==> o.ticks == MAX_STEPS
    decreases MAX_STEPS - r.steps, 0
  {
    var t := Tick(ctrl, rng, r.world, TICK_MS);
    if t.bombHit then Outcome(r.steps + 1, r.caught + t.caught, true, t.next)
    else TrainFrom(ctrl, rng, Run(t.next, r.steps + 1, r.caught + t.caught))
  }

  /** One tick of the training loop: the rest of the run is the outcome on
      a bomb, else the rest of the run from the next tick. */
  lemma TrainFromTick(ctrl: Controller, rng: Rng, r: Run)
    requires r.steps < MAX_STEPS
    ensures var t := Tick(ctrl, rng, r.world, TICK_MS);
      TrainFrom(ctrl, rng, r) ==
        if t.bombHit then Outcome(r.steps + 1, r.caught + t.caught, true, t.next)
        else TrainFrom(ctrl, rng, Run(t.next, r.steps + 1, r.caught + t.caught))
  {
    assert TrainFrom(ctrl, rng, r) == Resume(ctrl, rng, r) == NextTick(ctrl, rng, r);
  }

  /** A tick that hits no bomb leaves the rest of the run to the next tick. */
  lemma TrainFromSafeTick(ctrl: Controller, rng: Rng, r: Run)
    requires r.steps < MAX_STEPS && !Tick(ctrl, rng, r.world, TICK_MS).bombHit
    ensures var t := Tick(ctrl, rng, r.world, TICK_MS);
      TrainFrom(ctrl, rng, r) == TrainFrom(ctrl, rng, Run(t.next, r.steps + 1, r.caught + t.caught))
  {
    TrainFromTick(ctrl, rng, r);
  }

  /** A tick that hits a bomb ends the run, with its fruits counted. */
  lemma TrainFromBombTick(ctrl: Controller, rng: Rng, r: Run)
    requires r.steps < MAX_STEPS && Tick(ctrl, rng, r.world, TICK_MS).bombHit
    ensures var t := Tick(ctrl, rng, r.world, TICK_MS);
      TrainFrom(ctrl, rng, r) == Outcome(r.steps + 1, r.caught + t.caught, true, t.next)
  {
    TrainFromTick(ctrl, rng, r);
  }

  function Train(ctrl: Controller, rng: Rng): Outcome {
    TrainFrom(ctrl, rng, Run(START, 0, 0))
  }

  /** The fitness a run earns, in tenths. */
  function Fitness(o: Outcome): int {
    o.ticks * TICK_FITNESS + o.caught * FRUIT_FITNESS - (if o.bombHit then BOMB_FITNESS else 0)
  }

  /** A tick adds its tick reward and the reward of the `c` fruits it
      catches, and takes off the bomb penalty if a bomb hit. */
  lemma FitnessAfterTick(steps: nat, caught: nat, c: nat, hit: bool, w: World, w': World)
    ensures Fitness(Outcome(steps + 1, caught + c, hit, w')) ==
            Fitness(Outcome(steps, caught, false, w)) + TICK_FITNESS + c * FRUIT_FITNESS
              - (if hit then BOMB_FITNESS else 0)
  {
  }

  /** The state between ticks: the player on screen, the timer below the
      spawn rate and in step with the tick count, every item on screen, and
      no more items caught or kept than were spawned. */
  ghost predicate Between(w: World, steps: nat, caught: nat) {
    && 0 <= w.playerX <= WIDTH - PLAYER_WIDTH
    && w.timer == TICK_MS * (steps % 32) && w.spawned == steps / 32
    && (forall k :: 0 <= k < |w.items| ==> 0 <= w.items[k].y <= HEIGHT)
    && caught + |w.items| <= w.spawned
  }

  /** A pass over on-screen items leaves on-screen items. */
  lemma KeptOnScreen(s: seq<ItemV>, px: int)
    requires forall k :: 0 <= k < |s| ==> 0 <= s[k].y
    ensures var p := UpdatePass(s, px);
            !p.bombHit ==> forall k :: 0 <= k < |p.kept| ==> 0 <= p.kept[k].y <= HEIGHT
  {
    UpdatePassMeaning(s, px);
    SurvivorsAreOnScreen(s, px);
    SurvivorsFall(s, px);
    var p := UpdatePass(s, px);
    if !p.bombHit {
      forall k | 0 <= k < |p.kept| ensures 0 <= p.kept[k].y <= HEIGHT {
        assert Survives(Survivors(s, px)[k], px);
      }
    }
  }

  lemma {:induction false} SurvivorsFall(s: seq<ItemV>, px: int)
    requires forall k :: 0 <= k < |s| ==> 0 <= s[k].y
    ensures forall k :: 0 <= k < |Survivors(s, px)| ==> 0 <= Survivors(s, px)[k].y
    decreases |s|
  {
    if s != [] {
      SurvivorsFall(s[..|s| - 1], px);
    }
  }

  /** One training tick keeps the between-ticks state; when a bomb hits, the
      player is still on screen and the timer and spawn count are on schedule. */
  lemma TickKeepsBetween(ctrl: Controller, rng: Rng, w: World, steps: nat, caught: nat)
    requires Between(w, steps, caught)
    ensures var t := Tick(ctrl, rng, w, TICK_MS);
      && 0 <= t.next.playerX <= WIDTH - PLAYER_WIDTH
      && t.next.timer == TICK_MS * ((steps + 1) % 32) && t.next.spawned == (steps + 1) / 32
      && caught + t.caught <= t.next.spawned
      && (!t.bombHit ==> Between(t.next, steps + 1, caught + t.caught))
  {
    var w1 := SpawnStep(w, TICK_MS, rng);
    SpawnCadence(w, rng, steps);
    var px := Act(w1.playerX, ctrl(Observe(w1)));
    assert forall k :: 0 <= k < |w1.items| ==> 0 <= w1.items[k].y;
    KeptOnScreen(w1.items, px);
  }

  /** Whatever the controller and the draws, a training run keeps the
      between-ticks state, spawns on schedule, and ends at the step limit
      unless a bomb hits; a bomb-hit world still has the player on screen. */
  lemma {:induction false} TrainKeepsInvariant(ctrl: Controller, rng: Rng, w: World, steps: nat, caught: nat)
    requires steps <= MAX_STEPS && Between(w, steps, caught)
    ensures var o := TrainFrom(ctrl, rng, Run(w, steps, caught));
      && 0 <= o.world.playerX <= WIDTH - PLAYER_WIDTH
      && o.world.timer == TICK_MS * (o.ticks % 32) && o.world.spawned == o.ticks / 32
      && (!o.bombHit ==> Between(o.world, o.ticks, o.caught))
      && o.caught <= o.world.spawned
    decreases MAX_STEPS - steps
  {
    if steps < MAX_STEPS {
      TickKeepsBetween(ctrl, rng, w, steps, caught);
      TrainFromTick(ctrl, rng, Run(w, steps, caught));
      var t := Tick(ctrl, rng, w, TICK_MS);
      if !t.bombHit {
        TrainKeepsInvariant(ctrl, rng, t.next, steps + 1, caught + t.caught);
      }
    }
  }

  /** Bounds on the fitness of every training run: at least -999.9, one
      tick's reward minus the bomb penalty, and at most 6400.0, every tick
      plus one fruit per spawn. Neither bound is reached: no bomb can hit
      before the first spawn has fallen, and the last spawn cannot be caught
      by tick 2000. */
  lemma TrainFitnessBounds(ctrl: Controller, rng: Rng)
    ensures var o := Train(ctrl, rng);
      && o.caught <= MAX_STEPS / 32
      && 1 - BOMB_FITNESS <= Fitness(o) <= MAX_STEPS + FRUIT_FITNESS * (MAX_STEPS / 32)
  {
    TrainKeepsInvariant(ctrl, rng, START, 0, 0);
    var o := Train(ctrl, rng);
    assert o.world.spawned == o.ticks / 32 <= MAX_STEPS / 32;
  }

  /** One frame of the interactive loop: its duration from the clock and
      whether a quit event was pending. */
  datatype Frame = Frame(dt: nat, quit: bool)

  /** Why the interactive loop stopped; the last reason only means the
      modelled frames ran out. */
  datatype Ending = UserQuit | BombHit | FramesExhausted

  /** The final score, why the session stopped, and the last world (for a
      bomb hit, the world the tick computed). */
  datatype PlayOutcome = PlayOutcome(score: int, ending: Ending, world: World)

  /** The interactive loop from frame `i` on: it stops when the frames run
      out, and otherwise goes on to that frame. */
  function PlayFrom(ctrl: Controller, rng: Rng, w: World, score: int, frames: seq<Frame>, i: nat): PlayOutcome
    requires i <= |frames|
    decreases |frames| - i, 2
  {
    if i == |frames| then PlayOutcome(score, FramesExhausted, w)
    else PlayFrame(ctrl, rng, w, score, frames, i)
  }

  /** Frame `i` of the interactive loop: a pending quit event ends it before
      anything moves, and otherwise the frame runs a tick. */
  function PlayFrame(ctrl: Controller, rng: Rng, w: World, score: int, frames: seq<Frame>, i: nat): PlayOutcome
    requires i < |frames|
    decreases |frames| - i, 1
  {
    if frames[i].quit then PlayOutcome(score, UserQuit, w)
    else PlayTickOf(ctrl, rng, w, score, frames, i)
  }

  /** The tick of frame `i`, +1 score per caught fruit, then the rest of
      the loop unless a bomb hit. */
  function PlayTickOf(ctrl: Controller, rng: Rng, w: World, score: int, frames: seq<Frame>, i: nat): PlayOutcome
    requires i < |frames|
    decreases |frames| - i, 0
  {
    var t := Tick(ctrl, rng, w, frames[i].dt);
    var score' := score + t.caught * FRUIT_SCORE_VALUE;
    if t.bombHit then PlayOutcome(score', BombHit, t.next)
    else PlayFrom(ctrl, rng, t.next, score', frames, i + 1)
  }

  /** One frame of the interactive loop, in one step. */
  lemma PlayFromFrame(ctrl: Controller, rng: Rng, w: World, score: int, frames: seq<Frame>, i: nat)
    requires i < |frames|
    ensures var t := Tick(ctrl, rng, w, frames[i].dt);
      PlayFrom(ctrl, rng, w, score, frames, i) ==
        if frames[i].quit then PlayOutcome(score, UserQuit, w)
        else if t.bombHit then PlayOutcome(score + t.caught * FRUIT_SCORE_VALUE, BombHit, t.next)
        else PlayFrom(ctrl, rng, t.next, score + t.caught * FRUIT_SCORE_VALUE, frames, i + 1)
  {
    assert PlayFrom(ctrl, rng, w, score, frames, i) == PlayFrame(ctrl, rng, w, score, frames, i);
    if !frames[i].quit {
      assert PlayFrame(ctrl, rng, w, score, frames, i) == PlayTickOf(ctrl, rng, w, score, frames, i);
    }
  }

  /** A frame without a quit event whose tick hits no bomb leaves the rest of
      the session to the next frame, from the ticked world and score. */
  lemma PlayFromSafeTick(ctrl: Controller, rng: Rng, w: World, score: int, frames: seq<Frame>, i: nat)
    requires i < |frames| && !frames[i].quit && !Tick(ctrl, rng, w, frames[i].dt).bombHit
    ensures var t := Tick(ctrl, rng, w, frames[i].dt);
      PlayFrom(ctrl, rng, w, score, frames, i) ==
        PlayFrom(ctrl, rng, t.next, score + t.caught * FRUIT_SCORE_VALUE, frames, i + 1)
  {
    PlayFromFrame(ctrl, rng, w, score, frames, i);
  }

  /** A frame without a quit event whose tick hits a bomb ends the session
      with the fruits of that tick counted. */
  lemma PlayFromBombTick(ctrl: Controller, rng: Rng, w: World, score: int, frames: seq<Frame>, i: nat)
    requires i < |frames| && !frames[i].quit && Tick(ctrl, rng, w, frames[i].dt).bombHit
    ensures var t := Tick(ctrl, rng, w, frames[i].dt);
      PlayFrom(ctrl, rng, w, score, frames, i) == PlayOutcome(score + t.caught * FRUIT_SCORE_VALUE, BombHit, t.next)
  {
    PlayFromFrame(ctrl, rng, w, score, frames, i);
  }

  function Play(ctrl: Controller, rng: Rng, frames: seq<Frame>): PlayOutcome {
    PlayFrom(ctrl, rng, START, 0, frames, 0)
  }

  /** The interactive score never falls, and the score plus the items still
      falling never exceeds the items spawned: each caught fruit was spawned
      and adds one, and a bomb takes nothing. The spawn count never falls. */
  lemma {:induction false} PlayScoreBounds(ctrl: Controller, rng: Rng, w: World, score: nat, frames: seq<Frame>, i: nat)
    requires i <= |frames| && score + |w.items| <= w.spawned
    ensures var o := PlayFrom(ctrl, rng, w, score, frames, i);
            score <= o.score && o.score + |o.world.items| <= o.world.spawned && w.spawned <= o.world.spawned
    decreases |frames| - i
  {
    if i < |frames| {
      PlayFromFrame(ctrl, rng, w, score, frames, i);
      if !frames[i].quit {
        var t := Tick(ctrl, rng, w, frames[i].dt);
        var score' := score + t.caught * FRUIT_SCORE_VALUE;
        assert score' + |t.next.items| <= t.next.spawned;
        if !t.bombHit {
          PlayScoreBounds(ctrl, rng, t.next, score', frames, i + 1);
        }
      }
    }
  }

  /** A whole session scores between zero and the number of items it spawned. */
  lemma PlayScoreAtMostSpawned(ctrl: Controller, rng: Rng, frames: seq<Frame>)
    ensures var o := Play(ctrl, rng, frames);
            0 <= o.score <= o.world.spawned
  {
    PlayScoreBounds(ctrl, rng, START, 0, frames, 0);
  }

  /** A fruit that lands at (360, 560) next to a player at x = 350 is caught. */
  lemma FruitCaughtExample(vel: Velocity)
    ensures UpdatePass([ItemV(Fruit, 360, 560 - vel, vel)], 350) == Pass([], 1, false)
  {
    assert UpdatePassN([ItemV(Fruit, 360, 560 - vel, vel)], 0, 350) == Pass([], 0, false);
  }

  /** A bomb that lands on the player reports a hit and catches nothing. */
  lemma BombHitExample(vel: Velocity)
    ensures UpdatePass([ItemV(Bomb, 360, 560 - vel, vel)], 350) == Pass([], 0, true)
  {
    assert [ItemV(Bomb, 360, 560 - vel, vel)][..0] == [];
  }
}
