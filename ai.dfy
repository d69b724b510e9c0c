/** The imperative loops of the trainer and player: the item pass, one
    training evaluation, the interactive loop driven by a trained network,
    and the order-preserving assignment of fitness results to genomes. Each
    is proved to compute what module Episode specifies. */
module AI {
  import opened Wrappers
  import opened Game
  import opened Episode

  /** list.remove on a list of objects: drop the first element that is `x`. */
  function RemoveFirst(s: seq<Item>, x: Item): (r: seq<Item>)
    ensures x in s ==> |r| == |s| - 1
    ensures x !in s ==> r == s
  {
    if s == [] then []
    else if s[0] == x then s[1..]
    else [s[0]] + RemoveFirst(s[1..], x)
  }

  lemma {:induction false} RemoveFirstAt(k: seq<Item>, x: Item, rest: seq<Item>)
    requires x !in k
    ensures RemoveFirst(k + [x] + rest, x) == k + rest
  {
    var s := k + [x] + rest;
    if k == [] {
      assert s[0] == x && s[1..] == rest;
    } else {
      assert s[0] == k[0] != x;
      assert s[1..] == k[1..] + [x] + rest;
      RemoveFirstAt(k[1..], x, rest);
      assert k == [k[0]] + k[1..];
    }
  }

  /** `r` is `s` without its j-th element. */
  ghost predicate RemovedAt(s: seq<Item>, r: seq<Item>, j: nat) {
    && j < |s| && |r| == |s| - 1
    && (forall k {:trigger r[k]} :: 0 <= k < j ==> r[k] == s[k])
    && (forall k {:trigger r[k]} :: j <= k < |r| ==> r[k] == s[k + 1])
  }

  /** list.remove takes out the j-th element when it does not occur earlier. */
  lemma RemoveFirstIndex(s: seq<Item>, j: nat)
    requires j < |s| && s[j] !in s[..j]
    ensures RemovedAt(s, RemoveFirst(s, s[j]), j)
  {
    assert s == s[..j] + [s[j]] + s[j + 1..];
    RemoveFirstAt(s[..j], s[j], s[j + 1..]);
    var r := s[..j] + s[j + 1..];
    forall k | 0 <= k < j ensures r[k] == s[k] { }
    forall k | j <= k < |r| ensures r[k] == s[k + 1] { }
  }

  /** Where the item loop stands after its first i items, when `before`
      holds the values the snapshot had when the loop began: `items`, the
      live list, is the kept objects, at snapshot positions `idx` in
      increasing order, followed by the snapshot items not yet visited; the
      pass over the first i values has met no bomb, caught `caught` fruit
      and kept the moved values of exactly the objects at `idx`. */
  ghost predicate Tracks(items: seq<Item>, idx: seq<nat>, caught: nat,
                         snapshot: seq<Item>, before: seq<ItemV>, i: nat, px: int)
  {
    && i <= |snapshot| == |before|
    && |items| == |idx| + |snapshot| - i
    && (forall k :: 0 <= k < |idx| ==> idx[k] < i && items[k] == snapshot[idx[k]])
    && (forall k {:trigger items[k]} :: |idx| <= k < |items| ==> items[k] == snapshot[k - |idx| + i])
    && (forall k, l :: 0 <= k < l < |idx| ==> idx[k] < idx[l])
    && var p := UpdatePass(before[..i], px);
       && !p.bombHit && caught == p.caught && |p.kept| == |idx|
       && (forall k :: 0 <= k < |idx| ==> p.kept[k] == Fall(before[idx[k]]))
  }

  /** The next snapshot item is the first live item after the kept ones,
      and it does not occur among them. */
  lemma TracksFront(items: seq<Item>, idx: seq<nat>, caught: nat,
                    snapshot: seq<Item>, before: seq<ItemV>, i: nat, px: int)
    requires Distinct(snapshot) && i < |snapshot|
    requires Tracks(items, idx, caught, snapshot, before, i, px)
    ensures |idx| < |items| && items[|idx|] == snapshot[i] && snapshot[i] !in items[..|idx|]
  {
    var j := |idx|;
    assert items[j] == snapshot[i];
    forall k | 0 <= k < j ensures items[k] != snapshot[i] {
      assert items[k] == snapshot[idx[k]] && idx[k] < i;
      assert Apart(snapshot, idx[k], i);
    }
  }

  /** A fallen item or a caught fruit leaves the list, and Tracks holds for
      one more item. */
  lemma TracksDrop(items: seq<Item>, r: seq<Item>, idx: seq<nat>, caught: nat,
                   snapshot: seq<Item>, before: seq<ItemV>, i: nat, px: int)
    requires i < |snapshot|
    requires Tracks(items, idx, caught, snapshot, before, i, px)
    requires OffScreen(Fall(before[i])) || CatchesFruit(Fall(before[i]), px)
    requires RemovedAt(items, r, |idx|)
    ensures Tracks(r, idx, if OffScreen(Fall(before[i])) then caught else caught + 1,
                   snapshot, before, i + 1, px)
  {
    var j := |idx|;
    assert before[..i + 1] == before[..i] + [before[i]];
    UpdatePassSnoc(before[..i], before[i], px);
    forall k | j <= k < |r| ensures r[k] == snapshot[k - j + i + 1] {
      assert r[k] == items[k + 1];
    }
  }

  /** An item that neither fell nor touched the player stays in the list,
      and Tracks holds for one more item. */
  lemma TracksKeep(items: seq<Item>, idx: seq<nat>, caught: nat,
                   snapshot: seq<Item>, before: seq<ItemV>, i: nat, px: int)
    requires i < |snapshot|
    requires Tracks(items, idx, caught, snapshot, before, i, px)
    requires Survives(Fall(before[i]), px)
    ensures Tracks(items, idx + [i], caught, snapshot, before, i + 1, px)
  {
    assert before[..i + 1] == before[..i] + [before[i]];
    UpdatePassSnoc(before[..i], before[i], px);
  }

  /** A bomb that hits at the i-th item ends the pass: the whole pass reports
      the hit and the fruit caught before it. */
  lemma TracksBomb(items: seq<Item>, idx: seq<nat>, caught: nat,
                   snapshot: seq<Item>, before: seq<ItemV>, i: nat, px: int)
    requires i < |snapshot| && Tracks(items, idx, caught, snapshot, before, i, px)
    requires HitsBomb(Fall(before[i]), px)
    ensures UpdatePass(before, px).bombHit && UpdatePass(before, px).caught == caught
  {
    assert before[..i + 1] == before[..i] + [before[i]];
    UpdatePassSnoc(before[..i], before[i], px);
    UpdatePassStopsAtBomb(before, i + 1, px);
  }

  /** When the loop has visited every item and each holds its moved value,
      the live list holds exactly the kept objects, which are distinct and
      come from the snapshot, and the pass met no bomb. */
  lemma TracksDone(items: seq<Item>, idx: seq<nat>, caught: nat,
                   snapshot: seq<Item>, before: seq<ItemV>, px: int)
    requires Distinct(snapshot) && Tracks(items, idx, caught, snapshot, before, |snapshot|, px)
    requires forall k :: 0 <= k < |snapshot| ==> snapshot[k].View() == Fall(before[k])
    ensures var p := UpdatePass(before, px); !p.bombHit && caught == p.caught && Views(items) == p.kept
    ensures Distinct(items) && forall k :: 0 <= k < |items| ==> items[k] in snapshot
  {
    assert before[..|snapshot|] == before;
    var kept := UpdatePass(before, px).kept;
    forall k | 0 <= k < |items| ensures items[k].View() == kept[k] {
      assert items[k] == snapshot[idx[k]];
    }
    forall k, l | 0 <= k < l < |items| ensures Apart(items, k, l) {
      assert items[k] == snapshot[idx[k]] && items[l] == snapshot[idx[l]] && idx[k] < idx[l];
      assert Apart(snapshot, idx[k], idx[l]);
    }
    forall k | 0 <= k < |items| ensures items[k] in snapshot {
      assert snapshot[idx[k]] == items[k];
    }
  }

  /** The body of the item loop for one item: move it; drop it if it fell
      past the bottom; otherwise, if it touches the player, report a bomb or
      drop and count a fruit. The ghost parameters say where the loop stands
      (see Tracks); the item is the i-th of the snapshot, and the new count
      and kept positions are returned. */
  method HandleItem(game: GameState, item: Item, caught: nat, ghost idx: seq<nat>,
                    ghost snapshot: seq<Item>, ghost before: seq<ItemV>, ghost i: nat, ghost px: int)
      returns (caught': nat, bombHit: bool, ghost idx': seq<nat>)
    requires game.player.y == START_Y && game.player.width == PLAYER_WIDTH && game.player.height == PLAYER_HEIGHT
    requires game.player.x == px && Distinct(snapshot)
    requires i < |snapshot| == |before| && item == snapshot[i]
    requires forall k :: 0 <= k < i ==> snapshot[k].View() == Fall(before[k])
    requires forall k :: i <= k < |snapshot| ==> snapshot[k].View() == before[k]
    requires Tracks(game.items, idx, caught, snapshot, before, i, px)
    modifies game, item
    ensures forall k :: 0 <= k < i + 1 ==> snapshot[k].View() == Fall(before[k])
    ensures forall k :: i + 1 <= k < |snapshot| ==> snapshot[k].View() == before[k]
    ensures bombHit ==> UpdatePass(before, px).bombHit && UpdatePass(before, px).caught == caught'
    ensures !bombHit ==> Tracks(game.items, idx', caught', snapshot, before, i + 1, px)
    ensures game.player.x == px
    ensures game.score == old(game.score) && game.fruitSpawnTimer == old(game.fruitSpawnTimer)
  {
    TracksFront(game.items, idx, caught, snapshot, before, i, px);
    ghost var items := game.items;
    forall k | 0 <= k < |snapshot| && k != i ensures snapshot[k] != item {
      if k < i {
        assert Apart(snapshot, k, i);
      } else {
        assert Apart(snapshot, i, k);
      }
    }
    item.Move();
    assert item.View() == Fall(before[i]);
    assert forall k :: 0 <= k < i + 1 ==> snapshot[k].View() == Fall(before[k]);
    assert forall k :: i + 1 <= k < |snapshot| ==> snapshot[k].View() == before[k];
    caught', bombHit, idx' := caught, false, idx;
    if item.y > HEIGHT {
      RemoveFirstIndex(game.items, |idx|);
      game.items := RemoveFirst(game.items, item);
      TracksDrop(items, game.items, idx, caught, snapshot, before, i, px);
    } else if item.CollidesWith(game.player) {
      if item.kind == Bomb {
        TracksBomb(items, idx, caught, snapshot, before, i, px);
        bombHit := true;
        return;
      }
      RemoveFirstIndex(game.items, |idx|);
      game.items := RemoveFirst(game.items, item);
      TracksDrop(items, game.items, idx, caught, snapshot, before, i, px);
      caught' := caught + 1;
    } else {
      TracksKeep(items, idx, caught, snapshot, before, i, px);
      idx' := idx + [i];
    }
  }

  /** One pass over a snapshot of the item list: move each item; remove it
      if it fell past the bottom; otherwise, if it touches the player, stop
      at a bomb or remove a fruit and count it. */
  method UpdateItems(game: GameState) returns (caught: nat, bombHit: bool)
    requires game.Valid()
    modifies game, game.items
    ensures game.score == old(game.score) && game.fruitSpawnTimer == old(game.fruitSpawnTimer)
    ensures game.player.x == old(game.player.x)
    ensures var p := UpdatePass(old(Views(game.items)), old(game.player.x));
            caught == p.caught && bombHit == p.bombHit && (!bombHit ==> Views(game.items) == p.kept)
    ensures !bombHit ==> game.Valid() && forall k :: 0 <= k < |game.items| ==> game.items[k] in old(game.items)
  {
    var snapshot := game.items;
    ghost var before := Views(snapshot);
    ghost var px := game.player.x;
    ghost var idx: seq<nat> := [];
    assert Distinct(snapshot);
    caught, bombHit := 0, false;
    for i := 0 to |snapshot|
      invariant game.player.x == px
      invariant game.score == old(game.score) && game.fruitSpawnTimer == old(game.fruitSpawnTimer)
      invariant forall k :: 0 <= k < i ==> snapshot[k].View() == Fall(before[k])
      invariant forall k :: i <= k < |snapshot| ==> snapshot[k].View() == before[k]
      invariant Tracks(game.items, idx, caught, snapshot, before, i, px)
    {
      caught, bombHit, idx := HandleItem(game, snapshot[i], caught, idx, snapshot, before, i, px);
      if bombHit {
        return;
      }
    }
    TracksDone(game.items, idx, caught, snapshot, before, px);
  }

  /** The value of an optional object. */
  function ViewOf(o: Option<Item>): Option<ItemV>
    reads if o.Some? then {o.value} else {}
  {
    if o.Some? then Some(o.value.View()) else None
  }

  /** The object get_nearest_items returns has the value the pure search picks. */
  lemma ViewOfItemAt(s: seq<Item>, k: Option<nat>)
    ensures ViewOf(ItemAt(s, k)) == Pick(Views(s), k)
  {
  }

  /** Appending an object appends its value. */
  lemma ViewsSnoc(s: seq<Item>, it: Item)
    ensures Views(s + [it]) == Views(s) + [it.View()]
  {
    var l, r := Views(s + [it]), Views(s) + [it.View()];
    assert |l| == |r|;
    forall k | 0 <= k < |l| ensures l[k] == r[k] {
      if k < |s| {
        assert (s + [it])[k] == s[k];
      }
    }
  }

  /** The game as a value, with the number of spawns so far. */
  function WorldOf(game: GameState, spawned: nat): World
    reads game, game.player, game.items
  {
    World(game.player.x, Views(game.items), game.fruitSpawnTimer, spawned)
  }

  /** items.append(spawn_item()) and the timer reset: a fresh item for the
      draw `d` joins the end of the list and the spawn timer restarts. */
  method SpawnAndReset(game: GameState, d: Draw)
    requires game.Valid()
    modifies game
    ensures game.Valid() && Views(game.items) == old(Views(game.items)) + [Spawn(d, game.player.x)]
    ensures game.score == old(game.score) && game.fruitSpawnTimer == 0
    ensures forall k :: 0 <= k < |game.items| ==> game.items[k] in old(game.items) || fresh(game.items[k])
  {
    var it := game.SpawnItem(d);
    ViewsSnoc(game.items, it);
    DistinctSnoc(game.items, it);
    game.items := game.items + [it];
    game.fruitSpawnTimer := 0;
  }

  /** The spawn check of one tick from the world `w`: advance the timer by
      `dt`; on reaching the spawn rate, append an item made from the next
      draws and reset the timer. */
  method SpawnPhase(game: GameState, rng: Rng, spawned: nat, ghost w: World, dt: int)
      returns (spawned': nat)
    requires game.Valid() && WorldOf(game, spawned) == w
    modifies game
    ensures game.Valid() && WorldOf(game, spawned') == SpawnStep(w, dt, rng)
    ensures game.score == old(game.score)
    ensures forall k :: 0 <= k < |game.items| ==> game.items[k] in old(game.items) || fresh(game.items[k])
  {
    game.fruitSpawnTimer := game.fruitSpawnTimer + dt;
    assert Views(game.items) == w.items;
    spawned' := spawned;
    if game.fruitSpawnTimer >= game.fruitSpawnRate {
      SpawnAndReset(game, rng(spawned));
      spawned' := spawned + 1;
    }
  }

  /** The network's decision on the nearest fruit and bomb, and the gated move. */
  method DecidePhase(game: GameState, ctrl: Controller, ghost w: World)
    requires game.Valid() && WorldOf(game, w.spawned) == w
    modifies game.player
    ensures game.Valid() && WorldOf(game, w.spawned) == w.(playerX := Act(w.playerX, ctrl(Observe(w))))
  {
    var fruit, bomb := game.GetNearestItems();
    ViewOfItemAt(game.items, Nearest(w.items, Fruit, w.playerX, START_Y));
    ViewOfItemAt(game.items, Nearest(w.items, Bomb, w.playerX, START_Y));
    var out := ctrl(Observation(game.player.x, ViewOf(fruit), ViewOf(bomb)));
    assert out == ctrl(Observe(w));
    if out.act > 0.5 {
      game.player.Move(out.move >= 0.5);
    }
  }

  /** One tick of either loop once the timer has advanced by `dt` from the
      world `w`: the spawn check with the next draws, the network's gated
      move on the nearest fruit and bomb, and the item pass. */
  method Step(game: GameState, ctrl: Controller, rng: Rng, spawned: nat, ghost w: World, dt: int)
      returns (spawned': nat, caught: nat, bombHit: bool)
    requires game.Valid() && WorldOf(game, spawned) == w
    modifies game, game.player, game.items
    ensures var t := Tick(ctrl, rng, w, dt);
            && spawned' == t.next.spawned && caught == t.caught && bombHit == t.bombHit
            && (!bombHit ==> game.Valid() && WorldOf(game, spawned') == t.next)
    ensures game.score == old(game.score)
    ensures !bombHit ==> forall k :: 0 <= k < |game.items| ==> game.items[k] in old(game.items) || fresh(game.items[k])
  {
    ghost var w1 := SpawnStep(w, dt, rng);
    spawned' := SpawnPhase(game, rng, spawned, w, dt);
    ghost var items := game.items;
    DecidePhase(game, ctrl, w1);
    assert game.items == items;
    ghost var px := Act(w1.playerX, ctrl(Observe(w1)));
    ghost var p := UpdatePass(w1.items, px);
    caught, bombHit := UpdateItems(game);
    assert Tick(ctrl, rng, w, dt) == TickResult(World(px, p.kept, w1.timer, w1.spawned), p.caught, p.bombHit);
  }

  /** The training loop's state matches the run after `steps` ticks with
      `caught` fruits: the fitness so far is theirs, and the rest of the run
      from the game's present world ends as the whole run does. */
  ghost predicate Training(game: GameState, net: Controller, rng: Rng, spawned: nat, fitness: int,
                           steps: nat, caught: nat)
    reads game, game.player, game.items
  {
    && steps <= MAX_STEPS && game.Valid()
    && fitness == Fitness(Outcome(steps, caught, false, START))
    && TrainFrom(net, rng, Run(WorldOf(game, spawned), steps, caught)) == Train(net, rng)
  }

  /** One tick of the training loop. */
  method TrainTick(game: GameState, net: Controller, rng: Rng, spawned: nat, fitness: int,
                   ghost steps: nat, ghost caught: nat)
      returns (spawned': nat, fitness': int, hit: bool, ghost caught': nat)
    requires steps < MAX_STEPS && Training(game, net, rng, spawned, fitness, steps, caught)
    modifies game, game.player, game.items
    ensures hit ==> fitness' == Fitness(Train(net, rng))
    ensures !hit ==> Training(game, net, rng, spawned', fitness', steps + 1, caught')
    ensures !hit ==> forall k :: 0 <= k < |game.items| ==> game.items[k] in old(game.items) || fresh(game.items[k])
  {
    ghost var w := WorldOf(game, spawned);
    ghost var t := Tick(net, rng, w, TICK_MS);
    if t.bombHit {
      TrainFromBombTick(net, rng, Run(w, steps, caught));
    } else {
      TrainFromSafeTick(net, rng, Run(w, steps, caught));
    }
    var c;
    spawned', c, hit := Step(game, net, rng, spawned, w, TICK_MS);
    FitnessAfterTick(steps, caught, c, hit, START, START);
    fitness' := fitness + TICK_FITNESS + c * FRUIT_FITNESS;
    if hit {
      fitness' := fitness' - BOMB_FITNESS;
    }
    caught' := caught + c;
  }

  /** eval_genome_parallel: up to MAX_STEPS ticks of 16 ms in a fresh game,
      0.1 per tick, 100 per caught fruit, and a return with 1000 taken off
      on the first bomb hit; fitness is in tenths. */
  method EvalGenome(net: Controller, rng: Rng) returns (fitness: int)
    ensures fitness == Fitness(Train(net, rng))
  {
    var game := new GameState();
    var spawned: nat := 0;
    ghost var caught: nat := 0;
    fitness := 0;
    assert WorldOf(game, spawned) == START;
    for steps := 0 to MAX_STEPS
      invariant Training(game, net, rng, spawned, fitness, steps, caught)
      invariant fresh(game) && fresh(game.player) && forall k :: 0 <= k < |game.items| ==> fresh(game.items[k])
    {
      var hit;
      spawned, fitness, hit, caught := TrainTick(game, net, rng, spawned, fitness, steps, caught);
      if hit {
        return;
      }
    }
  }

  /** The interactive loop's state matches the session before frame `f`:
      the rest of the session from the game's present world and score ends
      as the whole session does. */
  ghost predicate Playing(game: GameState, net: Controller, rng: Rng, spawned: nat, frames: seq<Frame>, f: nat)
    reads game, game.player, game.items
  {
    && f <= |frames| && game.Valid()
    && PlayFrom(net, rng, WorldOf(game, spawned), game.score, frames, f) == Play(net, rng, frames)
  }

  /** The tick of frame `f` of the interactive loop, which has no quit event. */
  method PlayTick(game: GameState, net: Controller, rng: Rng, spawned: nat, frames: seq<Frame>, f: nat)
      returns (spawned': nat, hit: bool)
    requires f < |frames| && !frames[f].quit && Playing(game, net, rng, spawned, frames, f)
    modifies game, game.player, game.items
    ensures hit ==> Play(net, rng, frames).score == game.score && Play(net, rng, frames).ending == BombHit
    ensures !hit ==> Playing(game, net, rng, spawned', frames, f + 1)
    ensures !hit ==> forall k :: 0 <= k < |game.items| ==> game.items[k] in old(game.items) || fresh(game.items[k])
  {
    ghost var w := WorldOf(game, spawned);
    if Tick(net, rng, w, frames[f].dt).bombHit {
      PlayFromBombTick(net, rng, w, game.score, frames, f);
    } else {
      PlayFromSafeTick(net, rng, w, game.score, frames, f);
    }
    var c;
    spawned', c, hit := Step(game, net, rng, spawned, w, frames[f].dt);
    AddScore(game, spawned', c * FRUIT_SCORE_VALUE);
  }

  /** Adds `n` points to the score and changes nothing else. */
  method AddScore(game: GameState, ghost spawned: nat, n: int)
    modifies game
    ensures game.score == old(game.score) + n
    ensures game.items == old(game.items) && WorldOf(game, spawned) == old(WorldOf(game, spawned))
    ensures old(game.Valid()) ==> game.Valid()
  {
    ghost var items := Views(game.items);
    game.score := game.score + n;
    assert Views(game.items) == items;
  }

  /** play_winner over the given frames: each frame stops on a quit event,
      and otherwise advances the timer by its duration and runs one tick,
      adding one point per caught fruit and stopping on a bomb hit. */
  method PlayWinner(net: Controller, rng: Rng, frames: seq<Frame>) returns (score: int, ending: Ending)
    ensures score == Play(net, rng, frames).score && ending == Play(net, rng, frames).ending
  {
    var game := new GameState();
    var spawned: nat := 0;
    assert WorldOf(game, spawned) == START;
    for f := 0 to |frames|
      invariant Playing(game, net, rng, spawned, frames, f)
      invariant fresh(game) && fresh(game.player) && forall k :: 0 <= k < |game.items| ==> fresh(game.items[k])
    {
      if frames[f].quit {
        PlayFromFrame(net, rng, WorldOf(game, spawned), game.score, frames, f);
        return game.score, UserQuit;
      }
      var hit;
      spawned, hit := PlayTick(game, net, rng, spawned, frames, f);
      if hit {
        return game.score, BombHit;
      }
    }
    return game.score, FramesExhausted;
  }

  /** A genome as the evaluator sees it: the network built from it and the
      fitness slot the evaluation fills in. */
  class Genome {
    const net: Controller
    var fitness: Option<int>

    constructor (net0: Controller)
      ensures net == net0 && fitness == None
    {
      net := net0;
      fitness := None;
    }
  }

  /** ParallelEvaluator.evaluate: the k-th job runs on its own random
      stream; results come back in job order and are assigned by position,
      so a genome listed more than once keeps the result of its last entry. */
  method Evaluate(genomes: seq<(int, Genome)>, rngs: nat -> Rng)
    modifies set k | 0 <= k < |genomes| :: genomes[k].1
    ensures forall k :: 0 <= k < |genomes| && (forall l :: k < l < |genomes| ==> genomes[l].1 != genomes[k].1) ==>
              genomes[k].1.fitness == Some(Fitness(Train(genomes[k].1.net, rngs(k))))
  {
    var jobs: seq<(int, Genome)> := [];
    for i := 0 to |genomes|
      invariant jobs == genomes[..i]
    {
      jobs := jobs + [genomes[i]];
    }
    ghost var expected := seq(|jobs|, k requires 0 <= k < |jobs| => Fitness(Train(jobs[k].1.net, rngs(k))));
    var results: seq<int> := [];
    for i := 0 to |jobs|
      invariant results == expected[..i]
    {
      var f := EvalGenome(jobs[i].1.net, rngs(i));
      assert expected[..i + 1] == expected[..i] + [f];
      results := results + [f];
    }
    for i := 0 to |jobs|
      invariant forall k :: 0 <= k < i && (forall l :: k < l < i ==> jobs[l].1 != jobs[k].1) ==>
                  jobs[k].1.fitness == Some(results[k])
    {
      jobs[i].1.fitness := Some(results[i]);
    }
  }
}
