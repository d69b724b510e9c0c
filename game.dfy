/** The world of the game: configuration constants, boxes and their collision
    test, the player and the falling items (as values and as the mutable
    objects the game updates in place), spawning, and nearest-item search. */
module Game {
  import opened Wrappers

  // GameConfig and the class constants of Player, Fruit and Bomb.
  const WIDTH: int := 800
  const HEIGHT: int := 600
  const PLAYER_WIDTH: int := 100
  const PLAYER_HEIGHT: int := 100
  const ITEM_WIDTH: int := 30
  const ITEM_HEIGHT: int := 30
  const SPEED: int := 10
  const SPAWN_RATE: int := 500
  const FRUIT_SCORE_VALUE: int := 1
  const FRUIT_FITNESS_REWARD: int := 100
  const BOMB_FITNESS_PENALTY: int := 1000
  /** Where a fresh game puts the player: centred, standing on the bottom edge. */
  const START_X: int := (WIDTH - PLAYER_WIDTH) / 2
  const START_Y: int := HEIGHT - PLAYER_HEIGHT
  /** A spawn draw below this makes a fruit, otherwise a bomb. */
  const FRUIT_CHANCE: real := 0.8

  /** The result of random.randint(4, 10) drawn for every new item. */
  type Velocity = v: int | 4 <= v <= 10 witness 4
  /** The result of random.random(). */
  type UnitDraw = u: real | 0.0 <= u < 1.0 witness 0.0
  /** The result of random.randint(0, WIDTH - 30) for a fruit's x. */
  type FruitX = x: int | 0 <= x <= WIDTH - ITEM_WIDTH witness 0

  /** The random numbers one spawn consumes. A bomb does not use `x`. */
  datatype Draw = Draw(u: UnitDraw, x: FruitX, vel: Velocity)

  datatype Kind = Fruit | Bomb

  /** The position and size of a game object. */
  datatype Box = Box(x: int, y: int, width: int, height: int)

  /** Axis-aligned overlap with all four comparisons strict. */
  predicate Collides(a: Box, b: Box) {
    a.x < b.x + b.width &&
    a.x + a.width > b.x &&
    a.y < b.y + b.height &&
    a.y + a.height > b.y
  }

  /** The unit pixel whose top-left corner is (x, y) lies inside box `a`. */
  predicate Covers(a: Box, x: int, y: int) {
    a.x <= x < a.x + a.width && a.y <= y < a.y + a.height
  }

  lemma CollidesSymmetric(a: Box, b: Box)
    ensures Collides(a, b) == Collides(b, a)
  {
  }

  /** Boxes that only touch along an edge do not collide. */
  lemma TouchingBoxesDoNotCollide(a: Box, b: Box)
    requires a.x + a.width == b.x || b.x + b.width == a.x ||
             a.y + a.height == b.y || b.y + b.height == a.y
    ensures !Collides(a, b)
  {
  }

  /** Two boxes collide exactly when some pixel lies inside both. */
  lemma CollidesIffSharedPixel(a: Box, b: Box)
    requires a.width > 0 && a.height > 0 && b.width > 0 && b.height > 0
    ensures Collides(a, b) <==> exists x, y :: Covers(a, x, y) && Covers(b, x, y)
  {
    if Collides(a, b) {
      var x := if a.x < b.x then b.x else a.x;
      var y := if a.y < b.y then b.y else a.y;
      assert Covers(a, x, y) && Covers(b, x, y);
    }
  }

  function Min(a: int, b: int): int { if a < b then a else b }

  function Max(a: int, b: int): int { if a < b then b else a }

  /** The player's x after Player.move: a step of SPEED, then clamped to the screen. */
  function MovedX(x: int, right: bool, width: int): (r: int)
    ensures 0 <= r
    ensures width <= WIDTH ==> r <= WIDTH - width
    ensures var stepped := if right then x + SPEED else x - SPEED;
            0 <= stepped <= WIDTH - width ==> r == stepped
    ensures r == x ==> x <= 0 || WIDTH - width <= x
    ensures right && x < WIDTH - width ==> r > x
    ensures !right && 0 < x && x <= WIDTH - width ==> r < x
  {
    var stepped := x + (if right then SPEED else -SPEED);
    Max(0, Min(stepped, WIDTH - width))
  }

  /** Five right moves from the start position reach x = 400. */
  lemma FiveRightMovesFromStart()
    ensures MovedX(MovedX(MovedX(MovedX(MovedX(START_X, true, PLAYER_WIDTH),
              true, PLAYER_WIDTH), true, PLAYER_WIDTH), true, PLAYER_WIDTH), true, PLAYER_WIDTH) == 400
  {
  }

  /** A falling item as a value: kind, position and per-tick velocity. Its
      size is always ITEM_WIDTH by ITEM_HEIGHT. */
  datatype ItemV = ItemV(kind: Kind, x: int, y: int, yVel: Velocity)

  function ItemBox(it: ItemV): Box {
    Box(it.x, it.y, ITEM_WIDTH, ITEM_HEIGHT)
  }

  /** The player's box; only x ever changes during a game. */
  function PlayerBox(x: int): Box {
    Box(x, START_Y, PLAYER_WIDTH, PLAYER_HEIGHT)
  }

  /** The item after Item.move. */
  function Fall(it: ItemV): ItemV {
    it.(y := it.y + it.yVel)
  }

  /** A fall moves an item down by between 4 and 10 and changes nothing else. */
  lemma FallMovesDown(it: ItemV)
    ensures 4 <= Fall(it).y - it.y <= 10
    ensures Fall(it).y - it.y == it.yVel
    ensures Fall(it).kind == it.kind && Fall(it).x == it.x && Fall(it).yVel == it.yVel
  {
  }

  /** The item GameState.spawn_item makes from one draw while the player is at `playerX`. */
  function Spawn(d: Draw, playerX: int): (r: ItemV)
    ensures r.y == 0 && r.yVel == d.vel
    ensures r.kind == Fruit <==> d.u < FRUIT_CHANCE
    ensures r.kind == Fruit ==> r.x == d.x && 0 <= r.x <= WIDTH - ITEM_WIDTH
    ensures r.kind == Bomb ==> r.x == playerX
  {
    if d.u < FRUIT_CHANCE then ItemV(Fruit, d.x, 0, d.vel)
    else ItemV(Bomb, playerX, 0, d.vel)
  }

  /** Squared distance from the item's corner to the player's corner; it
      orders items as the source's Euclidean distance does. */
  function Dist2(it: ItemV, px: int, py: int): nat {
    (it.x - px) * (it.x - px) + (it.y - py) * (it.y - py)
  }

  /** The index get_nearest_items settles on for `kind`: a running minimum
      over the items in order, replaced only by a strictly smaller distance. */
  function Nearest(s: seq<ItemV>, kind: Kind, px: int, py: int): (r: Option<nat>)
    ensures r.Some? ==> r.value < |s| && s[r.value].kind == kind
  {
    NearestN(s, |s|, kind, px, py)
  }
  /** The same search over the first `n` items. */
  function NearestN(s: seq<ItemV>, n: nat, kind: Kind, px: int, py: int): (r: Option<nat>)
    requires n <= |s|
    ensures r.Some? ==> r.value < n && s[r.value].kind == kind
  {
    if n == 0 then None
    else
      var best := NearestN(s, n - 1, kind, px, py);
      if s[n - 1].kind == kind &&
         (best.None? || Dist2(s[n - 1], px, py) < Dist2(s[best.value], px, py))
      then Some(n - 1)
      else best
  }

  /** get_nearest_items finds nothing exactly when no item has the kind;
      otherwise an item of that kind at least as close as every other, and
      strictly closer than every one before it. */
  lemma NearestIsFirstMinimum(s: seq<ItemV>, kind: Kind, px: int, py: int)
    ensures var r := Nearest(s, kind, px, py);
      && (r.None? <==> forall j :: 0 <= j < |s| ==> s[j].kind != kind)
      && (r.Some? ==> forall j :: 0 <= j < |s| && s[j].kind == kind ==>
            Dist2(s[r.value], px, py) <= Dist2(s[j], px, py))
      && (r.Some? ==> forall j :: 0 <= j < r.value && s[j].kind == kind ==>
            Dist2(s[r.value], px, py) < Dist2(s[j], px, py))
  {
    NearestNIsFirstMinimum(s, |s|, kind, px, py);
  }

  /** NearestIsFirstMinimum for the first `n` items. */
  lemma {:induction false} NearestNIsFirstMinimum(s: seq<ItemV>, n: nat, kind: Kind, px: int, py: int)
    requires n <= |s|
    ensures var r := NearestN(s, n, kind, px, py);
      && (r.None? <==> forall j :: 0 <= j < n ==> s[j].kind != kind)
      && (r.Some? ==> forall j :: 0 <= j < n && s[j].kind == kind ==>
            Dist2(s[r.value], px, py) <= Dist2(s[j], px, py))
      && (r.Some? ==> forall j :: 0 <= j < r.value && s[j].kind == kind ==>
            Dist2(s[r.value], px, py) < Dist2(s[j], px, py))
    decreases n
  {
    if n != 0 {
      NearestNIsFirstMinimum(s, n - 1, kind, px, py);
    }
  }

  /** The objects at positions i and j of `s` are different. */
  ghost predicate Apart<T>(s: seq<T>, i: nat, j: nat)
    requires i < |s| && j < |s|
  {
    s[i] != s[j]
  }

  /** The objects of `s` are pairwise different. Stated through Apart, so
      that the pairs are only looked at where a proof names them. */
  ghost predicate Distinct<T>(s: seq<T>) {
    forall i, j | 0 <= i < j < |s| :: Apart(s, i, j)
  }

  /** Appending an object that is not yet there keeps the objects distinct. */
  lemma DistinctSnoc<T>(s: seq<T>, x: T)
    requires Distinct(s) && x !in s
    ensures Distinct(s + [x])
  {
    forall i, j | 0 <= i < j < |s| + 1 ensures Apart(s + [x], i, j) {
      if j < |s| {
        assert Apart(s, i, j);
      }
    }
  }

  /** The player, whose x Player.move updates in place. */
  class Player {
    var x: int
    const y: int
    const width: int
    const height: int

    constructor (x0: int, y0: int, width0: int, height0: int)
      ensures x == x0 && y == y0 && width == width0 && height == height0
    {
      x, y, width, height := x0, y0, width0, height0;
    }

    function Bounds(): Box
      reads this
    {
      Box(x, y, width, height)
    }

    method Move(right: bool)
      modifies this
      ensures x == MovedX(old(x), right, width)
    {
      x := x + (if right then SPEED else -SPEED);
      x := Max(0, Min(x, WIDTH - width));
    }
  }

  /** A falling fruit or bomb, whose y Item.move updates in place. */
  class Item {
    const kind: Kind
    const x: int
    var y: int
    /** The size of the scaled item images. */
    const width: int := ITEM_WIDTH
    const height: int := ITEM_HEIGHT
    const yVel: Velocity

    constructor (kind0: Kind, x0: int, y0: int, yVel0: Velocity)
      ensures kind == kind0 && x == x0 && y == y0 && yVel == yVel0
    {
      kind, x, y, yVel := kind0, x0, y0, yVel0;
    }

    function View(): ItemV
      reads this
    {
      ItemV(kind, x, y, yVel)
    }

    function Bounds(): Box
      reads this
    {
      Box(x, y, width, height)
    }

    predicate CollidesWith(p: Player)
      reads this, p
    {
      Collides(Bounds(), p.Bounds())
    }

    method Move()
      modifies this
      ensures View() == Fall(old(View()))
    {
      y := y + yVel;
    }
  }

  /** The values of a sequence of items, in order. */
  function Views(s: seq<Item>): (r: seq<ItemV>)
    reads s
    ensures |r| == |s| && forall k :: 0 <= k < |s| ==> r[k] == s[k].View()
  {
    ViewsN(s, |s|)
  }
  function ViewsN(s: seq<Item>, n: nat): (r: seq<ItemV>)
    requires n <= |s|
    reads s
    ensures |r| == n && forall k :: 0 <= k < n ==> r[k] == s[k].View()
  {
    if n == 0 then [] else ViewsN(s, n - 1) + [s[n - 1].View()]
  }

  /** The object at an optional index, as get_nearest_items returns it. */
  function ItemAt(s: seq<Item>, k: Option<nat>): Option<Item> {
    if k.Some? && k.value < |s| then Some(s[k.value]) else None
  }

  /** Optional squared distance, None standing for the initial infinity. */
  predicate Closer(d: nat, best: Option<nat>) {
    best.None? || d < best.value
  }

  /** The state of one game: the player, the items in spawn order, the
      interactive score and the spawn timer. */
  class GameState {
    const player: Player
    var items: seq<Item>
    var score: int
    var fruitSpawnTimer: int
    const fruitSpawnRate: int

    /** The player stays on screen at its fixed size and height, the items
        are distinct objects. */
    ghost predicate Valid()
      reads this, player
    {
      && player.width == PLAYER_WIDTH && player.height == PLAYER_HEIGHT
      && player.y == START_Y
      && 0 <= player.x <= WIDTH - PLAYER_WIDTH
      && fruitSpawnRate == SPAWN_RATE
      && Distinct(items)
    }

    constructor ()
      ensures Valid() && fresh(player)
      ensures player.x == 350 && player.y == 500
      ensures player.width == 100 && player.height == 100
      ensures items == [] && score == 0 && fruitSpawnTimer == 0
    {
      player := new Player(START_X, START_Y, PLAYER_WIDTH, PLAYER_HEIGHT);
      items := [];
      score := 0;
      fruitSpawnTimer := 0;
      fruitSpawnRate := SPAWN_RATE;
    }

    method SpawnItem(d: Draw) returns (it: Item)
      ensures fresh(it)
      ensures it.View() == Spawn(d, player.x)
    {
      if d.u < FRUIT_CHANCE {
        it := new Item(Fruit, d.x, 0, d.vel);
      } else {
        it := new Item(Bomb, player.x, 0, d.vel);
      }
    }

    /** The nearest fruit and the nearest bomb, the first of equals winning. */
    method GetNearestItems() returns (fruit: Option<Item>, bomb: Option<Item>)
      ensures fruit == ItemAt(items, Nearest(Views(items), Fruit, player.x, player.y))
      ensures bomb == ItemAt(items, Nearest(Views(items), Bomb, player.x, player.y))
    {
      ghost var vs := Views(items);
      ghost var fi: Option<nat> := None;
      ghost var bi: Option<nat> := None;
      fruit, bomb := None, None;
      var minFruitDist: Option<nat> := None;
      var minBombDist: Option<nat> := None;
      for i := 0 to |items|
        invariant fi == NearestN(vs, i, Fruit, player.x, player.y)
        invariant bi == NearestN(vs, i, Bomb, player.x, player.y)
        invariant fruit == ItemAt(items, fi) && bomb == ItemAt(items, bi)
        invariant fi.Some? ==> fi.value < i && minFruitDist == Some(Dist2(vs[fi.value], player.x, player.y))
        invariant fi.None? ==> minFruitDist.None?
        invariant bi.Some? ==> bi.value < i && minBombDist == Some(Dist2(vs[bi.value], player.x, player.y))
        invariant bi.None? ==> minBombDist.None?
      {
        var item := items[i];
        var dist := Dist2(item.View(), player.x, player.y);
        assert vs[i] == item.View();
        if item.kind == Fruit && Closer(dist, minFruitDist) {
          minFruitDist := Some(dist);
          fruit := Some(item);
          fi := Some(i);
        } else if item.kind == Bomb && Closer(dist, minBombDist) {
          minBombDist := Some(dist);
          bomb := Some(item);
          bi := Some(i);
        }
      }
    }
  }
}
