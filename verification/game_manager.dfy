/** Tower purchase, placement and sale (GameManager.cs). Mouse input becomes
    explicit parameters: the world point of a left click, and the tile a
    right click's ray hits (if any). Each instantiated tower gets a fresh id. */
module GameManager {

  import opened Wrappers
  import Selection
  import GameState

  /** The price fields of a turret prefab. */
  datatype Prefab = Prefab(cost: int, sellValue: int)

  /** A tower standing in the scene: its identity and the prefab it was made from. */
  datatype Tower = Tower(id: nat, prefab: Prefab)

  datatype Tile = Tile(pos: Selection.Pos, isOccupied: bool, tower: Option<Tower>)

  datatype Manager = Manager(
    tiles: seq<Tile>,
    placedTowers: seq<Tower>,
    towerToPlace: Option<Prefab>,
    nextId: nat,
    ledger: GameState.State)

  /** Result of DecreaseLife. */
  datatype Hurt = Hurt(manager: Manager, gameOver: bool)

  /** The balances Start installs in the ledger. */
  function Start(m: Manager): (r: Manager)
    ensures r.ledger.playerCoins == 300 && r.ledger.playerHealth == 10
    ensures r.ledger.(playerCoins := m.ledger.playerCoins, playerHealth := m.ledger.playerHealth) == m.ledger
    ensures r.(ledger := m.ledger) == m
  {
    m.(ledger := GameState.ResetHealth(GameState.ResetCoins(m.ledger, 300), 10))
  }

  /** Pays for a tower up front; only a successful payment makes it the
      tower to place, replacing any earlier pending one. */
  function BuyTower(m: Manager, p: Prefab): (r: Manager)
    ensures m.ledger.playerCoins >= p.cost ==>
              r.towerToPlace == Some(p) && r.ledger.playerCoins == m.ledger.playerCoins - p.cost
    ensures m.ledger.playerCoins < p.cost ==> r == m
    ensures r.ledger.(playerCoins := m.ledger.playerCoins) == m.ledger
    ensures r.tiles == m.tiles && r.placedTowers == m.placedTowers && r.nextId == m.nextId
  {
    var spent := GameState.SpendCoins(m.ledger, p.cost);
    if spent.ok then m.(ledger := spent.state, towerToPlace := Some(p)) else m
  }

  function Distances(tiles: seq<Tile>, click: Selection.Pos): (ds: seq<nat>)
    ensures |ds| == |tiles|
    ensures forall k :: 0 <= k < |tiles| ==> ds[k] == Selection.SqDist(tiles[k].pos, click)
  {
    seq(|tiles|, k requires 0 <= k < |tiles| => Selection.SqDist(tiles[k].pos, click))
  }

  /** The tile the click lands on: the nearest one, the first on ties. */
  function NearestTile(tiles: seq<Tile>, click: Selection.Pos): (k: nat)
    requires |tiles| > 0
    ensures k < |tiles|
    ensures forall j :: 0 <= j < |tiles| ==>
              Selection.SqDist(tiles[k].pos, click) <= Selection.SqDist(tiles[j].pos, click)
    ensures forall j :: 0 <= j < k ==>
              Selection.SqDist(tiles[k].pos, click) < Selection.SqDist(tiles[j].pos, click)
  {
    Selection.FirstMin(Distances(tiles, click))
  }

  /** A left click with a tower pending places it on the nearest tile if that
      tile is free: the tile is marked occupied and linked to the new tower,
      the tower is recorded, and nothing is pending any more. Otherwise
      nothing changes (with no tiles the source dereferences a null tile and
      the frame aborts, also leaving everything as it was). */
  function LeftClick(m: Manager, click: Selection.Pos): (r: Manager)
    ensures (m.towerToPlace.None? || |m.tiles| == 0) ==> r == m
    ensures m.towerToPlace.Some? && |m.tiles| > 0 ==>
              var k := NearestTile(m.tiles, click);
              var t := Tower(m.nextId, m.towerToPlace.value);
              && (m.tiles[k].isOccupied ==> r == m)
              && (!m.tiles[k].isOccupied ==>
                    && |r.tiles| == |m.tiles|
                    && r.tiles[k] == Tile(m.tiles[k].pos, true, Some(t))
                    && (forall j :: 0 <= j < |m.tiles| && j != k ==> r.tiles[j] == m.tiles[j])
                    && r.placedTowers == m.placedTowers + [t]
                    && r.towerToPlace.None?
                    && r.nextId == m.nextId + 1
                    && r.ledger == m.ledger)
  {
    if m.towerToPlace.None? || |m.tiles| == 0 then m
    else
      var k := NearestTile(m.tiles, click);
      var tile := m.tiles[k];
      if tile.isOccupied then m
      else
        var t := Tower(m.nextId, m.towerToPlace.value);
        m.(tiles := m.tiles[k := Tile(tile.pos, true, Some(t))],
           placedTowers := m.placedTowers + [t],
           towerToPlace := None,
           nextId := m.nextId + 1)
  }

  /** The position of the first occurrence of `x`. */
  function IndexOf<T(==)>(s: seq<T>, x: T): (i: nat)
    requires x in s
    ensures i < |s| && s[i] == x && x !in s[..i]
  {
    if s[0] == x then 0
    else
      var i := IndexOf(s[1..], x);
      assert s[1..][..i] == s[1..i + 1];
      i + 1
  }

  /** List.Remove: drops the first occurrence of `x`, if there is one. */
  function RemoveFirst<T(==)>(s: seq<T>, x: T): (r: seq<T>)
    ensures x in s ==> multiset(r) == multiset(s) - multiset{x}
    ensures x in s ==> exists i :: 0 <= i < |s| && s[i] == x && x !in s[..i] && r == s[..i] + s[i + 1..]
    ensures x !in s ==> r == s
  {
    if x in s then
      var i := IndexOf(s, x);
      assert s == s[..i] + [x] + s[i + 1..];
      s[..i] + s[i + 1..]
    else s
  }

  /** Sells `tower` from `tile`: refunds its sell value, frees the tile and
      drops the tower from the placed list. With either one null, nothing happens. */
  function SellTower(m: Manager, tile: Option<nat>, tower: Option<Tower>): (r: Manager)
    requires tile.Some? ==> tile.value < |m.tiles|
    ensures tile.None? || tower.None? ==> r == m
    ensures tile.Some? && tower.Some? ==>
              && r.ledger == GameState.AddCoins(m.ledger, tower.value.prefab.sellValue)
              && r.tiles == m.tiles[tile.value := Tile(m.tiles[tile.value].pos, false, None)]
              && multiset(r.placedTowers) == multiset(m.placedTowers) - multiset{tower.value}
              && r.placedTowers == RemoveFirst(m.placedTowers, tower.value)
              && r.towerToPlace == m.towerToPlace && r.nextId == m.nextId
  {
    if tile.Some? && tower.Some? then
      var k := tile.value;
      m.(ledger := GameState.AddCoins(m.ledger, tower.value.prefab.sellValue),
         tiles := m.tiles[k := Tile(m.tiles[k].pos, false, None)],
         placedTowers := RemoveFirst(m.placedTowers, tower.value))
    else m
  }

  /** A right click sells the tower of the tile it hits, if that tile is
      occupied and holds one. */
  function RightClick(m: Manager, hit: Option<nat>): (r: Manager)
    requires hit.Some? ==> hit.value < |m.tiles|
    ensures hit.None? || !m.tiles[hit.value].isOccupied || m.tiles[hit.value].tower.None? ==> r == m
    ensures hit.Some? && m.tiles[hit.value].isOccupied && m.tiles[hit.value].tower.Some? ==>
              r == SellTower(m, hit, m.tiles[hit.value].tower)
  {
    if hit.Some? && m.tiles[hit.value].isOccupied && m.tiles[hit.value].tower.Some? then
      SellTower(m, hit, m.tiles[hit.value].tower)
    else m
  }

  /** Forwards a loss of life to the ledger, which clamps it and signals game over. */
  function DecreaseLife(m: Manager, amount: int): (r: Hurt)
    ensures r.manager.ledger.playerHealth >= 0
    ensures r.gameOver <==> m.ledger.playerHealth - amount <= 0
    ensures !r.gameOver ==> r.manager.ledger.playerHealth == m.ledger.playerHealth - amount
    ensures r.gameOver ==> r.manager.ledger.playerHealth == 0
    ensures r.manager.ledger.(playerHealth := m.ledger.playerHealth) == m.ledger
    ensures r.manager.(ledger := m.ledger) == m
  {
    var hurt := GameState.DecreaseHealth(m.ledger, amount);
    Hurt(m.(ledger := hurt.state), hurt.gameOver)
  }

  // ----- Occupancy invariant -----

  function HeldBy(tile: Tile): multiset<Tower>
  {
    if tile.tower.Some? then multiset{tile.tower.value} else multiset{}
  }

  /** The towers standing on the tiles. */
  function Held(tiles: seq<Tile>): multiset<Tower>
  {
    if |tiles| == 0 then multiset{} else HeldBy(tiles[0]) + Held(tiles[1..])
  }

  /** A tile is occupied exactly when it holds a tower. */
  predicate OccupiedIffHeld(tiles: seq<Tile>)
  {
    forall k :: 0 <= k < |tiles| ==> (tiles[k].isOccupied <==> tiles[k].tower.Some?)
  }

  /** No tower appears twice. */
  ghost predicate Unique(towers: seq<Tower>)
  {
    forall t :: multiset(towers)[t] <= 1
  }

  /** Every tower's id was handed out before `nextId`. */
  predicate IdsIssued(towers: seq<Tower>, nextId: nat)
  {
    forall t :: t in towers ==> t.id < nextId
  }

  /** A tile is occupied exactly when it holds a tower, the towers on the
      tiles are exactly the placed towers, no tower is placed twice, and every
      placed tower's id was handed out. */
  ghost predicate Consistent(m: Manager)
  {
    && OccupiedIffHeld(m.tiles)
    && multiset(m.placedTowers) == Held(m.tiles)
    && Unique(m.placedTowers)
    && IdsIssued(m.placedTowers, m.nextId)
  }

  /** Replacing tile `k` by `v` swaps what that tile holds for what `v` holds. */
  lemma {:induction false} HeldUpdate(tiles: seq<Tile>, k: nat, v: Tile)
    requires k < |tiles|
    ensures Held(tiles[k := v]) + HeldBy(tiles[k]) == Held(tiles) + HeldBy(v)
    decreases |tiles|
  {
    var u := tiles[k := v];
    var rest := Held(tiles[1..]);
    assert Held(tiles) == HeldBy(tiles[0]) + rest;
    if k == 0 {
      assert u[1..] == tiles[1..];
      assert Held(u) == HeldBy(v) + rest;
      SwapEnds(HeldBy(v), rest, HeldBy(tiles[0]));
    } else {
      var rest' := Held(tiles[1..][k - 1 := v]);
      assert u[1..] == tiles[1..][k - 1 := v];
      assert Held(u) == HeldBy(tiles[0]) + rest';
      assert tiles[1..][k - 1] == tiles[k];
      HeldUpdate(tiles[1..], k - 1, v);
      AddFront(HeldBy(tiles[0]), rest', HeldBy(tiles[k]), rest, HeldBy(v));
    }
  }

  /** Multiset sums commute. */
  lemma SwapEnds(a: multiset<Tower>, r: multiset<Tower>, b: multiset<Tower>)
    ensures a + r + b == b + r + a
  {
    assert forall x :: (a + r + b)[x] == (b + r + a)[x];
  }

  /** Adding the same multiset to both sides of an equation. */
  lemma AddFront(h: multiset<Tower>, r': multiset<Tower>, a: multiset<Tower>,
                 r: multiset<Tower>, b: multiset<Tower>)
    requires r' + a == r + b
    ensures h + r' + a == h + r + b
  {
    forall x ensures (h + r' + a)[x] == (h + r + b)[x] {
      assert (r' + a)[x] == (r + b)[x];
    }
  }

  lemma {:induction false} HeldMembers(tiles: seq<Tile>, t: Tower)
    ensures t in Held(tiles) <==> exists k :: 0 <= k < |tiles| && tiles[k].tower == Some(t)
    decreases |tiles|
  {
    if |tiles| > 0 {
      HeldMembers(tiles[1..], t);
      if t in Held(tiles[1..]) {
        var k :| 0 <= k < |tiles| - 1 && tiles[1..][k].tower == Some(t);
        assert tiles[k + 1].tower == Some(t);
      }
      if exists k :: 0 <= k < |tiles| && tiles[k].tower == Some(t) {
        var k :| 0 <= k < |tiles| && tiles[k].tower == Some(t);
        if k > 0 {
          assert tiles[1..][k - 1].tower == Some(t);
        }
      }
    }
  }

  /** Under the invariant, a tower is in the placed list exactly when some
      tile holds it, and such a tile is occupied. */
  lemma PlacedIffOnTile(m: Manager, t: Tower)
    requires Consistent(m)
    ensures t in m.placedTowers <==> exists k :: 0 <= k < |m.tiles| && m.tiles[k].tower == Some(t)
    ensures forall k :: 0 <= k < |m.tiles| && m.tiles[k].tower == Some(t) ==> m.tiles[k].isOccupied
  {
    HeldMembers(m.tiles, t);
    assert t in m.placedTowers <==> t in multiset(m.placedTowers);
  }

  lemma BuyTowerPreserves(m: Manager, p: Prefab)
    requires Consistent(m)
    ensures Consistent(BuyTower(m, p))
  {
  }

  lemma LeftClickPreserves(m: Manager, click: Selection.Pos)
    requires Consistent(m)
    ensures Consistent(LeftClick(m, click))
  {
    if m.towerToPlace.Some? && |m.tiles| > 0 {
      var k := NearestTile(m.tiles, click);
      if !m.tiles[k].isOccupied {
        var t := Tower(m.nextId, m.towerToPlace.value);
        var tile := Tile(m.tiles[k].pos, true, Some(t));
        var r := LeftClick(m, click);
        assert r.tiles == m.tiles[k := tile];
        assert r.placedTowers == m.placedTowers + [t];
        assert r.nextId == m.nextId + 1;
        PlaceKeepsInvariant(m.tiles, m.placedTowers, m.nextId, k, tile);
      }
    }
  }

  /** Putting a fresh tower on a free tile and appending it to the placed list. */
  lemma PlaceKeepsInvariant(tiles: seq<Tile>, placed: seq<Tower>, nextId: nat, k: nat, tile: Tile)
    requires OccupiedIffHeld(tiles) && multiset(placed) == Held(tiles)
    requires Unique(placed) && IdsIssued(placed, nextId)
    requires k < |tiles| && !tiles[k].isOccupied
    requires tile.isOccupied && tile.tower.Some? && tile.tower.value.id == nextId
    ensures OccupiedIffHeld(tiles[k := tile])
    ensures multiset(placed + [tile.tower.value]) == Held(tiles[k := tile])
    ensures Unique(placed + [tile.tower.value])
    ensures IdsIssued(placed + [tile.tower.value], nextId + 1)
  {
    var t := tile.tower.value;
    var placed' := placed + [t];
    HeldUpdate(tiles, k, tile);
    assert HeldBy(tiles[k]) == multiset{};
    assert multiset(placed') == multiset(placed) + multiset{t};
    assert t !in placed;
    assert multiset(placed)[t] == 0;
    forall u ensures multiset(placed')[u] <= 1 {
      assert multiset(placed')[u] == multiset(placed)[u] + multiset{t}[u];
    }
  }

  lemma RightClickPreserves(m: Manager, hit: Option<nat>)
    requires Consistent(m)
    requires hit.Some? ==> hit.value < |m.tiles|
    ensures Consistent(RightClick(m, hit))
    ensures hit.Some? && m.tiles[hit.value].tower.Some? ==>
              m.tiles[hit.value].tower.value !in RightClick(m, hit).placedTowers
  {
    if hit.Some? && m.tiles[hit.value].isOccupied && m.tiles[hit.value].tower.Some? {
      var k := hit.value;
      var t := m.tiles[k].tower.value;
      var tile := Tile(m.tiles[k].pos, false, None);
      var r := RightClick(m, hit);
      assert r.tiles == m.tiles[k := tile];
      assert r.nextId == m.nextId;
      SellKeepsInvariant(m.tiles, m.placedTowers, m.nextId, k, tile, r.placedTowers);
    }
  }

  /** Freeing a tile and removing its tower from the placed list. */
  lemma SellKeepsInvariant(tiles: seq<Tile>, placed: seq<Tower>, nextId: nat, k: nat, tile: Tile,
                           placed': seq<Tower>)
    requires OccupiedIffHeld(tiles) && multiset(placed) == Held(tiles)
    requires Unique(placed) && IdsIssued(placed, nextId)
    requires k < |tiles| && tiles[k].tower.Some?
    requires !tile.isOccupied && tile.tower.None?
    requires multiset(placed') == multiset(placed) - multiset{tiles[k].tower.value}
    ensures OccupiedIffHeld(tiles[k := tile])
    ensures multiset(placed') == Held(tiles[k := tile])
    ensures Unique(placed') && IdsIssued(placed', nextId)
    ensures tiles[k].tower.value !in placed'
  {
    var t := tiles[k].tower.value;
    HeldUpdate(tiles, k, tile);
    assert HeldBy(tiles[k]) == multiset{t} && HeldBy(tile) == multiset{};
    Cancel(Held(tiles[k := tile]), multiset(placed), multiset(placed'), t);
    RemovalKeepsUnique(placed, nextId, placed', t);
  }

  /** Dropping one occurrence of a tower keeps the list free of repeats and
      of unissued ids, and leaves no copy of the dropped tower. */
  lemma RemovalKeepsUnique(placed: seq<Tower>, nextId: nat, placed': seq<Tower>, t: Tower)
    requires Unique(placed) && IdsIssued(placed, nextId)
    requires multiset(placed') == multiset(placed) - multiset{t}
    ensures Unique(placed') && IdsIssued(placed', nextId)
    ensures t !in placed'
  {
    assert multiset(placed)[t] <= 1;
    assert multiset(placed')[t] == 0;
    forall u ensures multiset(placed')[u] <= 1 {
      assert multiset(placed')[u] <= multiset(placed)[u];
    }
    forall u | u in placed' ensures u.id < nextId {
      assert u in multiset(placed');
      assert u in multiset(placed);
    }
  }

  /** Taking one `t` off a multiset that got it added gives the original back. */
  lemma Cancel(a: multiset<Tower>, m: multiset<Tower>, p: multiset<Tower>, t: Tower)
    requires a + multiset{t} == m + multiset{}
    requires p == m - multiset{t}
    ensures p == a
  {
    assert forall x :: (a + multiset{t})[x] == m[x];
    assert forall x :: p[x] == a[x];
  }

  /** Buying a tower, placing it on a free nearest tile and selling it
      straight back leaves the tiles and the placed list as they were and
      changes the coins by exactly sell value minus cost. */
  lemma BuyPlaceSell(m: Manager, p: Prefab, click: Selection.Pos)
    requires Consistent(m)
    requires m.ledger.playerCoins >= p.cost
    requires |m.tiles| > 0 && !m.tiles[NearestTile(m.tiles, click)].isOccupied
    ensures var k := NearestTile(m.tiles, click);
            var r := RightClick(LeftClick(BuyTower(m, p), click), Some(k));
            && r.ledger.playerCoins == m.ledger.playerCoins - p.cost + p.sellValue
            && r.tiles == m.tiles
            && r.placedTowers == m.placedTowers
            && r.towerToPlace.None?
  {
    var k := NearestTile(m.tiles, click);
    var m1 := BuyTower(m, p);
    var m2 := LeftClick(m1, click);
    var t := Tower(m.nextId, p);
    assert m1.tiles == m.tiles;
    assert t !in m.placedTowers;
    var i := IndexOf(m2.placedTowers, t);
    assert m2.placedTowers[..|m.placedTowers|] == m.placedTowers;
    assert i == |m.placedTowers|;
    assert m2.placedTowers[..i] == m.placedTowers;
    assert m2.tiles[k := Tile(m.tiles[k].pos, false, None)] == m.tiles;
  }

  /** The opening scenario: from the 300 coins Start installs, a tower
      costing 100 bought, placed and sold back for 80 leaves 280 coins. */
  lemma OpeningPurchaseScenario(m: Manager, click: Selection.Pos)
    requires Consistent(m)
    requires |m.tiles| > 0 && !m.tiles[NearestTile(m.tiles, click)].isOccupied
    ensures RightClick(LeftClick(BuyTower(Start(m), Prefab(100, 80)), click),
                       Some(NearestTile(m.tiles, click))).ledger.playerCoins == 280
  {
    BuyPlaceSell(Start(m), Prefab(100, 80), click);
  }
}
