# Tower-defence bookkeeping, modelled in Dafny

This project models the discrete core of a Unity tower-defence game: the
bookkeeping that sits under the physics and the rendering. Each source file of
the core is one Dafny module of pure functions over immutable records:

- `EnemySpawner` (`enemy_spawner.dfy`): the wave scheduler. It holds the static
  table of enemy counts for waves 1 to 20. Enemy kinds are released
  first-available in kind order, and each release consumes the table in place.
  Wave state is the spawning flag plus left-to-spawn and alive counters. A wave
  ends when nothing is alive and nothing is left to spawn.
- `GameState` (`game_state.dfy`): the run's ledger of wave, score, health,
  coins and kills. Health is clamped at 0 and game over is signalled.
- `LevelManager` (`level_manager.dfy`): the older ledger of currency and life.
  It does not clamp.
- `GameManager` (`game_manager.dfy`): buying a tower, placing it on the
  nearest free tile, and selling it back.
- `Plot` (`plot.dfy`): the older build plot. A right click clears every plot.
- `EnemyMovement` (`enemy_movement.dfy`): waypoint progress, the leak at the
  end of the path, and the speed override and reset.
- `Turret` (`turret.dfy`): the base turret's per-frame state machine
  (acquire, drop, cool down, fire).
- `GlobalRangeTurret` (`global_range_turret.dfy`): the unlimited-range variant,
  with nearest-enemy targeting and a second fire timer.
- `Selection` (`selection.dfy`): the first-minimum scan shared by nearest-tile
  placement and nearest-enemy targeting.
- `Wrappers` (`wrappers.dfy`): `Option` for nullable references and `Result`
  for a frame cut short by an exception.

Abstractions used throughout:

- Time is natural-number centiseconds. The per-frame `Time.deltaTime` becomes
  a `dt` parameter. The table's intervals (1.0 s down to 0.1 s) are exact at
  that resolution.
- Positions are integer grid points. Distances are squared, which orders
  points exactly as Euclidean distance does, so strict-`<` scans pick the same
  candidate.
- Mouse input is a parameter: the left-click world point, and the tile a
  right-click ray hits.
- Physics queries are parameters: the range cast's hits, the enemies in the
  scene, whether a waypoint was reached.
- Unity's rule that a destroyed object compares equal to `null` becomes a
  `targetAlive` flag.
- `Instantiate` hands out fresh tower ids.
- A scene reload on game over becomes a `gameOver` result.

Behaviour of the code worth noting, since a reader might expect otherwise:

- The base turret takes the first hit of its range cast, not the nearest enemy.
- A speed override sets an absolute speed, not a multiplier.
- There are no turret upgrades.
- The sell value is a stored field, not 80 % of the spend.
- The wave table is not extended past wave 20. A wave without a row is not a
  quiet zero-enemy wave; see Findings.

## Model

| member | source | states |
|---|---|---|
| `GameState.Initial` | TDG/Assets/Scripts/GameState.cs:8-12 | a new ledger starts at wave 1, score 0, health 100, coins 50, no kills |
| `GameState.IncrementWave` | TDG/Assets/Scripts/GameState.cs:28-31 | the wave advances by exactly one and no other field changes |
| `GameState.ResetWave` | TDG/Assets/Scripts/GameState.cs:33-36 | the wave becomes 1 and no other field changes |
| `GameState.DecreaseHealth` | TDG/Assets/Scripts/GameState.cs:39-48 | health never ends negative; game over is signalled iff the hit takes health to 0 or below, and then health is exactly 0; otherwise exactly `amount` is lost; only health changes |
| `GameState.IncreaseHealth` | TDG/Assets/Scripts/GameState.cs:50-53 | health grows by exactly `amount`, nothing else changes |
| `GameState.ResetHealth` | TDG/Assets/Scripts/GameState.cs:55-58 | health becomes the given value, nothing else changes |
| `GameState.AddCoins` | TDG/Assets/Scripts/GameState.cs:61-64 | coins grow by exactly `amount`, nothing else changes |
| `GameState.SpendCoins` | TDG/Assets/Scripts/GameState.cs:66-77 | succeeds iff coins cover `amount`, then takes exactly `amount`; a refused spend leaves the ledger unchanged; only coins change |
| `GameState.ResetCoins` | TDG/Assets/Scripts/GameState.cs:79-82 | coins become the given value, nothing else changes |
| `GameState.IncrementEnemiesDefeated` | TDG/Assets/Scripts/GameState.cs:85-88 | the kill count grows by exactly one, nothing else changes |
| `GameState.ResetEnemiesDefeated` | TDG/Assets/Scripts/GameState.cs:90-93 | the kill count becomes 0, nothing else changes |
| `GameState.ValidPreserved` | TDG/Assets/Scripts/GameState.cs:28-93 | no mutator takes wave below 1 or health, coins or kills below 0 (given non-negative amounts, and non-negative values for the two resets); spending and damage keep this for any amount |
| `GameState.SpendAddInverse` | TDG/Assets/Scripts/GameState.cs:61-77 | a successful spend is undone by adding the same amount back; adding then spending the same amount succeeds and restores the ledger |
| `GameState.DecreaseHealthAdditive` | TDG/Assets/Scripts/GameState.cs:39-48 | two non-negative hits equal one hit of their sum, in health and in the game-over signal (the clamp at 0 absorbs) |
| `LevelManager.Start` | TDG/Assets/Scripts/LevelManager.cs:21-25 | the level starts with currency 200 and life 10 |
| `LevelManager.IncreaseCurrency` | TDG/Assets/Scripts/LevelManager.cs:27-30 | currency grows by exactly `amount`; life is untouched |
| `LevelManager.SpendCurrency` | TDG/Assets/Scripts/LevelManager.cs:32-43 | succeeds iff currency covers `amount`, then takes exactly `amount` (never leaving it negative); a refused spend changes nothing |
| `LevelManager.DecreaseLife` | TDG/Assets/Scripts/LevelManager.cs:45-54 | life drops by exactly `amount` with no clamp; game over is signalled iff the remaining life is 0 or below |
| `LevelManager.SpendIncreaseInverse` | TDG/Assets/Scripts/LevelManager.cs:27-43 | a successful spend is undone by returning the same amount; on a ledger not in debt, adding an amount then spending it succeeds and restores the ledger |
| `LevelManager.LedgersAgreeOnGameOver` | TDG/Assets/Scripts/LevelManager.cs:45-54 | from equal health, both ledgers signal game over on the same hits; GameState keeps the clamped value of LevelManager's possibly negative life |
| `EnemySpawner.InitializeWaveData` | TDG/Assets/Scripts/EnemySpawner.cs:177-202 | the table has a row for exactly the waves 1 to 20 |
| `EnemySpawner.TableShape` | TDG/Assets/Scripts/EnemySpawner.cs:179-200 | the table covers waves 1..20 with three counts each; from each wave to the next no kind's count drops, and the spawn interval strictly shrinks while staying positive |
| `EnemySpawner.TableTotals` | TDG/Assets/Scripts/EnemySpawner.cs:181-200 | wave 1 releases exactly ten enemies, all of kind 0; wave 20 totals 300 enemies; wave 21 has no row and totals 0 |
| `EnemySpawner.Initial` | TDG/Assets/Scripts/EnemySpawner.cs:33-57 | after Awake the table is loaded, nothing is spawning, alive or pending, and the spawn timer is 0 |
| `EnemySpawner.TakeKind` | TDG/Assets/Scripts/EnemySpawner.cs:154-163 | with any enemy left, the lowest kind whose count is positive is chosen, its count drops by exactly one, the others are untouched, and the wave's total drops by one; with all counts zero, kind 0 comes back and nothing changes |
| `EnemySpawner.DrainIsExpand` | TDG/Assets/Scripts/EnemySpawner.cs:148-164 | releasing a wave one enemy at a time yields `counts[0]` enemies of kind 0, then `counts[1]` of kind 1, and so on |
| `EnemySpawner.DrainSorted` | TDG/Assets/Scripts/EnemySpawner.cs:154-161 | released kinds come out in non-decreasing order, each a valid kind index |
| `EnemySpawner.ThreeKindOrder` | TDG/Assets/Scripts/EnemySpawner.cs:154-161 | counts [a, b, c] are released as a × kind 0, then b × kind 1, then c × kind 2 |
| `EnemySpawner.CalculateEnemiesForCurrentWave` | TDG/Assets/Scripts/EnemySpawner.cs:128-146 | a wave with a row totals exactly the number of enemies its row will release; a wave without one totals 0 |
| `EnemySpawner.GetEnemyTypeToSpawn` | TDG/Assets/Scripts/EnemySpawner.cs:148-164 | the released kind is the head of the wave's release order, and the row left behind releases the rest; other waves and the interval are untouched; an empty row gives kind 0 and changes nothing |
| `EnemySpawner.ShouldSpawnNextEnemyAsWritten` | TDG/Assets/Scripts/EnemySpawner.cs:90-96 | throws iff the current wave has no row; otherwise spawn iff the timer has reached the interval and enemies are left |
| `EnemySpawner.SpawnEnemy` | TDG/Assets/Scripts/EnemySpawner.cs:98-106 | one release: left-to-spawn down by exactly one, alive up by exactly one, timer back to 0; the kind and the consumed table are those GetEnemyTypeToSpawn gives |
| `EnemySpawner.BeginWave` | TDG/Assets/Scripts/EnemySpawner.cs:114-119 | spawning on, left-to-spawn equal to the wave total, timer at 0, alive count and table untouched |
| `EnemySpawner.EndWave` | TDG/Assets/Scripts/EnemySpawner.cs:121-126 | spawning off and the ledger's wave advanced by exactly one; nothing else changes |
| `EnemySpawner.EnemyDestroyed` | TDG/Assets/Scripts/EnemySpawner.cs:172-175 | the alive count drops by exactly one, nothing else changes |
| `EnemySpawner.Update` | TDG/Assets/Scripts/EnemySpawner.cs:67-88 | an idle scheduler does nothing; a spawn happens only with enemies left and the interval elapsed, and it moves one enemy from left-to-spawn to alive and restarts the timer; left-to-spawn never goes negative; a wave ends only with nothing alive and nothing left, and ending it advances the wave by one and changes nothing else in the ledger; while a wave runs, an enemy spawns exactly when ShouldSpawnNextEnemy holds after the timer advances, its kind and the updated table are those GetEnemyTypeToSpawn picks, a frame without a spawn only advances the timer, and the wave ends exactly when it is complete |
| `EnemySpawner.UpdateAsWritten` | TDG/Assets/Scripts/EnemySpawner.cs:67-96 | a spawning frame throws iff the current wave has no row, leaving the wave still spawning; otherwise it behaves as `Update` |
| `EnemySpawner.BeginWaveEstablishesInv` | TDG/Assets/Scripts/EnemySpawner.cs:114-119 | starting a wave makes left-to-spawn equal to what the wave's row still holds |
| `EnemySpawner.UpdatePreservesInv` | TDG/Assets/Scripts/EnemySpawner.cs:75-106 | every frame keeps the counters non-negative, and keeps left-to-spawn equal to what the current row still holds |
| `EnemySpawner.EnemyDestroyedPreservesInv` | TDG/Assets/Scripts/EnemySpawner.cs:172-175 | a destruction notice with an enemy alive keeps the scheduler invariant |
| `EnemySpawner.ExhaustedWaveIsConsumed` | TDG/Assets/Scripts/EnemySpawner.cs:128-164 | once a wave has released its whole total, every count in its row is 0, so starting that wave again releases nothing |
| `EnemySpawner.SpawnFollowsDrainOrder` | TDG/Assets/Scripts/EnemySpawner.cs:98-106 | during a wave each release is the next kind of the reference order (kind 0 × count, kind 1 × count, ...), and the rest of the order remains |
| `EnemySpawner.MissingWaveStallsAsWritten` | TDG/Assets/Scripts/EnemySpawner.cs:90-96 | wave 21 has no row; as written, every frame of a spawning wave without a row throws right after advancing the timer and leaves the wave spawning, so the wave never ends |
| `EnemySpawner.MissingWaveEndsWithKeyCheck` | TDG/Assets/Scripts/EnemySpawner.cs:128-146 | with the key check, a wave without a row starts with nothing to release and ends on its first frame, advancing the wave |
| `EnemyMovement.Start` | TDG/Assets/Scripts/EnemyMovement.cs:18-22 | the base speed is the configured speed and the enemy heads for waypoint 0 |
| `EnemyMovement.Update` | TDG/Assets/Scripts/EnemyMovement.cs:24-42 | the waypoint index moves only when the waypoint is reached, by exactly one, and stays below the path length; reaching the last waypoint is a leak |
| `EnemyMovement.Leak` | TDG/Assets/Scripts/EnemyMovement.cs:30-36 | a leak costs exactly one health (clamped at 0, game over at 1 or less), tells the scheduler one fewer is alive and changes nothing else in the scheduler, and changes nothing else in the ledger |
| `EnemyMovement.LeakPreservesInvariants` | TDG/Assets/Scripts/EnemyMovement.cs:30-36 | a leak of a live enemy keeps the ledger valid (health not below 0, wave at least 1) and keeps the scheduler's invariant: the alive and left-to-spawn counts stay non-negative and, during a wave, left-to-spawn still matches the table's count for the wave |
| `EnemyMovement.UpdateSpeed` | TDG/Assets/Scripts/EnemyMovement.cs:50-53 | the speed becomes exactly the given value; base speed and progress are untouched |
| `EnemyMovement.ResetSpeed` | TDG/Assets/Scripts/EnemyMovement.cs:55-58 | the speed goes back to the base speed; base speed and progress are untouched |
| `EnemyMovement.SpeedOverridesDoNotCompound` | TDG/Assets/Scripts/EnemyMovement.cs:50-58 | overrides do not stack (the last one wins), and a reset undoes any override |
| `EnemyMovement.FollowCountsWaypoints` | TDG/Assets/Scripts/EnemyMovement.cs:24-42 | over any run of frames, the index grows by the number of frames that reached a waypoint and stays on the path; the enemy leaks iff those frames outnumber the waypoints left |
| `EnemyMovement.WalkFromStart` | TDG/Assets/Scripts/EnemyMovement.cs:18-42 | from the start of an n-waypoint path, an enemy leaks iff it has reached n waypoints |
| `Selection.FirstMin` | TDG/Assets/Scripts/GameManager.cs:38-48 | the scan ends on the earliest index holding the minimum distance, and that is the only such index |
| `GameManager.Start` | TDG/Assets/Scripts/GameManager.cs:28-32 | the ledger gets 300 coins and 10 health; the rest of the ledger (wave, kills, score) and the placement state are untouched |
| `GameManager.BuyTower` | TDG/Assets/Scripts/GameManager.cs:75-90 | if the coins cover the cost, the cost is paid and the tower becomes pending; otherwise nothing changes; either way nothing in the ledger but the coins changes |
| `GameManager.NearestTile` | TDG/Assets/Scripts/GameManager.cs:38-48 | the chosen tile is at minimal distance from the click, and strictly nearer than every earlier tile |
| `GameManager.LeftClick` | TDG/Assets/Scripts/GameManager.cs:36-59 | with a tower pending and the nearest tile free: that tile alone becomes occupied and linked to a fresh tower, which is appended to the placed list, and nothing is pending any more; on an occupied tile or with nothing pending, nothing changes |
| `GameManager.RemoveFirst` | TDG/Assets/Scripts/GameManager.cs:99 | removal from the placed list drops exactly the first occurrence of a present tower, keeping the order of the rest, and leaves the list unchanged otherwise |
| `GameManager.SellTower` | TDG/Assets/Scripts/GameManager.cs:92-102 | refunds exactly the sell value, frees the tile, unlinks its tower, and removes the tower from the placed list as List.Remove does (first occurrence, order kept); with a null tile or tower it does nothing |
| `GameManager.RightClick` | TDG/Assets/Scripts/GameManager.cs:61-72 | a right click sells exactly when the hit tile is occupied and holds a tower, and otherwise changes nothing |
| `GameManager.DecreaseLife` | TDG/Assets/Scripts/GameManager.cs:104-107 | the ledger's health drops by `amount`, or is set to exactly 0 on game over, which is signalled iff health minus `amount` is 0 or below; nothing else in the ledger or the manager changes |
| `GameManager.PlacedIffOnTile` | TDG/Assets/Scripts/GameManager.cs:49-58 | under the invariant, a tower is in the placed list iff some tile holds it, and a tile holding a tower is occupied |
| `GameManager.BuyTowerPreserves` | TDG/Assets/Scripts/GameManager.cs:75-90 | buying keeps the rule "occupied ⇔ holds a tower ⇔ tower in the placed list" |
| `GameManager.LeftClickPreserves` | TDG/Assets/Scripts/GameManager.cs:49-58 | placement keeps "occupied ⇔ holds a tower ⇔ tower in the placed list", with no tower placed twice |
| `GameManager.RightClickPreserves` | TDG/Assets/Scripts/GameManager.cs:92-102 | a sale keeps the same invariant and leaves the sold tower out of the placed list |
| `GameManager.BuyPlaceSell` | TDG/Assets/Scripts/GameManager.cs:75-102 | buying, placing on the nearest free tile and selling back restores tiles and placed list, and changes coins by exactly sell value minus cost |
| `GameManager.OpeningPurchaseScenario` | TDG/Assets/Scripts/GameManager.cs:28-102 | from the 300 starting coins, buying a 100-coin tower and selling it back for 80 leaves 280 |
| `Plot.ConstructTower` | TDG/Assets/Scripts/Plot.cs:51-71 | an occupied plot, or a tower costing more than the currency, changes nothing; otherwise exactly the cost is paid (never leaving the currency negative) and the plot holds the tower |
| `Plot.RemoveTower` | TDG/Assets/Scripts/Plot.cs:73-82 | a plot without a tower object is left untouched; otherwise both references are cleared |
| `Plot.RightClick` | TDG/Assets/Scripts/Plot.cs:41-49 | a right click applies RemoveTower to every plot |
| `Plot.RightClickClearsEveryPlot` | TDG/Assets/Scripts/Plot.cs:41-49 | after one right click no plot holds a tower |
| `Plot.BuildThenRemoveRefundsNothing` | TDG/Assets/Scripts/Plot.cs:51-82 | building then removing restores the empty plot but not the currency: the cost is lost |
| `Plot.BuildIsOncePerPlot` | TDG/Assets/Scripts/Plot.cs:51-54 | a second build on a built plot is refused and costs nothing |
| `Turret.FindTarget` | TDG/Assets/Scripts/Turret.cs:59-67 | a target is acquired iff the cast hits something, and it is the first hit |
| `Turret.Shoot` | TDG/Assets/Scripts/Turret.cs:51-57 | the bullet carries the turret's current target and the turret itself |
| `Turret.Step` | TDG/Assets/Scripts/Turret.cs:25-49 | with no live target, only acquisition and no cooldown or shot; a target out of range is dropped with no cooldown or shot; in range, the target is kept and the cooldown fires and resets at the interval or accumulates; at most one bullet |
| `Turret.Update` | TDG/Assets/Scripts/Turret.cs:25-72 | the base turret's frame with first-hit acquisition and the inclusive range bound: out-of-range targets are dropped, in range it fires iff the cooldown reaches the interval, at most one bullet per frame |
| `Turret.CooldownStaysBelowInterval` | TDG/Assets/Scripts/Turret.cs:41-47 | with a positive interval, a cooldown below the interval stays below it after any frame |
| `Turret.OutOfRangeCostsTwoQuietFrames` | TDG/Assets/Scripts/Turret.cs:27-38 | a target leaving range is dropped that frame and the next frame only acquires: two frames without a bullet or cooldown change |
| `GlobalRangeTurret.Nearest` | TDG/Assets/Scripts/GlobalRangeTurret.cs:38-49 | the chosen enemy is at minimal distance, strictly nearer than every earlier one |
| `GlobalRangeTurret.FindTarget` | TDG/Assets/Scripts/GlobalRangeTurret.cs:30-56 | with no enemies nothing is assigned; otherwise the target is the nearest enemy, the earliest on ties |
| `GlobalRangeTurret.Update` | TDG/Assets/Scripts/GlobalRangeTurret.cs:11-28 | a live target is never dropped; with no target and no enemies nothing changes; a new target is the nearest enemy; a frame fires at most two bullets; the extra timer restarts, holds or advances by dt |
| `GlobalRangeTurret.ExtraTimerFiresOrAdvances` | TDG/Assets/Scripts/GlobalRangeTurret.cs:15-27 | with a target after the base frame, the base frame's state is kept and the extra timer fires one more bullet, at the target the base frame ends with, and restarts iff it has reached the delay, and otherwise only advances by dt |
| `GlobalRangeTurret.NeverDropsForRange` | TDG/Assets/Scripts/GlobalRangeTurret.cs:58-62 | the always-in-range check keeps a live target, so the inherited cooldown keeps running |
| `GlobalRangeTurret.TwoBulletsInOneFrame` | TDG/Assets/Scripts/GlobalRangeTurret.cs:13-21 | both timers can come due in one frame, firing two bullets at the same target |
| `GlobalRangeTurret.AcquiringFrameMayFire` | TDG/Assets/Scripts/GlobalRangeTurret.cs:11-27 | the frame that acquires a target can fire once, from the extra timer, at the nearest enemy |
| `GlobalRangeTurret.ExtraTimerNeverFiresTwiceInARow` | TDG/Assets/Scripts/GlobalRangeTurret.cs:15-27 | with a positive delay, the extra timer does not fire in two consecutive frames |

## Left out

- Bullet.cs: bullet flight, collision and off-screen clean-up are physics-engine behaviour. Damage is applied through the `Health` component, which is not part of this model. A bullet here is only its target and its turret. The damage is read from the turret at impact.
- FrozenTurret.cs and Frozen_Turret.cs: their slow is a coroutine over a physics cast. Its only state effect, the absolute speed override and reset, is `EnemyMovement.UpdateSpeed` / `ResetSpeed`.
- Tile.cs, Menu.cs, MetricsUI.cs, BuildManager.cs (both copies): hover colours, scenes, UI text and the selected-index holder. A tile's occupancy and tower appear only as `GameManager.Tile`. The selected tower is a parameter of `Plot.ConstructTower`.
- The `StartWave` coroutine's 5-second wait set in `Start` is not simulated: the caller calls `BeginWave` when the wait is over.
- `EnemySpawner.SpawnEnemy`: the prefab lookup `enemyPrefabs[index]` and `Instantiate` are not modelled. The release returns the kind index.
- `RotateTowardsTarget`, `FixedUpdate` velocities, gizmos, cursor and grid visibility in `BuyTower` and placement, and `Destroy` calls are all presentation or physics.
- Singleton set-up (`Awake`, `DontDestroyOnLoad`): each module's state is an explicit value.
- The scene reload on game over is returned as a `gameOver` flag.
- Floating-point time and distance are replaced by integers, as described above.
- C# `int` is 32-bit. The model uses unbounded integers and does not model wrap-around; no counter here comes near the limit in play.
- `GameState.State.totalScore` has no mutator in the source; only its initial value is stated.
- `GameManager.LeftClick`: with no tiles, the source dereferences a null tile and the frame aborts before any write; the model returns the state unchanged.
- `Plot.ConstructTower`: the turret component of the built object is assumed present. `GetComponent<Turret>` returning null is not modelled.
- `EnemyMovement.Start`: requires a non-empty path, since the source reads waypoint 0 unguarded.
- `EnemySpawner.GetEnemyTypeToSpawn`: requires the wave to be in the table, since the source indexes it unguarded. The only caller runs after the spawn guard's lookup of the same key, which throws first when the key is missing.

## Findings

| source | as written | input that shows it | evidently intended | confidence | as-written member | corrected member |
|---|---|---|---|---|---|---|
| TDG/Assets/Scripts/EnemySpawner.cs:90-96 | the spawn guard reads `waveData[currentWave].SpawnInterval` with no `ContainsKey` check, so a wave without a row throws on every frame, before the completion test can end the wave | current wave 21 (the first past the table) once `BeginWave` has run: every `Update` throws and the game never leaves wave 21 | a wave without a row is the zero-enemy wave that `CalculateEnemiesForCurrentWave` announces ("no enemies will be generated"), and it ends at once | medium; not executed | `EnemySpawner.MissingWaveStallsAsWritten` | `EnemySpawner.MissingWaveEndsWithKeyCheck` |

`EnemySpawner.UpdateAsWritten` models the frame as written.
`EnemySpawner.Update` models it with the key check in the spawn guard. The
scheduler invariant and all other lemmas use the corrected `Update`.
