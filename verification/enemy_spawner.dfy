/** The wave scheduler (EnemySpawner.cs). Times are in centiseconds: the
    per-frame `Time.deltaTime` becomes a natural-number `dt`, and the table's
    spawn intervals (1.0 s down to 0.1 s) are exact at that resolution. */
module EnemySpawner {

  import opened Wrappers
  import GameState

  /** One wave's row: how many enemies of each kind are still to be released,
      in kind order, and the spawn interval. The counts are consumed in place. */
  datatype WaveData = WaveData(enemyCounts: seq<nat>, spawnInterval: nat)

  type WaveTable = map<int, WaveData>

  datatype Spawner = Spawner(
    waveData: WaveTable,
    timeSinceLastSpawn: nat,
    enemiesAlive: int,
    enemiesLeftToSpawn: int,
    isSpawning: bool)

  /** The exception a dictionary lookup of a missing wave raises. */
  datatype Fault = KeyNotFound(wave: int)

  /** What one frame produced: the scheduler and ledger after it, and the kind
      of the enemy released in it, if any. */
  datatype Frame = Frame(spawner: Spawner, state: GameState.State, spawned: Option<nat>)

  /** A frame cut short by an exception keeps the writes made before the throw. */
  datatype Abort = Abort(fault: Fault, spawner: Spawner)

  /** Result of releasing one enemy. */
  datatype Spawned = Spawned(kind: nat, spawner: Spawner)

  /** Result of picking a kind from a wave's counts. */
  datatype Release = Release(kind: nat, remaining: seq<nat>)

  /** The rows of the static table, wave 1 first: counts of kinds 0, 1, 2 and
      the spawn interval. */
  const Rows: seq<WaveData> := [
    WaveData([10, 0, 0], 100),
    WaveData([15, 5, 0], 90),
    WaveData([20, 10, 5], 80),
    WaveData([25, 15, 10], 75),
    WaveData([30, 20, 15], 70),
    WaveData([35, 25, 20], 65),
    WaveData([40, 30, 25], 60),
    WaveData([45, 35, 30], 55),
    WaveData([50, 40, 35], 50),
    WaveData([55, 45, 40], 45),
    WaveData([60, 50, 45], 40),
    WaveData([65, 55, 50], 35),
    WaveData([70, 60, 55], 30),
    WaveData([75, 65, 60], 25),
    WaveData([80, 70, 65], 20),
    WaveData([85, 75, 70], 18),
    WaveData([90, 80, 75], 16),
    WaveData([95, 85, 80], 14),
    WaveData([100, 90, 85], 12),
    WaveData([110, 100, 90], 10)
  ]

  /** The row of wave `w`. */
  function RowOf(w: int): WaveData
    requires 1 <= w <= 20
  {
    Rows[w - 1]
  }

  /** The table keyed by wave number, 1 to 20. */
  function InitializeWaveData(): (t: WaveTable)
    ensures forall w :: w in t <==> 1 <= w <= 20
  {
    map w | 1 <= w <= 20 :: RowOf(w)
  }

  /** The scheduler as Awake leaves it: the table loaded, nothing in flight. */
  function Initial(): (sp: Spawner)
    ensures sp.waveData == InitializeWaveData()
    ensures !sp.isSpawning && sp.enemiesAlive == 0 && sp.enemiesLeftToSpawn == 0
    ensures sp.timeSinceLastSpawn == 0
  {
    Spawner(InitializeWaveData(), 0, 0, 0, false)
  }

  // ----- Enemy counts -----

  function Sum(counts: seq<nat>): nat
  {
    if |counts| == 0 then 0 else counts[0] + Sum(counts[1..])
  }

  lemma {:induction false} SumUpdate(counts: seq<nat>, i: nat, v: nat)
    requires i < |counts|
    ensures Sum(counts[i := v]) == Sum(counts) - counts[i] + v
    decreases |counts|
  {
    if i > 0 {
      assert counts[i := v][1..] == counts[1..][i - 1 := v];
      SumUpdate(counts[1..], i - 1, v);
    }
  }

  lemma {:induction false} SumZero(counts: seq<nat>)
    ensures Sum(counts) == 0 <==> forall i :: 0 <= i < |counts| ==> counts[i] == 0
    decreases |counts|
  {
    if |counts| > 0 {
      SumZero(counts[1..]);
      if Sum(counts) == 0 {
        forall i | 0 <= i < |counts| ensures counts[i] == 0 {
          if i > 0 { assert counts[i] == counts[1..][i - 1]; }
        }
      } else if counts[0] == 0 {
        var j :| 0 <= j < |counts[1..]| && counts[1..][j] != 0;
        assert counts[j + 1] != 0;
      }
    }
  }

  /** The lowest index at or after `from` whose count is positive. */
  function FirstAvailable(counts: seq<nat>, from: nat): (r: Option<nat>)
    requires from <= |counts|
    ensures r.Some? ==> from <= r.value < |counts| && counts[r.value] > 0
    ensures r.Some? ==> forall j :: from <= j < r.value ==> counts[j] == 0
    ensures r.None? ==> forall j :: from <= j < |counts| ==> counts[j] == 0
    decreases |counts| - from
  {
    if from == |counts| then None
    else if counts[from] > 0 then Some(from)
    else FirstAvailable(counts, from + 1)
  }

  /** The selection loop of GetEnemyTypeToSpawn on one wave's counts: the
      first kind with enemies left is released and its count decremented;
      with nothing left, kind 0 comes back and nothing changes. */
  function TakeKind(counts: seq<nat>): (r: Release)
    ensures |r.remaining| == |counts|
    ensures Sum(counts) > 0 ==> r.kind < |counts| && counts[r.kind] > 0
    ensures Sum(counts) > 0 ==> forall j :: 0 <= j < r.kind ==> counts[j] == 0
    ensures Sum(counts) > 0 ==> r.remaining[r.kind] == counts[r.kind] - 1
    ensures forall j :: 0 <= j < |counts| && j != r.kind ==> r.remaining[j] == counts[j]
    ensures Sum(counts) > 0 ==> Sum(r.remaining) == Sum(counts) - 1
    ensures Sum(counts) == 0 ==> r.kind == 0 && r.remaining == counts
  {
    SumZero(counts);
    match FirstAvailable(counts, 0)
    case None => Release(0, counts)
    case Some(i) =>
      SumUpdate(counts, i, counts[i] - 1);
      Release(i, counts[i := counts[i] - 1])
  }

  /** The kinds a wave releases, in order, when its counts are drained one
      enemy at a time. */
  function Drain(counts: seq<nat>): (kinds: seq<nat>)
    ensures |kinds| == Sum(counts)
    decreases Sum(counts)
  {
    if Sum(counts) == 0 then []
    else [TakeKind(counts).kind] + Drain(TakeKind(counts).remaining)
  }

  function Repeat(k: nat, n: nat): (r: seq<nat>)
    ensures |r| == n && forall i :: 0 <= i < n ==> r[i] == k
  {
    if n == 0 then [] else [k] + Repeat(k, n - 1)
  }

  /** Reference order: `counts[0]` copies of kind `base`, then `counts[1]`
      copies of kind `base + 1`, and so on. */
  function Expand(counts: seq<nat>, base: nat): seq<nat>
    decreases |counts|
  {
    if |counts| == 0 then [] else Repeat(base, counts[0]) + Expand(counts[1..], base + 1)
  }

  predicate NonDecreasing(s: seq<nat>)
  {
    forall i, j :: 0 <= i < j < |s| ==> s[i] <= s[j]
  }

  lemma {:induction false} ExpandZeroPrefix(counts: seq<nat>, i: nat, base: nat)
    requires i <= |counts|
    requires forall j :: 0 <= j < i ==> counts[j] == 0
    ensures Expand(counts, base) == Expand(counts[i..], base + i)
    decreases i
  {
    if i == 0 {
      assert counts[0..] == counts;
    } else {
      assert counts[0] == 0;
      ExpandZeroPrefix(counts[1..], i - 1, base + 1);
      assert counts[1..][i - 1..] == counts[i..];
    }
  }

  lemma {:induction false} ExpandSorted(counts: seq<nat>, base: nat)
    ensures NonDecreasing(Expand(counts, base))
    ensures forall i :: 0 <= i < |Expand(counts, base)| ==>
              base <= Expand(counts, base)[i] < base + |counts|
    decreases |counts|
  {
    if |counts| > 0 {
      ExpandSorted(counts[1..], base + 1);
    }
  }

  /** Releasing kind `i`, the first kind with enemies left, takes the head
      off the reference order. */
  lemma {:induction false} ExpandTake(counts: seq<nat>, i: nat)
    requires i < |counts| && counts[i] > 0
    requires forall j :: 0 <= j < i ==> counts[j] == 0
    ensures Expand(counts, 0) == [i] + Expand(counts[i := counts[i] - 1], 0)
  {
    var rest := counts[i := counts[i] - 1];
    var c := counts[i];
    var tail := counts[i + 1..];
    var after := Expand(tail, i + 1);
    ExpandZeroPrefix(counts, i, 0);
    ExpandZeroPrefix(rest, i, 0);
    assert counts[i..] == [c] + tail;
    assert rest[i..] == [c - 1] + tail;
    ExpandCons(c, tail, i);
    ExpandCons(c - 1, tail, i);
    assert Expand(counts, 0) == Repeat(i, c) + after;
    assert Expand(rest, 0) == Repeat(i, c - 1) + after;
    assert Repeat(i, c) == [i] + Repeat(i, c - 1);
    assert [i] + Repeat(i, c - 1) + after == [i] + (Repeat(i, c - 1) + after);
  }

  lemma ExpandCons(c: nat, tail: seq<nat>, base: nat)
    ensures Expand([c] + tail, base) == Repeat(base, c) + Expand(tail, base + 1)
  {
    assert ([c] + tail)[1..] == tail;
  }

  /** Draining a wave releases exactly the reference order: kind 0 as many
      times as its count, then kind 1, then kind 2, ... */
  lemma {:induction false} DrainIsExpand(counts: seq<nat>)
    ensures Drain(counts) == Expand(counts, 0)
    decreases Sum(counts)
  {
    if Sum(counts) == 0 {
      SumZero(counts);
      ExpandZeroPrefix(counts, |counts|, 0);
      assert counts[|counts|..] == [];
    } else {
      var r := TakeKind(counts);
      assert Drain(counts) == [r.kind] + Drain(r.remaining);
      DrainIsExpand(r.remaining);
      assert r.remaining == counts[r.kind := counts[r.kind] - 1];
      ExpandTake(counts, r.kind);
    }
  }

  /** Kinds come out in non-decreasing order, each a valid kind index. */
  lemma DrainSorted(counts: seq<nat>)
    ensures NonDecreasing(Drain(counts))
    ensures forall i :: 0 <= i < |Drain(counts)| ==> Drain(counts)[i] < |counts|
  {
    DrainIsExpand(counts);
    ExpandSorted(counts, 0);
  }

  /** The three-kind rows of the table: counts [a, b, c] release a enemies of
      kind 0, then b of kind 1, then c of kind 2. */
  lemma ThreeKindOrder(a: nat, b: nat, c: nat)
    ensures Drain([a, b, c]) == Repeat(0, a) + Repeat(1, b) + Repeat(2, c)
  {
    DrainIsExpand([a, b, c]);
    assert [a, b, c][1..] == [b, c];
    assert [b, c][1..] == [c];
    assert [c][1..] == [];
    assert Expand([c], 2) == Repeat(2, c) + Expand([], 3);
    assert Expand([b, c], 1) == Repeat(1, b) + Expand([c], 2);
    assert Expand([a, b, c], 0) == Repeat(0, a) + Expand([b, c], 1);
  }

  // ----- Scheduler operations -----

  /** The wave's total: the number of enemies its row will release, or zero
      when the table has no row for it. */
  function CalculateEnemiesForCurrentWave(sp: Spawner, wave: int): (n: nat)
    ensures wave in sp.waveData ==> n == |Drain(sp.waveData[wave].enemyCounts)|
    ensures wave !in sp.waveData ==> n == 0
  {
    if wave in sp.waveData then Sum(sp.waveData[wave].enemyCounts) else 0
  }

  /** Releases the next kind of the current wave and consumes it from the
      table; the source indexes the table without a key check, hence the
      requirement. */
  function GetEnemyTypeToSpawn(sp: Spawner, wave: int): (r: Spawned)
    requires wave in sp.waveData
    ensures r.spawner.waveData.Keys == sp.waveData.Keys
    ensures forall w :: w in sp.waveData && w != wave ==> r.spawner.waveData[w] == sp.waveData[w]
    ensures r.spawner.waveData[wave].spawnInterval == sp.waveData[wave].spawnInterval
    ensures var counts := sp.waveData[wave].enemyCounts;
            Sum(counts) > 0 ==>
              && r.kind == Drain(counts)[0]
              && Drain(r.spawner.waveData[wave].enemyCounts) == Drain(counts)[1..]
    ensures var counts := sp.waveData[wave].enemyCounts;
            Sum(counts) == 0 ==> r.kind == 0 && r.spawner == sp
    ensures r.spawner.(waveData := sp.waveData) == sp
  {
    var row := sp.waveData[wave];
    var t := TakeKind(row.enemyCounts);
    Spawned(t.kind, sp.(waveData := sp.waveData[wave := row.(enemyCounts := t.remaining)]))
  }

  /** Spawn guard as written: the interval lookup throws when the wave has no row. */
  function ShouldSpawnNextEnemyAsWritten(sp: Spawner, wave: int): (r: Result<bool, Fault>)
    ensures r.Failure? <==> wave !in sp.waveData
    ensures r.Success? ==> (r.value <==> sp.timeSinceLastSpawn >= sp.waveData[wave].spawnInterval
                                         && sp.enemiesLeftToSpawn > 0)
  {
    if wave !in sp.waveData then Failure(KeyNotFound(wave))
    else Success(sp.timeSinceLastSpawn >= sp.waveData[wave].spawnInterval && sp.enemiesLeftToSpawn > 0)
  }

  /** Spawn guard with the key check the missing-wave path needs: a wave
      without a row has nothing to release. */
  predicate ShouldSpawnNextEnemy(sp: Spawner, wave: int)
  {
    && wave in sp.waveData
    && sp.timeSinceLastSpawn >= sp.waveData[wave].spawnInterval
    && sp.enemiesLeftToSpawn > 0
  }

  /** Releases one enemy: one fewer to spawn, one more alive, timer restarted. */
  function SpawnEnemy(sp: Spawner, wave: int): (r: Spawned)
    requires wave in sp.waveData
    ensures r.spawner.enemiesLeftToSpawn == sp.enemiesLeftToSpawn - 1
    ensures r.spawner.enemiesAlive == sp.enemiesAlive + 1
    ensures r.spawner.timeSinceLastSpawn == 0
    ensures r.spawner.isSpawning == sp.isSpawning
    ensures r.spawner.waveData == GetEnemyTypeToSpawn(sp, wave).spawner.waveData
    ensures r == GetEnemyTypeToSpawn(sp, wave).(spawner := r.spawner)
  {
    var g := GetEnemyTypeToSpawn(sp, wave);
    var s := g.spawner;
    Spawned(g.kind, s.(enemiesLeftToSpawn := s.enemiesLeftToSpawn - 1,
                       enemiesAlive := s.enemiesAlive + 1,
                       timeSinceLastSpawn := 0))
  }

  /** Starts a wave: spawning on, the whole total still to release, timer at zero. */
  function BeginWave(sp: Spawner, wave: int): (r: Spawner)
    ensures r.isSpawning && r.timeSinceLastSpawn == 0
    ensures r.enemiesLeftToSpawn == CalculateEnemiesForCurrentWave(sp, wave)
    ensures r.waveData == sp.waveData && r.enemiesAlive == sp.enemiesAlive
  {
    sp.(isSpawning := true,
        enemiesLeftToSpawn := CalculateEnemiesForCurrentWave(sp, wave),
        timeSinceLastSpawn := 0)
  }

  /** The completion test: nothing alive and nothing left to release. */
  predicate WaveComplete(sp: Spawner)
  {
    sp.enemiesAlive == 0 && sp.enemiesLeftToSpawn == 0
  }

  /** Ends the wave: spawning off, and the ledger's wave advanced by exactly one. */
  function EndWave(sp: Spawner, gs: GameState.State): (r: Frame)
    ensures !r.spawner.isSpawning && r.spawned.None?
    ensures r.state == GameState.IncrementWave(gs)
    ensures r.spawner.(isSpawning := sp.isSpawning) == sp
  {
    Frame(sp.(isSpawning := false), GameState.IncrementWave(gs), None)
  }

  /** The listener for the enemy-destroyed event: one fewer alive. */
  function EnemyDestroyed(sp: Spawner): (r: Spawner)
    ensures r.enemiesAlive == sp.enemiesAlive - 1
    ensures r.(enemiesAlive := sp.enemiesAlive) == sp
  {
    sp.(enemiesAlive := sp.enemiesAlive - 1)
  }

  /** One spawning frame: advance the timer, release an enemy if it is due,
      then end the wave if it is complete. */
  function HandleSpawning(sp: Spawner, gs: GameState.State, dt: nat): Frame
  {
    var ticked := sp.(timeSinceLastSpawn := sp.timeSinceLastSpawn + dt);
    var wave := gs.currentWave;
    var after := if ShouldSpawnNextEnemy(ticked, wave) then SpawnEnemy(ticked, wave) else Spawned(0, ticked);
    var spawned := if ShouldSpawnNextEnemy(ticked, wave) then Some(after.kind) else None;
    if WaveComplete(after.spawner) then EndWave(after.spawner, gs).(spawned := spawned)
    else Frame(after.spawner, gs, spawned)
  }

  /** The scheduler's Update, with the key check in the spawn guard. */
  function Update(sp: Spawner, gs: GameState.State, dt: nat): (r: Frame)
    ensures !sp.isSpawning ==> r == Frame(sp, gs, None)
    ensures r.spawned.Some? ==> sp.isSpawning && sp.enemiesLeftToSpawn > 0
    ensures r.spawned.Some? ==> (gs.currentWave in sp.waveData
            && sp.timeSinceLastSpawn + dt >= sp.waveData[gs.currentWave].spawnInterval)
    ensures r.spawned.Some? ==> r.spawner.enemiesLeftToSpawn == sp.enemiesLeftToSpawn - 1
                                && r.spawner.enemiesAlive == sp.enemiesAlive + 1
                                && r.spawner.timeSinceLastSpawn == 0
    ensures sp.isSpawning && r.spawned.None? ==>
              r.spawner.enemiesLeftToSpawn == sp.enemiesLeftToSpawn
              && r.spawner.enemiesAlive == sp.enemiesAlive
              && r.spawner.waveData == sp.waveData
    ensures sp.enemiesLeftToSpawn >= 0 ==> r.spawner.enemiesLeftToSpawn >= 0
    ensures sp.isSpawning && !r.spawner.isSpawning ==>
              r.spawner.enemiesAlive == 0 && r.spawner.enemiesLeftToSpawn == 0
    ensures sp.isSpawning && !r.spawner.isSpawning ==> r.state == GameState.IncrementWave(gs)
    ensures r.spawner.isSpawning ==> r.state == gs
    ensures sp.isSpawning ==>
              (r.spawned.Some? <==> ShouldSpawnNextEnemy(sp.(timeSinceLastSpawn := sp.timeSinceLastSpawn + dt),
                                                         gs.currentWave))
    ensures sp.isSpawning ==> (!r.spawner.isSpawning <==> WaveComplete(r.spawner))
    ensures sp.isSpawning && r.spawned.None? ==>
              r.spawner.timeSinceLastSpawn == sp.timeSinceLastSpawn + dt
    ensures r.spawned.Some? ==>
              var g := GetEnemyTypeToSpawn(sp, gs.currentWave);
              && r.spawned.value == g.kind
              && r.spawner.waveData == g.spawner.waveData
  {
    if sp.isSpawning then HandleSpawning(sp, gs, dt) else Frame(sp, gs, None)
  }

  /** The scheduler's Update as written: the spawn guard throws when the
      current wave has no row, after the timer has been advanced, and the
      rest of the frame is skipped. */
  function UpdateAsWritten(sp: Spawner, gs: GameState.State, dt: nat): (r: Result<Frame, Abort>)
    ensures r.Failure? <==> sp.isSpawning && gs.currentWave !in sp.waveData
    ensures r.Failure? ==> r.error.spawner.isSpawning
    ensures r.Success? ==> r.value == Update(sp, gs, dt)
  {
    if !sp.isSpawning then Success(Frame(sp, gs, None))
    else
      var ticked := sp.(timeSinceLastSpawn := sp.timeSinceLastSpawn + dt);
      match ShouldSpawnNextEnemyAsWritten(ticked, gs.currentWave)
      case Failure(f) => Failure(Abort(f, ticked))
      case Success(_) => Success(HandleSpawning(sp, gs, dt))
  }

  // ----- Scheduler invariant -----

  /** Counters never negative, and while a wave is spawning the enemies still
      to release are exactly what its row still holds. */
  predicate Inv(sp: Spawner, wave: int)
  {
    && sp.enemiesAlive >= 0
    && sp.enemiesLeftToSpawn >= 0
    && (sp.isSpawning ==> sp.enemiesLeftToSpawn == CalculateEnemiesForCurrentWave(sp, wave))
  }

  lemma BeginWaveEstablishesInv(sp: Spawner, wave: int)
    requires sp.enemiesAlive >= 0
    ensures Inv(BeginWave(sp, wave), wave)
  {
  }

  lemma EnemyDestroyedPreservesInv(sp: Spawner, wave: int)
    requires Inv(sp, wave) && sp.enemiesAlive > 0
    ensures Inv(EnemyDestroyed(sp), wave)
  {
  }

  /** Every frame keeps the invariant, under the wave number the ledger holds after it. */
  lemma UpdatePreservesInv(sp: Spawner, gs: GameState.State, dt: nat)
    requires Inv(sp, gs.currentWave)
    ensures Inv(Update(sp, gs, dt).spawner, Update(sp, gs, dt).state.currentWave)
  {
    var wave := gs.currentWave;
    var ticked := sp.(timeSinceLastSpawn := sp.timeSinceLastSpawn + dt);
    if sp.isSpawning && ShouldSpawnNextEnemy(ticked, wave) {
      var counts := ticked.waveData[wave].enemyCounts;
      var g := GetEnemyTypeToSpawn(ticked, wave);
      assert Sum(counts) > 0;
      assert Sum(g.spawner.waveData[wave].enemyCounts) == Sum(counts) - 1;
    }
  }

  /** A wave whose every enemy has been released has a row of zeros: the
      table is consumed, so running the same wave again releases nothing. */
  lemma ExhaustedWaveIsConsumed(sp: Spawner, wave: int)
    requires Inv(sp, wave) && sp.isSpawning && sp.enemiesLeftToSpawn == 0
    requires wave in sp.waveData
    ensures forall k :: 0 <= k < |sp.waveData[wave].enemyCounts| ==> sp.waveData[wave].enemyCounts[k] == 0
    ensures CalculateEnemiesForCurrentWave(BeginWave(sp, wave), wave) == 0
  {
    SumZero(sp.waveData[wave].enemyCounts);
  }

  /** While a wave is spawning, each release is the next kind of the wave's
      drain order, so a wave releases its kinds exactly in reference order. */
  lemma SpawnFollowsDrainOrder(sp: Spawner, wave: int)
    requires Inv(sp, wave) && sp.isSpawning && sp.enemiesLeftToSpawn > 0
    ensures wave in sp.waveData
    ensures |Expand(sp.waveData[wave].enemyCounts, 0)| == sp.enemiesLeftToSpawn
    ensures var counts := sp.waveData[wave].enemyCounts;
            var r := SpawnEnemy(sp, wave);
            && r.kind == Expand(counts, 0)[0]
            && Drain(r.spawner.waveData[wave].enemyCounts) == Expand(counts, 0)[1..]
  {
    DrainIsExpand(sp.waveData[wave].enemyCounts);
  }

  // ----- The table -----

  /** From wave `w` to the next, no kind's count drops and the spawn
      interval strictly shrinks, staying positive. */
  predicate Escalates(t: WaveTable, w: int)
  {
    && w in t && w + 1 in t
    && |t[w].enemyCounts| == 3 && |t[w + 1].enemyCounts| == 3
    && (forall k :: 0 <= k < 3 ==> t[w].enemyCounts[k] <= t[w + 1].enemyCounts[k])
    && 0 < t[w + 1].spawnInterval < t[w].spawnInterval
  }

  /** The rows, checked pairwise from index `i` on. */
  predicate RowsEscalateFrom(rows: seq<WaveData>, i: nat)
    decreases |rows| - i
  {
    i + 1 >= |rows| ||
    (&& |rows[i].enemyCounts| == 3 && |rows[i + 1].enemyCounts| == 3
     && rows[i].enemyCounts[0] <= rows[i + 1].enemyCounts[0]
     && rows[i].enemyCounts[1] <= rows[i + 1].enemyCounts[1]
     && rows[i].enemyCounts[2] <= rows[i + 1].enemyCounts[2]
     && 0 < rows[i + 1].spawnInterval < rows[i].spawnInterval
     && RowsEscalateFrom(rows, i + 1))
  }

  lemma {:induction false} RowsEscalate(rows: seq<WaveData>, i: nat, j: nat)
    requires RowsEscalateFrom(rows, i) && i <= j && j + 1 < |rows|
    ensures |rows[j].enemyCounts| == 3 && |rows[j + 1].enemyCounts| == 3
    ensures forall k :: 0 <= k < 3 ==> rows[j].enemyCounts[k] <= rows[j + 1].enemyCounts[k]
    ensures 0 < rows[j + 1].spawnInterval < rows[j].spawnInterval
    decreases j - i
  {
    if i < j {
      RowsEscalate(rows, i + 1, j);
    }
  }

  /** The table checked row pair by row pair. The recursion is unrolled
      from the last pair back to the first so that each step unfolds
      `RowsEscalateFrom` only once, which keeps the proof cheap. */
  lemma RowsOfTableEscalate()
    ensures RowsEscalateFrom(Rows, 0)
  {
    assert RowsEscalateFrom(Rows, 19);
    assert RowsEscalateFrom(Rows, 18);
    assert RowsEscalateFrom(Rows, 17);
    assert RowsEscalateFrom(Rows, 16);
    assert RowsEscalateFrom(Rows, 15);
    assert RowsEscalateFrom(Rows, 14);
    assert RowsEscalateFrom(Rows, 13);
    assert RowsEscalateFrom(Rows, 12);
    assert RowsEscalateFrom(Rows, 11);
    assert RowsEscalateFrom(Rows, 10);
    assert RowsEscalateFrom(Rows, 9);
    assert RowsEscalateFrom(Rows, 8);
    assert RowsEscalateFrom(Rows, 7);
    assert RowsEscalateFrom(Rows, 6);
    assert RowsEscalateFrom(Rows, 5);
    assert RowsEscalateFrom(Rows, 4);
    assert RowsEscalateFrom(Rows, 3);
    assert RowsEscalateFrom(Rows, 2);
    assert RowsEscalateFrom(Rows, 1);
    assert RowsEscalateFrom(Rows, 0);
  }

  /** The table covers waves 1 to 20 with three counts each; every kind's
      count grows (weakly) with the wave and the spawn interval shrinks
      strictly, staying positive. */
  lemma TableShape()
    ensures forall w :: w in InitializeWaveData() <==> 1 <= w <= 20
    ensures forall w :: 1 <= w < 20 ==> Escalates(InitializeWaveData(), w)
  {
    var t := InitializeWaveData();
    RowsOfTableEscalate();
    forall w | 1 <= w < 20 ensures Escalates(t, w) {
      RowsEscalate(Rows, 0, w - 1);
      assert t[w] == Rows[w - 1] && t[w + 1] == Rows[w];
    }
  }

  /** The first and last waves of the table, and the first wave past it:
      wave 1 releases 10 enemies of kind 0, wave 20 releases 300 enemies,
      and wave 21 releases none. */
  lemma TableTotals()
    ensures |Drain(InitializeWaveData()[1].enemyCounts)| == 10
    ensures forall i :: 0 <= i < |Drain(InitializeWaveData()[1].enemyCounts)| ==>
              Drain(InitializeWaveData()[1].enemyCounts)[i] == 0
    ensures CalculateEnemiesForCurrentWave(Initial(), 20) == 300
    ensures CalculateEnemiesForCurrentWave(Initial(), 21) == 0
  {
    FirstAndLastRows();
    SingleKindRow(10);
    SumOfThree(110, 100, 90);
  }

  /** A row with only kind 0 releases kind 0 only. */
  lemma SingleKindRow(a: nat)
    ensures Drain([a, 0, 0]) == Repeat(0, a)
  {
    ThreeKindOrder(a, 0, 0);
    assert Repeat(1, 0) == [] && Repeat(2, 0) == [];
    assert Repeat(0, a) + Repeat(1, 0) + Repeat(2, 0) == Repeat(0, a);
  }

  lemma FirstAndLastRows()
    ensures 1 in InitializeWaveData() && InitializeWaveData()[1].enemyCounts == [10, 0, 0]
    ensures 20 in InitializeWaveData() && InitializeWaveData()[20].enemyCounts == [110, 100, 90]
  {
    TableRow(1);
    TableRow(20);
  }

  lemma TableRow(w: int)
    requires 1 <= w <= 20
    ensures w in InitializeWaveData() && InitializeWaveData()[w] == Rows[w - 1]
  {
    var t := InitializeWaveData();
    assert t == map w | 1 <= w <= 20 :: RowOf(w);
    assert t[w] == RowOf(w);
  }

  lemma SumOfThree(a: nat, b: nat, c: nat)
    ensures Sum([a, b, c]) == a + b + c
  {
    assert [a, b, c][1..] == [b, c];
    assert [b, c][1..] == [c];
    assert [c][1..] == [];
    assert Sum([c]) == c;
    assert Sum([b, c]) == b + Sum([c]);
    assert Sum([a, b, c]) == a + Sum([b, c]);
  }

  // ----- The missing-wave defect -----

  /** As written, a wave past the table never ends: once it has begun, every
      frame throws before the completion test, and the wave never advances.
      Wave 21 is the first such wave. */
  lemma MissingWaveStallsAsWritten(sp: Spawner, gs: GameState.State, dt: nat)
    requires sp.isSpawning && gs.currentWave !in sp.waveData
    ensures 21 !in InitializeWaveData()
    ensures UpdateAsWritten(sp, gs, dt).Failure?
    ensures UpdateAsWritten(sp, gs, dt).error.spawner.isSpawning
    ensures UpdateAsWritten(sp, gs, dt).error == Abort(KeyNotFound(gs.currentWave),
                                                      sp.(timeSinceLastSpawn := sp.timeSinceLastSpawn + dt))
  {
  }

  /** With the key check, a wave past the table is the empty wave the warning
      announces: it begins with nothing to release, and the first frame with
      nothing alive ends it and advances the wave. */
  lemma MissingWaveEndsWithKeyCheck(sp: Spawner, gs: GameState.State, dt: nat)
    requires gs.currentWave !in sp.waveData && sp.enemiesAlive == 0
    ensures BeginWave(sp, gs.currentWave).enemiesLeftToSpawn == 0
    ensures var r := Update(BeginWave(sp, gs.currentWave), gs, dt);
            !r.spawner.isSpawning && r.spawned.None? && r.state.currentWave == gs.currentWave + 1
  {
  }
}
