/** An enemy's progress along the waypoint path (EnemyMovement.cs). The
    physics movement is abstracted: each frame reports whether the enemy is
    within reach of its current waypoint. Speeds are integer speed units. */
module EnemyMovement {

  import GameState
  import EnemySpawner

  /** `pathIndex` is the waypoint the enemy is heading for. */
  datatype Enemy = Enemy(moveSpeed: int, baseSpeed: int, pathIndex: nat)

  /** After a frame the enemy is still on the path, or it has left the end of it. */
  datatype Step = Moving(enemy: Enemy) | Leaked

  /** What a leak does to the ledger and the scheduler. */
  datatype LeakEffect = LeakEffect(state: GameState.State, spawner: EnemySpawner.Spawner, gameOver: bool)

  /** Remembers the configured speed as the base and heads for waypoint 0;
      reading the first waypoint needs a non-empty path. */
  function Start(moveSpeed: int, pathLength: nat): (e: Enemy)
    requires pathLength > 0
    ensures e.baseSpeed == moveSpeed && e.moveSpeed == moveSpeed
    ensures e.pathIndex == 0 && e.pathIndex < pathLength
  {
    Enemy(moveSpeed, moveSpeed, 0)
  }

  /** One frame: on reaching the waypoint, head for the next one, or leak
      when the waypoint was the last. */
  function Update(e: Enemy, pathLength: nat, reached: bool): (r: Step)
    requires e.pathIndex < pathLength
    ensures r.Leaked? <==> reached && e.pathIndex == pathLength - 1
    ensures r.Moving? ==> r.enemy.pathIndex < pathLength
    ensures r.Moving? ==> r.enemy.pathIndex == e.pathIndex + (if reached then 1 else 0)
    ensures r.Moving? ==> r.enemy.moveSpeed == e.moveSpeed && r.enemy.baseSpeed == e.baseSpeed
  {
    if !reached then Moving(e)
    else if e.pathIndex + 1 >= pathLength then Leaked
    else Moving(e.(pathIndex := e.pathIndex + 1))
  }

  /** A leak costs exactly one health (clamped at zero), tells the scheduler
      one enemy fewer is alive, and pays out no coins and no kill. */
  function Leak(gs: GameState.State, sp: EnemySpawner.Spawner): (r: LeakEffect)
    ensures r.state.playerHealth == (if gs.playerHealth - 1 <= 0 then 0 else gs.playerHealth - 1)
    ensures r.gameOver <==> gs.playerHealth <= 1
    ensures r.state.(playerHealth := gs.playerHealth) == gs
    ensures r.spawner.enemiesAlive == sp.enemiesAlive - 1
    ensures r.spawner.(enemiesAlive := sp.enemiesAlive) == sp
  {
    var hurt := GameState.DecreaseHealth(gs, 1);
    LeakEffect(hurt.state, EnemySpawner.EnemyDestroyed(sp), hurt.gameOver)
  }

  /** A leak of a live enemy keeps the ledger valid and the scheduler's
      invariant, even when it ends the game. */
  lemma LeakPreservesInvariants(gs: GameState.State, sp: EnemySpawner.Spawner)
    requires GameState.Valid(gs)
    requires EnemySpawner.Inv(sp, gs.currentWave) && sp.enemiesAlive > 0
    ensures GameState.Valid(Leak(gs, sp).state)
    ensures EnemySpawner.Inv(Leak(gs, sp).spawner, Leak(gs, sp).state.currentWave)
  {
    EnemySpawner.EnemyDestroyedPreservesInv(sp, gs.currentWave);
  }

  /** Sets the speed to `newSpeed` itself, not to a multiple of the current one. */
  function UpdateSpeed(e: Enemy, newSpeed: int): (r: Enemy)
    ensures r.moveSpeed == newSpeed
    ensures r.baseSpeed == e.baseSpeed && r.pathIndex == e.pathIndex
  {
    e.(moveSpeed := newSpeed)
  }

  function ResetSpeed(e: Enemy): (r: Enemy)
    ensures r.moveSpeed == e.baseSpeed
    ensures r.baseSpeed == e.baseSpeed && r.pathIndex == e.pathIndex
  {
    e.(moveSpeed := e.baseSpeed)
  }

  /** Overrides do not stack: the last one wins, and a reset undoes any
      number of them, leaving the enemy exactly as a reset of the original. */
  lemma SpeedOverridesDoNotCompound(e: Enemy, a: int, b: int)
    ensures UpdateSpeed(UpdateSpeed(e, a), b) == UpdateSpeed(e, b)
    ensures ResetSpeed(UpdateSpeed(e, a)) == ResetSpeed(e)
    ensures ResetSpeed(Start(a, 1)) == Start(a, 1)
  {
  }

  // ----- A whole walk -----

  /** The enemy's fate over consecutive frames, `reached[i]` telling whether
      frame i finds it at its waypoint; a leaked enemy is gone for good. */
  function Follow(e: Enemy, pathLength: nat, reached: seq<bool>): Step
    requires e.pathIndex < pathLength
    decreases |reached|
  {
    if |reached| == 0 then Moving(e)
    else match Update(e, pathLength, reached[0])
      case Leaked => Leaked
      case Moving(next) => Follow(next, pathLength, reached[1..])
  }

  /** Number of frames that reached a waypoint. */
  function Count(reached: seq<bool>): nat
  {
    if |reached| == 0 then 0 else (if reached[0] then 1 else 0) + Count(reached[1..])
  }

  /** Over a walk the enemy advances one waypoint per frame that reaches one
      and no other way, and it leaks exactly when it has reached more
      waypoints than remained ahead of it; otherwise its index stays on the path. */
  lemma {:induction false} FollowCountsWaypoints(e: Enemy, pathLength: nat, reached: seq<bool>)
    requires e.pathIndex < pathLength
    ensures Follow(e, pathLength, reached).Leaked? <==> e.pathIndex + Count(reached) >= pathLength
    ensures Follow(e, pathLength, reached).Moving? ==>
              Follow(e, pathLength, reached).enemy.pathIndex == e.pathIndex + Count(reached)
    ensures Follow(e, pathLength, reached).Moving? ==>
              Follow(e, pathLength, reached).enemy.pathIndex < pathLength
    decreases |reached|
  {
    if |reached| > 0 {
      match Update(e, pathLength, reached[0])
      case Leaked =>
        CountPositiveWhenHeadReached(reached);
      case Moving(next) =>
        FollowCountsWaypoints(next, pathLength, reached[1..]);
    }
  }

  lemma CountPositiveWhenHeadReached(reached: seq<bool>)
    requires |reached| > 0 && reached[0]
    ensures Count(reached) >= 1
  {
  }

  /** From the start of a path of `n` waypoints, an enemy leaks exactly on
      the frame that reaches its n-th waypoint. */
  lemma WalkFromStart(moveSpeed: int, pathLength: nat, reached: seq<bool>)
    requires pathLength > 0
    ensures Follow(Start(moveSpeed, pathLength), pathLength, reached).Leaked?
            <==> Count(reached) >= pathLength
  {
    FollowCountsWaypoints(Start(moveSpeed, pathLength), pathLength, reached);
  }
}
