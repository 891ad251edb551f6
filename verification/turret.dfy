/** The base turret's per-frame state machine (Turret.cs): acquire a target
    when it has none, drop it when it leaves range, otherwise accumulate the
    cooldown and fire when it reaches the fire interval. The physics queries
    become inputs (the circle cast's hits, the target's distance), Unity's
    "destroyed object compares equal to null" becomes a liveness flag, and
    times are in centiseconds. Aiming (RotateTowardsTarget) has no effect on
    this state and is not modelled. */
module Turret {

  import opened Wrappers

  type EnemyId = nat
  type TurretId = nat

  /** A fired bullet: the target handed to it and the turret it came from. */
  datatype Bullet = Bullet(target: EnemyId, turret: TurretId)

  /** `range` is compared with the target's distance in the same units;
      `fireInterval` is 1 / fireRate. */
  datatype Config = Config(id: TurretId, range: nat, fireInterval: nat)

  datatype State = State(target: Option<EnemyId>, timeUntilFire: nat)

  /** What the scene reports this frame: the enemies the range cast hits, in
      cast order, whether the stored target still exists, and its distance. */
  datatype Scene = Scene(hits: seq<EnemyId>, targetAlive: bool, targetDistance: nat)

  /** A frame's outcome: the state after it, the bullets fired, and whether
      the turret ends the frame with a live target. */
  datatype Tick = Tick(state: State, bullets: seq<Bullet>, holding: bool)

  /** Whether `target != null` holds: a reference is stored and its enemy still exists. */
  predicate HasTarget(s: State, targetAlive: bool)
  {
    s.target.Some? && targetAlive
  }

  /** The base acquisition: the first enemy the cast hits; with no hit the
      target is left as it was (None). */
  function FindTarget(hits: seq<EnemyId>): (r: Option<EnemyId>)
    ensures |hits| > 0 <==> r.Some?
    ensures r.Some? ==> r.value == hits[0]
  {
    if |hits| > 0 then Some(hits[0]) else None
  }

  /** The inclusive range bound. */
  predicate CheckTargetInRange(cfg: Config, distance: nat)
  {
    distance <= cfg.range
  }

  /** A bullet handed the current target and this turret. */
  function Shoot(cfg: Config, s: State): (b: Bullet)
    requires s.target.Some?
    ensures b.target == s.target.value && b.turret == cfg.id
  {
    Bullet(s.target.value, cfg.id)
  }

  /** The virtual Update, given the variant's acquisition (`acquired`, None
      when FindTarget assigns nothing) and its range verdict (`inRange`). */
  function Step(cfg: Config, s: State, dt: nat, targetAlive: bool,
                acquired: Option<EnemyId>, inRange: bool): (r: Tick)
    ensures !HasTarget(s, targetAlive) ==>
              && r.bullets == [] && r.state.timeUntilFire == s.timeUntilFire
              && r.state.target == (if acquired.Some? then acquired else s.target)
              && (r.holding <==> acquired.Some?)
    ensures HasTarget(s, targetAlive) && !inRange ==>
              r.state == State(None, s.timeUntilFire) && r.bullets == [] && !r.holding
    ensures HasTarget(s, targetAlive) && inRange ==>
              && r.holding && r.state.target == s.target
              && (s.timeUntilFire + dt >= cfg.fireInterval ==>
                    r.state.timeUntilFire == 0 && r.bullets == [Shoot(cfg, s)])
              && (s.timeUntilFire + dt < cfg.fireInterval ==>
                    r.state.timeUntilFire == s.timeUntilFire + dt && r.bullets == [])
    ensures r.holding ==> r.state.target.Some?
    ensures |r.bullets| <= 1
  {
    if !HasTarget(s, targetAlive) then
      Tick(if acquired.Some? then s.(target := acquired) else s, [], acquired.Some?)
    else if !inRange then
      Tick(s.(target := None), [], false)
    else
      var t := s.timeUntilFire + dt;
      if t >= cfg.fireInterval then Tick(s.(timeUntilFire := 0), [Shoot(cfg, s)], true)
      else Tick(s.(timeUntilFire := t), [], true)
  }

  /** The base turret's frame. */
  function Update(cfg: Config, s: State, dt: nat, scene: Scene): (r: Tick)
    ensures !HasTarget(s, scene.targetAlive) ==> r.bullets == [] && r.state.timeUntilFire == s.timeUntilFire
    ensures !HasTarget(s, scene.targetAlive) && |scene.hits| > 0 ==> r.state.target == Some(scene.hits[0])
    ensures !HasTarget(s, scene.targetAlive) && |scene.hits| == 0 ==> r.state == s
    ensures HasTarget(s, scene.targetAlive) && scene.targetDistance > cfg.range ==>
              r.state.target.None? && r.state.timeUntilFire == s.timeUntilFire && r.bullets == []
    ensures HasTarget(s, scene.targetAlive) && scene.targetDistance <= cfg.range ==>
              && r.state.target == s.target
              && (|r.bullets| == 1 <==> s.timeUntilFire + dt >= cfg.fireInterval)
              && (|r.bullets| == 1 ==> r.state.timeUntilFire == 0 && r.bullets[0] == Bullet(s.target.value, cfg.id))
              && (|r.bullets| == 0 ==> r.state.timeUntilFire == s.timeUntilFire + dt)
    ensures |r.bullets| <= 1
  {
    Step(cfg, s, dt, scene.targetAlive, FindTarget(scene.hits), CheckTargetInRange(cfg, scene.targetDistance))
  }

  /** The cooldown never reaches the fire interval between frames: a turret
      that starts below it stays below it whatever the frame brings. */
  lemma CooldownStaysBelowInterval(cfg: Config, s: State, dt: nat, scene: Scene)
    requires 0 < cfg.fireInterval && s.timeUntilFire < cfg.fireInterval
    ensures Update(cfg, s, dt, scene).state.timeUntilFire < cfg.fireInterval
  {
  }

  /** A target that leaves range is dropped in that frame, and the next frame
      only looks for a new one: two frames, no bullet. */
  lemma OutOfRangeCostsTwoQuietFrames(cfg: Config, s: State, dt1: nat, dt2: nat, scene1: Scene, scene2: Scene)
    requires HasTarget(s, scene1.targetAlive) && scene1.targetDistance > cfg.range
    ensures var r1 := Update(cfg, s, dt1, scene1);
            var r2 := Update(cfg, r1.state, dt2, scene2);
            r1.bullets == [] && r2.bullets == [] && r2.state.timeUntilFire == s.timeUntilFire
  {
  }
}
