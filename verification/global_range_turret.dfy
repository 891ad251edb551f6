/** The unlimited-range turret (GlobalRangeTurret.cs): it targets the nearest
    enemy in the whole scene, always reports its target in range, and runs a
    second fire timer next to the inherited cooldown. Distances are squared
    integer distances, which order enemies as the Euclidean ones do. */
module GlobalRangeTurret {

  import opened Wrappers
  import Selection
  import Turret

  /** An enemy in the scene and its distance to the turret, in scene order. */
  datatype Candidate = Candidate(enemy: Turret.EnemyId, distance: nat)

  datatype State = State(base: Turret.State, fireTimer: nat)

  datatype Tick = Tick(state: State, bullets: seq<Turret.Bullet>)

  /** The serialized default fire delay, 2 s. */
  const DefaultFireDelay: nat := 200

  function Distances(enemies: seq<Candidate>): (ds: seq<nat>)
    ensures |ds| == |enemies|
    ensures forall k :: 0 <= k < |enemies| ==> ds[k] == enemies[k].distance
  {
    seq(|enemies|, k requires 0 <= k < |enemies| => enemies[k].distance)
  }

  /** The nearest enemy's position in scene order, the earliest on ties. */
  function Nearest(enemies: seq<Candidate>): (k: nat)
    requires |enemies| > 0
    ensures k < |enemies|
    ensures forall j :: 0 <= j < |enemies| ==> enemies[k].distance <= enemies[j].distance
    ensures forall j :: 0 <= j < k ==> enemies[k].distance < enemies[j].distance
  {
    Selection.FirstMin(Distances(enemies))
  }

  /** Nearest-enemy acquisition; with no enemy in the scene nothing is assigned. */
  function FindTarget(enemies: seq<Candidate>): (r: Option<Turret.EnemyId>)
    ensures |enemies| == 0 <==> r.None?
    ensures |enemies| > 0 ==> r == Some(enemies[Nearest(enemies)].enemy)
  {
    if |enemies| > 0 then Some(enemies[Nearest(enemies)].enemy) else None
  }

  /** The override: the target is in range exactly when there is one. */
  predicate CheckTargetInRange(targetPresent: bool)
  {
    targetPresent
  }

  /** The inherited frame, then the extra timer: while the turret ends the
      base frame with a target, the timer either fires and restarts, or
      advances by dt. */
  function Update(cfg: Turret.Config, fireDelay: nat, s: State, dt: nat,
                  enemies: seq<Candidate>, targetAlive: bool): (r: Tick)
    ensures Turret.HasTarget(s.base, targetAlive) ==> r.state.base.target == s.base.target
    ensures !Turret.HasTarget(s.base, targetAlive) && |enemies| == 0 ==>
              r.state == s && r.bullets == []
    ensures !Turret.HasTarget(s.base, targetAlive) && |enemies| > 0 ==>
              r.state.base.target == Some(enemies[Nearest(enemies)].enemy)
    ensures |r.bullets| <= 2
    ensures r.state.fireTimer == 0 || r.state.fireTimer == s.fireTimer
            || r.state.fireTimer == s.fireTimer + dt
  {
    var present := Turret.HasTarget(s.base, targetAlive);
    var b := Turret.Step(cfg, s.base, dt, targetAlive, FindTarget(enemies), CheckTargetInRange(present));
    if b.holding then
      if s.fireTimer >= fireDelay then
        Tick(State(b.state, 0), b.bullets + [Turret.Shoot(cfg, b.state)])
      else Tick(State(b.state, s.fireTimer + dt), b.bullets)
    else Tick(State(b.state, s.fireTimer), b.bullets)
  }

  /** With a target at the end of the base frame, the extra timer fires and
      restarts exactly when it has reached the delay, and otherwise only
      advances; never both in one frame. The extra bullet goes to the target
      the base frame ends with. */
  lemma ExtraTimerFiresOrAdvances(cfg: Turret.Config, fireDelay: nat, s: State, dt: nat,
                                  enemies: seq<Candidate>, targetAlive: bool)
    requires Turret.HasTarget(s.base, targetAlive) || |enemies| > 0
    ensures var r := Update(cfg, fireDelay, s, dt, enemies, targetAlive);
            var base := Turret.Step(cfg, s.base, dt, targetAlive, FindTarget(enemies),
                                    CheckTargetInRange(Turret.HasTarget(s.base, targetAlive)));
            && r.state.base == base.state && base.state.target.Some?
            && (s.fireTimer >= fireDelay ==>
                  r.state.fireTimer == 0 && r.bullets == base.bullets + [Turret.Shoot(cfg, base.state)])
            && (s.fireTimer < fireDelay ==>
                  r.state.fireTimer == s.fireTimer + dt && r.bullets == base.bullets)
  {
  }

  /** A live target is never dropped for range, so the inherited cooldown
      always runs alongside the extra timer. */
  lemma NeverDropsForRange(cfg: Turret.Config, fireDelay: nat, s: State, dt: nat,
                           enemies: seq<Candidate>)
    requires s.base.target.Some?
    ensures var r := Update(cfg, fireDelay, s, dt, enemies, true);
            && r.state.base.target == s.base.target
            && (s.base.timeUntilFire + dt >= cfg.fireInterval ==> r.state.base.timeUntilFire == 0)
            && (s.base.timeUntilFire + dt < cfg.fireInterval ==>
                  r.state.base.timeUntilFire == s.base.timeUntilFire + dt)
  {
  }

  /** Both timers can come due in the same frame, giving two bullets at the
      same target: with the default delay and a 1 s fire interval, a frame
      that completes the cooldown while the extra timer is due fires twice. */
  lemma TwoBulletsInOneFrame(cfg: Turret.Config, e: Turret.EnemyId)
    requires cfg.fireInterval == 100
    ensures var s := State(Turret.State(Some(e), 90), DefaultFireDelay);
            Update(cfg, DefaultFireDelay, s, 10, [], true).bullets
              == [Turret.Bullet(e, cfg.id), Turret.Bullet(e, cfg.id)]
  {
  }

  /** The frame that acquires a target can already fire from the extra
      timer, although the inherited cooldown never fires on acquisition. */
  lemma AcquiringFrameMayFire(cfg: Turret.Config, fireDelay: nat, s: State, dt: nat,
                              enemies: seq<Candidate>, targetAlive: bool)
    requires !Turret.HasTarget(s.base, targetAlive) && |enemies| > 0 && s.fireTimer >= fireDelay
    ensures Update(cfg, fireDelay, s, dt, enemies, targetAlive).bullets
            == [Turret.Bullet(enemies[Nearest(enemies)].enemy, cfg.id)]
  {
  }

  /** With a positive delay the extra timer never fires in two consecutive frames. */
  lemma ExtraTimerNeverFiresTwiceInARow(cfg: Turret.Config, fireDelay: nat, s: State,
                                        dt1: nat, dt2: nat, enemies: seq<Candidate>)
    requires fireDelay > 0 && s.base.target.Some? && s.fireTimer >= fireDelay
    ensures var r1 := Update(cfg, fireDelay, s, dt1, enemies, true);
            var r2 := Update(cfg, fireDelay, r1.state, dt2, enemies, true);
            r1.state.fireTimer == 0 && r2.state.fireTimer == dt2 && |r2.bullets| <= 1
  {
  }
}
