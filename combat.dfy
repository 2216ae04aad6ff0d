/**
  The combat rules of the shooter demo, stated on values.

  An enemy is described by an `EnemyState`; the game by a `GameState`. One
  frame of the frame driver is `UpdateFrame` (the fire block of `Game.Update`)
  followed by `DrawFrame` (the HP sweep of `Game.Draw`); a respawn timer that
  expires is `RespawnFires` (the delayed call of `Game.AddDelEm`). The classes
  in module Engine are proved to do exactly what these functions say.
 */
module Combat {

  const ScreenWidth: int := 796
  const ScreenHeight: int := 448
  /** HP every enemy starts with and is reset to after dying. */
  const MaxHP: int := 48
  /** HP taken off by one hit. */
  const Damage: int := 20
  /** The reticle (the `firePos` of the game) in screen coordinates. */
  const ReticleX: real := 338.0
  const ReticleY: real := 184.0
  const HitRadius: real := 50.0
  /** Audio volume set when a shot starts the gun sound, and the one at start-up. */
  const FireVolume: int := 2
  const InitialVolume: int := 0

  /** A screen position as the camera's projection yields it. */
  datatype ScreenPos = ScreenPos(x: real, y: real)

  /** A world position; the code only ever places enemies at whole coordinates. */
  datatype Vec3 = Vec3(x: int, y: int, z: int)

  /** One enemy: its record (`name`, `hp`, `shoted`) and its scene node (`visible`, `pos`). */
  datatype EnemyState = EnemyState(name: string, hp: int, shoted: bool, visible: bool, pos: Vec3)

  /** The mouse edges the input layer reports for the left button in one frame. */
  datatype MouseInput = MouseInput(justPressed: bool, justReleased: bool)

  /**
    The game state the combat rules read and write. `audioRestarts` counts the
    restarts of the gun sound; `pendingRespawns` counts the respawn timers that
    are scheduled and have not yet fired.
   */
  datatype GameState = GameState(
    enemies: seq<EnemyState>,
    isFire: bool,
    volume: int,
    audioRestarts: nat,
    pendingRespawns: nat)

  // ---------------------------------------------------------------- damage

  /** HP after one `DelHP`: it only subtracts while HP is positive and never clamps. */
  function Damaged(hp: int): (r: int)
    ensures r <= hp
    ensures r < hp <==> hp > 0
    ensures hp > 0 ==> r > -Damage
  {
    if hp > 0 then hp - Damage else hp
  }

  /** HP after `n` consecutive hits: never more than 20 off per hit, and a dead enemy stays put. */
  function HPAfterHits(hp: int, n: nat): (res: int)
    ensures hp - Damage * n <= res <= hp
    ensures hp <= 0 ==> res == hp
  {
    if n == 0 then hp else Damaged(HPAfterHits(hp, n - 1))
  }

  /**
    Hits on a living enemy subtract 20 each until HP first drops to zero or
    below; it then stays put, somewhere in (-20, 0]. A dead enemy is not
    affected at all.
   */
  lemma {:induction false} HitsToKill(hp: int, n: nat)
    ensures hp <= 0 ==> HPAfterHits(hp, n) == hp
    ensures hp > 0 && Damage * n < hp ==> HPAfterHits(hp, n) == hp - Damage * n
    ensures hp > 0 && Damage * n >= hp ==> -Damage < HPAfterHits(hp, n) <= 0
  {
    if n > 0 {
      HitsToKill(hp, n - 1);
    }
  }

  /** From full health: 48, 28, 8, and the third hit leaves -12. */
  lemma FullHealthDiesOnThirdHit()
    ensures HPAfterHits(MaxHP, 1) == 28
    ensures HPAfterHits(MaxHP, 2) == 8 > 0
    ensures HPAfterHits(MaxHP, 3) == -12
  {
  }

  // ---------------------------------------------------------------- hit test

  /**
    The viewport test, inclusive on both ends of both axes. The whole hit
    disc around the reticle passes it, so the test never keeps a position
    that would be a hit from counting.
   */
  predicate InViewport(s: ScreenPos): (res: bool)
    ensures SqDistToReticle(s) < HitRadius * HitRadius ==> res
  {
    HitNearReticle(s);
    0.0 <= s.x <= ScreenWidth as real && 0.0 <= s.y <= ScreenHeight as real
  }

  function SqDistToReticle(s: ScreenPos): (res: real)
    ensures res >= 0.0
  {
    var dx, dy := s.x - ReticleX, s.y - ReticleY;
    assert dx * dx >= 0.0 && dy * dy >= 0.0;
    dx * dx + dy * dy
  }

  /** Squaring keeps the order of non-negative reals. */
  lemma SquareLess(a: real, b: real)
    requires 0.0 <= a && 0.0 <= b
    ensures a < b ==> a * a < b * b
    ensures b <= a ==> b * b <= a * a
  {
    if a < b {
      calc {
        a * a;
      <= { assert a * (b - a) >= 0.0; }
        a * b;
      < { assert (b - a) * b > 0.0; }
        b * b;
      }
    } else {
      calc {
        b * b;
      <= { assert b * (a - b) >= 0.0; }
        b * a;
      <= { assert (a - b) * a >= 0.0; }
        a * a;
      }
    }
  }

  /** A square below `b * b` has its root strictly between `-b` and `b`. */
  lemma SquareBelow(a: real, b: real)
    requires 0.0 <= b && a * a < b * b
    ensures -b < a < b
  {
    if 0.0 <= a {
      SquareLess(a, b);
    } else {
      assert (-a) * (-a) == a * a;
      SquareLess(-a, b);
    }
  }

  /** A position within the hit radius lies less than 50 from the reticle along each axis. */
  lemma HitNearReticle(s: ScreenPos)
    ensures SqDistToReticle(s) < HitRadius * HitRadius ==>
      -HitRadius < s.x - ReticleX < HitRadius && -HitRadius < s.y - ReticleY < HitRadius
  {
    var dx, dy := s.x - ReticleX, s.y - ReticleY;
    if SqDistToReticle(s) < HitRadius * HitRadius {
      assert SqDistToReticle(s) == dx * dx + dy * dy;
      assert dx * dx >= 0.0 && dy * dy >= 0.0;
      SquareBelow(dx, HitRadius);
      SquareBelow(dy, HitRadius);
    }
  }

  /** The hit test, on the squared distance; every hit is on screen. */
  predicate IsHit(s: ScreenPos): (res: bool)
    ensures res ==> InViewport(s)
    ensures res ==> -HitRadius < s.x - ReticleX < HitRadius && -HitRadius < s.y - ReticleY < HitRadius
  {
    HitNearReticle(s);
    SqDistToReticle(s) < HitRadius * HitRadius
  }

  /**
    The squared-distance test agrees with the source's test on the length of
    the vector from the reticle: whatever non-negative `d` squares to the
    squared distance, the position is a hit exactly when `d` is below 50.
   */
  lemma HitTestIsDistanceTest(s: ScreenPos, d: real)
    requires 0.0 <= d && d * d == SqDistToReticle(s)
    ensures IsHit(s) <==> d < HitRadius
  {
    SquareLess(d, HitRadius);
    assert IsHit(s) == (SqDistToReticle(s) < HitRadius * HitRadius);
  }

  /** What one shot does to one enemy, given where the camera projects it. */
  function ShotOutcome(e: EnemyState, s: ScreenPos): (r: EnemyState)
    ensures r.name == e.name && r.visible == e.visible && r.pos == e.pos
  {
    if e.visible && InViewport(s) then
      if IsHit(s) then e.(hp := Damaged(e.hp), shoted := true)
      else e.(shoted := false)
    else
      e
  }

  /**
    The cases of a shot: a hidden or off-screen enemy is left as it was
    (including its old `shoted`); an eligible enemy is marked by whether it
    was hit, and only a hit on a living enemy changes HP.
   */
  lemma ShotCases(e: EnemyState, s: ScreenPos)
    ensures !(e.visible && InViewport(s)) ==> ShotOutcome(e, s) == e
    ensures e.visible && InViewport(s) ==> ShotOutcome(e, s).shoted == IsHit(s)
    ensures ShotOutcome(e, s).hp != e.hp <==> e.visible && InViewport(s) && IsHit(s) && e.hp > 0
    ensures ShotOutcome(e, s).hp == e.hp || ShotOutcome(e, s).hp == e.hp - Damage
  {
  }

  /**
    At the reticle itself a visible enemy is hit; exactly 50 units to the
    right it is missed; the far corner of the screen is still on screen and
    a position just past it is not.
   */
  lemma HitBoundaries(e: EnemyState)
    requires e.visible
    ensures ShotOutcome(e, ScreenPos(338.0, 184.0)) == e.(hp := Damaged(e.hp), shoted := true)
    ensures ShotOutcome(e, ScreenPos(388.0, 184.0)) == e.(shoted := false)
    ensures InViewport(ScreenPos(796.0, 448.0)) && !InViewport(ScreenPos(796.5, 448.0))
  {
  }

  /** One shot applied to the whole enemy list, enemy by enemy. */
  function FireStep(es: seq<EnemyState>, screen: seq<ScreenPos>): (r: seq<EnemyState>)
    requires |screen| == |es|
    ensures |r| == |es|
    ensures forall i :: 0 <= i < |es| ==>
      r[i].name == es[i].name && r[i].visible == es[i].visible && r[i].pos == es[i].pos
    ensures CountHidden(r) == CountHidden(es)
  {
    var r := seq(|es|, i requires 0 <= i < |es| => ShotOutcome(es[i], screen[i]));
    CountHiddenSameVisibility(r, es);
    r
  }

  /**
    Enemies are processed independently: what a shot does to enemy `i`
    depends on nothing but enemy `i` and its own screen position.
   */
  lemma FireStepIndependent(es: seq<EnemyState>, screen: seq<ScreenPos>,
                            es': seq<EnemyState>, screen': seq<ScreenPos>, i: int)
    requires |screen| == |es| && |screen'| == |es'|
    requires 0 <= i < |es| && i < |es'|
    requires es[i] == es'[i] && screen[i] == screen'[i]
    ensures FireStep(es, screen)[i] == FireStep(es', screen')[i] == ShotOutcome(es[i], screen[i])
  {
  }

  // ---------------------------------------------------------------- update

  /**
    The mouse part of one `Update`: on a press, the shot and the latch; on a
    release, the latch is cleared.
   */
  function UpdateFrame(g: GameState, m: MouseInput, screen: seq<ScreenPos>): (r: GameState)
    requires |screen| == |g.enemies|
    ensures |r.enemies| == |g.enemies|
    ensures r.pendingRespawns == g.pendingRespawns
    ensures CountHidden(r.enemies) == CountHidden(g.enemies)
    ensures g.audioRestarts <= r.audioRestarts <= g.audioRestarts + 1
    ensures m.justReleased ==> !r.isFire
  {
    var fired :=
      if !m.justPressed then g
      else if g.isFire then g.(enemies := FireStep(g.enemies, screen))
      else g.(enemies := FireStep(g.enemies, screen), isFire := true,
              volume := FireVolume, audioRestarts := g.audioRestarts + 1);
    if m.justReleased then fired.(isFire := false) else fired
  }

  /** A frame without a press changes no enemy and does not touch the sound. */
  lemma NoPressNoChange(g: GameState, m: MouseInput, screen: seq<ScreenPos>)
    requires |screen| == |g.enemies| && !m.justPressed
    ensures UpdateFrame(g, m, screen).enemies == g.enemies
    ensures UpdateFrame(g, m, screen).audioRestarts == g.audioRestarts
    ensures UpdateFrame(g, m, screen).volume == g.volume
  {
  }

  /**
    The `IsFire` latch: a press while it is clear sets it and restarts the
    sound exactly once; a press while it is set leaves it and the sound
    alone; a release clears it; with neither it keeps its value.
   */
  lemma FireLatch(g: GameState, m: MouseInput, screen: seq<ScreenPos>)
    requires |screen| == |g.enemies|
    ensures var r := UpdateFrame(g, m, screen);
      && (m.justPressed ==> r.enemies == FireStep(g.enemies, screen))
      && r.audioRestarts == g.audioRestarts + (if m.justPressed && !g.isFire then 1 else 0)
      && r.volume == (if m.justPressed && !g.isFire then FireVolume else g.volume)
      && r.isFire == (!m.justReleased && (m.justPressed || g.isFire))
  {
  }

  // ---------------------------------------------------------------- death sweep

  /** The sweep of one enemy: a dead one is reset to full health and hidden. */
  function SweepOne(e: EnemyState): (r: EnemyState)
    ensures r.name == e.name && r.pos == e.pos && r.hp > 0
    ensures r.visible ==> r == e
    ensures r != e ==> r.hp == MaxHP && !r.shoted && !r.visible
  {
    if e.hp <= 0 then e.(hp := MaxHP, shoted := false, visible := false) else e
  }

  function Sweep(es: seq<EnemyState>): (r: seq<EnemyState>)
    ensures |r| == |es|
    ensures forall i :: 0 <= i < |es| ==> r[i].hp > 0 && (r[i].visible ==> r[i] == es[i])
  {
    seq(|es|, i requires 0 <= i < |es| => SweepOne(es[i]))
  }

  /** The number of dead enemies: each schedules one respawn timer. */
  function CountDead(es: seq<EnemyState>): (res: nat)
    ensures res <= |es|
  {
    if es == [] then 0
    else CountDead(es[..|es| - 1]) + (if es[|es| - 1].hp <= 0 then 1 else 0)
  }

  /** The number of hidden enemies. */
  function CountHidden(es: seq<EnemyState>): (res: nat)
    ensures res <= |es|
  {
    if es == [] then 0
    else CountHidden(es[..|es| - 1]) + (if es[|es| - 1].visible then 0 else 1)
  }

  /** The widths of the health bars drawn, in list order: the HP of every shot enemy. */
  function HealthBars(es: seq<EnemyState>): (res: seq<int>)
    ensures |res| <= |es|
    ensures forall w :: w in res ==> exists i :: 0 <= i < |es| && es[i].shoted && es[i].hp == w
  {
    if es == [] then []
    else HealthBars(es[..|es| - 1]) + (if es[|es| - 1].shoted then [es[|es| - 1].hp] else [])
  }

  /** Extending a prefix by one enemy adds that enemy's death, if any. */
  lemma CountDeadSnoc(es: seq<EnemyState>, i: int)
    requires 0 <= i < |es|
    ensures CountDead(es[..i + 1]) == CountDead(es[..i]) + (if es[i].hp <= 0 then 1 else 0)
  {
    assert es[..i + 1][..i] == es[..i];
  }

  /** Extending a prefix by one enemy adds that enemy's bar, if it is marked. */
  lemma HealthBarsSnoc(es: seq<EnemyState>, i: int)
    requires 0 <= i < |es|
    ensures HealthBars(es[..i + 1]) == HealthBars(es[..i]) + (if es[i].shoted then [es[i].hp] else [])
  {
    assert es[..i + 1][..i] == es[..i];
  }

  /** The draw step's changes to the game: the sweep, and one timer per death. */
  function DrawFrame(g: GameState): (r: GameState)
    ensures |r.enemies| == |g.enemies|
    ensures forall i :: 0 <= i < |r.enemies| ==> r.enemies[i].hp > 0
    ensures g.pendingRespawns <= r.pendingRespawns <= g.pendingRespawns + |g.enemies|
    ensures r.isFire == g.isFire && r.volume == g.volume && r.audioRestarts == g.audioRestarts
  {
    g.(enemies := Sweep(g.enemies), pendingRespawns := g.pendingRespawns + CountDead(g.enemies))
  }

  lemma {:induction false} CountDeadZeroIff(es: seq<EnemyState>)
    ensures CountDead(es) == 0 <==> forall i :: 0 <= i < |es| ==> es[i].hp > 0
  {
    if es != [] {
      var init := es[..|es| - 1];
      CountDeadZeroIff(init);
      assert forall i :: 0 <= i < |init| ==> init[i] == es[i];
    }
  }

  lemma {:induction false} CountHiddenZeroIff(es: seq<EnemyState>)
    ensures CountHidden(es) == 0 <==> forall i :: 0 <= i < |es| ==> es[i].visible
  {
    if es != [] {
      var init := es[..|es| - 1];
      CountHiddenZeroIff(init);
      assert forall i :: 0 <= i < |init| ==> init[i] == es[i];
    }
  }

  /** Two lists that agree on who is visible have as many hidden enemies. */
  lemma {:induction false} CountHiddenSameVisibility(a: seq<EnemyState>, b: seq<EnemyState>)
    requires |a| == |b|
    requires forall i :: 0 <= i < |a| ==> a[i].visible == b[i].visible
    ensures CountHidden(a) == CountHidden(b)
  {
    if a != [] {
      CountHiddenSameVisibility(a[..|a| - 1], b[..|b| - 1]);
    }
  }

  /**
    The sweep hides exactly the dead enemies, provided no hidden enemy is
    dead: afterwards the hidden count has grown by the number of deaths.
   */
  lemma {:induction false} CountHiddenAfterSweep(es: seq<EnemyState>)
    requires forall i :: 0 <= i < |es| && !es[i].visible ==> es[i].hp > 0
    ensures CountHidden(Sweep(es)) == CountHidden(es) + CountDead(es)
  {
    if es != [] {
      var init := es[..|es| - 1];
      assert Sweep(es)[..|es| - 1] == Sweep(init);
      CountHiddenAfterSweep(init);
    }
  }

  /**
    The sweep's outcome: dead enemies are reset to full health, unmarked
    and hidden, living ones are untouched, and afterwards nobody is dead,
    so a second sweep schedules nothing.
   */
  lemma SweepOutcome(es: seq<EnemyState>)
    ensures forall i :: 0 <= i < |es| && es[i].hp <= 0 ==>
      Sweep(es)[i] == es[i].(hp := MaxHP, shoted := false, visible := false)
    ensures forall i :: 0 <= i < |es| && es[i].hp > 0 ==> Sweep(es)[i] == es[i]
    ensures forall i :: 0 <= i < |es| ==> Sweep(es)[i].hp > 0
    ensures CountDead(Sweep(es)) == 0
  {
    CountDeadZeroIff(Sweep(es));
  }

  /** Drawing twice in a row is drawing once: a death schedules one respawn. */
  lemma DrawIdempotent(g: GameState)
    ensures DrawFrame(DrawFrame(g)) == DrawFrame(g)
  {
    SweepOutcome(g.enemies);
    assert Sweep(Sweep(g.enemies)) == Sweep(g.enemies);
  }

  lemma {:induction false} HealthBarsBounded(es: seq<EnemyState>)
    requires forall i :: 0 <= i < |es| ==> 0 < es[i].hp <= MaxHP
    ensures forall w :: w in HealthBars(es) ==> 0 < w <= MaxHP
  {
    if es != [] {
      var init := es[..|es| - 1];
      assert forall i :: 0 <= i < |init| ==> init[i] == es[i];
      HealthBarsBounded(init);
    }
  }

  /** Every health bar the draw step draws has a positive width of at most 48. */
  lemma DrawnBarsInRange(es: seq<EnemyState>)
    requires WellFormed(es)
    ensures forall w :: w in HealthBars(Sweep(es)) ==> 0 < w <= MaxHP
  {
    HealthBarsBounded(Sweep(es));
  }

  // ---------------------------------------------------------------- respawn

  /** Where `AddDelEm` puts an enemy, given the two random draws `r` and `r1`. */
  function RespawnPos(name: string, r: int, r1: int): (res: Vec3)
    ensures 0 <= r < 3 && 0 <= r1 < 10 ==> InLane(name, res)
  {
    if name == "en1" then Vec3(21 + r1, 1, -9 - r) else Vec3(20 + r1, 1, 2 - r)
  }

  /** The draws of `rand.Intn(3)` and `rand.Intn(10)`, one pair per enemy. */
  predicate ValidDraws(n: int, rs: seq<int>, r1s: seq<int>)
  {
    |rs| == n && |r1s| == n &&
    forall i :: 0 <= i < n ==> 0 <= rs[i] < 3 && 0 <= r1s[i] < 10
  }

  /** Where the game first places an enemy; also where the draws (0, 0) put it. */
  function LaneOrigin(name: string): (res: Vec3)
  {
    if name == "en1" then Vec3(21, 1, -9) else Vec3(20, 1, 2)
  }

  /** The lane an enemy lives in: the box of positions its respawn may pick. */
  predicate InLane(name: string, p: Vec3)
  {
    var o := LaneOrigin(name);
    p.y == o.y && o.x <= p.x <= o.x + 9 && o.z - 2 <= p.z <= o.z
  }

  /** The lane is exactly the set of positions some pair of draws reaches. */
  lemma InLaneIffReachable(name: string, p: Vec3)
    ensures InLane(name, p) <==>
      exists r, r1 :: 0 <= r < 3 && 0 <= r1 < 10 && p == RespawnPos(name, r, r1)
  {
    var o := LaneOrigin(name);
    if InLane(name, p) {
      var r, r1 := o.z - p.z, p.x - o.x;
      assert p == RespawnPos(name, r, r1);
    }
  }

  function RespawnOne(e: EnemyState, r: int, r1: int): (res: EnemyState)
    ensures res.name == e.name && res.hp == e.hp && res.shoted == e.shoted && res.visible
    ensures e.visible ==> res == e
  {
    if e.visible then e else e.(visible := true, pos := RespawnPos(e.name, r, r1))
  }

  function Respawn(es: seq<EnemyState>, rs: seq<int>, r1s: seq<int>): (r: seq<EnemyState>)
    requires |rs| == |es| && |r1s| == |es|
    ensures |r| == |es|
    ensures forall i :: 0 <= i < |es| ==> r[i].visible && (es[i].visible ==> r[i] == es[i])
    ensures forall i :: 0 <= i < |es| ==> r[i].name == es[i].name && r[i].hp == es[i].hp
  {
    seq(|es|, i requires 0 <= i < |es| => RespawnOne(es[i], rs[i], r1s[i]))
  }

  /**
    One respawn brings back every hidden enemy, whichever death scheduled it,
    each to its own lane; visible enemies keep their place; nobody's HP or
    mark changes.
   */
  lemma RespawnOutcome(es: seq<EnemyState>, rs: seq<int>, r1s: seq<int>)
    requires ValidDraws(|es|, rs, r1s)
    ensures forall i :: 0 <= i < |es| && es[i].visible ==> Respawn(es, rs, r1s)[i] == es[i]
    ensures forall i :: 0 <= i < |es| && !es[i].visible ==>
      Respawn(es, rs, r1s)[i] == es[i].(visible := true, pos := RespawnPos(es[i].name, rs[i], r1s[i]))
    ensures forall i :: 0 <= i < |es| ==> InLane(es[i].name, RespawnPos(es[i].name, rs[i], r1s[i]))
    ensures CountHidden(Respawn(es, rs, r1s)) == 0
  {
    CountHiddenZeroIff(Respawn(es, rs, r1s));
  }

  /** A timer that fires when nobody is hidden (another timer came first) does nothing. */
  lemma LateRespawnIsNoOp(es: seq<EnemyState>, rs: seq<int>, r1s: seq<int>)
    requires |rs| == |es| && |r1s| == |es|
    requires CountHidden(es) == 0
    ensures Respawn(es, rs, r1s) == es
  {
    CountHiddenZeroIff(es);
  }

  /** An expired timer: one fewer pending, and `AddDelEm`. */
  function RespawnFires(g: GameState, rs: seq<int>, r1s: seq<int>): (r: GameState)
    requires g.pendingRespawns > 0
    requires |rs| == |g.enemies| && |r1s| == |g.enemies|
    ensures |r.enemies| == |g.enemies| && r.pendingRespawns == g.pendingRespawns - 1
    ensures CountHidden(r.enemies) == 0
    ensures r.isFire == g.isFire && r.volume == g.volume && r.audioRestarts == g.audioRestarts
  {
    CountHiddenZeroIff(Respawn(g.enemies, rs, r1s));
    g.(enemies := Respawn(g.enemies, rs, r1s), pendingRespawns := g.pendingRespawns - 1)
  }

  // ---------------------------------------------------------------- invariant

  /**
    What holds of every enemy at every point between operations: HP is at
    most 48 and above -20 (it is not floored at 0), a hidden enemy is at
    full health and unmarked, and the enemy is in its lane.
   */
  predicate EnemyOk(e: EnemyState)
  {
    && -Damage < e.hp <= MaxHP
    && (!e.visible ==> e.hp == MaxHP && !e.shoted)
    && InLane(e.name, e.pos)
  }

  predicate WellFormed(es: seq<EnemyState>)
  {
    forall i :: 0 <= i < |es| ==> EnemyOk(es[i])
  }

  /** The game invariant: every hidden enemy has a respawn timer waiting for it. */
  predicate Consistent(g: GameState)
  {
    WellFormed(g.enemies) && CountHidden(g.enemies) <= g.pendingRespawns
  }

  /** The two enemies the game creates, visible at full health at their lanes' origins. */
  function InitialEnemies(): (res: seq<EnemyState>)
  {
    [EnemyState("en1", MaxHP, false, true, LaneOrigin("en1")),
     EnemyState("en2", MaxHP, false, true, LaneOrigin("en2"))]
  }

  function InitialGame(): (res: GameState)
  {
    GameState(InitialEnemies(), false, InitialVolume, 0, 0)
  }

  lemma InitialConsistent()
    ensures Consistent(InitialGame())
  {
  }

  lemma UpdatePreservesConsistent(g: GameState, m: MouseInput, screen: seq<ScreenPos>)
    requires Consistent(g) && |screen| == |g.enemies|
    ensures Consistent(UpdateFrame(g, m, screen))
  {
    var r := UpdateFrame(g, m, screen);
    if m.justPressed {
      var es := FireStep(g.enemies, screen);
      assert r.enemies == es;
      forall i | 0 <= i < |es| ensures EnemyOk(es[i]) {
        assert EnemyOk(g.enemies[i]);
      }
      CountHiddenSameVisibility(es, g.enemies);
    }
  }

  lemma DrawPreservesConsistent(g: GameState)
    requires Consistent(g)
    ensures Consistent(DrawFrame(g))
  {
    assert forall i :: 0 <= i < |g.enemies| ==> EnemyOk(g.enemies[i]);
    CountHiddenAfterSweep(g.enemies);
  }

  lemma RespawnPreservesConsistent(g: GameState, rs: seq<int>, r1s: seq<int>)
    requires Consistent(g) && g.pendingRespawns > 0
    requires ValidDraws(|g.enemies|, rs, r1s)
    ensures Consistent(RespawnFires(g, rs, r1s))
  {
    RespawnOutcome(g.enemies, rs, r1s);
    var es := Respawn(g.enemies, rs, r1s);
    forall i | 0 <= i < |es| ensures EnemyOk(es[i]) {
      assert EnemyOk(g.enemies[i]);
    }
  }

  // ---------------------------------------------------------------- frames

  /** One frame of the frame driver: `Update`, then `Draw`. */
  function Frame(g: GameState, m: MouseInput, screen: seq<ScreenPos>): (r: GameState)
    requires |screen| == |g.enemies|
    ensures |r.enemies| == |g.enemies|
  {
    DrawFrame(UpdateFrame(g, m, screen))
  }

  /** A run of frames, with no respawn timer expiring in between. */
  function RunFrames(g: GameState, ms: seq<MouseInput>, screens: seq<seq<ScreenPos>>): (res: GameState)
    requires |screens| == |ms|
    requires forall k :: 0 <= k < |screens| ==> |screens[k]| == |g.enemies|
    ensures |res.enemies| == |g.enemies|
    decreases |ms|
  {
    if ms == [] then g
    else RunFrames(Frame(g, ms[0], screens[0]), ms[1..], screens[1..])
  }

  /**
    Frames without a press only sweep: after the first of them the enemy list
    is the swept one and stays so, and the sound is never restarted.
   */
  lemma {:induction false} NoPressFrames(g: GameState, ms: seq<MouseInput>, screens: seq<seq<ScreenPos>>)
    requires |screens| == |ms|
    requires forall k :: 0 <= k < |screens| ==> |screens[k]| == |g.enemies|
    requires forall k :: 0 <= k < |ms| ==> !ms[k].justPressed
    ensures RunFrames(g, ms, screens).enemies == if ms == [] then g.enemies else Sweep(g.enemies)
    ensures RunFrames(g, ms, screens).audioRestarts == g.audioRestarts
    decreases |ms|
  {
    if ms != [] {
      var g' := Frame(g, ms[0], screens[0]);
      assert g'.enemies == Sweep(g.enemies);
      NoPressFrames(g', ms[1..], screens[1..]);
      SweepOutcome(g.enemies);
      assert Sweep(g'.enemies) == g'.enemies;
    }
  }

  /**
    A held trigger fires once: when only the first of a run of frames has a
    press, the enemies end as one shot and one sweep leave them, and the
    sound is restarted at most once.
   */
  lemma HeldTriggerFiresOnce(g: GameState, ms: seq<MouseInput>, screens: seq<seq<ScreenPos>>)
    requires |screens| == |ms| && ms != [] && ms[0].justPressed
    requires forall k :: 0 <= k < |screens| ==> |screens[k]| == |g.enemies|
    requires forall k :: 1 <= k < |ms| ==> !ms[k].justPressed
    ensures RunFrames(g, ms, screens).enemies == Sweep(FireStep(g.enemies, screens[0]))
    ensures RunFrames(g, ms, screens).audioRestarts <= g.audioRestarts + 1
  {
    var g' := Frame(g, ms[0], screens[0]);
    NoPressFrames(g', ms[1..], screens[1..]);
    SweepOutcome(FireStep(g.enemies, screens[0]));
    var swept := Sweep(FireStep(g.enemies, screens[0]));
    assert Sweep(swept) == swept;
  }
}
