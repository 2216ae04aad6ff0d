/**
  The mutable objects of engine/engine.go: the enemy records, updated in
  place through pointers, and the game that owns them. Each loop and each
  record update is proved to change the state exactly as the matching
  function of module Combat says. The constructor establishes `Game.Valid`
  (distinct records and `Combat.Consistent`); `Update`, `Draw` and
  `RespawnTimerFires` require it and keep it.
 */
module Engine {
  import opened Combat

  /** An enemy record together with the visibility and position of its scene node. */
  class Enemy {
    const name: string
    var hp: int
    var shoted: bool
    var visible: bool
    var pos: Vec3

    /** A freshly created enemy: full health, unmarked, visible at `pos`. */
    constructor (name: string, pos: Vec3)
      ensures State() == EnemyState(name, MaxHP, false, true, pos)
    {
      this.name := name;
      hp := MaxHP;
      shoted := false;
      visible := true;
      this.pos := pos;
    }

    ghost function State(): EnemyState
      reads this
    {
      EnemyState(name, hp, shoted, visible, pos)
    }

    /** One hit: HP drops by 20 while it is positive; nothing else changes. */
    method DelHP()
      modifies this
      ensures State() == old(State()).(hp := Damaged(old(hp)))
    {
      if hp > 0 {
        hp := hp - Damage;
      }
    }

    /** The sweep of one record: a dead enemy gets full health, is unmarked and hidden. */
    method ResetIfDead() returns (died: bool)
      modifies this
      ensures State() == SweepOne(old(State()))
      ensures died == (old(hp) <= 0)
    {
      died := hp <= 0;
      if died {
        hp := MaxHP;
        shoted := false;
        visible := false;
      }
    }
  }

  class Game {
    var enemyList: seq<Enemy>
    var isFire: bool
    var volume: int
    var audioRestarts: nat
    var pendingRespawns: nat

    ghost function States(): seq<EnemyState>
      reads this, enemyList
    {
      seq(|enemyList|, i reads this, enemyList requires 0 <= i < |enemyList| => enemyList[i].State())
    }

    ghost function Snapshot(): GameState
      reads this, enemyList
    {
      GameState(States(), isFire, volume, audioRestarts, pendingRespawns)
    }

    /** The list holds distinct records, and the combat invariant holds. */
    ghost predicate Valid()
      reads this, enemyList
    {
      && (forall i, j :: 0 <= i < j < |enemyList| ==> enemyList[i] != enemyList[j])
      && Consistent(Snapshot())
    }

    /** The game as it starts: enemies en1 and en2, latch clear, sound silent. */
    constructor ()
      ensures Valid()
      ensures forall e :: e in enemyList ==> fresh(e)
      ensures Snapshot() == InitialGame()
    {
      var en1 := new Enemy("en1", Vec3(21, 1, -9));
      var en2 := new Enemy("en2", Vec3(20, 1, 2));
      enemyList := [en1, en2];
      isFire := false;
      volume := InitialVolume;
      audioRestarts := 0;
      pendingRespawns := 0;
      new;
      assert States() == InitialEnemies();
      InitialConsistent();
    }

    /** The shot: every visible, on-screen enemy is hit or missed. */
    method Shoot(screen: seq<ScreenPos>)
      requires |screen| == |enemyList|
      requires forall i, j :: 0 <= i < j < |enemyList| ==> enemyList[i] != enemyList[j]
      modifies enemyList
      ensures States() == FireStep(old(States()), screen)
    {
      ghost var before := States();
      var i := 0;
      while i < |enemyList|
        invariant 0 <= i <= |enemyList|
        invariant forall k :: 0 <= k < i ==> enemyList[k].State() == ShotOutcome(before[k], screen[k])
        invariant forall k :: i <= k < |enemyList| ==> enemyList[k].State() == before[k]
      {
        var v := enemyList[i];
        if v.visible {
          var s := screen[i];
          if InViewport(s) {
            if IsHit(s) {
              v.DelHP();
              v.shoted := true;
            } else {
              v.shoted := false;
            }
          }
        }
        i := i + 1;
      }
    }

    /** The mouse handling of one `Update`. */
    method Update(m: MouseInput, screen: seq<ScreenPos>)
      requires Valid() && |screen| == |enemyList|
      modifies this, enemyList
      ensures enemyList == old(enemyList) && Valid()
      ensures Snapshot() == UpdateFrame(old(Snapshot()), m, screen)
    {
      if m.justPressed {
        Shoot(screen);
        if !isFire {
          volume := FireVolume;
          isFire := true;
          audioRestarts := audioRestarts + 1;
        }
      }
      if m.justReleased {
        isFire := false;
      }
      assert Snapshot() == UpdateFrame(old(Snapshot()), m, screen);
      UpdatePreservesConsistent(old(Snapshot()), m, screen);
    }

    /**
      The game-state part of one `Draw`: the death sweep, one respawn timer
      per death, and what is drawn from the state — the muzzle flash while
      the latch is set and one health bar per marked enemy, as wide as its HP.
     */
    method Draw() returns (muzzleFlash: bool, bars: seq<int>)
      requires Valid()
      modifies this, enemyList
      ensures enemyList == old(enemyList) && Valid()
      ensures Snapshot() == DrawFrame(old(Snapshot()))
      ensures muzzleFlash == isFire
      ensures bars == HealthBars(States())
      ensures forall w :: w in bars ==> 0 < w <= MaxHP
    {
      muzzleFlash := isFire;
      SweepDeaths();
      bars := HealthBarWidths();
      assert Snapshot() == DrawFrame(old(Snapshot()));
      DrawPreservesConsistent(old(Snapshot()));
      DrawnBarsInRange(old(States()));
    }

    /** The HP checks of `Draw`: each dead enemy is reset and hidden, and schedules a respawn. */
    method SweepDeaths()
      requires forall i, j :: 0 <= i < j < |enemyList| ==> enemyList[i] != enemyList[j]
      modifies this`pendingRespawns, enemyList
      ensures States() == Sweep(old(States()))
      ensures pendingRespawns == old(pendingRespawns) + CountDead(old(States()))
    {
      ghost var before := States();
      ghost var after := Sweep(before);
      var deaths := 0;
      var i := 0;
      while i < |enemyList|
        invariant 0 <= i <= |enemyList|
        invariant deaths == CountDead(before[..i]) && pendingRespawns == old(pendingRespawns)
        invariant forall k :: 0 <= k < i ==> enemyList[k].State() == after[k]
        invariant forall k :: i <= k < |enemyList| ==> enemyList[k].State() == before[k]
      {
        CountDeadSnoc(before, i);
        var died := enemyList[i].ResetIfDead();
        if died {
          deaths := deaths + 1;
        }
        i := i + 1;
      }
      assert before[..i] == before;
      pendingRespawns := pendingRespawns + deaths;
    }

    /** The health bars `Draw` draws: one per marked enemy, as wide as its HP. */
    method HealthBarWidths() returns (bars: seq<int>)
      ensures bars == HealthBars(States())
    {
      ghost var es := States();
      bars := [];
      var i := 0;
      while i < |enemyList|
        invariant 0 <= i <= |enemyList| == |es|
        invariant bars == HealthBars(es[..i])
      {
        HealthBarsSnoc(es, i);
        var v := enemyList[i];
        if v.shoted {
          bars := bars + [v.hp];
        }
        i := i + 1;
      }
      assert es[..i] == es;
    }

    /** Every hidden enemy is made visible again, at a position in its lane. */
    method AddDelEm(rs: seq<int>, r1s: seq<int>)
      requires forall i, j :: 0 <= i < j < |enemyList| ==> enemyList[i] != enemyList[j]
      requires ValidDraws(|enemyList|, rs, r1s)
      modifies enemyList
      ensures States() == Respawn(old(States()), rs, r1s)
    {
      ghost var before := States();
      var i := 0;
      while i < |enemyList|
        invariant 0 <= i <= |enemyList|
        invariant forall k :: 0 <= k < i ==> enemyList[k].State() == RespawnOne(before[k], rs[k], r1s[k])
        invariant forall k :: i <= k < |enemyList| ==> enemyList[k].State() == before[k]
      {
        var v := enemyList[i];
        if !v.visible {
          var r, r1 := rs[i], r1s[i];
          if v.name == "en1" {
            v.pos := Vec3(21 + r1, 1, -9 - r);
          } else {
            v.pos := Vec3(20 + r1, 1, 2 - r);
          }
          v.visible := true;
        }
        i := i + 1;
      }
    }

    /** A scheduled respawn timer expires and calls `AddDelEm`. */
    method RespawnTimerFires(rs: seq<int>, r1s: seq<int>)
      requires Valid() && pendingRespawns > 0
      requires ValidDraws(|enemyList|, rs, r1s)
      modifies this, enemyList
      ensures enemyList == old(enemyList) && Valid()
      ensures Snapshot() == RespawnFires(old(Snapshot()), rs, r1s)
    {
      pendingRespawns := pendingRespawns - 1;
      AddDelEm(rs, r1s);
      assert Snapshot() == RespawnFires(old(Snapshot()), rs, r1s);
      RespawnPreservesConsistent(old(Snapshot()), rs, r1s);
    }
  }
}
