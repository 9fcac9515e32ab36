/**
 * The collision-resolution rules of one tick of `Game.update`, as functions of
 * the state before the tick and the hit lists the overlap tests produced:
 * player picks up items, mobs hit the player, fists hit mobs, in that order.
 */
module Collisions {
  import opened Entities

  /** The part of the game the collision rules read and write. */
  datatype State = State(health: int, pos: Vec, playing: bool, mobs: seq<Mob>, items: seq<Item>)

  /** Every hit names an entity of a group of `n` entities. */
  predicate HitsIn(hits: seq<nat>, n: nat) {
    forall i :: 0 <= i < |hits| ==> hits[i] < n
  }

  predicate Distinct(hits: seq<nat>) {
    forall i, j :: 0 <= i < j < |hits| ==> hits[i] != hits[j]
  }

  // ---------------------------------------------------------------------------
  // Player hits items

  /** The player's health after `n` calls of `add_health(HEALTH_PACK_AMOUNT)`. */
  function HealN(cfg: Config, health: int, n: nat): int {
    if n == 0 then health else cfg.addHealth(HealN(cfg, health, n - 1), cfg.healthPackAmount)
  }

  function Killed(it: Item): Item {
    it.(alive := false)
  }

  /** The outcome of the pickup loop; `picked` lists the items taken, in the order taken. */
  datatype Pickup = Pickup(health: int, items: seq<Item>, picked: seq<nat>)

  /**
   * The pickup loop: an item hit is taken (killed, and the player healed) when
   * it is a health pack and the player's health at that moment is below
   * PLAYER_HEALTH.
   */
  function PickUp(cfg: Config, health: int, items: seq<Item>, hits: seq<nat>): (r: Pickup)
    requires HitsIn(hits, |items|)
    decreases |hits|
    ensures |r.items| == |items|
  {
    if hits == [] then Pickup(health, items, [])
    else
      var r := PickUp(cfg, health, items, hits[..|hits| - 1]);
      var k := hits[|hits| - 1];
      if r.items[k].kind == HealthName && r.health < cfg.playerHealth then
        Pickup(cfg.addHealth(r.health, cfg.healthPackAmount), r.items[k := Killed(r.items[k])], r.picked + [k])
      else r
  }

  /**
   * The health after the pickup loop is one heal per item taken; the items
   * taken are killed and no other item changes.
   */
  lemma {:induction false} PickUpEffect(cfg: Config, health: int, items: seq<Item>, hits: seq<nat>)
    requires HitsIn(hits, |items|)
    ensures var r := PickUp(cfg, health, items, hits);
      && |r.picked| <= |hits|
      && (forall k :: 0 <= k < |items| ==> r.items[k] == if k in r.picked then Killed(items[k]) else items[k])
      && r.health == HealN(cfg, health, |r.picked|)
    decreases |hits|
  {
    if hits != [] {
      var init := hits[..|hits| - 1];
      var k := hits[|hits| - 1];
      PickUpEffect(cfg, health, items, init);
      var before, r := PickUp(cfg, health, items, init), PickUp(cfg, health, items, hits);
      if before.items[k].kind == HealthName && before.health < cfg.playerHealth {
        assert r.picked == before.picked + [k];
        assert r.items == before.items[k := Killed(before.items[k])];
      } else {
        assert r == before;
      }
    }
  }

  /**
   * Every item taken is a health pack that was hit, and was taken while the
   * health, after the pickups before it, was below PLAYER_HEALTH.
   */
  lemma {:induction false} PickUpTaken(cfg: Config, health: int, items: seq<Item>, hits: seq<nat>)
    requires HitsIn(hits, |items|)
    ensures var r := PickUp(cfg, health, items, hits);
      forall j :: 0 <= j < |r.picked| ==>
        && r.picked[j] in hits
        && items[r.picked[j]].kind == HealthName
        && HealN(cfg, health, j) < cfg.playerHealth
    decreases |hits|
  {
    if hits != [] {
      var init := hits[..|hits| - 1];
      var k := hits[|hits| - 1];
      PickUpTaken(cfg, health, items, init);
      PickUpEffect(cfg, health, items, init);
      var before, r := PickUp(cfg, health, items, init), PickUp(cfg, health, items, hits);
      assert forall x :: x in init ==> x in hits;
      if before.items[k].kind == HealthName && before.health < cfg.playerHealth {
        assert r.picked == before.picked + [k];
        assert items[k].kind == HealthName;
      } else {
        assert r == before;
      }
    }
  }

  /**
   * The guard is evaluated per item, after the pickups before it in the same
   * tick: a hit item is taken iff it is a health pack and the health after the
   * earlier hits is below PLAYER_HEALTH.
   */
  lemma {:induction false} PickUpDecision(cfg: Config, health: int, items: seq<Item>, hits: seq<nat>, i: nat)
    requires HitsIn(hits, |items|) && Distinct(hits) && i < |hits|
    ensures hits[i] in PickUp(cfg, health, items, hits).picked <==>
              items[hits[i]].kind == HealthName && PickUp(cfg, health, items, hits[..i]).health < cfg.playerHealth
    decreases |hits|
  {
    var init := hits[..|hits| - 1];
    var last := hits[|hits| - 1];
    var r := PickUp(cfg, health, items, init);
    PickUpTaken(cfg, health, items, init);
    PickUpEffect(cfg, health, items, init);
    if i == |hits| - 1 {
      assert init == hits[..i];
    } else {
      assert init[..i] == hits[..i];
      PickUpDecision(cfg, health, items, init, i);
      assert hits[i] != last;
    }
  }

  /** At full health nothing is picked up: no item is removed and health is unchanged. */
  lemma FullHealthPicksNothing(cfg: Config, health: int, items: seq<Item>, hits: seq<nat>)
    requires HitsIn(hits, |items|) && health >= cfg.playerHealth
    ensures PickUp(cfg, health, items, hits) == Pickup(health, items, [])
  {
    var r := PickUp(cfg, health, items, hits);
    PickUpEffect(cfg, health, items, hits);
    PickUpTaken(cfg, health, items, hits);
    var unhealed := HealN(cfg, health, 0);
    if r.picked != [] {
      assert false;
    }
    assert r.items == items;
  }

  // ---------------------------------------------------------------------------
  // Mobs hit the player

  /** Health after `n` hits of `damage` each, with no clamping. */
  function HealthAfter(health: int, damage: int, n: nat): int {
    health - damage * n
  }

  function Stopped(m: Mob): Mob {
    m.(vel := Zero)
  }

  datatype Contact = Contact(health: int, playing: bool, mobs: seq<Mob>)

  /**
   * The mob-contact loop: every colliding mob costs the player MOB_DAMAGE and
   * is stopped; the run ends iff the health is at most 0 after one of the
   * decrements. Mobs not in the hit list are untouched.
   */
  function Strike(cfg: Config, health: int, playing: bool, mobs: seq<Mob>, hits: seq<nat>): (r: Contact)
    requires HitsIn(hits, |mobs|)
    decreases |hits|
    ensures r.health == HealthAfter(health, cfg.mobDamage, |hits|)
    ensures |r.mobs| == |mobs|
    ensures forall k :: 0 <= k < |mobs| ==> r.mobs[k] == if k in hits then Stopped(mobs[k]) else mobs[k]
    ensures r.playing <==> playing && forall n :: 1 <= n <= |hits| ==> HealthAfter(health, cfg.mobDamage, n) > 0
  {
    if hits == [] then Contact(health, playing, mobs)
    else
      var r := Strike(cfg, health, playing, mobs, hits[..|hits| - 1]);
      var k := hits[|hits| - 1];
      var h := r.health - cfg.mobDamage;
      assert h == HealthAfter(health, cfg.mobDamage, |hits|);
      Contact(h, if h <= 0 then false else r.playing, r.mobs[k := Stopped(r.mobs[k])])
  }

  /** MOB_KNOCKBACK along the x axis, rotated by minus the mob's rotation. */
  function KnockbackVec(cfg: Config, rot: real): Vec {
    cfg.rotate(Vec(cfg.mobKnockback, 0.0), -rot)
  }

  /** One knockback, from the first colliding mob, when any mob collides. */
  function Knocked(cfg: Config, pos: Vec, mobs: seq<Mob>, hits: seq<nat>): Vec
    requires HitsIn(hits, |mobs|)
  {
    if |hits| == 0 then pos else Add(pos, KnockbackVec(cfg, mobs[hits[0]].rot))
  }

  // ---------------------------------------------------------------------------
  // Fists hit mobs

  const FistRepel: Vec := Vec(100.0, 100.0)

  function Punched(cfg: Config, m: Mob): Mob {
    m.(health := m.health - cfg.fistDamage, vel := FistRepel)
  }

  /** The keys of the map `groupcollide(mobs, fists)` returns: each mob overlapping some fist, once. */
  function Struck(overlaps: set<(nat, nat)>): set<nat> {
    set p | p in overlaps :: p.0
  }

  function Punch(cfg: Config, mobs: seq<Mob>, struck: set<nat>): seq<Mob> {
    seq(|mobs|, k requires 0 <= k < |mobs| => if k in struck then Punched(cfg, mobs[k]) else mobs[k])
  }

  /**
   * A mob overlapping any number of fists takes FIST_DAMAGE exactly once and
   * is pushed with velocity (100, 100); a mob overlapping none keeps its
   * health and velocity.
   */
  lemma PunchOncePerMob(cfg: Config, mobs: seq<Mob>, overlaps: set<(nat, nat)>, k: nat)
    requires k < |mobs|
    ensures var after := Punch(cfg, mobs, Struck(overlaps));
      var hit := exists p :: p in overlaps && p.0 == k;
      && |after| == |mobs|
      && after[k].health == mobs[k].health - (if hit then cfg.fistDamage else 0)
      && after[k].vel == (if hit then FistRepel else mobs[k].vel)
      && after[k].pos == mobs[k].pos && after[k].rot == mobs[k].rot
  {
    if exists p :: p in overlaps && p.0 == k {
      var p :| p in overlaps && p.0 == k;
      assert k in Struck(overlaps);
    }
  }

  // ---------------------------------------------------------------------------
  // One tick

  /**
   * What the overlap tests guarantee: every hit names a member of its group,
   * at most once; an item hit is still in the `items` group (not killed).
   */
  predicate TickInputs(s: State, itemHits: seq<nat>, mobHits: seq<nat>, fistOverlaps: set<(nat, nat)>) {
    && HitsIn(itemHits, |s.items|)
    && Distinct(itemHits)
    && (forall i :: 0 <= i < |itemHits| ==> s.items[itemHits[i]].alive)
    && HitsIn(mobHits, |s.mobs|)
    && Distinct(mobHits)
    && forall p :: p in fistOverlaps ==> p.0 < |s.mobs|
  }

  /** Collision resolution for one tick: items, then mob contact, then fists. */
  function Tick(cfg: Config, s: State, itemHits: seq<nat>, mobHits: seq<nat>, fistOverlaps: set<(nat, nat)>): State
    requires TickInputs(s, itemHits, mobHits, fistOverlaps)
  {
    var p := PickUp(cfg, s.health, s.items, itemHits);
    var c := Strike(cfg, p.health, s.playing, s.mobs, mobHits);
    State(c.health, Knocked(cfg, s.pos, s.mobs, mobHits), c.playing, Punch(cfg, c.mobs, Struck(fistOverlaps)), p.items)
  }

  /**
   * Items are resolved before mob contact: the pickups see the health from
   * before this tick's mob hits, and every mob hit then takes MOB_DAMAGE off
   * the health the pickups left, without clamping.
   */
  lemma TickPicksUpFirst(cfg: Config, s: State, itemHits: seq<nat>, mobHits: seq<nat>, fistOverlaps: set<(nat, nat)>)
    requires TickInputs(s, itemHits, mobHits, fistOverlaps)
    ensures var p := PickUp(cfg, s.health, s.items, itemHits);
      var t := Tick(cfg, s, itemHits, mobHits, fistOverlaps);
      && t.items == p.items
      && t.health == HealthAfter(p.health, cfg.mobDamage, |mobHits|)
  {
  }

  /**
   * The player is moved by exactly one knockback when at least one mob
   * collides, taken from the first colliding mob's rotation; otherwise the
   * position is unchanged.
   */
  lemma TickKnockback(cfg: Config, s: State, itemHits: seq<nat>, mobHits: seq<nat>, fistOverlaps: set<(nat, nat)>)
    requires TickInputs(s, itemHits, mobHits, fistOverlaps)
    ensures var t := Tick(cfg, s, itemHits, mobHits, fistOverlaps);
      t.pos == if mobHits == [] then s.pos else Add(s.pos, KnockbackVec(cfg, s.mobs[mobHits[0]].rot))
  {
  }

  /**
   * What a tick does to each mob: a mob hit by a fist loses FIST_DAMAGE once
   * and moves off at (100, 100), even if it also touched the player; a mob
   * that only touched the player stops; any other mob is unchanged. No mob is
   * removed and no mob moves or turns here.
   */
  lemma TickMobs(cfg: Config, s: State, itemHits: seq<nat>, mobHits: seq<nat>, fistOverlaps: set<(nat, nat)>, k: nat)
    requires TickInputs(s, itemHits, mobHits, fistOverlaps) && k < |s.mobs|
    ensures var t := Tick(cfg, s, itemHits, mobHits, fistOverlaps);
      var fisted := exists p :: p in fistOverlaps && p.0 == k;
      && |t.mobs| == |s.mobs|
      && t.mobs[k].health == s.mobs[k].health - (if fisted then cfg.fistDamage else 0)
      && t.mobs[k].vel == (if fisted then FistRepel else if k in mobHits then Zero else s.mobs[k].vel)
      && t.mobs[k].pos == s.mobs[k].pos && t.mobs[k].rot == s.mobs[k].rot
  {
    var p := PickUp(cfg, s.health, s.items, itemHits);
    var c := Strike(cfg, p.health, s.playing, s.mobs, mobHits);
    PunchOncePerMob(cfg, c.mobs, fistOverlaps, k);
  }

  /**
   * The knockback depends on the first colliding mob only: two ticks whose
   * mob hits both start with the same mob move the player by the same vector,
   * however many other mobs hit in either.
   */
  lemma KnockbackFromFirstOnly(cfg: Config, s: State, itemHits: seq<nat>, mobHits: seq<nat>, fistOverlaps: set<(nat, nat)>,
                               itemHits': seq<nat>, mobHits': seq<nat>, fistOverlaps': set<(nat, nat)>)
    requires TickInputs(s, itemHits, mobHits, fistOverlaps) && TickInputs(s, itemHits', mobHits', fistOverlaps')
    requires mobHits != [] && mobHits' != [] && mobHits[0] == mobHits'[0]
    ensures Tick(cfg, s, itemHits, mobHits, fistOverlaps).pos == Tick(cfg, s, itemHits', mobHits', fistOverlaps').pos
    ensures Tick(cfg, s, itemHits, mobHits, fistOverlaps).pos != s.pos <==> KnockbackVec(cfg, s.mobs[mobHits[0]].rot) != Zero
  {
  }

  /**
   * The pickup loop only takes items it was given as hits: when every hit is
   * still alive, an item that is already killed is never taken.
   */
  lemma KilledNotTaken(cfg: Config, health: int, items: seq<Item>, hits: seq<nat>, k: nat)
    requires HitsIn(hits, |items|) && (forall i :: 0 <= i < |hits| ==> items[hits[i]].alive)
    requires k < |items| && !items[k].alive
    ensures k !in PickUp(cfg, health, items, hits).picked
  {
    var r := PickUp(cfg, health, items, hits);
    PickUpTaken(cfg, health, items, hits);
    forall x | x in r.picked ensures x in hits {
      var j :| 0 <= j < |r.picked| && r.picked[j] == x;
      assert HealN(cfg, health, j) < cfg.playerHealth;
    }
    if k in r.picked {
      assert false;
    }
  }

  /**
   * A health pack taken in one tick is killed, so no later tick can take it
   * again: the overlap tests only report packs still in the `items` group.
   */
  lemma PackTakenOnce(cfg: Config, s: State, itemHits: seq<nat>, mobHits: seq<nat>, fistOverlaps: set<(nat, nat)>,
                      k: nat, itemHits': seq<nat>, mobHits': seq<nat>, fistOverlaps': set<(nat, nat)>)
    requires TickInputs(s, itemHits, mobHits, fistOverlaps)
    requires k in PickUp(cfg, s.health, s.items, itemHits).picked
    ensures var t := Tick(cfg, s, itemHits, mobHits, fistOverlaps);
      && k < |t.items| && !t.items[k].alive
      && (TickInputs(t, itemHits', mobHits', fistOverlaps') ==> k !in PickUp(cfg, t.health, t.items, itemHits').picked)
  {
    PickUpEffect(cfg, s.health, s.items, itemHits);
    PickUpTaken(cfg, s.health, s.items, itemHits);
    var p := PickUp(cfg, s.health, s.items, itemHits);
    var j :| 0 <= j < |p.picked| && p.picked[j] == k;
    assert p.picked[j] in itemHits;
    var t := Tick(cfg, s, itemHits, mobHits, fistOverlaps);
    assert t.items == p.items;
    if TickInputs(t, itemHits', mobHits', fistOverlaps') {
      KilledNotTaken(cfg, t.health, t.items, itemHits', k);
    }
  }

  /** A tick never brings a killed item back: `alive` only goes from true to false. */
  lemma NoRevive(cfg: Config, s: State, itemHits: seq<nat>, mobHits: seq<nat>, fistOverlaps: set<(nat, nat)>, k: nat)
    requires TickInputs(s, itemHits, mobHits, fistOverlaps) && k < |s.items|
    ensures var t := Tick(cfg, s, itemHits, mobHits, fistOverlaps);
      |t.items| == |s.items| && (t.items[k].alive ==> s.items[k].alive)
  {
    PickUpEffect(cfg, s.health, s.items, itemHits);
  }

  /** The overlap-test results of one tick. */
  datatype Overlaps = Overlaps(itemHits: seq<nat>, mobHits: seq<nat>, fistOverlaps: set<(nat, nat)>)

  /** Every tick of the run gets results the overlap tests could give on the state it starts from. */
  predicate RunInputs(cfg: Config, s: State, run: seq<Overlaps>)
    decreases |run|
  {
    run == [] ||
      (&& TickInputs(s, run[0].itemHits, run[0].mobHits, run[0].fistOverlaps)
       && RunInputs(cfg, Tick(cfg, s, run[0].itemHits, run[0].mobHits, run[0].fistOverlaps), run[1..]))
  }

  /** The state after the ticks of `run`, first to last. */
  function Run(cfg: Config, s: State, run: seq<Overlaps>): State
    requires RunInputs(cfg, s, run)
    decreases |run|
  {
    if run == [] then s
    else Run(cfg, Tick(cfg, s, run[0].itemHits, run[0].mobHits, run[0].fistOverlaps), run[1..])
  }

  /** A killed item stays killed, however many ticks follow. */
  lemma {:induction false} StaysKilled(cfg: Config, s: State, run: seq<Overlaps>, k: nat)
    requires RunInputs(cfg, s, run) && k < |s.items| && !s.items[k].alive
    ensures var t := Run(cfg, s, run); k < |t.items| && !t.items[k].alive
    decreases |run|
  {
    if run != [] {
      NoRevive(cfg, s, run[0].itemHits, run[0].mobHits, run[0].fistOverlaps, k);
      StaysKilled(cfg, Tick(cfg, s, run[0].itemHits, run[0].mobHits, run[0].fistOverlaps), run[1..], k);
    }
  }

  /**
   * A health pack taken in one tick is never taken again: not in the tick
   * after it, nor in a tick any number of ticks later.
   */
  lemma PackNeverRetaken(cfg: Config, s: State, taken: Overlaps, k: nat, run: seq<Overlaps>, later: Overlaps)
    requires TickInputs(s, taken.itemHits, taken.mobHits, taken.fistOverlaps)
    requires k in PickUp(cfg, s.health, s.items, taken.itemHits).picked
    requires var t := Tick(cfg, s, taken.itemHits, taken.mobHits, taken.fistOverlaps);
      RunInputs(cfg, t, run) && TickInputs(Run(cfg, t, run), later.itemHits, later.mobHits, later.fistOverlaps)
    ensures var u := Run(cfg, Tick(cfg, s, taken.itemHits, taken.mobHits, taken.fistOverlaps), run);
      k !in PickUp(cfg, u.health, u.items, later.itemHits).picked
  {
    var t := Tick(cfg, s, taken.itemHits, taken.mobHits, taken.fistOverlaps);
    PackTakenOnce(cfg, s, taken.itemHits, taken.mobHits, taken.fistOverlaps, k, later.itemHits, later.mobHits, later.fistOverlaps);
    StaysKilled(cfg, t, run, k);
    var u := Run(cfg, t, run);
    KilledNotTaken(cfg, u.health, u.items, later.itemHits, k);
  }

  /** A tick never sets `playing` back to true. */
  lemma TickNeverRestarts(cfg: Config, s: State, itemHits: seq<nat>, mobHits: seq<nat>, fistOverlaps: set<(nat, nat)>)
    requires TickInputs(s, itemHits, mobHits, fistOverlaps) && !s.playing
    ensures !Tick(cfg, s, itemHits, mobHits, fistOverlaps).playing
  {
  }

  /**
   * With a non-negative MOB_DAMAGE, a running game stops in this tick iff a
   * mob collided and the health after all mob hits is at most 0.
   */
  lemma {:induction false} TickDeath(cfg: Config, s: State, itemHits: seq<nat>, mobHits: seq<nat>, fistOverlaps: set<(nat, nat)>)
    requires TickInputs(s, itemHits, mobHits, fistOverlaps) && cfg.mobDamage >= 0
    ensures var t := Tick(cfg, s, itemHits, mobHits, fistOverlaps);
      t.playing <==> s.playing && (mobHits == [] || t.health > 0)
  {
    var p := PickUp(cfg, s.health, s.items, itemHits);
    var n := |mobHits|;
    forall m | 1 <= m <= n
      ensures HealthAfter(p.health, cfg.mobDamage, m) >= HealthAfter(p.health, cfg.mobDamage, n)
    {
      DamageGrows(cfg.mobDamage, m, n);
    }
  }

  lemma DamageGrows(damage: int, m: nat, n: nat)
    requires damage >= 0 && m <= n
    ensures damage * m <= damage * n
  {
    assert damage * n - damage * m == damage * (n - m);
  }

  /**
   * The tick does not clamp health: one mob hit on a player with 5 health
   * leaves -5 when MOB_DAMAGE is 10.
   */
  lemma HealthCanGoNegative(cfg: Config, mob: Mob)
    requires cfg.mobDamage == 10
    ensures var s := State(5, Zero, true, [mob], []);
      var t := Tick(cfg, s, [], [0], {});
      t.health == -5 && !t.playing
  {
    var s := State(5, Zero, true, [mob], []);
    assert Strike(cfg, 5, true, [mob], [0]).health == -5;
  }
}
