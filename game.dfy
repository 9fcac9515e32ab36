/**
 * The `Game` object: the state the game loop owns and the operations that
 * change it in place (`new`, the start of `run`, `update`, `events`).
 */
module GameLoop {
  import opened Entities
  import Spawning
  import Collisions
  import Events

  class Game {
    var health: int      // the player's health
    var pos: Vec         // the player's position
    var playing: bool
    var drawDebug: bool
    var mobs: seq<Mob>   // the `mobs` group, in spawn order
    var walls: seq<Wall> // the `walls` group
    var items: seq<Item> // every item spawned; `alive` marks the ones still in the `items` group

    ghost function Snapshot(): Collisions.State
      reads this
    {
      Collisions.State(health, pos, playing, mobs, items)
    }

    /**
     * Sets up a new game from the map's objects: fresh groups filled in map
     * order, the player (when the map has one) at its object's centre with
     * full health, and the debug overlay off.
     */
    method New(cfg: Config, objs: seq<MapObject>)
      modifies this
      ensures var s := Spawning.Spawn(cfg, objs);
        && mobs == s.mobs && walls == s.walls && items == s.items
        && (s.player == None ==> pos == old(pos) && health == old(health))
        && (s.player.Some? ==> pos == s.player.value && health == cfg.playerHealth)
      ensures !drawDebug && playing == old(playing)
    {
      mobs, walls, items := [], [], [];
      for i := 0 to |objs|
        invariant var s := Spawning.Spawn(cfg, objs[..i]);
          && mobs == s.mobs && walls == s.walls && items == s.items
          && (s.player == None ==> pos == old(pos) && health == old(health))
          && (s.player.Some? ==> pos == s.player.value && health == cfg.playerHealth)
        invariant playing == old(playing)
      {
        var o := objs[i];
        var centre := Spawning.Centre(o);
        if o.name == PlayerName {
          pos, health := centre, cfg.playerHealth;
        }
        if o.name == ThugName {
          mobs := mobs + [Spawning.NewMob(cfg, centre)];
        }
        if o.name == WallName {
          walls := walls + [Spawning.NewWall(o)];
        }
        if o.name == HealthName {
          items := items + [Spawning.NewItem(o)];
        }
        assert objs[..i + 1][..i] == objs[..i];
      }
      assert objs[..|objs|] == objs;
      drawDebug := false;
    }

    /** The start of `run`: the game is playing until the player dies. */
    method StartRun()
      modifies this`playing
      ensures playing
    {
      playing := true;
    }

    /** Collision resolution of one tick, given the overlap tests' results. */
    method Update(cfg: Config, itemHits: seq<nat>, mobHits: seq<nat>, fistOverlaps: set<(nat, nat)>)
      requires Collisions.TickInputs(Snapshot(), itemHits, mobHits, fistOverlaps)
      modifies this
      ensures Snapshot() == Collisions.Tick(cfg, old(Snapshot()), itemHits, mobHits, fistOverlaps)
      ensures walls == old(walls) && drawDebug == old(drawDebug)
    {
      PickUpItems(cfg, itemHits);
      MobsHitPlayer(cfg, mobHits);
      FistsHitMobs(cfg, Collisions.Struck(fistOverlaps));
    }

    /** The player picks up the health packs it touches while below full health. */
    method PickUpItems(cfg: Config, hits: seq<nat>)
      requires Collisions.HitsIn(hits, |items|)
      modifies this`health, this`items
      ensures var r := Collisions.PickUp(cfg, old(health), old(items), hits);
        health == r.health && items == r.items
    {
      for i := 0 to |hits|
        invariant var r := Collisions.PickUp(cfg, old(health), old(items), hits[..i]);
          health == r.health && items == r.items
      {
        var k := hits[i];
        if items[k].kind == HealthName && health < cfg.playerHealth {
          items := items[k := Collisions.Killed(items[k])];
          health := cfg.addHealth(health, cfg.healthPackAmount);
        }
        assert hits[..i + 1][..i] == hits[..i];
      }
      assert hits[..|hits|] == hits;
    }

    /** Colliding mobs damage the player and stop; the first one knocks the player back. */
    method MobsHitPlayer(cfg: Config, hits: seq<nat>)
      requires Collisions.HitsIn(hits, |mobs|)
      modifies this`health, this`playing, this`mobs, this`pos
      ensures var r := Collisions.Strike(cfg, old(health), old(playing), old(mobs), hits);
        health == r.health && playing == r.playing && mobs == r.mobs
      ensures pos == Collisions.Knocked(cfg, old(pos), old(mobs), hits)
    {
      for i := 0 to |hits|
        invariant var r := Collisions.Strike(cfg, old(health), old(playing), old(mobs), hits[..i]);
          health == r.health && playing == r.playing && mobs == r.mobs
        invariant pos == old(pos)
      {
        var k := hits[i];
        health := health - cfg.mobDamage;
        mobs := mobs[k := Collisions.Stopped(mobs[k])];
        if health <= 0 {
          playing := false;
        }
        assert hits[..i + 1][..i] == hits[..i];
      }
      assert hits[..|hits|] == hits;
      if |hits| > 0 {
        pos := Add(pos, Collisions.KnockbackVec(cfg, mobs[hits[0]].rot));
      }
    }

    /** Each mob some fist overlaps takes FIST_DAMAGE and is pushed away, once. */
    method FistsHitMobs(cfg: Config, struck: set<nat>)
      requires forall k :: k in struck ==> k < |mobs|
      modifies this`mobs
      ensures mobs == Collisions.Punch(cfg, old(mobs), struck)
    {
      var rest := struck;
      while rest != {}
        invariant rest <= struck && |mobs| == |old(mobs)|
        invariant forall k :: 0 <= k < |mobs| ==>
          mobs[k] == if k in struck - rest then Collisions.Punched(cfg, old(mobs)[k]) else old(mobs)[k]
        decreases rest
      {
        var k :| k in rest;
        mobs := mobs[k := Collisions.Punched(cfg, mobs[k])];
        rest := rest - {k};
      }
    }

    /**
     * Handles the events of one frame in order: a quit stops everything (the
     * process exits), each "i" press flips the debug overlay.
     */
    method HandleEvents(events: seq<Events.Event>) returns (quit: bool)
      modifies this`drawDebug
      ensures quit == Events.QuitRequested(events)
      ensures drawDebug == Events.DebugAfter(old(drawDebug), events)
    {
      quit := false;
      var i := 0;
      while i < |events| && !quit
        invariant 0 <= i <= |events|
        invariant !quit ==> Events.DebugAfter(old(drawDebug), events) == Events.DebugAfter(drawDebug, events[i..])
        invariant !quit ==> forall j :: 0 <= j < i ==> !Events.IsQuit(events[j])
        invariant quit ==> drawDebug == Events.DebugAfter(old(drawDebug), events) && Events.QuitRequested(events)
      {
        var e := events[i];
        if e == Events.QuitEvent {
          quit := true;
        }
        if e.KeyDown? {
          if e.key == Events.Escape {
            quit := true;
          } else if e.key == Events.KeyI {
            drawDebug := !drawDebug;
          }
        }
        i := i + 1;
      }
    }
  }
}
