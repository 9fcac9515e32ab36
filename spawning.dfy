/**
 * What `Game.new` makes of the tile map's object layer: the player's start,
 * the mobs, the walls and the items, in the order of the objects.
 */
module Spawning {
  import opened Entities

  /** The centre of an object: `(x + width / 2, y + height / 2)`. */
  function Centre(o: MapObject): Vec {
    Vec(o.x + o.width / 2.0, o.y + o.height / 2.0)
  }

  /** A mob as its constructor leaves it: at rest, unrotated, at full mob health. */
  function NewMob(cfg: Config, at: Vec): Mob {
    Mob(at, Zero, 0.0, cfg.mobHealth)
  }

  /** A wall keeps the object's top-left corner and size; it is not centred. */
  function NewWall(o: MapObject): Wall {
    Wall(o.x, o.y, o.width, o.height)
  }

  /** An item at the object's centre whose kind is the object's name. */
  function NewItem(o: MapObject): Item {
    Item(Centre(o), o.name, true)
  }

  /** The entities spawned so far; `player` is where the last player object put the player. */
  datatype Spawned = Spawned(player: Option<Vec>, mobs: seq<Mob>, walls: seq<Wall>, items: seq<Item>)

  /** One iteration of the spawn loop: dispatch on the object's name; unknown names spawn nothing. */
  function Place(cfg: Config, s: Spawned, o: MapObject): Spawned {
    if o.name == PlayerName then s.(player := Some(Centre(o)))
    else if o.name == ThugName then s.(mobs := s.mobs + [NewMob(cfg, Centre(o))])
    else if o.name == WallName then s.(walls := s.walls + [NewWall(o)])
    else if o.name == HealthName then s.(items := s.items + [NewItem(o)])
    else s
  }

  /** The spawn loop over all objects, first to last. */
  function Spawn(cfg: Config, objs: seq<MapObject>): Spawned
    decreases |objs|
  {
    if objs == [] then Spawned(None, [], [], [])
    else Place(cfg, Spawn(cfg, objs[..|objs| - 1]), objs[|objs| - 1])
  }

  /** The objects with the given name, in map order. */
  function Named(objs: seq<MapObject>, name: string): seq<MapObject>
    decreases |objs|
  {
    if objs == [] then []
    else
      var init := Named(objs[..|objs| - 1], name);
      if objs[|objs| - 1].name == name then init + [objs[|objs| - 1]] else init
  }

  /** The objects whose name the spawner knows, in map order. */
  function Known(objs: seq<MapObject>): seq<MapObject>
    decreases |objs|
  {
    if objs == [] then []
    else
      var init := Known(objs[..|objs| - 1]);
      if IsSpawnName(objs[|objs| - 1].name) then init + [objs[|objs| - 1]] else init
  }

  /**
   * Exactly one mob per "thug" object, one wall per "wall" object and one
   * item per "health" object, each built from its own object and kept in
   * map order.
   */
  lemma {:induction false} SpawnedGroups(cfg: Config, objs: seq<MapObject>)
    ensures var s := Spawn(cfg, objs);
      var thugs, walls, packs := Named(objs, ThugName), Named(objs, WallName), Named(objs, HealthName);
      && |s.mobs| == |thugs|
      && (forall k :: 0 <= k < |thugs| ==> s.mobs[k] == NewMob(cfg, Centre(thugs[k])))
      && |s.walls| == |walls|
      && (forall k :: 0 <= k < |walls| ==> s.walls[k] == NewWall(walls[k]))
      && |s.items| == |packs|
      && (forall k :: 0 <= k < |packs| ==> s.items[k] == NewItem(packs[k]))
    decreases |objs|
  {
    if objs != [] {
      SpawnedGroups(cfg, objs[..|objs| - 1]);
    }
  }

  /**
   * The player is placed iff some object is named "player", and then at the
   * centre of the last such object.
   */
  lemma {:induction false} SpawnedPlayer(cfg: Config, objs: seq<MapObject>)
    ensures var p := Spawn(cfg, objs).player;
      && (p == None <==> forall i :: 0 <= i < |objs| ==> objs[i].name != PlayerName)
      && (p.Some? ==> exists i :: 0 <= i < |objs| && objs[i].name == PlayerName && p.value == Centre(objs[i])
                                  && forall j :: i < j < |objs| ==> objs[j].name != PlayerName)
    decreases |objs|
  {
    if objs != [] {
      var init := objs[..|objs| - 1];
      SpawnedPlayer(cfg, init);
      var p := Spawn(cfg, objs).player;
      if objs[|objs| - 1].name == PlayerName {
        assert p.value == Centre(objs[|objs| - 1]);
      } else {
        assert p == Spawn(cfg, init).player;
        if p.Some? {
          var i :| 0 <= i < |init| && init[i].name == PlayerName && p.value == Centre(init[i])
                   && forall j :: i < j < |init| ==> init[j].name != PlayerName;
          assert objs[i] == init[i];
        }
        assert p == None ==> forall i :: 0 <= i < |objs| ==> objs[i].name != PlayerName by {
          if p == None {
            forall i | 0 <= i < |objs| ensures objs[i].name != PlayerName {
              if i < |init| { assert objs[i] == init[i]; }
            }
          }
        }
      }
    }
  }

  /** Objects with unknown names (another item kind, say) spawn nothing. */
  lemma {:induction false} SpawnIgnoresUnknown(cfg: Config, objs: seq<MapObject>)
    ensures Spawn(cfg, objs) == Spawn(cfg, Known(objs))
    decreases |objs|
  {
    if objs != [] {
      var init := objs[..|objs| - 1];
      SpawnIgnoresUnknown(cfg, init);
      if IsSpawnName(objs[|objs| - 1].name) {
        var k := Known(init) + [objs[|objs| - 1]];
        assert k[..|k| - 1] == Known(init);
      }
    }
  }
}
