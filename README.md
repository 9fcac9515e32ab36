# Game-loop core of a top-down tile-map brawler, in Dafny

This project models the core of the `Game` object in `main.py` of a pygame
game: a player walks a tile map, punches "thug" mobs and picks up health
packs. Four parts are modelled.

- **Collision resolution in `Game.update`.** The overlap tests produce hit lists. The rules applied to them, in this order:
  - the player picks up the health packs it touches while below `PLAYER_HEALTH`;
  - every mob touching the player costs it `MOB_DAMAGE` and stops;
  - the first such mob knocks the player back, and the run ends when health reaches 0 or less;
  - every mob overlapping a fist takes `FIST_DAMAGE` once and is pushed with velocity (100, 100).
- **Spawning in `Game.new`.** The tile map's objects become the player, mobs, walls and items. Unknown names are ignored, and the debug overlay is switched off.
- **Debug toggle in `Game.events`.** Each "i" key press flips the debug overlay. A quit event or the escape key stops event handling.
- **The HUD health bar in `draw_player_health`.** A negative fraction counts as 0. The colour is chosen by strict thresholds at 0.6 and 0.4, and the fill is `pct * 100`.

Modules:

- `Entities` (entities.dfy) holds the value types and the settings (`Config`).
- `Hud` (hud.dfy) holds the bar.
- `Spawning` (spawning.dfy) holds the spawn loop as a function.
- `Collisions` (collisions.dfy) holds one tick's collision rules as functions of the state before the tick.
- `Events` (events.dfy) holds the event handling as functions.
- `GameLoop` (game.dfy) holds the class `Game`. Its fields are the state the game loop updates in place. Its methods run the source's loops, and each is proved equal to the matching specification function.

The settings from `settings.py` are fields of `Config`: `PLAYER_HEALTH`, `MOB_HEALTH`, `MOB_DAMAGE`, `FIST_DAMAGE`, `HEALTH_PACK_AMOUNT` and `MOB_KNOCKBACK`. So are the two operations the core calls outside itself:
- `Player.add_health`, as a total function from the health before to the health after;
- `Vector2.rotate`.

Typing `add_health` as `(int, int) -> int` assumes three things about it: it is deterministic, its result depends only on the health and the amount, and it changes nothing but the health (not the position, not `playing`). The model assumes nothing about the values either operation returns.

Two behaviours of `main.py` are worth stating plainly, because the model keeps them:
- `Game.update` does not clamp health. main.py:157 subtracts `MOB_DAMAGE` from the player's health directly, so health can drop below 0 (`Collisions.HealthCanGoNegative`).
- A mob whose health reaches 0 stays in its groups. The fist loop at main.py:166-169 only lowers the mob's health and sets its velocity, and nothing in `main.py` removes it.

## Model

| member | source | states |
|---|---|---|
| Hud.HealthBar | main.py:29-42 | The colour is Green iff pct > 0.6, Yellow iff 0.4 < pct <= 0.6 and Red iff pct <= 0.4, so exactly 0.6 is yellow and exactly 0.4 is red. The fill is never negative, is 0 for pct <= 0, is pct * 100 otherwise, and is at most 100 when pct <= 1. |
| Hud.HealthBarMonotone | main.py:30-42 | More health never gives a shorter fill or a lower-ranked colour (Red < Yellow < Green). |
| Hud.PlayerHealthBar | main.py:197 | For the bar drawn from `health / PLAYER_HEALTH`: green iff 10·health > 6·max, yellow iff 4·max < 10·health <= 6·max, red iff 10·health <= 4·max. A player at health <= 0 gets an empty bar. At any health >= 0, over the maximum included, the fill is 100·health/max. |
| Spawning.SpawnedGroups | main.py:113-123 | The spawned mobs, walls and items match one to one, in map order, the objects named "thug", "wall" and "health". Mobs and items are placed at their object's centre (x + w/2, y + h/2). Walls are placed at the object's (x, y, w, h), not centred. |
| Spawning.SpawnedPlayer | main.py:113-117 | The player is placed iff some object is named "player", and then at the centre of the last such object. |
| Spawning.SpawnIgnoresUnknown | main.py:116-123 | Spawning from all objects equals spawning from only the objects with known names: an unknown name spawns nothing. |
| Collisions.PickUpEffect | main.py:148-153 | After the pickup loop the health is exactly one `add_health(HEALTH_PACK_AMOUNT)` per item taken. The items taken are killed and no other item changes. |
| Collisions.PickUpTaken | main.py:149-153 | Every item taken is a hit health pack, taken while the health after the earlier pickups of the same tick was below PLAYER_HEALTH. |
| Collisions.PickUpDecision | main.py:149-150 | With distinct hits, a hit item is taken iff it is a health pack and the health after the earlier hits of the same tick is below PLAYER_HEALTH. The guard is re-checked per item. |
| Collisions.FullHealthPicksNothing | main.py:150-153 | At health >= PLAYER_HEALTH nothing is picked up: no item is removed and health is unchanged. |
| Collisions.Strike | main.py:155-162 | After mob contact, health is the health before minus MOB_DAMAGE × (number of colliding mobs), unclamped. Each colliding mob's velocity is (0, 0) and other mobs are unchanged. `playing` stays true iff it was true and the health was above 0 after every decrement. |
| Collisions.TickKnockback | main.py:163-164 | The player moves by exactly one knockback vector, taken from the first colliding mob's rotation, when any mob collides. Otherwise the position is unchanged. |
| Collisions.PunchOncePerMob | main.py:166-169 | A mob overlapping any number of fists loses FIST_DAMAGE exactly once and gets velocity (100, 100). A mob overlapping none keeps its health and velocity. Position and rotation never change. |
| Collisions.KilledNotTaken | main.py:148-151 | When every item hit is still alive, an item that is already killed is never taken by the pickup loop. |
| Collisions.PackTakenOnce | main.py:148-151 | A health pack taken in one tick is killed by it, and the next tick, given hits only on live items, does not take it again. |
| Collisions.NoRevive | main.py:148-151 | A tick keeps the number of items and never makes a killed item alive again. |
| Collisions.StaysKilled | main.py:148-151 | A killed item is still killed after any number of ticks, each given results the overlap tests could produce. |
| Collisions.PackNeverRetaken | main.py:148-151 | A health pack taken in one tick is not taken in any later tick, however many ticks lie between. |
| Collisions.KnockbackFromFirstOnly | main.py:163-164 | Two ticks whose mob hits start with the same mob move the player to the same position, whatever other mobs hit. The player moves iff that mob's knockback vector is non-zero. |
| Collisions.TickPicksUpFirst | main.py:147-157 | Pickups are resolved on the health from before this tick's mob hits. The tick's health is the post-pickup health minus MOB_DAMAGE per colliding mob. |
| Collisions.TickMobs | main.py:155-169 | Per mob over a whole tick: a fist hit costs FIST_DAMAGE once and sets velocity (100, 100), overriding the stop from player contact. Contact alone stops the mob, and other mobs are unchanged. No mob is removed or moved. |
| Collisions.TickNeverRestarts | main.py:160-162 | A tick never sets `playing` back to true. |
| Collisions.TickDeath | main.py:156-162 | When MOB_DAMAGE >= 0, a playing game stops in this tick iff some mob collided and the health after all mob hits is <= 0. |
| Collisions.HealthCanGoNegative | main.py:157-162 | A player at 5 health hit by one mob with MOB_DAMAGE 10 ends the tick at -5 health and not playing: health is not clamped here. |
| Events.DebugParity | main.py:208-209 | The debug flag ends up flipped iff an odd number of "i" presses came before the first quit. |
| Events.QuitStopsHandling | main.py:202-207 | No event after a quit (window close or escape) reaches the debug flag. |
| GameLoop.Game.New | main.py:98-125 | The groups are rebuilt exactly as `Spawning.Spawn` gives them. The player is at its object's centre with full health when the map places one, and is left as it was otherwise. The debug overlay is off and `playing` is untouched. |
| GameLoop.Game.StartRun | main.py:130 | `playing` is true at the start of a run. |
| GameLoop.Game.Update | main.py:143-169 | Given hits that name distinct members of their groups, with item hits only on live items, the new state is `Collisions.Tick` of the old one: pickups, then mob contact, then fists. Walls and the debug flag are unchanged. |
| GameLoop.Game.PickUpItems | main.py:148-153 | The loop leaves health and items as `Collisions.PickUp` gives them: killed if taken, otherwise unchanged. |
| GameLoop.Game.MobsHitPlayer | main.py:155-164 | The loop leaves health, `playing` and mobs as `Collisions.Strike` gives them. The position gets the knockback of the first colliding mob. |
| GameLoop.Game.FistsHitMobs | main.py:166-169 | Looping over the mobs of `groupcollide`'s result (a set), every struck mob is punched once and every other mob is unchanged. |
| GameLoop.Game.HandleEvents | main.py:200-209 | Returns quit iff a quit or escape event occurs. The debug flag ends as `Events.DebugAfter` gives it: flipped per "i" press, up to the first quit. |

## Left out

- Asset, map-file, music and sound loading (`load_data`) and all sound playback: file I/O and audio.
- The overlap tests (`spritecollide`, `groupcollide`, `collide_hit_rect`): library calls. Their results are the inputs of `Game.Update`, as indices into the mob and item sequences and as (mob, fist) pairs.
- `all_sprites.update()` and `camera.update()` at the start of `Game.update`, and the `Camera` built in `Game.new`: the `Player`, `Mob`, `Camera` and `TiledMap` classes (sprites.py, tilemap.py) are not part of this model.
- The initial values that the `Player` and `Mob` constructors set. The model assumes that a new player has health PLAYER_HEALTH and a new mob has velocity (0, 0), rotation 0 and health MOB_HEALTH.
- GameLoop.Game.New: a map without a player object on the first game. main.py:117 is the only place that sets `self.player`, so the source's first `update` then raises AttributeError at main.py:146. The model has no such error: `Game.New` keeps the previous `pos` and `health`, which matches only later games, where the old player carries over.
- Any clamping of health inside `Player`, and the removal of dead mobs. Both would live in sprites.py. The model keeps every spawned mob in `mobs`.
- Removal of a killed item from its groups: `alive` becomes false and the item stays in the sequence. The `all_sprites` group and draw layers are not modelled.
- The `fists` group, which `Game.new` empties and the player's attacks fill (sprites.py): fists appear only as the fist side of the (mob, fist) overlap pairs.
- Floating point: positions, sizes and the bar's fraction are exact reals. The rotation in the knockback is the `Config.rotate` parameter. The integer conversion `pg.Rect` applies to the fill width is not modelled.
- Rendering (`draw`, `draw_grid`, the draw calls in `draw_player_health`) and window setup in `__init__`.
- The repetition of `run`'s loop, its frame clock and `dt`: `Game.StartRun` models only the setting of `playing`.
- `quit()` exits the process. `Game.HandleEvents` reports it and handles no further events. The exit itself, the start and game-over screens and the top-level `while True` loop are process and UI plumbing.
- Key repeat is not modelled: a repeated key-down is one more `KeyDown` in the input. Event kinds and keys the loop ignores are `OtherEvent` and `OtherKey`.
