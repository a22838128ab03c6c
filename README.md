# BatleGalagaRoyal — a verified model of the game server and the skin editor

BatleGalagaRoyal is a browser arena shooter. Its Node server (`server.js`) has
the authoritative game state:
- players keyed by socket id;
- bullets keyed by bullet id;
- a list of live power-ups.

The state changes in socket handlers (join, move, shoot, collect a power-up,
respawn, disconnect) and in three timers:
- a 10 s power-up spawner;
- a 16 ms bullet tick;
- a 30 s scoreboard broadcast.

The main menu's skin editor (`public/scripts/menu/index.js`) paints a canvas
with three tools:
- a bucket fill over the ImageData buffer;
- a colour picker whose `#rrggbb` value is decoded to RGBA;
- a pencil that snaps to a 23-pixel brush grid.

The model is split into seven modules:

- `common.dfy` (`Common`) holds sequences without duplicates, deletion and
  filtering, and `KeysMatch`: a map together with the insertion order of its
  keys. That order is how a JavaScript object with string keys is iterated and
  serialised.
- `entities.dfy` (`Entities`) holds:
  - the player, bullet, power-up and world records;
  - the game's constants (arena 2000 × 1500, 10 rounds, 100 health, hit radius 30, kill reward 100, at most 5 power-ups, damage 25 and 35, spread 0.2);
  - the messages the server emits, as `Event(audience, message)` values;
  - the invariant `WorldValid` that every handler keeps.
- `targeting.dfy` (`Targeting`) holds the two scans over the players in key
  order: `findClosestEnemy` and the hit test of the tick.
- `combat.dfy` (`Combat`) is the bullet tick as functions on the world value,
  and what it guarantees.
- `scores.dfy` (`Scores`) is the `/scores` leaderboard.
- `server.dfy` (`Server`) is the class `GameServer`. Its fields are the game
  state, and it has one method per handler and per timer body. Each method's
  `ensures` ties the new state and the emitted messages to the functions and
  lemmas above. The shot's state machine is also given as a function on the
  world value (`Shot`), and the methods are proved against it.
- `skin_editor.dfy` (`SkinEditor`) holds:
  - the flood fill, as a method over an `array` of bytes with an explicit stack;
  - `hexToRgba`, with `parseInt(…, 16)` and the 32-bit signed bitwise operators written out;
  - the brush snap.

Randomness (`Math.random()`), the clock (`Date.now()`) and trigonometry are
parameters of the methods. Every handler returns the messages it sends,
instead of sending them on a socket.

## Model

| member | source | states |
|---|---|---|
| Server.GameServer.constructor | server.js:105-110 | The game starts with no players, no bullets and no power-ups, and the invariant holds. |
| Server.GameServer.Join | server.js:129-163 | The joining socket gets a fresh record: full health, 10 rounds, no power-up, score 0, alive, at a position inside the arena. A new id goes last in the key order; a re-join keeps its place. `gameJoined` goes to the sender with the whole state and `playerJoined` to the others. Nothing else changes and the invariant is kept. |
| Server.GameServer.Move | server.js:165-178 | Only a connected, living player's position and rotation change, and `playerMoved` goes to the others. Otherwise nothing changes and nothing is sent. |
| Server.GameServer.FindClosestEnemy | server.js:470-490 | The loop returns exactly `ClosestEnemy`: the nearest living player other than the shooter, in key order. |
| Targeting.ClosestEnemyIsClosest | server.js:470-490 | The query returns null exactly when no other living player exists. Otherwise it returns a living non-shooter at minimal distance, and the earliest in key order among ties, because only a strictly nearer enemy replaces the pick. |
| Targeting.NearestIndexIsNearest | server.js:476-486 | A running minimum that replaces its pick only on a strictly smaller distance ends on the first eligible entry of least distance, or on none. |
| Targeting.NearestEnemyIsNearestIndex | server.js:476-486 | The nearest-enemy scan is that running minimum over living non-shooters and their distances. |
| Targeting.ClosestEnemy | server.js:470-490 | `findClosestEnemy` on the world value. It answers null exactly when no listed player is a living non-shooter; otherwise it answers a listed living non-shooter. |
| Server.GameServer.Shoot | server.js:180-292 | The new state, the messages and whether the reload timer is armed are exactly those of `Shot` on the old state. The invariant is kept (ammunition within 0..10), and so is "reloading exactly when the magazine is empty". |
| Server.Shot | server.js:180-292 | `playerShoot` on the world value. No branch adds or removes a player or touches the player key order or the power-ups. The reload timer is armed only when the shooter ends up reloading with an empty magazine. The lemmas below state each branch. |
| Server.ShotByAbsentOrDead | server.js:181-183 | A shot from a socket with no player, or from a dead player, changes nothing and sends nothing. |
| Server.ShotWhileReloading | server.js:184-187 | A shot while reloading changes nothing, arms no timer and sends only `shootDenied` with reason "reloading". |
| Server.ShotAtEmpty | server.js:189-203 | A shot at an empty magazine only sets the reloading flag, arms the timer, creates no bullet and sends only `reloadStarted`. |
| Server.ShotReloadRequest | server.js:205-217 | A reload request empties the magazine, sets the reloading flag and arms the timer, without creating a bullet. |
| Server.ShotFires | server.js:220-292 | A fired shot takes exactly one round. The shooter starts reloading, and the timer is armed, exactly when that was the last round. |
| Server.ShotValid | server.js:180-292 | Every branch of the shot keeps the world invariant, and keeps "reloading exactly when the magazine is empty". |
| Server.FiredEffects | server.js:220-292 | Firing changes only the shooter's ammunition and reloading flag. It stores each created bullet under its id, adds no other key and leaves every other bullet alone. `bulletCreated` carries the created bullets, and `reloadStarted` is sent exactly when the magazine was at 1. |
| Server.FiredValid | server.js:220-292 | Firing keeps the world invariant and "reloading exactly when empty". |
| Server.Fired | server.js:220-292 | The firing branch on the world value: the shooter has exactly one round less, and the set of players, their key order and the power-ups stay as they were. |
| Server.ShotPattern | server.js:226-275 | Every bullet of a shot belongs to the shooter, starts at the reported position and has its own id. A triple shot is 3 bullets of damage 25 at rotation −0.2, +0 and +0.2. A homing shot is 1 bullet of damage 35 aimed at the closest enemy. A plain shot is 1 bullet of damage 25. |
| Server.GameServer.Fire | server.js:220-292 | The firing branch's new state and messages are `Fired`, and the reload timer is armed exactly when the magazine is now empty. |
| Server.GameServer.CreateBullets | server.js:224-275 | The bullets created are those of `ShotFrom` for the shooter's power-up, and each is stored in order as `gameState.bullets[id] = b` does. |
| Server.GameServer.FireTriple | server.js:226-242 | The loop `for i = -1..1` creates the three triple bullets in order and stores them one by one. |
| Server.GameServer.Store | server.js:241 | A new bullet key goes to the end of the key order; an existing key keeps its place and takes the new value. |
| Server.StoreBulletsContents | server.js:224-275 | Storing bullets with distinct ids keeps every one under its id, adds no other key and leaves the other bullets alone. |
| Server.StoreBulletsValid | server.js:224-275 | Storing valid bullets keeps the bullet store valid. |
| Server.GameServer.CompleteReload | server.js:194-200 | The reload timer refills the magazine to 10, clears the reloading flag and sends `ammoReloaded` when the player is still connected. Otherwise it changes nothing and sends nothing. |
| Server.GameServer.CollectPowerUp | server.js:294-309 | There are two outcomes. When a power-up has the id and the socket has a player, the first such power-up is removed and its kind replaces the player's power-up, with `powerUpCollected` to everyone. Otherwise nothing changes and nothing is sent. |
| Server.PowerUpIndex | server.js:295 | `findIndex`: the first position holding the id, or −1 exactly when no power-up has it. |
| Server.GameServer.Respawn | server.js:311-336 | Only a dead player comes back: inside the arena, at full health and ammunition, not reloading, with no power-up, alive, and with the score kept. `respawned` goes to the sender and `playerRespawned` to the others. Otherwise nothing changes. |
| Server.GameServer.Disconnect | server.js:338-352 | When the socket has a player, the new state is `Disconnected`: the player and exactly its bullets are gone, and `playerDisconnected` is sent to everyone. Otherwise nothing changes. |
| Server.Disconnected | server.js:338-352 | The world after a disconnect: the player is gone and all others stay. No remaining bullet is owned by the player that left, and every bullet it did not own stays unchanged. |
| Server.PurgedIsRestriction | server.js:342-346 | What the purge loop leaves is the bullet map restricted to the bullets the leaving player does not own. |
| Server.Purge | server.js:342-346 | The `for…in` loop leaves the key order filtered to the bullets the player does not own. What is left is matched to that order, and every value left is the original one. |
| Server.PurgeStep | server.js:342-346 | Each turn of the purge loop keeps the loop invariant, whether it deletes the key or keeps it. |
| Server.PurgeDone | server.js:342-346 | When the loop has visited every key, what is left is the filtered order. |
| Server.GameServer.PurgeBullets | server.js:342-346 | The purge loop applied to the server's bullet fields. Players and power-ups are untouched. |
| Server.DisconnectedValid | server.js:338-352 | A disconnect keeps the invariant: no remaining bullet belongs to the player that left. |
| Server.GameServer.SpawnPowerUp | server.js:112-125 | While anyone plays and fewer than 5 power-ups are live, one power-up is appended inside the arena and announced. Otherwise nothing changes. The count never exceeds 5. |
| Server.GameServer.SyncScoreboard | server.js:458-468 | Nothing is sent exactly when nobody plays. Otherwise one `scoreboardSync` is sent to everyone, with every player's id, name, score and life, in key order. |
| Server.GameServer.Tick | server.js:355-455 | The new state and the messages are `BulletTick` of the old state. The invariant and "reloading exactly when empty" are kept. |
| Server.GameServer.AdvanceBullet | server.js:358-449 | One turn of the tick loop is `Advance`. |
| Server.GameServer.Fly | server.js:359-379 | The bullet is steered (when homing) and moved as `Flown`. |
| Server.GameServer.ScanForHit | server.js:396-449 | The inner loop returns exactly `FirstHit`: the first player in key order the bullet hits. |
| Server.GameServer.HitPlayer | server.js:406-446 | A hit updates the players as `Struck`, sends `StrikeEvents` and deletes the bullet. |
| Targeting.FirstHit | server.js:396-449 | No victim exactly when the bullet hits nobody. Otherwise the victim is a living non-owner within radius 30, and no earlier player in key order is hit. |
| Combat.Steered | server.js:361-378 | Steering changes only a bullet's velocity. A bullet flies straight unless it is homing and its target is set, present, alive and at a positive distance; then it takes the steered velocity. |
| Combat.Flown | server.js:358-383 | The moved bullet keeps its id, owner and damage. |
| Combat.AdvanceOutOfArena | server.js:385-394 | A bullet outside the arena after moving is deleted and `bulletDestroyed` is sent. Nobody is hit and the players are unchanged. |
| Combat.AdvanceMiss | server.js:396-449 | A bullet inside the arena that hits nobody is stored at its new position, and nothing is sent. |
| Combat.AdvanceHit | server.js:396-449 | A bullet hits at most one player: the first living non-owner within the radius. The victim loses the damage and dies iff health ≤ 0. Only on a kill does a present shooter gain exactly 100. Nobody else changes, the bullet is deleted, `bulletHit` comes first, and `playerKilled` is sent iff it is a kill. |
| Combat.Advance | server.js:358-449 | One turn of the tick loop on the world value. It keeps the set of players, their key order and the power-ups; `AdvanceOutOfArena`, `AdvanceMiss` and `AdvanceHit` state its three outcomes. |
| Combat.Struck | server.js:408-436 | The players after a hit: the same players, the victim's health lowered by exactly the damage, and no one brought back to life. |
| Combat.StrikeEvents | server.js:410-444 | The messages of a hit begin with `bulletHit` carrying the new health, then `bulletDestroyed`, and always have a third message. |
| Combat.StruckEffects | server.js:408-436 | The effects of a hit on the players, per player: the victim's health and life, the shooter's score, and everybody else unchanged. |
| Combat.StrikeEventsEffects | server.js:410-444 | The messages of a hit start with `bulletHit` with the new health, and contain `playerKilled` exactly on a kill. |
| Combat.StrikeValid | server.js:408-436 | A hit keeps player records valid and only lowers health, ends lives and raises scores. |
| Combat.AdvanceValid | server.js:358-449 | One turn of the tick loop keeps the invariant and leaves the player key order and the power-ups alone. |
| Combat.AdvanceBullets | server.js:358-449 | One turn touches no bullet but its own, and leaves its own deleted or inside the arena. |
| Combat.StepsValid | server.js:355-450 | The whole loop keeps the invariant and changes players only by lowering health, killing and raising scores. |
| Combat.StepsBullets | server.js:355-450 | After the loop, every visited bullet is gone or inside the arena, no bullet appears, and bullets not visited are untouched. |
| Combat.Steps | server.js:355-450 | The tick loop on the world value, skipping keys deleted earlier. It keeps the set of players, their key order and the power-ups. |
| Combat.BulletTickValid | server.js:355-455 | The tick keeps the world invariant; the player key order and the power-ups are unchanged. |
| Combat.BulletTick | server.js:355-455 | The whole tick on the world value. It keeps the set of players, their key order and the power-ups. |
| Combat.BulletTickCulls | server.js:355-455 | After a tick every remaining bullet lies inside the arena, and no bullet appeared. |
| Combat.BulletTickIdle | server.js:452-454 | With no bullets the tick changes nothing and sends nothing. |
| Combat.BulletTickReports | server.js:452-454 | With at least one bullet the tick ends with `bulletsUpdate` carrying the remaining bullets in key order. |
| Scores.Leaderboard | server.js:95-103 | The response runs from the highest score down and keeps rows with equal scores in key order (a stable sort). It is a permutation of the players' rows. |
| Scores.LeaderboardCharacterised | server.js:95-103 | A sequence is the response exactly when it is descending by score and stable with respect to the key order, so the engine's sort is pinned down. |
| Scores.LeaderboardRows | server.js:95-103 | One row per connected player, and a row is in the response iff it is some player's id, name and score. |
| Scores.SortDescending | server.js:100 | The sort yields scores from the highest down. |
| Scores.SortPermutation | server.js:100 | The sort keeps exactly the rows it was given. |
| Scores.SortByScore | server.js:100 | The stable sort by descending score yields as many rows as it was given; `SortDescending`, `SortPermutation` and `SortStable` say which. |
| Scores.SortStable | server.js:100 | Rows with equal scores keep their relative order. |
| Scores.DescendingUnique | server.js:100 | At most one descending order agrees with the input on the order of each score's rows. |
| SkinEditor.FloodFill | public/scripts/menu/index.js:141-165 | When the start pixel already has the fill colour, the buffer is unchanged. Otherwise exactly the pixels 4-connected to the start through pixels of its colour take the fill colour, and every other pixel keeps its colour. |
| SkinEditor.Neighbours | public/scripts/menu/index.js:159-162 | The pushed neighbours are exactly the in-canvas pixels sharing an edge with the current one. |
| SkinEditor.PushNeighbours | public/scripts/menu/index.js:159-162 | The four conditional pushes append exactly the in-canvas edge neighbours, left, right, up, down, in that order. |
| SkinEditor.OffsetInjective | public/scripts/menu/index.js:146 | `(y*w+x)*4`: different pixels own different 4-byte groups. |
| SkinEditor.PaintEffect | public/scripts/menu/index.js:155-158 | Writing the four channels at a pixel's offset recolours that pixel and no other. |
| SkinEditor.Paint | public/scripts/menu/index.js:155-158 | The four channels at the pixel's offset take the fill colour, and every other byte keeps its value. |
| SkinEditor.ReadPixel | public/scripts/menu/index.js:154 | `data.slice(i, i + 4)` is the pixel's colour. |
| SkinEditor.HexToRgba | public/scripts/menu/index.js:167-171 | The result is the bits 16–23, 8–15 and 0–7 of the parsed value modulo 2^32, with alpha 255. The three channels recombine to the value's low 24 bits. |
| SkinEditor.ColorInputRoundTrip | public/scripts/menu/index.js:167-171 | Decoding the colour input's `#rrggbb` value, as the bucket tool does at line 107, gives back that colour, opaque. |
| SkinEditor.ParsedColour | public/scripts/menu/index.js:168-169 | `parseInt` of the input's value without its '#' is the 24-bit colour number. |
| SkinEditor.RemoveFirstHashAt | public/scripts/menu/index.js:168 | `replace('#', '')` removes exactly the first '#'. |
| SkinEditor.ParseHex | public/scripts/menu/index.js:169 | `parseInt(v, 16)` is NaN exactly when `v` does not start with a hexadecimal digit. |
| SkinEditor.HexPrefixLength | public/scripts/menu/index.js:169 | The parsed prefix is the longest run of leading hexadecimal digits. |
| SkinEditor.ToInt32 | public/scripts/menu/index.js:170 | The operand of `>>` and `&` is a signed 32-bit integer congruent to the value modulo 2^32, and 0 for NaN. |
| SkinEditor.SignedShift | public/scripts/menu/index.js:170 | Shifting the signed reading and masking with 255 gives the same bytes as the unsigned bit pattern. |
| SkinEditor.ShiftRight | public/scripts/menu/index.js:170 | `x >> k` rounds toward minus infinity: it is the largest r with r·2^k ≤ x. |
| SkinEditor.LowByte | public/scripts/menu/index.js:170 | `x & 255` is the one byte that differs from x by a multiple of 256, negative x included. |
| SkinEditor.Snap | public/scripts/menu/index.js:124-125 | The snapped coordinate `s` is a multiple of the brush size with `s ≤ x < s + brushSize`. |
| SkinEditor.SnapUnique | public/scripts/menu/index.js:124-125 | It is the only multiple of the brush size in that range. |
| SkinEditor.SnapIdempotent | public/scripts/menu/index.js:124-125 | Snapping a snapped coordinate changes nothing. |

## Left out

- The HTTP side of `server.js`:
  - the Express routes and static files, and `listen` (lines 16-29 and 492-495);
  - `/save-skin` (31-72) and the `/players` routes (74-93).
  These are file and network I/O.
- Socket.io transport: `socket.emit`, `socket.broadcast.emit`, `io.emit` and `io.to(id).emit` become `Event`s with an audience, in the order the handler sends them. Delivery is not modelled.
- Timers: `setInterval` and `setTimeout` are not modelled.
  - The body of each timer is a method: `SpawnPowerUp`, `Tick`, `SyncScoreboard` and `CompleteReload`.
  - `Shoot` reports whether it armed the one-second reload timer.
  - How callbacks interleave in time is left to the caller.
- Server.GameServer.Fly: the homing adjustment's vector arithmetic (factor 0.1, renormalisation to speed 16) is a `Steering` parameter. Its branch conditions (homing type, a truthy target that is a living player, a positive distance) are modelled.
- Server.ShotPattern: `Math.cos(angle) * 15` and `Math.sin(angle) * 15` are the `aim` parameter, with no floating-point rounding.
- Server.ShotPattern: the three bullets of a triple shot share one clock reading. `server.js` calls `Date.now()` for each bullet, and two readings can differ by a millisecond.
- Bullet ids: the string `` `${socket.id}_${Date.now()}[_${i}]` `` is modelled by the structured `BulletId(shooter, time, slot)`.
  - Two shots in the same millisecond still share an id, and the later one overwrites the earlier one, as in `server.js`.
  - A textual clash between different socket ids and times is not modelled.
- Randomness and the clock are parameters: `Math.random()` draws (in [0, 1)) and `Date.now()` values.
- Arithmetic: real numbers stand for doubles, and squared distances for `Math.sqrt` comparisons. NaN and infinite coordinates from a client are not modelled.
- The reported positions of `playerMovement` and `playerShoot` are taken as given; `server.js` does not check them either.
- Server.GameServer.Join, Server.GameServer.Move, Server.GameServer.Shoot: the payloads are typed parameters, so each handler assumes the payload is an object with the fields the game client sends. In `server.js` a missing payload makes these handlers throw a TypeError (`playerData.name` at line 139, `movementData.x` at 167, `bulletData.reload` at 205). `server.js` has no handler for the exception, and that path is not modelled.
- `console.log` calls are left out.
- Scores.Leaderboard: the engine's `Array.prototype.sort` is replaced by a stable insertion sort. `LeaderboardCharacterised` proves that any stable descending sort gives the same result, and the ES2019 sort is stable.
- SkinEditor.FloodFill: requires the start pixel to be on the canvas and the fill colour to be four bytes.
  - `handleCanvasClick` floors the mouse position relative to the canvas.
  - A click is not traced through CSS scaling or the canvas edge.
  - The `getImageData`/`putImageData` round trip is the `data` array itself.
- SkinEditor.Snap: requires a brush size of at least 1. The size starts at 23 and its input box is hidden. If that input were used, `parseInt(…, 24) || 1` would turn 0 or NaN into 1, but it would let a negative size through.
- SkinEditor.HexToRgba: `parseInt` returns a double, and a hexadecimal number above 2^53 (14 digits or more) is rounded before `>>` and `&` see it. The model reads the exact integer, so for such inputs its channels can differ from the page's (for `#ffffffffffffff` the page gets 0, 0, 0). The colour input's seven-character value never reaches that range.
- SkinEditor.ParseHex: handles only the shape of `parseInt` that a colour input's value produces: no leading blanks, sign or `0x` prefix. It returns the exact value, where `parseInt` rounds to a double above 2^53.
- The rest of the menu script is DOM and UI wiring, and is not modelled:
  - the buttons and mode toggles;
  - the pencil's `fillRect`;
  - skin upload;
  - starting the game.
- `public/scripts/menu/soundsHandler.js` and `public/scripts/menu/starsBg.js` (audio and background animation) are not part of this model.
