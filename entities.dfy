/** The game world the server keeps, and the messages it sends to clients. */
module Entities {
  import opened Common

  /** A connection's socket id; it is also the player's id. */
  type PlayerId = string

  const ArenaWidth: real := 2000.0
  const ArenaHeight: real := 1500.0
  const MaxAmmo: int := 10
  const FullHealth: int := 100
  const PlayerSpeed: int := 5
  const KillReward: int := 100
  /** Hits are tested on squared distances: a bullet hits within 30 units. */
  const HitRadiusSq: real := 900.0
  const PowerUpCap: int := 5
  const PowerUpSize: int := 30
  const NormalDamage: int := 25
  const HomingDamage: int := 35
  /** The angle between neighbouring bullets of a triple shot. */
  const TripleSpread: real := 0.2

  datatype PowerUpKind = TriplePower | HomingPower

  datatype BulletKind = NormalShot | TripleShot | HomingShot

  datatype Vec = Vec(x: real, y: real)

  datatype Player = Player(
    id: PlayerId, name: string, skin: string,
    x: real, y: real, rotation: real, speed: int,
    health: int, ammo: int, reloading: bool,
    powerUp: Option<PowerUpKind>, score: int, alive: bool)

  /** A bullet id `<socket id>_<time>` or, for the three bullets of a
      triple shot, `<socket id>_<time>_<slot>` with slot -1, 0 or 1. */
  datatype BulletId = BulletId(shooter: PlayerId, time: int, slot: Option<int>)

  /** `target` is only ever set on homing bullets (null when the query found nobody). */
  datatype Bullet = Bullet(
    id: BulletId, owner: PlayerId,
    x: real, y: real, vx: real, vy: real,
    damage: int, kind: BulletKind, target: Option<PlayerId>)

  datatype PowerUp = PowerUp(id: int, kind: PowerUpKind, x: real, y: real, width: int, height: int)

  /** The server's game state: players and bullets keyed by id, with the
      order in which their keys were inserted, and the live power-ups. */
  datatype World = World(
    players: map<PlayerId, Player>, playerOrder: seq<PlayerId>,
    bullets: map<BulletId, Bullet>, bulletOrder: seq<BulletId>,
    powerUps: seq<PowerUp>)

  /** One row of the periodic scoreboard broadcast. */
  datatype SyncEntry = SyncEntry(playerId: PlayerId, playerName: string, points: int, living: bool)

  /** Who receives a message: the requesting socket, every other socket,
      every socket, or the room of one socket id. */
  datatype Audience = Sender | Others | Everyone | Only(recipient: PlayerId)

  datatype Message =
    | GameJoined(joinedId: PlayerId, position: Vec, state: World)
    | PlayerJoined(player: Player)
    | PlayerMoved(movedId: PlayerId, movedX: real, movedY: real, movedRotation: real)
    | ShootDenied(reason: string)
    | ReloadStarted
    | AmmoReloaded(reloadedAmmo: int)
    | AmmoUpdated(ammo: int)
    | BulletCreated(created: seq<Bullet>)
    | PowerUpCollected(collector: PlayerId, powerUpId: int, powerUpKind: PowerUpKind)
    | Respawned(respawnPosition: Vec)
    | PlayerRespawned(respawnedId: PlayerId, respawnedX: real, respawnedY: real)
    | PlayerDisconnected(disconnectedId: PlayerId)
    | PowerUpSpawned(powerUp: PowerUp)
    | BulletDestroyed(destroyedId: BulletId)
    | BulletHit(hitBullet: BulletId, targetId: PlayerId, damage: int, health: int)
    | PlayerDamaged(damagedId: PlayerId, damagedHealth: int)
    | PlayerKilled(killed: PlayerId, killer: PlayerId)
    | GlobalScoreUpdate(scorer: PlayerId, globalScore: int)
    | ScoreUpdated(score: int)
    | BulletsUpdate(snapshot: seq<Bullet>)
    | ScoreboardSync(entries: seq<SyncEntry>)

  datatype Event = Event(to: Audience, msg: Message)

  /** Squared Euclidean distance; comparing it stands for comparing `Math.sqrt` of it. */
  function DistSq(x1: real, y1: real, x2: real, y2: real): real
  {
    (x1 - x2) * (x1 - x2) + (y1 - y2) * (y1 - y2)
  }

  predicate InArena(x: real, y: real)
  {
    0.0 <= x <= ArenaWidth && 0.0 <= y <= ArenaHeight
  }

  /** The values stored under the keys of `order`, in that order: how a
      JavaScript object is serialised. */
  function InOrder<K, V>(m: map<K, V>, order: seq<K>): (r: seq<V>)
    ensures |r| <= |order|
    ensures (forall k :: 0 <= k < |order| ==> order[k] in m) ==>
      |r| == |order| && forall k :: 0 <= k < |order| ==> r[k] == m[order[k]]
  {
    if order == [] then []
    else
      var rest := InOrder(m, order[1..]);
      if order[0] in m then [m[order[0]]] + rest else rest
  }

  /** What holds of every stored player record. */
  ghost predicate PlayerValid(id: PlayerId, p: Player)
  {
    && p.id == id
    && 0 <= p.ammo <= MaxAmmo
    && p.health <= FullHealth
    && (p.alive <==> p.health > 0)
    && p.score >= 0 && p.score % KillReward == 0
  }

  /** What holds of every stored bullet, whose owner is always still connected. */
  ghost predicate BulletValid(id: BulletId, b: Bullet, ids: set<PlayerId>)
  {
    b.id == id && b.owner in ids && b.damage > 0
  }

  /** The player records and their key order. */
  ghost predicate PlayersValid(players: map<PlayerId, Player>, order: seq<PlayerId>)
  {
    KeysMatch(players, order) && forall id :: id in players ==> PlayerValid(id, players[id])
  }

  /** The bullet records and their key order; owners are among `ids`. */
  ghost predicate BulletsValid(bullets: map<BulletId, Bullet>, order: seq<BulletId>, ids: set<PlayerId>)
  {
    KeysMatch(bullets, order) && forall id :: id in bullets ==> BulletValid(id, bullets[id], ids)
  }

  /** The invariant every handler and timer step keeps. */
  ghost predicate WorldValid(w: World)
  {
    && PlayersValid(w.players, w.playerOrder)
    && BulletsValid(w.bullets, w.bulletOrder, w.players.Keys)
    && |w.powerUps| <= PowerUpCap
  }

  /** Replacing one player's record by a valid one keeps the players valid
      and the key set as it was. */
  lemma UpdatePlayerValid(players: map<PlayerId, Player>, order: seq<PlayerId>, v: PlayerId, q: Player)
    requires PlayersValid(players, order) && v in players && PlayerValid(v, q)
    ensures PlayersValid(players[v := q], order) && players[v := q].Keys == players.Keys
  {
    assert players[v := q].Keys == players.Keys;
  }

  /** A player is reloading exactly when the magazine is empty. */
  ghost predicate ReloadingMeansEmpty(players: map<PlayerId, Player>)
  {
    forall id :: id in players ==> (players[id].reloading <==> players[id].ammo == 0)
  }
}
