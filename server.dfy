/** The authoritative game server: the game state and one method per socket
    handler and timer body. Every method returns the messages it sends. */
module Server {
  import opened Common
  import opened Entities
  import opened Targeting
  import opened Combat

  // ---------------------------------------------------------------------
  // Firing

  /** Bullet `slot` (-1, 0 or 1) of a triple shot, turned `slot` times the
      spread from the shooter's rotation. */
  function TripleBullet(sid: PlayerId, p: Player, startX: real, startY: real, now: int, aim: real -> Vec, slot: int): Bullet
  {
    var v := aim(p.rotation + slot as real * TripleSpread);
    Bullet(BulletId(sid, now, Some(slot)), sid, startX, startY, v.x, v.y, NormalDamage, TripleShot, None)
  }

  /** The bullets one shot creates, by the shooter's power-up: three spread
      bullets, one homing bullet aimed at `target`, or one plain bullet.
      `aim(angle)` is the velocity `(cos angle * 15, sin angle * 15)`. */
  function ShotBullets(sid: PlayerId, p: Player, startX: real, startY: real, now: int, aim: real -> Vec, target: Option<PlayerId>): seq<Bullet>
  {
    match p.powerUp
    case Some(TriplePower) =>
      [TripleBullet(sid, p, startX, startY, now, aim, -1), TripleBullet(sid, p, startX, startY, now, aim, 0), TripleBullet(sid, p, startX, startY, now, aim, 1)]
    case Some(HomingPower) =>
      var v := aim(p.rotation);
      [Bullet(BulletId(sid, now, None), sid, startX, startY, v.x, v.y, HomingDamage, HomingShot, target)]
    case None =>
      var v := aim(p.rotation);
      [Bullet(BulletId(sid, now, None), sid, startX, startY, v.x, v.y, NormalDamage, NormalShot, None)]
  }

  /** The firing patterns: every bullet of a shot belongs to the shooter,
      starts where the shot was fired and has its own id; a triple shot is
      three bullets of damage 25 turned -0.2, 0 and +0.2 from the shooter's
      rotation, a homing shot one bullet of damage 35 aimed at `target`,
      a plain shot one bullet of damage 25. */
  lemma ShotPattern(sid: PlayerId, p: Player, startX: real, startY: real, now: int, aim: real -> Vec, target: Option<PlayerId>)
    ensures var bs := ShotBullets(sid, p, startX, startY, now, aim, target);
      && (forall k :: 0 <= k < |bs| ==>
            && bs[k].owner == sid && bs[k].id.shooter == sid && bs[k].id.time == now
            && bs[k].x == startX && bs[k].y == startY && bs[k].damage > 0)
      && (forall j, k :: 0 <= j < k < |bs| ==> bs[j].id != bs[k].id)
    ensures var bs := ShotBullets(sid, p, startX, startY, now, aim, target);
      p.powerUp == Some(TriplePower) ==>
        && |bs| == 3
        && (forall k :: 0 <= k < 3 ==> bs[k].damage == 25 && bs[k].kind == TripleShot)
        && Vec(bs[0].vx, bs[0].vy) == aim(p.rotation - 0.2)
        && Vec(bs[1].vx, bs[1].vy) == aim(p.rotation)
        && Vec(bs[2].vx, bs[2].vy) == aim(p.rotation + 0.2)
    ensures var bs := ShotBullets(sid, p, startX, startY, now, aim, target);
      p.powerUp == Some(HomingPower) ==>
        && |bs| == 1 && bs[0].damage == 35 && bs[0].kind == HomingShot && bs[0].target == target
        && Vec(bs[0].vx, bs[0].vy) == aim(p.rotation)
    ensures var bs := ShotBullets(sid, p, startX, startY, now, aim, target);
      p.powerUp == None ==>
        && |bs| == 1 && bs[0].damage == 25 && bs[0].kind == NormalShot && bs[0].target == None
        && Vec(bs[0].vx, bs[0].vy) == aim(p.rotation)
  {
  }

  /** `bullets[b.id] = b`: a new key goes to the end of the key order, an
      existing key keeps its place and gets the new value. */
  function StoreBullet(bullets: map<BulletId, Bullet>, order: seq<BulletId>, b: Bullet): (map<BulletId, Bullet>, seq<BulletId>)
  {
    (bullets[b.id := b], if b.id in bullets then order else order + [b.id])
  }

  function StoreBullets(bullets: map<BulletId, Bullet>, order: seq<BulletId>, bs: seq<Bullet>): (map<BulletId, Bullet>, seq<BulletId>)
  {
    if bs == [] then (bullets, order)
    else
      var r := StoreBullets(bullets, order, bs[..|bs| - 1]);
      StoreBullet(r.0, r.1, bs[|bs| - 1])
  }

  /** The ids of a sequence of bullets. */
  function BulletIds(bs: seq<Bullet>): set<BulletId>
  {
    set k | 0 <= k < |bs| :: bs[k].id
  }

  /** Storing bullets keeps the map and its key order matched. */
  lemma {:induction false} StoreBulletsKeys(bullets: map<BulletId, Bullet>, order: seq<BulletId>, bs: seq<Bullet>)
    requires KeysMatch(bullets, order)
    ensures var r := StoreBullets(bullets, order, bs); KeysMatch(r.0, r.1)
  {
    if bs != [] {
      StoreBulletsKeys(bullets, order, bs[..|bs| - 1]);
      var r := StoreBullets(bullets, order, bs[..|bs| - 1]);
      AddKey(r.0, r.1, bs[|bs| - 1].id, bs[|bs| - 1]);
    }
  }

  /** Storing bullets with distinct ids keeps every one of them under its
      id, adds no other key and leaves every other bullet as it was. */
  lemma {:induction false} StoreBulletsContents(bullets: map<BulletId, Bullet>, order: seq<BulletId>, bs: seq<Bullet>)
    requires forall j, k :: 0 <= j < k < |bs| ==> bs[j].id != bs[k].id
    ensures var r := StoreBullets(bullets, order, bs);
      && r.0.Keys == bullets.Keys + BulletIds(bs)
      && (forall k :: 0 <= k < |bs| ==> r.0[bs[k].id] == bs[k])
      && (forall x :: x in bullets && x !in BulletIds(bs) ==> r.0[x] == bullets[x])
  {
    if bs != [] {
      var n := |bs| - 1;
      var prefix := bs[..n];
      StoreBulletsContents(bullets, order, prefix);
      var m := StoreBullets(bullets, order, prefix).0;
      var r := StoreBullets(bullets, order, bs).0;
      assert r == m[bs[n].id := bs[n]];
      assert forall k :: 0 <= k < n ==> prefix[k] == bs[k];
      assert BulletIds(bs) == BulletIds(prefix) + {bs[n].id};
      forall k | 0 <= k < |bs|
        ensures r[bs[k].id] == bs[k]
      {
        if k < n {
          assert bs[k].id != bs[n].id;
        }
      }
    }
  }

  /** Storing valid bullets keeps the bullet store valid. */
  lemma StoreBulletsValid(bullets: map<BulletId, Bullet>, order: seq<BulletId>, ids: set<PlayerId>, bs: seq<Bullet>)
    requires BulletsValid(bullets, order, ids)
    requires forall k :: 0 <= k < |bs| ==> BulletValid(bs[k].id, bs[k], ids)
    requires forall j, k :: 0 <= j < k < |bs| ==> bs[j].id != bs[k].id
    ensures var r := StoreBullets(bullets, order, bs); BulletsValid(r.0, r.1, ids)
  {
    StoreBulletsKeys(bullets, order, bs);
    StoreBulletsContents(bullets, order, bs);
    var r := StoreBullets(bullets, order, bs);
    forall x | x in r.0
      ensures BulletValid(x, r.0[x], ids)
    {
      if x in BulletIds(bs) {
        var k :| 0 <= k < |bs| && bs[k].id == x;
      }
    }
  }

  /** The shooter after firing: one round less, and reloading once the
      magazine is empty. */
  function Discharged(p: Player): Player
  {
    var fired := p.(ammo := p.ammo - 1);
    if fired.ammo <= 0 then fired.(reloading := true) else fired
  }

  /** The bullets `shooter` fires as player `sid`; a homing bullet aims at
      the closest enemy among `players`. */
  function ShotFrom(players: map<PlayerId, Player>, order: seq<PlayerId>, sid: PlayerId, shooter: Player,
                    startX: real, startY: real, now: int, aim: real -> Vec): seq<Bullet>
  {
    ShotBullets(sid, shooter, startX, startY, now, aim, ClosestEnemy(players, order, shooter))
  }

  /** The bullets a shot by `sid` creates, with the shooter's round already
      spent when the closest enemy is looked up. */
  function ShotOf(w: World, sid: PlayerId, startX: real, startY: real, now: int, aim: real -> Vec): seq<Bullet>
    requires sid in w.players
  {
    var fired := w.players[sid].(ammo := w.players[sid].ammo - 1);
    ShotFrom(w.players[sid := fired], w.playerOrder, sid, fired, startX, startY, now, aim)
  }

  /** The firing branch of a shot: one round less, the shot's bullets stored,
      and a reload started when the magazine is now empty. */
  function Fired(w: World, sid: PlayerId, startX: real, startY: real, now: int, aim: real -> Vec): (r: Outcome)
    requires sid in w.players
    ensures r.world.players.Keys == w.players.Keys
    ensures r.world.players[sid].ammo == w.players[sid].ammo - 1
    ensures r.world.playerOrder == w.playerOrder && r.world.powerUps == w.powerUps
  {
    var p := w.players[sid];
    var created := ShotOf(w, sid, startX, startY, now, aim);
    var stored := StoreBullets(w.bullets, w.bulletOrder, created);
    Outcome(
      w.(players := w.players[sid := Discharged(p)], bullets := stored.0, bulletOrder := stored.1),
      [Event(Sender, AmmoUpdated(p.ammo - 1)), Event(Everyone, BulletCreated(created))] +
      (if p.ammo - 1 <= 0 then [Event(Sender, ReloadStarted)] else []))
  }

  /** The firing branch, field by field. */
  lemma FiredParts(w: World, sid: PlayerId, startX: real, startY: real, now: int, aim: real -> Vec,
                   created: seq<Bullet>, after: World, events: seq<Event>)
    requires sid in w.players
    requires created == ShotOf(w, sid, startX, startY, now, aim)
    requires after.players == w.players[sid := Discharged(w.players[sid])]
    requires (after.bullets, after.bulletOrder) == StoreBullets(w.bullets, w.bulletOrder, created)
    requires after.playerOrder == w.playerOrder && after.powerUps == w.powerUps
    requires events == [Event(Sender, AmmoUpdated(w.players[sid].ammo - 1)), Event(Everyone, BulletCreated(created))] +
                       (if w.players[sid].ammo - 1 <= 0 then [Event(Sender, ReloadStarted)] else [])
    ensures Outcome(after, events) == Fired(w, sid, startX, startY, now, aim)
  {
  }

  /** Firing keeps the invariant. */
  lemma FiredValid(w: World, sid: PlayerId, startX: real, startY: real, now: int, aim: real -> Vec)
    requires WorldValid(w) && sid in w.players && w.players[sid].ammo > 0 && !w.players[sid].reloading
    ensures WorldValid(Fired(w, sid, startX, startY, now, aim).world)
    ensures ReloadingMeansEmpty(w.players) ==> ReloadingMeansEmpty(Fired(w, sid, startX, startY, now, aim).world.players)
  {
    var p := w.players[sid];
    var fired := p.(ammo := p.ammo - 1);
    ShotPattern(sid, fired, startX, startY, now, aim, ClosestEnemy(w.players[sid := fired], w.playerOrder, fired));
    var created := ShotOf(w, sid, startX, startY, now, aim);
    var stored := StoreBullets(w.bullets, w.bulletOrder, created);
    var players := w.players[sid := Discharged(p)];
    assert Fired(w, sid, startX, startY, now, aim).world
      == w.(players := players, bullets := stored.0, bulletOrder := stored.1);
    StoreBulletsValid(w.bullets, w.bulletOrder, w.players.Keys, created);
    UpdatePlayerValid(w.players, w.playerOrder, sid, Discharged(p));
    if ReloadingMeansEmpty(w.players) {
      assert Discharged(p).reloading <==> Discharged(p).ammo == 0;
    }
  }

  /** A shot spends exactly one round however many bullets it creates; the
      shooter starts reloading exactly when the magazine is now empty; each
      created bullet is stored under its own id, and every other bullet is
      left as it was. */
  lemma FiredEffects(w: World, sid: PlayerId, startX: real, startY: real, now: int, aim: real -> Vec)
    requires sid in w.players
    ensures var p := w.players[sid];
      var o := Fired(w, sid, startX, startY, now, aim);
      var created := ShotOf(w, sid, startX, startY, now, aim);
      && o.world.players == w.players[sid := p.(ammo := p.ammo - 1, reloading := p.reloading || p.ammo <= 1)]
      && o.world.playerOrder == w.playerOrder && o.world.powerUps == w.powerUps
      && o.world.bullets.Keys == w.bullets.Keys + BulletIds(created)
      && (forall k :: 0 <= k < |created| ==> o.world.bullets[created[k].id] == created[k])
      && (forall x :: x in w.bullets && x !in BulletIds(created) ==> o.world.bullets[x] == w.bullets[x])
      && o.events[1] == Event(Everyone, BulletCreated(created))
      && (Event(Sender, ReloadStarted) in o.events <==> p.ammo <= 1)
  {
    var p := w.players[sid];
    var fired := p.(ammo := p.ammo - 1);
    ShotPattern(sid, fired, startX, startY, now, aim, ClosestEnemy(w.players[sid := fired], w.playerOrder, fired));
    StoreBulletsContents(w.bullets, w.bulletOrder, ShotOf(w, sid, startX, startY, now, aim));
  }

  /** `playerShoot` on the world value: the outcome and whether the
      one-second reload timer is started. Only a connected, living player
      can shoot; a reloading one is refused; an empty magazine or a reload
      request starts a reload; otherwise the shot is fired. */
  function Shot(w: World, sid: PlayerId, startX: real, startY: real, reload: bool, now: int, aim: real -> Vec): (r: (Outcome, bool))
    ensures r.0.world.players.Keys == w.players.Keys
    ensures r.0.world.playerOrder == w.playerOrder && r.0.world.powerUps == w.powerUps
    ensures r.1 ==> sid in w.players && r.0.world.players[sid].reloading && r.0.world.players[sid].ammo <= 0
  {
    if sid !in w.players || !w.players[sid].alive then (Outcome(w, []), false)
    else
      var p := w.players[sid];
      if p.reloading then (Outcome(w, [Event(Sender, ShootDenied("reloading"))]), false)
      else if p.ammo <= 0 then
        (Outcome(w.(players := w.players[sid := p.(reloading := true)]), [Event(Sender, ReloadStarted)]), true)
      else if reload then
        (Outcome(w.(players := w.players[sid := p.(reloading := true, ammo := 0)]), [Event(Sender, ReloadStarted)]), true)
      else (Fired(w, sid, startX, startY, now, aim), p.ammo - 1 <= 0)
  }

  /** Every outcome of a shot keeps the invariant; ammunition stays within
      0 and 10 because it is part of it. */
  lemma ShotValid(w: World, sid: PlayerId, startX: real, startY: real, reload: bool, now: int, aim: real -> Vec)
    requires WorldValid(w)
    ensures WorldValid(Shot(w, sid, startX, startY, reload, now, aim).0.world)
    ensures ReloadingMeansEmpty(w.players) ==> ReloadingMeansEmpty(Shot(w, sid, startX, startY, reload, now, aim).0.world.players)
  {
    if sid in w.players && w.players[sid].alive && !w.players[sid].reloading {
      var p := w.players[sid];
      if p.ammo <= 0 {
        UpdatePlayerValid(w.players, w.playerOrder, sid, p.(reloading := true));
      } else if reload {
        UpdatePlayerValid(w.players, w.playerOrder, sid, p.(reloading := true, ammo := 0));
      } else {
        FiredValid(w, sid, startX, startY, now, aim);
      }
    }
  }

  /** A shot from a reloading player changes nothing and only refuses. */
  lemma ShotWhileReloading(w: World, sid: PlayerId, startX: real, startY: real, reload: bool, now: int, aim: real -> Vec)
    requires sid in w.players && w.players[sid].alive && w.players[sid].reloading
    ensures Shot(w, sid, startX, startY, reload, now, aim) == (Outcome(w, [Event(Sender, ShootDenied("reloading"))]), false)
  {
  }

  /** A shot at an empty magazine starts a reload without firing: no bullet
      is created and only the shooter's reloading flag changes. */
  lemma ShotAtEmpty(w: World, sid: PlayerId, startX: real, startY: real, reload: bool, now: int, aim: real -> Vec)
    requires sid in w.players && w.players[sid].alive && !w.players[sid].reloading && w.players[sid].ammo <= 0
    ensures var r := Shot(w, sid, startX, startY, reload, now, aim);
      && r.1
      && r.0.world.bullets == w.bullets && r.0.world.bulletOrder == w.bulletOrder
      && r.0.world.players == w.players[sid := w.players[sid].(reloading := true)]
      && r.0.events == [Event(Sender, ReloadStarted)]
  {
  }

  /** A forced reload empties the magazine and starts the reload timer. */
  lemma ShotReloadRequest(w: World, sid: PlayerId, startX: real, startY: real, now: int, aim: real -> Vec)
    requires sid in w.players && w.players[sid].alive && !w.players[sid].reloading && w.players[sid].ammo > 0
    ensures var r := Shot(w, sid, startX, startY, true, now, aim);
      && r.1
      && r.0.world.bullets == w.bullets
      && r.0.world.players == w.players[sid := w.players[sid].(reloading := true, ammo := 0)]
  {
  }

  /** A fired shot takes exactly one round and arms the reload timer exactly
      when that was the last one. */
  lemma ShotFires(w: World, sid: PlayerId, startX: real, startY: real, now: int, aim: real -> Vec)
    requires sid in w.players && w.players[sid].alive && !w.players[sid].reloading && w.players[sid].ammo > 0
    ensures var r := Shot(w, sid, startX, startY, false, now, aim);
      && r.0.world.players[sid].ammo == w.players[sid].ammo - 1
      && r.0.world.players[sid].reloading == (w.players[sid].ammo == 1)
      && r.1 == (w.players[sid].ammo == 1)
      && r.0 == Fired(w, sid, startX, startY, now, aim)
  {
  }

  /** A player that is gone or dead cannot shoot. */
  lemma ShotByAbsentOrDead(w: World, sid: PlayerId, startX: real, startY: real, reload: bool, now: int, aim: real -> Vec)
    requires sid !in w.players || !w.players[sid].alive
    ensures Shot(w, sid, startX, startY, reload, now, aim) == (Outcome(w, []), false)
  {
  }

  /** `findIndex` on the power-ups by id: the first position holding `id`,
      or -1 when there is none. */
  function PowerUpIndex(powerUps: seq<PowerUp>, id: int): (i: int)
    ensures -1 <= i < |powerUps|
    ensures i >= 0 ==> powerUps[i].id == id && forall k :: 0 <= k < i ==> powerUps[k].id != id
    ensures i == -1 <==> forall k :: 0 <= k < |powerUps| ==> powerUps[k].id != id
  {
    if powerUps == [] then -1
    else if powerUps[0].id == id then 0
    else
      var j := PowerUpIndex(powerUps[1..], id);
      assert forall k :: 1 <= k < |powerUps| ==> powerUps[k] == powerUps[1..][k - 1];
      if j == -1 then -1 else j + 1
  }

  /** The keys a disconnect leaves: bullets not owned by `sid`. */
  function NotOwnedBy(bullets: map<BulletId, Bullet>, sid: PlayerId): BulletId -> bool
  {
    x => x in bullets && bullets[x].owner != sid
  }

  /** The world after `sid` disconnects: the player and exactly the bullets
      it owns are gone, in the key order of what is left. */
  function Disconnected(w: World, sid: PlayerId): (r: World)
    ensures r.players.Keys == w.players.Keys - {sid} && r.powerUps == w.powerUps
    ensures forall x :: x in r.bullets ==> r.bullets[x].owner != sid
    ensures forall x :: x in w.bullets && w.bullets[x].owner != sid ==> x in r.bullets && r.bullets[x] == w.bullets[x]
  {
    w.(players := w.players - {sid},
       playerOrder := Without(w.playerOrder, sid),
       bullets := map x | x in w.bullets && w.bullets[x].owner != sid :: w.bullets[x],
       bulletOrder := Filter(w.bulletOrder, NotOwnedBy(w.bullets, sid)))
  }

  /** What the purge loop leaves is the restriction of the bullets to those
      `sid` does not own. */
  lemma PurgedIsRestriction(bullets: map<BulletId, Bullet>, order: seq<BulletId>, sid: PlayerId,
                            kept: map<BulletId, Bullet>, keptOrder: seq<BulletId>)
    requires KeysMatch(bullets, order)
    requires keptOrder == Filter(order, NotOwnedBy(bullets, sid))
    requires KeysMatch(kept, keptOrder)
    requires forall x :: x in kept ==> kept[x] == bullets[x]
    ensures kept == map x | x in bullets && bullets[x].owner != sid :: bullets[x]
  {
  }

  /** A disconnect keeps the invariant: no remaining bullet belongs to the
      player that left. */
  lemma DisconnectedValid(w: World, sid: PlayerId)
    requires WorldValid(w)
    ensures WorldValid(Disconnected(w, sid))
    ensures ReloadingMeansEmpty(w.players) ==> ReloadingMeansEmpty(Disconnected(w, sid).players)
  {
    var d := Disconnected(w, sid);
    RemoveKey(w.players, w.playerOrder, sid);
    assert forall x :: x in d.bullets <==> x in d.bulletOrder;
  }

  /** After `i` steps of the purge loop: the bullets visited so far that
      `sid` owns are deleted, the rest of the store is untouched. */
  ghost predicate Purging(bullets: map<BulletId, Bullet>, order: seq<BulletId>, sid: PlayerId, i: int,
                          left: map<BulletId, Bullet>, leftOrder: seq<BulletId>)
  {
    && 0 <= i <= |order|
    && leftOrder == Filter(order[..i], NotOwnedBy(bullets, sid)) + order[i..]
    && KeysMatch(left, leftOrder)
    && forall x :: x in left ==> x in bullets && left[x] == bullets[x]
  }

  /** One turn of the purge loop keeps `Purging`. */
  lemma PurgeStep(bullets: map<BulletId, Bullet>, order: seq<BulletId>, sid: PlayerId, i: int,
                  left: map<BulletId, Bullet>, leftOrder: seq<BulletId>)
    requires KeysMatch(bullets, order) && i < |order|
    requires Purging(bullets, order, sid, i, left, leftOrder)
    ensures order[i] in left
    ensures left[order[i]].owner == sid ==>
      Purging(bullets, order, sid, i + 1, left - {order[i]}, Without(leftOrder, order[i]))
    ensures left[order[i]].owner != sid ==> Purging(bullets, order, sid, i + 1, left, leftOrder)
  {
    var id, keep := order[i], NotOwnedBy(bullets, sid);
    FilterLoopStep(order, keep, i, leftOrder);
    assert id in order[i..] && id in leftOrder;
    assert left[id] == bullets[id] && (left[id].owner == sid <==> !keep(id));
    if left[id].owner == sid {
      RemoveKey(left, leftOrder, id);
    }
  }

  /** When the purge loop has visited every key, what is left is the filtered order. */
  lemma PurgeDone(bullets: map<BulletId, Bullet>, order: seq<BulletId>, sid: PlayerId,
                  left: map<BulletId, Bullet>, leftOrder: seq<BulletId>)
    requires Purging(bullets, order, sid, |order|, left, leftOrder)
    ensures leftOrder == Filter(order, NotOwnedBy(bullets, sid))
    ensures KeysMatch(left, leftOrder)
    ensures forall x :: x in left ==> x in bullets && left[x] == bullets[x]
  {
    assert order[..|order|] == order && order[|order|..] == [];
  }

  /** The loop of `disconnect` over the bullets in key order, deleting
      those `sid` owns, on a copy of the bullet store. */
  method Purge(bullets: map<BulletId, Bullet>, order: seq<BulletId>, sid: PlayerId)
    returns (left: map<BulletId, Bullet>, leftOrder: seq<BulletId>)
    requires KeysMatch(bullets, order)
    ensures leftOrder == Filter(order, NotOwnedBy(bullets, sid))
    ensures KeysMatch(left, leftOrder)
    ensures forall x :: x in left ==> x in bullets && left[x] == bullets[x]
  {
    left, leftOrder := bullets, order;
    var i := 0;
    assert order[..0] == [];
    while i < |order|
      invariant Purging(bullets, order, sid, i, left, leftOrder)
    {
      var id := order[i];
      PurgeStep(bullets, order, sid, i, left, leftOrder);
      if left[id].owner == sid {
        left := left - {id};
        leftOrder := Without(leftOrder, id);
      }
      i := i + 1;
    }
    PurgeDone(bullets, order, sid, left, leftOrder);
  }

  class GameServer {
    var players: map<PlayerId, Player>
    var playerOrder: seq<PlayerId>
    var bullets: map<BulletId, Bullet>
    var bulletOrder: seq<BulletId>
    var powerUps: seq<PowerUp>

    function State(): World
      reads this
    {
      World(players, playerOrder, bullets, bulletOrder, powerUps)
    }

    ghost predicate Valid()
      reads this
    {
      WorldValid(State())
    }

    /** The empty game the server starts with. */
    constructor()
      ensures Valid() && ReloadingMeansEmpty(players)
      ensures State() == World(map[], [], map[], [], [])
    {
      players := map[];
      playerOrder := [];
      bullets := map[];
      bulletOrder := [];
      powerUps := [];
    }

    /** `joinGame`: a fresh player at a random position; joining again under
        the same socket id replaces the record and keeps its key position. */
    method Join(sid: PlayerId, name: string, skin: string, rx: real, ry: real) returns (events: seq<Event>)
      requires Valid()
      requires 0.0 <= rx < 1.0 && 0.0 <= ry < 1.0
      modifies this
      ensures Valid()
      ensures old(ReloadingMeansEmpty(players)) ==> ReloadingMeansEmpty(players)
      ensures var x, y := rx * ArenaWidth, ry * ArenaHeight;
        && InArena(x, y)
        && players == old(players)[sid := Player(sid, name, skin, x, y, 0.0, PlayerSpeed, FullHealth, MaxAmmo, false, None, 0, true)]
        && playerOrder == (if sid in old(players) then old(playerOrder) else old(playerOrder) + [sid])
        && events == [Event(Sender, GameJoined(sid, Vec(x, y), State())), Event(Others, PlayerJoined(players[sid]))]
      ensures State() == old(State()).(players := players, playerOrder := playerOrder)
    {
      var x, y := rx * ArenaWidth, ry * ArenaHeight;
      var p := Player(sid, name, skin, x, y, 0.0, PlayerSpeed, FullHealth, MaxAmmo, false, None, 0, true);
      AddKey(players, playerOrder, sid, p);
      if sid !in players {
        playerOrder := playerOrder + [sid];
      }
      players := players[sid := p];
      events := [Event(Sender, GameJoined(sid, Vec(x, y), State())), Event(Others, PlayerJoined(players[sid]))];
    }

    /** `playerMovement`: a living player's reported position and rotation,
        passed on to the others. */
    method Move(sid: PlayerId, x: real, y: real, rotation: real) returns (events: seq<Event>)
      requires Valid()
      modifies this
      ensures Valid()
      ensures old(ReloadingMeansEmpty(players)) ==> ReloadingMeansEmpty(players)
      ensures if sid in old(players) && old(players)[sid].alive then
          && players == old(players)[sid := old(players)[sid].(x := x, y := y, rotation := rotation)]
          && events == [Event(Others, PlayerMoved(sid, x, y, rotation))]
        else players == old(players) && events == []
      ensures State() == old(State()).(players := players)
    {
      events := [];
      if sid in players && players[sid].alive {
        players := players[sid := players[sid].(x := x, y := y, rotation := rotation)];
        events := [Event(Others, PlayerMoved(sid, x, y, rotation))];
      }
    }

    /** `gameState.bullets[b.id] = b`. */
    method Store(b: Bullet)
      modifies this
      ensures (bullets, bulletOrder) == StoreBullet(old(bullets), old(bulletOrder), b)
      ensures players == old(players) && playerOrder == old(playerOrder) && powerUps == old(powerUps)
    {
      if b.id !in bullets {
        bulletOrder := bulletOrder + [b.id];
      }
      bullets := bullets[b.id := b];
    }

    /** `findClosestEnemy`: a scan over the players in key order keeping the
        nearest living player other than the shooter. Before the first
        candidate the running distance is infinite, which `closest.None?`
        stands for. */
    method FindClosestEnemy(player: Player) returns (closest: Option<PlayerId>)
      requires Listed(players, playerOrder)
      ensures closest == ClosestEnemy(players, playerOrder, player)
    {
      ghost var best := -1;
      closest := None;
      var closestDistance := 0.0;
      var i := 0;
      while i < |playerOrder|
        invariant 0 <= i <= |playerOrder|
        invariant best == NearestEnemy(players, playerOrder[..i], player)
        invariant best < 0 ==> closest == None
        invariant best >= 0 ==> closest == Some(playerOrder[best]) && closestDistance == Distance(players, player, playerOrder[best])
      {
        assert playerOrder[..i + 1][..i] == playerOrder[..i];
        assert best >= 0 ==> playerOrder[..i + 1][best] == playerOrder[best];
        var id := playerOrder[i];
        if id != player.id && players[id].alive {
          var enemy := players[id];
          var distance := DistSq(enemy.x, enemy.y, player.x, player.y);
          if closest.None? || distance < closestDistance {
            closestDistance := distance;
            closest := Some(id);
            best := i;
          }
        }
        i := i + 1;
      }
      assert playerOrder[..i] == playerOrder;
    }

    /** `playerShoot`: the ammunition and reload state machine. `reload` is
        the request's reload flag, `now` the clock, `aim` the velocity for an
        angle. `reloadArmed` reports that the one-second reload timer was
        started; its body is CompleteReload. */
    method Shoot(sid: PlayerId, startX: real, startY: real, reload: bool, now: int, aim: real -> Vec)
      returns (events: seq<Event>, reloadArmed: bool)
      requires Valid()
      modifies this
      ensures Valid()
      ensures old(ReloadingMeansEmpty(players)) ==> ReloadingMeansEmpty(players)
      ensures (Outcome(State(), events), reloadArmed) == Shot(old(State()), sid, startX, startY, reload, now, aim)
    {
      ShotValid(State(), sid, startX, startY, reload, now, aim);
      events, reloadArmed := [], false;
      if sid !in players || !players[sid].alive {
        return;
      }
      var player := players[sid];
      if player.reloading {
        events := [Event(Sender, ShootDenied("reloading"))];
        return;
      }
      if player.ammo <= 0 {
        players := players[sid := player.(reloading := true)];
        events := [Event(Sender, ReloadStarted)];
        reloadArmed := true;
        return;
      }
      if reload {
        players := players[sid := player.(reloading := true, ammo := 0)];
        events := [Event(Sender, ReloadStarted)];
        reloadArmed := true;
        return;
      }
      events, reloadArmed := Fire(sid, startX, startY, now, aim);
    }

    /** The firing branch of `playerShoot`. */
    method Fire(sid: PlayerId, startX: real, startY: real, now: int, aim: real -> Vec)
      returns (events: seq<Event>, reloadArmed: bool)
      requires Listed(players, playerOrder) && sid in players
      modifies this
      ensures Outcome(State(), events) == Fired(old(State()), sid, startX, startY, now, aim)
      ensures reloadArmed == (old(players)[sid].ammo - 1 <= 0)
    {
      ghost var w0 := State();
      var player := players[sid];
      player := player.(ammo := player.ammo - 1);
      players := players[sid := player];
      assert ShotFrom(players, playerOrder, sid, player, startX, startY, now, aim) == ShotOf(w0, sid, startX, startY, now, aim);
      events := [Event(Sender, AmmoUpdated(player.ammo))];
      var created := CreateBullets(sid, player, startX, startY, now, aim);
      events := events + [Event(Everyone, BulletCreated(created))];
      reloadArmed := false;
      if player.ammo <= 0 {
        players := players[sid := player.(reloading := true)];
        events := events + [Event(Sender, ReloadStarted)];
        reloadArmed := true;
        assert players == w0.players[sid := player.(reloading := true)];
      }
      FiredParts(w0, sid, startX, startY, now, aim, created, State(), events);
    }

    /** The bullets of one shot, by the shooter's power-up, each stored under
        its id as it is created. */
    method CreateBullets(sid: PlayerId, player: Player, startX: real, startY: real, now: int, aim: real -> Vec)
      returns (created: seq<Bullet>)
      requires Listed(players, playerOrder)
      modifies this
      ensures created == ShotFrom(players, playerOrder, sid, player, startX, startY, now, aim)
      ensures (bullets, bulletOrder) == StoreBullets(old(bullets), old(bulletOrder), created)
      ensures players == old(players) && playerOrder == old(playerOrder) && powerUps == old(powerUps)
    {
      if player.powerUp == Some(TriplePower) {
        created := FireTriple(sid, player, startX, startY, now, aim);
      } else if player.powerUp == Some(HomingPower) {
        var target := FindClosestEnemy(player);
        var velocity := aim(player.rotation);
        var b := Bullet(BulletId(sid, now, None), sid, startX, startY, velocity.x, velocity.y, HomingDamage, HomingShot, target);
        created := [b];
        assert created[..0] == [];
        Store(b);
      } else {
        var velocity := aim(player.rotation);
        var b := Bullet(BulletId(sid, now, None), sid, startX, startY, velocity.x, velocity.y, NormalDamage, NormalShot, None);
        created := [b];
        assert created[..0] == [];
        Store(b);
      }
    }

    /** The three bullets of a triple shot, one loop turn each, stored as
        they are created. */
    method FireTriple(sid: PlayerId, player: Player, startX: real, startY: real, now: int, aim: real -> Vec)
      returns (created: seq<Bullet>)
      requires player.powerUp == Some(TriplePower)
      modifies this
      ensures created == ShotBullets(sid, player, startX, startY, now, aim, None)
      ensures (bullets, bulletOrder) == StoreBullets(old(bullets), old(bulletOrder), created)
      ensures players == old(players) && playerOrder == old(playerOrder) && powerUps == old(powerUps)
    {
      ghost var all := ShotBullets(sid, player, startX, startY, now, aim, None);
      created := [];
      var i := -1;
      while i <= 1
        invariant -1 <= i <= 2
        invariant created == all[..i + 1]
        invariant (bullets, bulletOrder) == StoreBullets(old(bullets), old(bulletOrder), created)
        invariant players == old(players) && playerOrder == old(playerOrder) && powerUps == old(powerUps)
      {
        var angle := player.rotation + i as real * TripleSpread;
        var velocity := aim(angle);
        var b := Bullet(BulletId(sid, now, Some(i)), sid, startX, startY, velocity.x, velocity.y, NormalDamage, TripleShot, None);
        assert all[..i + 2] == created + [b];
        created := created + [b];
        assert created[..|created| - 1] == all[..i + 1];
        Store(b);
        i := i + 1;
      }
    }

    /** The body of the one-second reload timer: a full magazine, unless the
        player has left. */
    method CompleteReload(sid: PlayerId) returns (events: seq<Event>)
      requires Valid()
      modifies this
      ensures Valid()
      ensures old(ReloadingMeansEmpty(players)) ==> ReloadingMeansEmpty(players)
      ensures sid in old(players) ==>
        && State() == old(State()).(players := old(players)[sid := old(players)[sid].(ammo := MaxAmmo, reloading := false)])
        && events == [Event(Sender, AmmoReloaded(MaxAmmo))]
      ensures sid !in old(players) ==> State() == old(State()) && events == []
    {
      events := [];
      if sid in players {
        players := players[sid := players[sid].(ammo := MaxAmmo, reloading := false)];
        events := [Event(Sender, AmmoReloaded(MaxAmmo))];
      }
    }

    /** `collectPowerUp`: the first power-up with the given id goes to the
        player, replacing any power-up it held. */
    method CollectPowerUp(sid: PlayerId, powerUpId: int) returns (events: seq<Event>)
      requires Valid()
      modifies this
      ensures Valid()
      ensures old(ReloadingMeansEmpty(players)) ==> ReloadingMeansEmpty(players)
      ensures var i := PowerUpIndex(old(powerUps), powerUpId);
        if i != -1 && sid in old(players) then
          var kind := old(powerUps)[i].kind;
          && State() == old(State()).(players := old(players)[sid := old(players)[sid].(powerUp := Some(kind))],
                                      powerUps := old(powerUps)[..i] + old(powerUps)[i + 1..])
          && events == [Event(Everyone, PowerUpCollected(sid, powerUpId, kind))]
        else State() == old(State()) && events == []
    {
      events := [];
      var i := PowerUpIndex(powerUps, powerUpId);
      if i != -1 && sid in players {
        var powerUp := powerUps[i];
        players := players[sid := players[sid].(powerUp := Some(powerUp.kind))];
        powerUps := powerUps[..i] + powerUps[i + 1..];
        events := [Event(Everyone, PowerUpCollected(sid, powerUpId, powerUp.kind))];
      }
    }

    /** `respawn`: only a dead player comes back, at a random position, with
        full health and ammunition and no power-up; the score stays. */
    method Respawn(sid: PlayerId, rx: real, ry: real) returns (events: seq<Event>)
      requires Valid()
      requires 0.0 <= rx < 1.0 && 0.0 <= ry < 1.0
      modifies this
      ensures Valid()
      ensures old(ReloadingMeansEmpty(players)) ==> ReloadingMeansEmpty(players)
      ensures if sid in old(players) && !old(players)[sid].alive then
          var x, y := rx * ArenaWidth, ry * ArenaHeight;
          && InArena(x, y)
          && State() == old(State()).(players := old(players)[sid := old(players)[sid].(
               x := x, y := y, health := FullHealth, ammo := MaxAmmo, reloading := false, powerUp := None, alive := true)])
          && events == [Event(Sender, Respawned(Vec(x, y))), Event(Others, PlayerRespawned(sid, x, y))]
        else State() == old(State()) && events == []
    {
      events := [];
      if sid in players && !players[sid].alive {
        var x, y := rx * ArenaWidth, ry * ArenaHeight;
        players := players[sid := players[sid].(x := x, y := y, health := FullHealth, ammo := MaxAmmo,
                                               reloading := false, powerUp := None, alive := true)];
        events := [Event(Sender, Respawned(Vec(x, y))), Event(Others, PlayerRespawned(sid, x, y))];
      }
    }

    /** `disconnect`: the player and exactly the bullets it owns disappear. */
    method Disconnect(sid: PlayerId) returns (events: seq<Event>)
      requires Valid()
      modifies this
      ensures Valid()
      ensures old(ReloadingMeansEmpty(players)) ==> ReloadingMeansEmpty(players)
      ensures sid in old(players) ==>
        State() == Disconnected(old(State()), sid) && events == [Event(Everyone, PlayerDisconnected(sid))]
      ensures sid !in old(players) ==> State() == old(State()) && events == []
    {
      events := [];
      if sid !in players {
        return;
      }
      ghost var w0 := State();
      DisconnectedValid(w0, sid);
      PurgeBullets(sid);
      PurgedIsRestriction(w0.bullets, w0.bulletOrder, sid, bullets, bulletOrder);
      players := players - {sid};
      playerOrder := Without(playerOrder, sid);
      events := [Event(Everyone, PlayerDisconnected(sid))];
    }

    /** The loop of `disconnect` over the bullets in key order, deleting
        those `sid` owns. */
    method PurgeBullets(sid: PlayerId)
      requires KeysMatch(bullets, bulletOrder)
      modifies this
      ensures bulletOrder == Filter(old(bulletOrder), NotOwnedBy(old(bullets), sid))
      ensures KeysMatch(bullets, bulletOrder)
      ensures forall x :: x in bullets ==> x in old(bullets) && bullets[x] == old(bullets)[x]
      ensures players == old(players) && playerOrder == old(playerOrder) && powerUps == old(powerUps)
    {
      var left, leftOrder := Purge(bullets, bulletOrder, sid);
      bullets, bulletOrder := left, leftOrder;
    }

    /** The power-up spawner, every ten seconds: while someone plays and
        fewer than five power-ups are live, one more appears. `rKind`, `rx`
        and `ry` are its three random draws, `now` the clock. */
    method SpawnPowerUp(now: int, rKind: real, rx: real, ry: real) returns (events: seq<Event>)
      requires Valid()
      requires 0.0 <= rx < 1.0 && 0.0 <= ry < 1.0
      modifies this
      ensures Valid()
      ensures old(ReloadingMeansEmpty(players)) ==> ReloadingMeansEmpty(players)
      ensures if old(players) != map[] && |old(powerUps)| < PowerUpCap then
          var pu := PowerUp(now, if rKind > 0.5 then TriplePower else HomingPower,
                            rx * ArenaWidth, ry * ArenaHeight, PowerUpSize, PowerUpSize);
          && InArena(pu.x, pu.y)
          && State() == old(State()).(powerUps := old(powerUps) + [pu])
          && events == [Event(Everyone, PowerUpSpawned(pu))]
        else State() == old(State()) && events == []
    {
      events := [];
      KeysMatchEmpty(players, playerOrder);
      if |playerOrder| > 0 && |powerUps| < PowerUpCap {
        var kind := if rKind > 0.5 then TriplePower else HomingPower;
        powerUps := powerUps + [PowerUp(now, kind, rx * ArenaWidth, ry * ArenaHeight, PowerUpSize, PowerUpSize)];
        events := [Event(Everyone, PowerUpSpawned(powerUps[|powerUps| - 1]))];
      }
    }

    /** The scoreboard broadcast, every thirty seconds: every player's id,
        name, score and life, in key order, when anyone plays. */
    method SyncScoreboard() returns (events: seq<Event>)
      requires Valid()
      ensures players == map[] <==> events == []
      ensures players != map[] ==>
        && |events| == 1 && events[0].to == Everyone && events[0].msg.ScoreboardSync?
        && |events[0].msg.entries| == |playerOrder|
        && forall k :: 0 <= k < |playerOrder| ==>
             var p := players[playerOrder[k]];
             events[0].msg.entries[k] == SyncEntry(p.id, p.name, p.score, p.alive)
    {
      events := [];
      KeysMatchEmpty(players, playerOrder);
      if |playerOrder| > 0 {
        var order, ps := playerOrder, players;
        var entries := seq(|order|, k requires 0 <= k < |order| =>
          var p := ps[order[k]]; SyncEntry(p.id, p.name, p.score, p.alive));
        events := [Event(Everyone, ScoreboardSync(entries))];
      }
    }

    /** The hit scan of the tick: the players in key order, stopping at the
        first living non-owner within the hit radius. */
    method ScanForHit(b: Bullet) returns (victim: Option<PlayerId>)
      requires Listed(players, playerOrder)
      ensures victim == FirstHit(players, playerOrder, b)
    {
      var i := 0;
      while i < |playerOrder|
        invariant 0 <= i <= |playerOrder|
        invariant FirstHit(players, playerOrder, b) == FirstHit(players, playerOrder[i..], b)
      {
        assert playerOrder[i..][1..] == playerOrder[i + 1..];
        var id := playerOrder[i];
        var player := players[id];
        if id != b.owner && player.alive {
          if DistSq(player.x, player.y, b.x, b.y) < HitRadiusSq {
            return Some(id);
          }
        }
        i := i + 1;
      }
      return None;
    }

    /** The homing adjustment and the move of one tick iteration. */
    method Fly(id: BulletId, steer: Steering) returns (b: Bullet)
      requires id in bullets
      ensures b == Flown(State(), id, steer)
    {
      b := bullets[id];
      if b.kind == HomingShot && b.target.Some? && b.target.value != "" {
        if b.target.value in players && players[b.target.value].alive {
          var targetPlayer := players[b.target.value];
          if DistSq(targetPlayer.x, targetPlayer.y, b.x, b.y) > 0.0 {
            var velocity := steer(b, targetPlayer);
            b := b.(vx := velocity.x, vy := velocity.y);
          }
        }
      }
      b := b.(x := b.x + b.vx, y := b.y + b.vy);
    }

    /** One iteration of the tick loop, for bullet `id`. */
    method AdvanceBullet(id: BulletId, steer: Steering) returns (events: seq<Event>)
      requires Listed(players, playerOrder) && id in bullets
      modifies this
      ensures Outcome(State(), events) == Advance(old(State()), id, steer)
    {
      var b := Fly(id, steer);
      if !InArena(b.x, b.y) {
        bullets := bullets - {id};
        bulletOrder := Without(bulletOrder, id);
        events := [Event(Everyone, BulletDestroyed(id))];
        return;
      }
      bullets := bullets[id := b];
      var victim := ScanForHit(b);
      events := [];
      if victim.Some? {
        ghost var w0 := old(State());
        assert w0.bullets[id := b] - {id} == w0.bullets - {id};
        events := HitPlayer(id, b, victim.value);
        assert State() == Removed(w0, id).(players := Struck(w0.players, b, victim.value));
      }
    }

    /** Bullet `id`, now `b`, hits player `v`. */
    method HitPlayer(id: BulletId, b: Bullet, v: PlayerId) returns (events: seq<Event>)
      requires v in players
      modifies this
      ensures players == Struck(old(players), b, v)
      ensures events == StrikeEvents(old(players), id, b, v)
      ensures bullets == old(bullets) - {id} && bulletOrder == Without(old(bulletOrder), id)
      ensures playerOrder == old(playerOrder) && powerUps == old(powerUps)
    {
      var player := players[v];
      var health := player.health - b.damage;
      events := [Event(Everyone, BulletHit(id, v, b.damage, health))];
      bullets := bullets - {id};
      bulletOrder := Without(bulletOrder, id);
      events := events + [Event(Everyone, BulletDestroyed(id))];
      if health <= 0 {
        players := players[v := player.(health := health, alive := false)];
        if b.owner in players {
          var score := players[b.owner].score + KillReward;
          players := players[b.owner := players[b.owner].(score := score)];
          events := events + [Event(Everyone, GlobalScoreUpdate(b.owner, score)), Event(Only(b.owner), ScoreUpdated(score))];
        }
        events := events + [Event(Everyone, PlayerKilled(v, b.owner))];
      } else {
        players := players[v := player.(health := health)];
        events := events + [Event(Everyone, PlayerDamaged(v, health))];
      }
    }

    /** The 16 ms tick: every bullet in key order is steered, moved, culled
        or tested for a hit, then the bullets are broadcast if there were any. */
    method Tick(steer: Steering) returns (events: seq<Event>)
      requires Valid()
      modifies this
      ensures Valid()
      ensures old(ReloadingMeansEmpty(players)) ==> ReloadingMeansEmpty(players)
      ensures Outcome(State(), events) == BulletTick(old(State()), steer)
    {
      ghost var w0 := State();
      var bulletsUpdated := false;
      var order := bulletOrder;
      events := [];
      var i := 0;
      while i < |order|
        invariant 0 <= i <= |order|
        invariant Outcome(State(), events) == Steps(w0, order[..i], steer)
        invariant bulletsUpdated <==> i > 0
      {
        var id := order[i];
        assert order[..i + 1][..i] == order[..i];
        StepsValid(w0, order[..i], steer);
        assert i == 0 ==> id in bullets;
        // a key deleted earlier in the loop is not visited
        if id in bullets {
          var stepEvents := AdvanceBullet(id, steer);
          events := events + stepEvents;
          bulletsUpdated := true;
        }
        i := i + 1;
      }
      assert order[..i] == order;
      if bulletsUpdated {
        events := events + [Event(Everyone, BulletsUpdate(InOrder(bullets, bulletOrder)))];
      }
      BulletTickValid(w0, steer);
    }
  }
}
