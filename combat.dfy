/** The 16 ms bullet tick as functions on the world value, and what it
    guarantees: culling, at most one victim per bullet, kills and scores. */
module Combat {
  import opened Common
  import opened Entities
  import opened Targeting

  /** A world after a step, with the messages the step sent, in order. */
  datatype Outcome = Outcome(world: World, events: seq<Event>)

  /** The new velocity of a homing bullet steered toward its target; the
      vector arithmetic and renormalisation to speed 16 are a parameter. */
  type Steering = (Bullet, Player) -> Vec

  /** Whether the tick steers bullet b: a homing bullet whose target is
      set (a non-empty id), still present, alive and at a positive distance. */
  predicate Homes(players: map<PlayerId, Player>, b: Bullet)
  {
    b.kind == HomingShot && b.target.Some? && b.target.value != "" && b.target.value in players
    && players[b.target.value].alive
    && DistSq(players[b.target.value].x, players[b.target.value].y, b.x, b.y) > 0.0
  }

  /** A bullet the tick steers turns toward its target; every other bullet
      (not homing, no target, target gone or dead, or already on it) keeps
      its velocity and flies straight. */
  function Steered(players: map<PlayerId, Player>, b: Bullet, steer: Steering): (r: Bullet)
    ensures r == b.(vx := r.vx, vy := r.vy)
    ensures !Homes(players, b) ==> r == b
    ensures Homes(players, b) ==> Vec(r.vx, r.vy) == steer(b, players[b.target.value])
  {
    if Homes(players, b) then
      var v := steer(b, players[b.target.value]);
      b.(vx := v.x, vy := v.y)
    else b
  }

  function Moved(b: Bullet): Bullet
  {
    b.(x := b.x + b.vx, y := b.y + b.vy)
  }

  /** The bullet a tick iteration works with: steered, then moved. */
  function Flown(w: World, id: BulletId, steer: Steering): (b: Bullet)
    requires id in w.bullets
    ensures b.id == w.bullets[id].id && b.owner == w.bullets[id].owner && b.damage == w.bullets[id].damage
  {
    Moved(Steered(w.players, w.bullets[id], steer))
  }

  function Removed(w: World, id: BulletId): World
  {
    w.(bullets := w.bullets - {id}, bulletOrder := Without(w.bulletOrder, id))
  }

  /** The player bullet id hits in this tick iteration: none when it left the
      arena, otherwise the first player in key order it hits. */
  function Victim(w: World, id: BulletId, steer: Steering): Option<PlayerId>
    requires id in w.bullets
  {
    var b := Flown(w, id, steer);
    if InArena(b.x, b.y) then FirstHit(w.players, w.playerOrder, b) else None
  }

  /** Whether the hit of bullet b on player v is a kill. */
  predicate Kills(w: World, b: Bullet, v: PlayerId)
    requires v in w.players
  {
    w.players[v].health - b.damage <= 0
  }

  /** One iteration of the tick loop, for bullet id. */
  function Advance(w: World, id: BulletId, steer: Steering): (r: Outcome)
    requires id in w.bullets
    ensures r.world.players.Keys == w.players.Keys
    ensures r.world.playerOrder == w.playerOrder && r.world.powerUps == w.powerUps
  {
    var b := Flown(w, id, steer);
    if !InArena(b.x, b.y) then
      Outcome(Removed(w, id), [Event(Everyone, BulletDestroyed(id))])
    else
      match FirstHit(w.players, w.playerOrder, b)
      case None => Outcome(w.(bullets := w.bullets[id := b]), [])
      case Some(v) => Strike(Removed(w, id), id, b, v)
  }

  /** Bullet b, already taken out of the world, hits player v. */
  function Strike(w: World, id: BulletId, b: Bullet, v: PlayerId): Outcome
    requires v in w.players
  {
    Outcome(w.(players := Struck(w.players, b, v)), StrikeEvents(w.players, id, b, v))
  }

  /** The players after the hit: the victim loses the bullet's damage and,
      at zero health or below, its life, and then a shooter still present
      earns the kill reward. */
  function Struck(players: map<PlayerId, Player>, b: Bullet, v: PlayerId): (r: map<PlayerId, Player>)
    requires v in players
    ensures r.Keys == players.Keys
    ensures r[v].health == players[v].health - b.damage
    ensures r[v].alive ==> players[v].alive
  {
    var p := players[v];
    var health := p.health - b.damage;
    if health > 0 then players[v := p.(health := health)]
    else
      var ps := players[v := p.(health := health, alive := false)];
      if b.owner in ps then ps[b.owner := ps[b.owner].(score := ps[b.owner].score + KillReward)] else ps
  }

  /** The messages of a hit, in the order the tick sends them. */
  function StrikeEvents(players: map<PlayerId, Player>, id: BulletId, b: Bullet, v: PlayerId): (e: seq<Event>)
    requires v in players
    ensures |e| >= 3
    ensures e[0] == Event(Everyone, BulletHit(id, v, b.damage, players[v].health - b.damage))
    ensures e[1] == Event(Everyone, BulletDestroyed(id))
  {
    var health := players[v].health - b.damage;
    var hit := [Event(Everyone, BulletHit(id, v, b.damage, health)), Event(Everyone, BulletDestroyed(id))];
    if health > 0 then hit + [Event(Everyone, PlayerDamaged(v, health))]
    else
      var killed := [Event(Everyone, PlayerKilled(v, b.owner))];
      if b.owner in players then
        var score := players[b.owner].score + KillReward;
        hit + [Event(Everyone, GlobalScoreUpdate(b.owner, score)), Event(Only(b.owner), ScoreUpdated(score))] + killed
      else hit + killed
  }

  /** The tick loop over the bullet ids `ids`, in order; an id no longer
      present when its turn comes is skipped, as a `for ... in` loop does. */
  function Steps(w: World, ids: seq<BulletId>, steer: Steering): (r: Outcome)
    ensures r.world.players.Keys == w.players.Keys
    ensures r.world.playerOrder == w.playerOrder && r.world.powerUps == w.powerUps
  {
    if ids == [] then Outcome(w, [])
    else
      var o := Steps(w, ids[..|ids| - 1], steer);
      var id := ids[|ids| - 1];
      if id in o.world.bullets then
        var s := Advance(o.world, id, steer);
        Outcome(s.world, o.events + s.events)
      else o
  }

  /** The 16 ms tick: every bullet in key order, then a snapshot of the
      remaining bullets when there was at least one bullet. */
  function BulletTick(w: World, steer: Steering): (r: Outcome)
    ensures r.world.players.Keys == w.players.Keys
    ensures r.world.playerOrder == w.playerOrder && r.world.powerUps == w.powerUps
  {
    var o := Steps(w, w.bulletOrder, steer);
    if w.bulletOrder == [] then o
    else Outcome(o.world, o.events + [Event(Everyone, BulletsUpdate(InOrder(o.world.bullets, o.world.bulletOrder)))])
  }

  // ---------------------------------------------------------------------
  // The invariant

  lemma RemovedValid(w: World, id: BulletId)
    requires WorldValid(w)
    ensures WorldValid(Removed(w, id))
  {
    RemoveKey(w.bullets, w.bulletOrder, id);
  }

  /** Players change only in health, life and score, and only as the tick
      changes them. */
  ghost predicate PlayerEvolves(p: Player, q: Player)
  {
    && q == p.(health := q.health, alive := q.alive, score := q.score)
    && q.health <= p.health
    && (q.alive ==> p.alive)
    && q.score >= p.score
  }

  ghost predicate PlayersEvolve(before: map<PlayerId, Player>, after: map<PlayerId, Player>)
  {
    && before.Keys == after.Keys
    && forall id :: id in before ==> PlayerEvolves(before[id], after[id])
  }

  /** Replacing one player's record by a valid one that evolved from it. */
  lemma ReplacePlayerValid(players: map<PlayerId, Player>, order: seq<PlayerId>, v: PlayerId, q: Player)
    requires PlayersValid(players, order) && v in players && PlayerValid(v, q) && PlayerEvolves(players[v], q)
    ensures PlayersValid(players[v := q], order)
    ensures PlayersEvolve(players, players[v := q])
  {
    assert players[v := q].Keys == players.Keys;
  }

  /** The kill reward keeps the shooter's record valid. */
  lemma RewardValid(players: map<PlayerId, Player>, order: seq<PlayerId>, k: PlayerId)
    requires PlayersValid(players, order) && k in players
    ensures var q := players[k].(score := players[k].score + KillReward);
      PlayersValid(players[k := q], order) && PlayersEvolve(players, players[k := q])
  {
    var s := players[k];
    var q := s.(score := s.score + KillReward);
    assert PlayerValid(k, q) && PlayerEvolves(s, q);
    ReplacePlayerValid(players, order, k, q);
  }

  lemma StrikeValid(players: map<PlayerId, Player>, order: seq<PlayerId>, b: Bullet, v: PlayerId)
    requires PlayersValid(players, order) && v in players && players[v].alive && b.damage > 0 && b.owner != v
    ensures PlayersValid(Struck(players, b, v), order)
    ensures PlayersEvolve(players, Struck(players, b, v))
  {
    var p := players[v];
    var health := p.health - b.damage;
    if health > 0 {
      assert Struck(players, b, v) == players[v := p.(health := health)];
      ReplacePlayerValid(players, order, v, p.(health := health));
    } else {
      var ps := players[v := p.(health := health, alive := false)];
      ReplacePlayerValid(players, order, v, p.(health := health, alive := false));
      if b.owner in ps {
        var s' := ps[b.owner].(score := ps[b.owner].score + KillReward);
        assert Struck(players, b, v) == ps[b.owner := s'];
        RewardValid(ps, order, b.owner);
        PlayersEvolveTransitive(players, ps, ps[b.owner := s']);
      } else {
        assert Struck(players, b, v) == ps;
      }
    }
  }

  lemma AdvanceValid(w: World, id: BulletId, steer: Steering)
    requires WorldValid(w) && id in w.bullets
    ensures WorldValid(Advance(w, id, steer).world)
    ensures PlayersEvolve(w.players, Advance(w, id, steer).world.players)
    ensures Advance(w, id, steer).world.playerOrder == w.playerOrder
    ensures Advance(w, id, steer).world.powerUps == w.powerUps
  {
    var b := Flown(w, id, steer);
    RemovedValid(w, id);
    if InArena(b.x, b.y) {
      var v := FirstHit(w.players, w.playerOrder, b);
      if v.Some? {
        StrikeValid(w.players, w.playerOrder, b, v.value);
      } else {
        assert id in w.bulletOrder;
      }
    }
  }

  lemma PlayersEvolveTransitive(a: map<PlayerId, Player>, b: map<PlayerId, Player>, c: map<PlayerId, Player>)
    requires PlayersEvolve(a, b) && PlayersEvolve(b, c)
    ensures PlayersEvolve(a, c)
  {
  }

  lemma PlayersEvolveReflexive(a: map<PlayerId, Player>)
    ensures PlayersEvolve(a, a)
  {
  }

  /** The tick loop keeps the invariant; it changes players only by lowering
      health, killing and raising scores, and never changes the player key
      order or the power-ups. */
  lemma {:induction false} StepsValid(w: World, ids: seq<BulletId>, steer: Steering)
    requires WorldValid(w)
    ensures WorldValid(Steps(w, ids, steer).world)
    ensures PlayersEvolve(w.players, Steps(w, ids, steer).world.players)
    ensures Steps(w, ids, steer).world.playerOrder == w.playerOrder
    ensures Steps(w, ids, steer).world.powerUps == w.powerUps
  {
    if ids == [] {
      PlayersEvolveReflexive(w.players);
    } else {
      var o := Steps(w, ids[..|ids| - 1], steer);
      StepsValid(w, ids[..|ids| - 1], steer);
      var id := ids[|ids| - 1];
      if id in o.world.bullets {
        AdvanceValid(o.world, id, steer);
        PlayersEvolveTransitive(w.players, o.world.players, Advance(o.world, id, steer).world.players);
      }
    }
  }

  lemma BulletTickValid(w: World, steer: Steering)
    requires WorldValid(w)
    ensures WorldValid(BulletTick(w, steer).world)
    ensures PlayersEvolve(w.players, BulletTick(w, steer).world.players)
    ensures BulletTick(w, steer).world.playerOrder == w.playerOrder
    ensures BulletTick(w, steer).world.powerUps == w.powerUps
  {
    StepsValid(w, w.bulletOrder, steer);
  }

  // ---------------------------------------------------------------------
  // What one tick iteration does

  /** A bullet that leaves the arena is removed and announced; nobody is hit. */
  lemma AdvanceOutOfArena(w: World, id: BulletId, steer: Steering)
    requires id in w.bullets
    requires !InArena(Flown(w, id, steer).x, Flown(w, id, steer).y)
    ensures Victim(w, id, steer).None?
    ensures Advance(w, id, steer) == Outcome(Removed(w, id), [Event(Everyone, BulletDestroyed(id))])
    ensures id !in Advance(w, id, steer).world.bullets
    ensures Advance(w, id, steer).world.players == w.players
  {
  }

  /** A bullet that stays in the arena and hits nobody is stored at its new
      position, and the iteration sends nothing. */
  lemma AdvanceMiss(w: World, id: BulletId, steer: Steering)
    requires WorldValid(w) && id in w.bullets
    requires InArena(Flown(w, id, steer).x, Flown(w, id, steer).y) && Victim(w, id, steer).None?
    ensures Advance(w, id, steer) == Outcome(w.(bullets := w.bullets[id := Flown(w, id, steer)]), [])
    ensures forall p :: p in w.players ==> !Hits(w.players, p, Flown(w, id, steer))
  {
    forall p | p in w.players
      ensures !Hits(w.players, p, Flown(w, id, steer))
    {
      var k :| 0 <= k < |w.playerOrder| && w.playerOrder[k] == p;
    }
  }

  /** What the hit does to the players: the victim loses the damage and
      dies exactly when its health drops to zero or below; only then does
      the shooter, when present, gain exactly 100 points; nobody else changes. */
  lemma StruckEffects(players: map<PlayerId, Player>, b: Bullet, v: PlayerId)
    requires v in players && v != b.owner
    ensures var r := Struck(players, b, v);
      && r.Keys == players.Keys
      && r[v] == players[v].(health := players[v].health - b.damage, alive := r[v].alive)
      && (players[v].alive ==> (r[v].alive <==> players[v].health - b.damage > 0))
      && (b.owner in players ==>
            r[b.owner] == players[b.owner].(score := players[b.owner].score + (if players[v].health - b.damage <= 0 then KillReward else 0)))
      && (forall p :: p in players && p != v && p != b.owner ==> r[p] == players[p])
  {
  }

  lemma StrikeEventsEffects(players: map<PlayerId, Player>, id: BulletId, b: Bullet, v: PlayerId)
    requires v in players
    ensures var e := StrikeEvents(players, id, b, v);
      && e[0] == Event(Everyone, BulletHit(id, v, b.damage, players[v].health - b.damage))
      && (Event(Everyone, PlayerKilled(v, b.owner)) in e <==> players[v].health - b.damage <= 0)
  {
    var e := StrikeEvents(players, id, b, v);
    if players[v].health - b.damage > 0 {
      assert forall k :: 0 <= k < |e| ==> e[k].msg != PlayerKilled(v, b.owner);
    }
  }

  /** A bullet hits at most one player: a living one other than its owner,
      the first in key order within the hit radius. The victim loses the
      bullet's damage and dies exactly when its health drops to zero or
      below; only then does the shooter, when still present, gain exactly
      100 points. Nobody else changes, and the bullet is gone. */
  lemma AdvanceHit(w: World, id: BulletId, steer: Steering)
    requires id in w.bullets && Victim(w, id, steer).Some?
    ensures var b := Flown(w, id, steer);
      var v := Victim(w, id, steer).value;
      var o := Advance(w, id, steer);
      && InArena(b.x, b.y)
      && v in w.players && v != b.owner && w.players[v].alive
      && DistSq(w.players[v].x, w.players[v].y, b.x, b.y) < HitRadiusSq
      && id !in o.world.bullets
      && o.world.players.Keys == w.players.Keys
      && o.world.players[v] == w.players[v].(health := w.players[v].health - b.damage, alive := o.world.players[v].alive)
      && (o.world.players[v].alive <==> w.players[v].health - b.damage > 0)
      && (b.owner in w.players ==>
            o.world.players[b.owner] ==
              w.players[b.owner].(score := w.players[b.owner].score + (if Kills(w, b, v) then KillReward else 0)))
      && (forall p :: p in w.players && p != v && p != b.owner ==> o.world.players[p] == w.players[p])
      && o.events[0] == Event(Everyone, BulletHit(id, v, b.damage, w.players[v].health - b.damage))
      && (Event(Everyone, PlayerKilled(v, b.owner)) in o.events <==> Kills(w, b, v))
  {
    var b := Flown(w, id, steer);
    var v := Victim(w, id, steer).value;
    var i :| 0 <= i < |w.playerOrder| && w.playerOrder[i] == v && Hits(w.players, w.playerOrder[i], b);
    assert Advance(w, id, steer) == Strike(Removed(w, id), id, b, v);
    StruckEffects(w.players, b, v);
    StrikeEventsEffects(w.players, id, b, v);
  }

  /** One iteration touches no bullet but its own, and leaves its own either
      removed or inside the arena. */
  lemma AdvanceBullets(w: World, id: BulletId, steer: Steering)
    requires id in w.bullets
    ensures var r := Advance(w, id, steer).world.bullets;
      && (forall x :: x != id ==> (x in r <==> x in w.bullets))
      && (forall x :: x != id && x in r ==> r[x] == w.bullets[x])
      && (id in r ==> InArena(r[id].x, r[id].y))
  {
    var b := Flown(w, id, steer);
    if InArena(b.x, b.y) && FirstHit(w.players, w.playerOrder, b).Some? {
      assert Advance(w, id, steer).world.bullets == w.bullets - {id};
    }
  }

  // ---------------------------------------------------------------------
  // What the whole tick does

  /** After the tick loop over distinct ids, the bullets visited are gone or
      inside the arena, and the others are untouched. */
  lemma {:induction false} StepsBullets(w: World, ids: seq<BulletId>, steer: Steering)
    requires Distinct(ids)
    ensures var r := Steps(w, ids, steer).world.bullets;
      && (forall x :: x in r ==> x in w.bullets)
      && (forall x :: x in r && x in ids ==> InArena(r[x].x, r[x].y))
      && (forall x :: x in w.bullets && x !in ids ==> x in r && r[x] == w.bullets[x])
  {
    if ids != [] {
      var n := |ids| - 1;
      var prefix := ids[..n];
      var id := ids[n];
      assert Distinct(prefix);
      assert id !in prefix;
      assert forall x :: x in ids <==> x in prefix || x == id;
      StepsBullets(w, prefix, steer);
      var o := Steps(w, prefix, steer);
      if id in o.world.bullets {
        AdvanceBullets(o.world, id, steer);
      }
    }
  }

  /** After a tick every remaining bullet lies inside the arena, and no
      bullet appeared. */
  lemma BulletTickCulls(w: World, steer: Steering)
    requires WorldValid(w)
    ensures var r := BulletTick(w, steer).world.bullets;
      forall x :: x in r ==> x in w.bullets && InArena(r[x].x, r[x].y)
  {
    StepsBullets(w, w.bulletOrder, steer);
  }

  /** With no bullets the tick changes nothing and sends nothing. */
  lemma BulletTickIdle(w: World, steer: Steering)
    requires WorldValid(w) && w.bullets == map[]
    ensures BulletTick(w, steer) == Outcome(w, [])
  {
    KeysMatchEmpty(w.bullets, w.bulletOrder);
  }

  /** With at least one bullet the tick ends with the snapshot of the bullets. */
  lemma BulletTickReports(w: World, steer: Steering)
    requires WorldValid(w) && w.bullets != map[]
    ensures var o := BulletTick(w, steer);
      |o.events| > 0 && o.events[|o.events| - 1] == Event(Everyone, BulletsUpdate(InOrder(o.world.bullets, o.world.bulletOrder)))
  {
    KeysMatchEmpty(w.bullets, w.bulletOrder);
  }
}
