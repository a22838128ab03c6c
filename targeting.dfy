/** The two scans over the players in key order: the nearest-enemy query
    that aims homing bullets, and the hit test of the bullet tick. */
module Targeting {
  import opened Common
  import opened Entities

  /** Every id of `order` has a player record. */
  predicate Listed(players: map<PlayerId, Player>, order: seq<PlayerId>)
  {
    forall k :: 0 <= k < |order| ==> order[k] in players
  }

  /** The position of the running pick of a scan over `order` that
      considers the ids `eligible` accepts and replaces its pick only by a
      strictly nearer one; -1 while it has none. */
  function NearestIndex(order: seq<PlayerId>, eligible: PlayerId -> bool, dist: PlayerId -> real): (i: int)
    ensures -1 <= i < |order|
    ensures i >= 0 ==> eligible(order[i])
  {
    if order == [] then -1
    else
      var n := |order| - 1;
      var j := NearestIndex(order[..n], eligible, dist);
      assert j >= 0 ==> order[..n][j] == order[j];
      if eligible(order[n]) && (j < 0 || dist(order[n]) < dist(order[j])) then n else j
  }

  /** i is -1 when no id of `order` is eligible; otherwise the position of an
      eligible id at minimal distance, the earliest among those at that
      distance. */
  ghost predicate IsNearestFirst(order: seq<PlayerId>, eligible: PlayerId -> bool, dist: PlayerId -> real, i: int)
  {
    && -1 <= i < |order|
    && (i < 0 <==> forall k :: 0 <= k < |order| ==> !eligible(order[k]))
    && (i >= 0 ==>
          eligible(order[i]) &&
          forall k :: 0 <= k < |order| && eligible(order[k]) ==>
            dist(order[i]) <= dist(order[k]) && (k < i ==> dist(order[i]) < dist(order[k])))
  }

  lemma {:induction false} NearestIndexIsNearest(order: seq<PlayerId>, eligible: PlayerId -> bool, dist: PlayerId -> real)
    ensures IsNearestFirst(order, eligible, dist, NearestIndex(order, eligible, dist))
  {
    if order != [] {
      var n := |order| - 1;
      var prefix := order[..n];
      NearestIndexIsNearest(prefix, eligible, dist);
      assert forall k :: 0 <= k < n ==> prefix[k] == order[k];
    }
  }

  /** A player the nearest-enemy query may pick: alive and not the shooter. */
  predicate IsEnemy(players: map<PlayerId, Player>, shooter: Player, id: PlayerId)
  {
    id in players && id != shooter.id && players[id].alive
  }

  /** The squared distance of player `id` from the shooter. */
  function Distance(players: map<PlayerId, Player>, shooter: Player, id: PlayerId): real
  {
    if id in players then DistSq(players[id].x, players[id].y, shooter.x, shooter.y) else 0.0
  }

  /** `IsEnemy` as the eligibility test of a running minimum. */
  function EnemyOf(players: map<PlayerId, Player>, shooter: Player): PlayerId -> bool
  {
    id => IsEnemy(players, shooter, id)
  }

  /** `Distance` as the measure of a running minimum. */
  function DistanceFrom(players: map<PlayerId, Player>, shooter: Player): PlayerId -> real
  {
    id => Distance(players, shooter, id)
  }

  /** The position the nearest-enemy scan over `order` ends on: the running
      pick is replaced only by a strictly nearer enemy; -1 when it has none. */
  function NearestEnemy(players: map<PlayerId, Player>, order: seq<PlayerId>, shooter: Player): (i: int)
    ensures -1 <= i < |order|
    ensures i >= 0 ==> IsEnemy(players, shooter, order[i])
    ensures i < 0 ==> forall k :: 0 <= k < |order| ==> !IsEnemy(players, shooter, order[k])
  {
    if order == [] then -1
    else
      var n := |order| - 1;
      var j := NearestEnemy(players, order[..n], shooter);
      if IsEnemy(players, shooter, order[n]) &&
         (j < 0 || Distance(players, shooter, order[n]) < Distance(players, shooter, order[j]))
      then n else j
  }

  /** The scan is the generic running minimum over the enemies and their
      distances. */
  lemma {:induction false} NearestEnemyIsNearestIndex(players: map<PlayerId, Player>, order: seq<PlayerId>, shooter: Player)
    ensures NearestEnemy(players, order, shooter) == NearestIndex(order, EnemyOf(players, shooter), DistanceFrom(players, shooter))
  {
    if order != [] {
      var n := |order| - 1;
      NearestEnemyIsNearestIndex(players, order[..n], shooter);
      var j := NearestEnemy(players, order[..n], shooter);
      assert j >= 0 ==> order[..n][j] == order[j];
    }
  }

  /** `findClosestEnemy`: the scan over the players in key order. It answers
      null exactly when no listed player is an enemy, and otherwise a listed
      enemy; `ClosestEnemyIsClosest` says which one. */
  function ClosestEnemy(players: map<PlayerId, Player>, order: seq<PlayerId>, shooter: Player): (r: Option<PlayerId>)
    ensures r.None? <==> forall k :: 0 <= k < |order| ==> !IsEnemy(players, shooter, order[k])
    ensures r.Some? ==> r.value in order && IsEnemy(players, shooter, r.value)
  {
    var i := NearestEnemy(players, order, shooter);
    if i < 0 then None else Some(order[i])
  }

  /** The query answers nothing exactly when there is no living player other
      than the shooter, and otherwise the nearest such player, ties going to
      the earliest in key order. */
  lemma ClosestEnemyIsClosest(players: map<PlayerId, Player>, order: seq<PlayerId>, shooter: Player)
    ensures var r := ClosestEnemy(players, order, shooter);
      && (r.None? <==> forall k :: 0 <= k < |order| ==> !EnemyOf(players, shooter)(order[k]))
      && (r.Some? ==> r.value in players && r.value != shooter.id && players[r.value].alive)
      && (r.Some? ==> exists i :: IsNearestFirst(order, EnemyOf(players, shooter), DistanceFrom(players, shooter), i) && order[i] == r.value)
  {
    NearestEnemyIsNearestIndex(players, order, shooter);
    NearestIndexIsNearest(order, EnemyOf(players, shooter), DistanceFrom(players, shooter));
  }

  /** Whether the bullet hits this player: not its owner, alive, and
      closer than the hit radius. */
  predicate Hits(players: map<PlayerId, Player>, id: PlayerId, b: Bullet)
  {
    id in players && id != b.owner && players[id].alive &&
    DistSq(players[id].x, players[id].y, b.x, b.y) < HitRadiusSq
  }

  /** The player the hit scan stops at: the first one in key order that the
      bullet hits, if any. */
  function FirstHit(players: map<PlayerId, Player>, order: seq<PlayerId>, b: Bullet): (r: Option<PlayerId>)
    ensures r.None? <==> forall k :: 0 <= k < |order| ==> !Hits(players, order[k], b)
    ensures r.Some? ==>
      exists i :: 0 <= i < |order| && order[i] == r.value && Hits(players, order[i], b) &&
        forall k :: 0 <= k < i ==> !Hits(players, order[k], b)
  {
    if order == [] then None
    else if Hits(players, order[0], b) then Some(order[0])
    else
      var r := FirstHit(players, order[1..], b);
      assert forall k :: 1 <= k < |order| ==> order[k] == order[1..][k - 1];
      if r.Some? then
        var i :| 0 <= i < |order| - 1 && order[1..][i] == r.value && Hits(players, order[1..][i], b) &&
          forall k :: 0 <= k < i ==> !Hits(players, order[1..][k], b);
        assert order[i + 1] == r.value;
        r
      else r
  }
}
