/** The `/scores` leaderboard: every player's id, name and score, in key
    order, then sorted by score from highest to lowest. The engine's sort
    is stable, so players with equal scores keep their key order; the
    reference sort below is an insertion sort with that property, and
    `LeaderboardCharacterised` shows it is the only ordering that has it. */
module Scores {
  import opened Common
  import opened Entities

  /** One row of the `/scores` response. */
  datatype ScoreRow = ScoreRow(id: PlayerId, name: string, score: int)

  function Row(p: Player): ScoreRow
  {
    ScoreRow(p.id, p.name, p.score)
  }

  /** The projection `Object.values(players).map(...)`, before sorting. */
  function Rows(ps: seq<Player>): seq<ScoreRow>
  {
    seq(|ps|, k requires 0 <= k < |ps| => Row(ps[k]))
  }

  /** Highest score first. */
  predicate Descending(s: seq<ScoreRow>)
  {
    forall i, j :: 0 <= i < j < |s| ==> s[i].score >= s[j].score
  }

  /** t orders the rows of s from the highest score down and keeps rows
      with equal scores in their order in s. */
  ghost predicate StableByScore(t: seq<ScoreRow>, s: seq<ScoreRow>)
  {
    Descending(t) && forall v :: WithScore(t, v) == WithScore(s, v)
  }

  /** The rows with score v, in their order in s. */
  function WithScore(s: seq<ScoreRow>, v: int): seq<ScoreRow>
  {
    if s == [] then []
    else (if s[0].score == v then [s[0]] else []) + WithScore(s[1..], v)
  }

  /** WithScore keeps exactly the rows with score v. */
  lemma {:induction false} WithScoreMembers(s: seq<ScoreRow>, v: int)
    ensures forall x :: x in WithScore(s, v) <==> x in s && x.score == v
  {
    if s != [] {
      WithScoreMembers(s[1..], v);
      assert forall x :: x in s <==> x == s[0] || x in s[1..];
    }
  }

  /** Puts x after every row whose score is at least its own: an equal score
      already placed stays in front. */
  function Insert(x: ScoreRow, s: seq<ScoreRow>): (r: seq<ScoreRow>)
    ensures |r| == |s| + 1
  {
    if s == [] then [x]
    else if s[0].score >= x.score then [s[0]] + Insert(x, s[1..])
    else [x] + s
  }

  /** Insertion adds x and loses nothing. */
  lemma {:induction false} InsertPermutation(x: ScoreRow, s: seq<ScoreRow>)
    ensures multiset(Insert(x, s)) == multiset(s) + multiset{x}
  {
    if s != [] && s[0].score >= x.score {
      InsertPermutation(x, s[1..]);
      assert s == [s[0]] + s[1..];
    }
  }

  /** The comparator `(a, b) => b.score - a.score` under a stable sort: as
      many rows as it was given; `SortDescending`, `SortPermutation` and
      `SortStable` say which. */
  function SortByScore(s: seq<ScoreRow>): (r: seq<ScoreRow>)
    ensures |r| == |s|
  {
    if s == [] then [] else Insert(s[|s| - 1], SortByScore(s[..|s| - 1]))
  }

  /** The `/scores` response for the players in key order `order`. */
  function Leaderboard(players: map<PlayerId, Player>, order: seq<PlayerId>): (r: seq<ScoreRow>)
    ensures StableByScore(r, Rows(InOrder(players, order)))
    ensures multiset(r) == multiset(Rows(InOrder(players, order)))
  {
    var rows := Rows(InOrder(players, order));
    SortDescending(rows);
    SortPermutation(rows);
    SortStable(rows);
    SortByScore(rows)
  }

  /** Every score in s is at most m. */
  predicate AtMost(s: seq<ScoreRow>, m: int)
  {
    forall k :: 0 <= k < |s| ==> s[k].score <= m
  }

  lemma {:induction false} InsertAtMost(x: ScoreRow, s: seq<ScoreRow>, m: int)
    requires AtMost(s, m) && x.score <= m
    ensures AtMost(Insert(x, s), m)
  {
    if s != [] && s[0].score >= x.score {
      InsertAtMost(x, s[1..], m);
      var r := [s[0]] + Insert(x, s[1..]);
      assert forall k :: 1 <= k < |r| ==> r[k] == Insert(x, s[1..])[k - 1];
    }
  }

  lemma {:induction false} InsertDescending(x: ScoreRow, s: seq<ScoreRow>)
    requires Descending(s)
    ensures Descending(Insert(x, s))
  {
    if s != [] && s[0].score >= x.score {
      var rest := Insert(x, s[1..]);
      InsertDescending(x, s[1..]);
      InsertAtMost(x, s[1..], s[0].score);
      var r := [s[0]] + rest;
      assert forall k :: 1 <= k < |r| ==> r[k] == rest[k - 1];
    }
  }

  /** The leaderboard is ordered from the highest score down. */
  lemma {:induction false} SortDescending(s: seq<ScoreRow>)
    ensures Descending(SortByScore(s))
  {
    if s != [] {
      SortDescending(s[..|s| - 1]);
      InsertDescending(s[|s| - 1], SortByScore(s[..|s| - 1]));
    }
  }

  /** The leaderboard holds exactly the rows it was given. */
  lemma {:induction false} SortPermutation(s: seq<ScoreRow>)
    ensures multiset(SortByScore(s)) == multiset(s)
  {
    if s != [] {
      var init, last := s[..|s| - 1], s[|s| - 1];
      SortPermutation(init);
      InsertPermutation(last, SortByScore(init));
      assert SortByScore(s) == Insert(last, SortByScore(init));
      LastSplit(s);
    }
  }

  /** A non-empty sequence holds its prefix and its last element. */
  lemma LastSplit(s: seq<ScoreRow>)
    requires s != []
    ensures multiset(s) == multiset(s[..|s| - 1]) + multiset{s[|s| - 1]}
  {
    assert s == s[..|s| - 1] + [s[|s| - 1]];
  }

  lemma {:induction false} WithScoreAppend(a: seq<ScoreRow>, b: seq<ScoreRow>, v: int)
    ensures WithScore(a + b, v) == WithScore(a, v) + WithScore(b, v)
  {
    if a != [] {
      assert (a + b)[1..] == a[1..] + b;
      WithScoreAppend(a[1..], b, v);
    } else {
      assert a + b == b;
    }
  }

  /** Inserting into a descending sequence adds x at the end of the rows
      with its score. */
  lemma {:induction false} InsertWithScore(x: ScoreRow, s: seq<ScoreRow>, v: int)
    requires Descending(s)
    ensures WithScore(Insert(x, s), v) == WithScore(s, v) + (if x.score == v then [x] else [])
  {
    if s == [] {
      assert Insert(x, s) == [x] == [x] + [];
    } else if s[0].score >= x.score {
      assert Descending(s[1..]);
      InsertWithScore(x, s[1..], v);
      InsertPastHead(x, s, v);
    } else {
      InsertInFront(x, s, v);
    }
  }

  /** x goes behind the head: the head's row is kept in front of the rest. */
  lemma InsertPastHead(x: ScoreRow, s: seq<ScoreRow>, v: int)
    requires s != [] && s[0].score >= x.score
    requires WithScore(Insert(x, s[1..]), v) == WithScore(s[1..], v) + (if x.score == v then [x] else [])
    ensures WithScore(Insert(x, s), v) == WithScore(s, v) + (if x.score == v then [x] else [])
  {
    var tail := if x.score == v then [x] else [];
    var head := if s[0].score == v then [s[0]] else [];
    var rest := Insert(x, s[1..]);
    var r := [s[0]] + rest;
    assert Insert(x, s) == r;
    assert r[0] == s[0] && r[1..] == rest;
    assert WithScore(r, v) == head + WithScore(rest, v);
    assert WithScore(s, v) == head + WithScore(s[1..], v);
  }

  /** x goes in front: its score is above every row of s. */
  lemma InsertInFront(x: ScoreRow, s: seq<ScoreRow>, v: int)
    requires Descending(s) && s != [] && s[0].score < x.score
    ensures WithScore(Insert(x, s), v) == WithScore(s, v) + (if x.score == v then [x] else [])
  {
    var tail := if x.score == v then [x] else [];
    var r := [x] + s;
    assert Insert(x, s) == r;
    assert r[0] == x && r[1..] == s;
    assert WithScore(r, v) == tail + WithScore(s, v);
    if x.score == v {
      NoneWithScore(s, v);
      assert tail + [] == [] + tail;
    } else {
      assert [] + WithScore(s, v) == WithScore(s, v) + [];
    }
  }

  /** Rows with equal scores keep the order they were given in. */
  lemma {:induction false} SortStable(s: seq<ScoreRow>)
    ensures forall v :: WithScore(SortByScore(s), v) == WithScore(s, v)
  {
    if s != [] {
      var n := |s| - 1;
      SortStable(s[..n]);
      SortDescending(s[..n]);
      forall v
        ensures WithScore(SortByScore(s), v) == WithScore(s, v)
      {
        InsertWithScore(s[n], SortByScore(s[..n]), v);
        assert s == s[..n] + [s[n]];
        WithScoreAppend(s[..n], [s[n]], v);
        assert WithScore([s[n]], v) == if s[n].score == v then [s[n]] else [];
      }
    }
  }

  /** The first row is among the rows with its own score. */
  lemma HasOwnScore(t: seq<ScoreRow>)
    requires t != []
    ensures WithScore(t, t[0].score) != []
  {
    WithScoreMembers(t, t[0].score);
    assert t[0] in WithScore(t, t[0].score);
  }

  /** No row of a descending sequence has a score above its first. */
  lemma {:induction false} NoneWithScore(s: seq<ScoreRow>, v: int)
    requires Descending(s) && (s == [] || s[0].score < v)
    ensures WithScore(s, v) == []
  {
    if s != [] {
      assert Descending(s[1..]) && (s[1..] == [] || s[1].score <= s[0].score);
      NoneWithScore(s[1..], v);
    }
  }

  /** In a descending sequence, the rows with the top score come first. */
  lemma DescendingHead(t: seq<ScoreRow>)
    requires Descending(t) && t != []
    ensures WithScore(t, t[0].score) == [t[0]] + WithScore(t[1..], t[0].score)
    ensures forall v :: v != t[0].score ==> WithScore(t, v) == WithScore(t[1..], v)
    ensures Descending(t[1..])
  {
  }

  /** Two descending sequences that agree on the rows of every score, in
      order, are the same sequence. */
  lemma {:induction false} DescendingUnique(t: seq<ScoreRow>, u: seq<ScoreRow>)
    requires Descending(t) && Descending(u)
    requires forall v :: WithScore(t, v) == WithScore(u, v)
    ensures t == u
  {
    if t == [] || u == [] {
      if t != [] {
        HasOwnScore(t);
        assert false;
      } else if u != [] {
        HasOwnScore(u);
        assert false;
      }
    } else {
      SameHead(t, u);
      DescendingUnique(t[1..], u[1..]);
      assert t == [t[0]] + t[1..] && u == [u[0]] + u[1..];
    }
  }

  /** Two non-empty descending sequences that agree on the rows of every
      score start with the same row and agree again after it. */
  lemma SameHead(t: seq<ScoreRow>, u: seq<ScoreRow>)
    requires t != [] && u != [] && Descending(t) && Descending(u)
    requires forall v :: WithScore(t, v) == WithScore(u, v)
    ensures t[0] == u[0] && Descending(t[1..]) && Descending(u[1..])
    ensures forall v :: WithScore(t[1..], v) == WithScore(u[1..], v)
  {
    var a, b := t[0], u[0];
    assert a.score == b.score by {
      WithScoreMembers(t, b.score);
      WithScoreMembers(u, a.score);
      WithScoreMembers(t, a.score);
      WithScoreMembers(u, b.score);
      assert b in WithScore(u, b.score) && a in WithScore(t, a.score);
      assert b in WithScore(t, b.score);
      assert a in WithScore(u, a.score);
    }
    DescendingHead(t);
    DescendingHead(u);
    var x, y := [a] + WithScore(t[1..], a.score), [b] + WithScore(u[1..], a.score);
    assert x == y;
    assert x[0] == a && y[0] == b && x[1..] == WithScore(t[1..], a.score) && y[1..] == WithScore(u[1..], a.score);
    forall v
      ensures WithScore(t[1..], v) == WithScore(u[1..], v)
    {
      if v != a.score {
        assert WithScore(t, v) == WithScore(u, v);
      }
    }
  }

  /** A response is the leaderboard exactly when it runs from the highest
      score down and keeps players with equal scores in key order: the
      stable sort's result does not depend on how it sorts. */
  lemma LeaderboardCharacterised(players: map<PlayerId, Player>, order: seq<PlayerId>, t: seq<ScoreRow>)
    ensures t == Leaderboard(players, order) <==> StableByScore(t, Rows(InOrder(players, order)))
  {
    var r := Leaderboard(players, order);
    var rows := Rows(InOrder(players, order));
    if StableByScore(t, rows) {
      forall v
        ensures WithScore(t, v) == WithScore(r, v)
      {
        assert WithScore(t, v) == WithScore(rows, v);
      }
      DescendingUnique(t, r);
    }
  }

  /** One row per connected player, in the shape of its record. */
  lemma LeaderboardRows(players: map<PlayerId, Player>, order: seq<PlayerId>)
    requires KeysMatch(players, order)
    ensures |Leaderboard(players, order)| == |players|
    ensures forall x :: x in Leaderboard(players, order) <==>
      exists id :: id in players && x == Row(players[id])
  {
    var ps := InOrder(players, order);
    var rows := Rows(ps);
    var r := Leaderboard(players, order);
    assert |multiset(r)| == |multiset(rows)|;
    KeysLength(players, order);
    forall x
      ensures x in r <==> exists id :: id in players && x == Row(players[id])
    {
      assert x in r <==> x in multiset(rows);
      if x in rows {
        var k :| 0 <= k < |rows| && rows[k] == x;
        assert x == Row(players[order[k]]);
      }
      if exists id :: id in players && x == Row(players[id]) {
        var id :| id in players && x == Row(players[id]);
        var k :| 0 <= k < |order| && order[k] == id;
        assert rows[k] == x;
      }
    }
  }

  /** A map and its key order have the same size. */
  lemma {:induction false} KeysLength<K(!new), V>(m: map<K, V>, order: seq<K>)
    requires KeysMatch(m, order)
    ensures |m| == |order|
  {
    if order != [] {
      var k := order[0];
      assert order == [k] + order[1..];
      assert forall j :: j in order[1..] <==> j in order && j != k;
      KeysLength(m - {k}, order[1..]);
    } else {
      KeysMatchEmpty(m, order);
    }
  }
}
