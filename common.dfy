/** Small helpers shared by the game-server model: an optional value and
    the sequence operations that model the key order of a JavaScript object. */
module Common {

  datatype Option<+T> = None | Some(value: T)

  /** No element occurs twice: the keys of a JavaScript object, in insertion order. */
  predicate Distinct<T(==)>(s: seq<T>)
  {
    forall i, j :: 0 <= i < j < |s| ==> s[i] != s[j]
  }

  /** `s` with every occurrence of `x` taken out: deleting a key from an object. */
  function Without<T(==,!new)>(s: seq<T>, x: T): (r: seq<T>)
    ensures forall y :: y in r <==> y in s && y != x
    ensures |r| <= |s|
    ensures x !in s ==> r == s
    ensures Distinct(s) ==> Distinct(r)
  {
    if s == [] then []
    else
      var rest := Without(s[1..], x);
      assert forall y :: y in s <==> y == s[0] || y in s[1..];
      if s[0] == x then rest
      else
        assert Distinct(s) ==> s[0] !in rest;
        [s[0]] + rest
  }

  /** The elements of `s` that satisfy `keep`, in their order. */
  function Filter<T(!new)>(s: seq<T>, keep: T -> bool): (r: seq<T>)
    ensures forall y :: y in r <==> y in s && keep(y)
    ensures Distinct(s) ==> Distinct(r)
  {
    if s == [] then []
    else
      var rest := Filter(s[..|s| - 1], keep);
      var last := s[|s| - 1];
      assert forall y :: y in s <==> y in s[..|s| - 1] || y == last;
      if keep(last) then
        assert Distinct(s) ==> last !in s[..|s| - 1];
        rest + [last]
      else rest
  }

  /** Taking out a key that occurs once, between a and b, leaves
      exactly a followed by b. */
  lemma {:induction false} WithoutAt<T(!new)>(a: seq<T>, x: T, b: seq<T>)
    requires x !in a && x !in b
    ensures Without(a + [x] + b, x) == a + b
  {
    if a == [] {
      assert (a + [x] + b)[1..] == b;
    } else {
      assert (a + [x] + b)[1..] == a[1..] + [x] + b;
      WithoutAt(a[1..], x, b);
      assert a + b == [a[0]] + (a[1..] + b);
    }
  }

  /** One more element of `s` through the filter: it is kept or dropped,
      and in a sequence without repeats it occurs neither before nor after. */
  lemma FilterStep<T(!new)>(s: seq<T>, keep: T -> bool, i: int)
    requires 0 <= i < |s|
    ensures Filter(s[..i + 1], keep) == Filter(s[..i], keep) + (if keep(s[i]) then [s[i]] else [])
    ensures s[i..] == [s[i]] + s[i + 1..]
    ensures Distinct(s) ==> s[i] !in s[..i] && s[i] !in s[i + 1..]
  {
    assert s[..i + 1][..i] == s[..i];
  }

  /** One step of a loop that deletes, in order, the elements `keep`
      rejects: `cur` is the filtered prefix followed by the unvisited rest. */
  lemma FilterLoopStep<T(!new)>(s: seq<T>, keep: T -> bool, i: int, cur: seq<T>)
    requires Distinct(s) && 0 <= i < |s|
    requires cur == Filter(s[..i], keep) + s[i..]
    ensures keep(s[i]) ==> cur == Filter(s[..i + 1], keep) + s[i + 1..]
    ensures !keep(s[i]) ==> Without(cur, s[i]) == Filter(s[..i + 1], keep) + s[i + 1..]
  {
    var kept := Filter(s[..i], keep);
    FilterStep(s, keep, i);
    assert cur == kept + [s[i]] + s[i + 1..];
    if keep(s[i]) {
      assert Filter(s[..i + 1], keep) == kept + [s[i]];
    } else {
      assert Filter(s[..i + 1], keep) == kept;
      WithoutAt(kept, s[i], s[i + 1..]);
    }
  }

  /** The keys of map m, each once, in the order `order` lists them: a
      JavaScript object and the insertion order of its keys. */
  ghost predicate KeysMatch<K(!new), V>(m: map<K, V>, order: seq<K>)
  {
    Distinct(order) && forall k :: k in m <==> k in order
  }

  /** Appending a key the order does not hold yet keeps the keys matched. */
  lemma AddKey<K(!new), V>(m: map<K, V>, order: seq<K>, k: K, v: V)
    requires KeysMatch(m, order)
    ensures k !in m ==> KeysMatch(m[k := v], order + [k])
    ensures k in m ==> KeysMatch(m[k := v], order)
  {
    if k !in m {
      assert forall j :: j in order + [k] <==> j in order || j == k;
    }
  }

  /** Taking a key out of both the map and the order keeps them matched. */
  lemma RemoveKey<K(!new), V>(m: map<K, V>, order: seq<K>, k: K)
    requires KeysMatch(m, order)
    ensures KeysMatch(m - {k}, Without(order, k))
  {
  }

  /** An object has no keys exactly when its key order is empty. */
  lemma KeysMatchEmpty<K(!new), V>(m: map<K, V>, order: seq<K>)
    requires KeysMatch(m, order)
    ensures m == map[] <==> order == []
  {
    if order != [] {
      assert order[0] in m;
    }
    if m != map[] {
      var k :| k in m;
      assert k in order;
    }
  }
}
