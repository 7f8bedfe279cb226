/** Newest-first listings: the `.sort({ createdAt: -1 })` and `.limit(n)`
    steps of the listing queries, over the documents of a collection. */
module Listing {
  import opened Common

  predicate AllIn<T>(m: map<Id, T>, ids: seq<Id>)
  {
    forall i :: 0 <= i < |ids| ==> ids[i] in m
  }

  predicate Distinct(ids: seq<Id>)
  {
    forall i, j :: 0 <= i < j < |ids| ==> ids[i] != ids[j]
  }

  /** Non-increasing in `key`: the newest document first. */
  predicate NewestFirst<T>(m: map<Id, T>, key: T -> int, ids: seq<Id>)
    requires AllIn(m, ids)
  {
    forall i, j :: 0 <= i < j < |ids| ==> key(m[ids[i]]) >= key(m[ids[j]])
  }

  /** Putting an id no older than any of a newest-first list in front keeps it newest first. */
  lemma PrependNewest<T>(m: map<Id, T>, key: T -> int, x: Id, rest: seq<Id>)
    requires x in m && AllIn(m, rest) && NewestFirst(m, key, rest)
    requires forall j :: 0 <= j < |rest| ==> key(m[rest[j]]) <= key(m[x])
    ensures AllIn(m, [x] + rest) && NewestFirst(m, key, [x] + rest)
  {
    var r := [x] + rest;
    forall i, j | 0 <= i < j < |r|
      ensures key(m[r[i]]) >= key(m[r[j]])
    {
      assert r[j] == rest[j - 1];
      if i > 0 {
        assert r[i] == rest[i - 1];
      }
    }
  }

  lemma PrependDistinct(x: Id, rest: seq<Id>)
    ensures Distinct(rest) && x !in rest ==> Distinct([x] + rest)
  {
    var r := [x] + rest;
    forall i, j | 0 <= i < j < |r| && Distinct(rest) && x !in rest
      ensures r[i] != r[j]
    {
      assert r[j] == rest[j - 1];
      if i > 0 {
        assert r[i] == rest[i - 1];
      }
    }
  }

  /** The tail of a newest-first list is newest first, and its head does
      not occur in it when the list is distinct. */
  lemma TailKeeps<T>(m: map<Id, T>, key: T -> int, ids: seq<Id>)
    requires ids != [] && AllIn(m, ids) && NewestFirst(m, key, ids)
    ensures AllIn(m, ids[1..]) && NewestFirst(m, key, ids[1..])
    ensures forall x :: x in ids <==> x == ids[0] || x in ids[1..]
    ensures forall j :: 0 <= j < |ids[1..]| ==> key(m[ids[1..][j]]) <= key(m[ids[0]])
    ensures Distinct(ids) ==> Distinct(ids[1..]) && ids[0] !in ids[1..]
  {
    var tail := ids[1..];
    assert ids == [ids[0]] + tail;
    assert forall j :: 0 <= j < |tail| ==> tail[j] == ids[j + 1];
  }

  /** Whatever comes out of inserting `k` behind the head is no newer than the head. */
  lemma HeadBoundsRest<T>(m: map<Id, T>, key: T -> int, head: Id, tail: seq<Id>, k: Id, rest: seq<Id>)
    requires head in m && k in m && AllIn(m, tail) && AllIn(m, rest)
    requires key(m[k]) < key(m[head])
    requires forall j :: 0 <= j < |tail| ==> key(m[tail[j]]) <= key(m[head])
    requires forall x :: x in rest ==> x in tail || x == k
    ensures forall j :: 0 <= j < |rest| ==> key(m[rest[j]]) <= key(m[head])
  {
    forall j | 0 <= j < |rest|
      ensures key(m[rest[j]]) <= key(m[head])
    {
      if rest[j] != k {
        assert rest[j] in tail;
        var q :| 0 <= q < |tail| && tail[q] == rest[j];
      }
    }
  }

  /** Places `k` in front of the first id that is not newer than it. */
  function InsertNewestFirst<T>(m: map<Id, T>, key: T -> int, ids: seq<Id>, k: Id): (r: seq<Id>)
    requires k in m && AllIn(m, ids) && NewestFirst(m, key, ids)
    ensures AllIn(m, r) && NewestFirst(m, key, r)
    ensures |r| == |ids| + 1
    ensures forall x :: x in r <==> x in ids || x == k
    ensures Distinct(ids) && k !in ids ==> Distinct(r)
    decreases |ids|
  {
    if ids == [] then [k]
    else if key(m[k]) >= key(m[ids[0]]) then
      PrependNewest(m, key, k, ids);
      PrependDistinct(k, ids);
      [k] + ids
    else
      TailKeeps(m, key, ids);
      var rest := InsertNewestFirst(m, key, ids[1..], k);
      HeadBoundsRest(m, key, ids[0], ids[1..], k, rest);
      PrependNewest(m, key, ids[0], rest);
      PrependDistinct(ids[0], rest);
      [ids[0]] + rest
  }

  /** Every document of `m`, each once, newest first. */
  method SortNewestFirst<T>(m: map<Id, T>, key: T -> int) returns (ids: seq<Id>)
    ensures AllIn(m, ids) && Distinct(ids) && NewestFirst(m, key, ids)
    ensures forall k :: k in m ==> k in ids
    ensures |ids| == |m|
  {
    ids := [];
    var rest := m.Keys;
    while rest != {}
      invariant rest <= m.Keys
      invariant AllIn(m, ids) && Distinct(ids) && NewestFirst(m, key, ids)
      invariant forall x :: x in ids ==> x !in rest
      invariant forall k :: k in m && k !in rest ==> k in ids
      invariant |ids| + |rest| == |m|
      decreases rest
    {
      var k :| k in rest;
      ids := InsertNewestFirst(m, key, ids, k);
      rest := rest - {k};
    }
  }

  /** The `n` newest documents of `m`, newest first: all of them when there
      are fewer than `n`, and none left out that is newer than one kept. */
  method NewestN<T>(m: map<Id, T>, key: T -> int, n: nat) returns (ids: seq<Id>)
    ensures AllIn(m, ids) && Distinct(ids) && NewestFirst(m, key, ids)
    ensures |ids| <= n && (|ids| == n || |ids| == |m|)
    ensures |ids| < n ==> forall k :: k in m ==> k in ids
    ensures forall k :: k in m && k !in ids ==>
      forall i :: 0 <= i < |ids| ==> key(m[k]) <= key(m[ids[i]])
  {
    var all := SortNewestFirst(m, key);
    ids := if |all| <= n then all else all[..n];
    forall k | k in m && k !in ids
      ensures forall i :: 0 <= i < |ids| ==> key(m[k]) <= key(m[ids[i]])
    {
      var j :| 0 <= j < |all| && all[j] == k;
      assert forall x :: 0 <= x < |ids| ==> ids[x] == all[x];
      assert j >= |ids|;
    }
  }

  /** The documents of `ids` paired with their contents, in the same order. */
  function Pairs<T>(m: map<Id, T>, ids: seq<Id>): (ps: seq<(Id, T)>)
    requires AllIn(m, ids)
    ensures |ps| == |ids|
    ensures forall i :: 0 <= i < |ps| ==> ps[i].0 == ids[i] && ps[i].1 == m[ids[i]]
  {
    seq(|ids|, i requires 0 <= i < |ids| => (ids[i], m[ids[i]]))
  }

  /** Every document of `m` with its contents, each once, newest first. */
  method ListAll<T>(m: map<Id, T>, key: T -> int) returns (ps: seq<(Id, T)>)
    ensures |ps| == |m|
    ensures forall i :: 0 <= i < |ps| ==> ps[i].0 in m && m[ps[i].0] == ps[i].1
    ensures forall i, j :: 0 <= i < j < |ps| ==> ps[i].0 != ps[j].0
    ensures forall i, j :: 0 <= i < j < |ps| ==> key(ps[i].1) >= key(ps[j].1)
    ensures forall k :: k in m ==> exists i :: 0 <= i < |ps| && ps[i].0 == k
  {
    var ids := SortNewestFirst(m, key);
    ps := Pairs(m, ids);
    forall k | k in m
      ensures exists i :: 0 <= i < |ps| && ps[i].0 == k
    {
      var i :| 0 <= i < |ids| && ids[i] == k;
      assert ps[i].0 == k;
    }
  }

  /** The `n` newest documents of `m` with their contents, newest first. */
  method TakeNewest<T>(m: map<Id, T>, key: T -> int, n: nat) returns (ps: seq<(Id, T)>)
    ensures |ps| <= n && (|ps| == n || |ps| == |m|)
    ensures forall i :: 0 <= i < |ps| ==> ps[i].0 in m && m[ps[i].0] == ps[i].1
    ensures forall i, j :: 0 <= i < j < |ps| ==> ps[i].0 != ps[j].0
    ensures forall i, j :: 0 <= i < j < |ps| ==> key(ps[i].1) >= key(ps[j].1)
    ensures |ps| < n ==> forall k :: k in m ==> exists i :: 0 <= i < |ps| && ps[i].0 == k
    ensures forall k :: k in m && (forall i :: 0 <= i < |ps| ==> ps[i].0 != k) ==>
      forall i :: 0 <= i < |ps| ==> key(m[k]) <= key(ps[i].1)
  {
    var ids := NewestN(m, key, n);
    ps := Pairs(m, ids);
    forall k | k in m && |ps| < n
      ensures exists i :: 0 <= i < |ps| && ps[i].0 == k
    {
      var i :| 0 <= i < |ids| && ids[i] == k;
      assert ps[i].0 == k;
    }
  }
}
