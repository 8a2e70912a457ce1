/**
  Helpers shared by the storages: turning a set of ids into an ascending list,
  listing the values of a Java HashMap in its (unspecified) iteration order,
  and resolving a set of user ids to user records.
 */
module Collections {
  import opened Model

  predicate Distinct<T(==)>(s: seq<T>) {
    forall i, j :: 0 <= i < j < |s| ==> s[i] != s[j]
  }

  predicate StrictlyAscending(s: seq<int>) {
    forall i, j :: 0 <= i < j < |s| ==> s[i] < s[j]
  }

  /** A non-empty set has an element. */
  lemma HasElement<T>(s: set<T>)
    requires s != {}
    ensures exists y :: y in s
  {
    if forall y :: y !in s {
      assert false;
    }
  }

  lemma {:induction false} MinExists(s: set<int>)
    requires s != {}
    ensures exists m :: m in s && forall x :: x in s ==> m <= x
    decreases |s|
  {
    if forall y :: y !in s {
      assert false;
    }
    var y :| y in s;
    var rest := s - {y};
    if rest != {} {
      MinExists(rest);
      var m :| m in rest && forall x :: x in rest ==> m <= x;
      if y < m {
        assert forall x :: x in s ==> x == y || x in rest;
      } else {
        assert m in s && forall x :: x in s ==> x == y || x in rest;
      }
    } else {
      assert forall x :: x in s ==> x == y || x in rest;
    }
  }

  /** The least element of a non-empty set. */
  function Min(s: set<int>): (m: int)
    requires s != {}
    ensures m in s && forall x :: x in s ==> m <= x
  {
    MinExists(s);
    var m :| m in s && forall x :: x in s ==> m <= x; m
  }

  /** The elements of `s` in ascending order (an `ORDER BY id` over a set of ids). */
  function SortedSet(s: set<int>): (r: seq<int>)
    ensures |r| == |s|
    ensures forall x :: x in r <==> x in s
    ensures StrictlyAscending(r)
    decreases |s|
  {
    if s == {} then []
    else
      var m := Min(s);
      [m] + SortedSet(s - {m})
  }

  /** The values of a map, one per key, in an order the map chooses (HashMap.values()):
      `keys` is the order of the keys behind the listed values. */
  method ListValues<K(==), V>(m: map<K, V>) returns (r: seq<V>, ghost keys: seq<K>)
    ensures |keys| == |r| == |m|
    ensures Distinct(keys)
    ensures forall k :: k in keys <==> k in m
    ensures forall i :: 0 <= i < |r| ==> keys[i] in m && r[i] == m[keys[i]]
  {
    r, keys := [], [];
    var rest := m.Keys;
    while rest != {}
      invariant rest <= m.Keys
      invariant |keys| == |r| && |r| + |rest| == |m|
      invariant Distinct(keys)
      invariant forall k :: k in keys <==> k in m && k !in rest
      invariant forall i :: 0 <= i < |r| ==> keys[i] in m && r[i] == m[keys[i]]
      decreases |rest|
    {
      HasElement(rest);
      var k :| k in rest;
      r, keys := r + [m[k]], keys + [k];
      rest := rest - {k};
    }
  }

  /** A user table keyed by user id. */
  predicate KeyedById(users: map<int, User>) {
    forall k :: k in users ==> users[k].id == k
  }

  /** The user table rows for the ids, in the order of the ids. */
  function UsersAt(ks: seq<int>, users: map<int, User>): (r: seq<User>)
    requires forall i :: 0 <= i < |ks| ==> ks[i] in users
    ensures |r| == |ks|
    ensures forall i :: 0 <= i < |r| ==> r[i] == users[ks[i]]
  {
    if ks == [] then [] else [users[ks[0]]] + UsersAt(ks[1..], users)
  }

  /** Reading the rows of distinct stored ids lists each such user once, and nothing else. */
  lemma UsersAtSpec(ks: seq<int>, users: map<int, User>)
    requires KeyedById(users)
    requires forall i :: 0 <= i < |ks| ==> ks[i] in users
    requires StrictlyAscending(ks)
    ensures Distinct(UsersAt(ks, users))
    ensures forall u: User :: u in UsersAt(ks, users) <==> u.id in ks && u.id in users && users[u.id] == u
  {
    var r := UsersAt(ks, users);
    assert forall i :: 0 <= i < |r| ==> r[i].id == ks[i] by {
      forall i | 0 <= i < |r|
        ensures r[i].id == ks[i]
      {
        assert users[ks[i]].id == ks[i];
      }
    }
    forall u: User
      ensures u in r <==> u.id in ks && u.id in users && users[u.id] == u
    {
      if u in r {
        var i :| 0 <= i < |r| && r[i] == u;
        assert ks[i] in ks;
      }
      if u.id in ks && u.id in users && users[u.id] == u {
        var i :| 0 <= i < |ks| && ks[i] == u.id;
        assert r[i] == u;
      }
    }
  }

  /** The stored users whose ids are in `ids` (a join of an id set with the user table),
      each once, by ascending id. */
  function UsersWithIds(ids: set<int>, users: map<int, User>): (r: seq<User>)
    requires KeyedById(users)
    ensures Distinct(r)
    ensures |r| == |ids * users.Keys|
    ensures forall u: User :: u in r <==> u.id in ids && u.id in users && users[u.id] == u
  {
    var ks := SortedSet(ids * users.Keys);
    assert forall i :: 0 <= i < |ks| ==> ks[i] in users by {
      forall i | 0 <= i < |ks|
        ensures ks[i] in users
      {
        assert ks[i] in ks;
      }
    }
    UsersAtSpec(ks, users);
    UsersAt(ks, users)
  }
}
