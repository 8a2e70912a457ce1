/**
  The in-memory user backend: a user map, a nested friendship map
  (owner -> target -> status) and an id counter, all updated in place.
 */
module InMemoryUsers {
  import opened Model
  import opened Collections

  /** owner id -> (target id -> status) */
  type Graph = map<int, map<int, FriendshipStatus>>

  /** The friend map of `owner`, empty when it has none (getOrDefault / computeIfAbsent). */
  function Owned(g: Graph, owner: int): map<int, FriendshipStatus> {
    if owner in g then g[owner] else map[]
  }

  /** The status of the directed edge a -> b, if there is one. */
  function Edge(g: Graph, a: int, b: int): (e: Option<FriendshipStatus>)
    ensures e.Some? <==> b in Owned(g, a)
  {
    if a in g && b in g[a] then Some(g[a][b]) else None
  }

  /** The targets of every edge owned by `owner`. */
  function Targets(g: Graph, owner: int): set<int> {
    Owned(g, owner).Keys
  }

  /** `friendships.computeIfAbsent(u, ...).put(f, s)` */
  function Link(g: Graph, u: int, f: int, s: FriendshipStatus): Graph {
    g[u := Owned(g, u)[f := s]]
  }

  /** The two statements of confirmFriend: the edge u -> f is confirmed only if it
      exists, then f -> u is put as confirmed. */
  function Confirm(g: Graph, u: int, f: int): Graph {
    var g1 := if Edge(g, u, f).Some? then Link(g, u, f, Confirmed) else g;
    Link(g1, f, u, Confirmed)
  }

  /** The two removals of removeFriend, each guarded by containsKey. */
  function Unlink(g: Graph, u: int, f: int): Graph {
    var g1 := if u in g then g[u := g[u] - {f}] else g;
    if f in g1 then g1[f := g1[f] - {u}] else g1
  }

  lemma LinkEdges(g: Graph, u: int, f: int, s: FriendshipStatus)
    ensures Edge(Link(g, u, f, s), u, f) == Some(s)
    ensures forall a, b :: (a != u || b != f) ==> Edge(Link(g, u, f, s), a, b) == Edge(g, a, b)
  {
  }

  lemma ConfirmEdges(g: Graph, u: int, f: int)
    ensures Edge(Confirm(g, u, f), f, u) == Some(Confirmed)
    ensures Edge(Confirm(g, u, f), u, f) == if Edge(g, u, f).Some? || u == f then Some(Confirmed) else None
    ensures forall a, b :: (a != u || b != f) && (a != f || b != u) ==> Edge(Confirm(g, u, f), a, b) == Edge(g, a, b)
  {
    var g1 := if Edge(g, u, f).Some? then Link(g, u, f, Confirmed) else g;
    LinkEdges(g, u, f, Confirmed);
    LinkEdges(g1, f, u, Confirmed);
  }

  lemma UnlinkEdges(g: Graph, u: int, f: int)
    ensures Edge(Unlink(g, u, f), u, f) == None && Edge(Unlink(g, u, f), f, u) == None
    ensures forall a, b :: (a != u || b != f) && (a != f || b != u) ==> Edge(Unlink(g, u, f), a, b) == Edge(g, a, b)
  {
  }

  /** A request a→b, its confirmation by b and then its removal by a leave no edge either way. */
  lemma AddConfirmRemoveLeavesNoEdge(g: Graph, a: int, b: int)
    ensures var h := Unlink(Confirm(Link(g, a, b, Pending), b, a), a, b);
            Edge(h, a, b) == None && Edge(h, b, a) == None
  {
    UnlinkEdges(Confirm(Link(g, a, b, Pending), b, a), a, b);
  }

  class InMemoryUserStorage {
    var users: map<int, User>
    var friendships: Graph
    var nextId: int

    ghost predicate Valid()
      reads this
    {
      nextId >= 1 && KeyedById(users)
    }

    /** Every stored id was issued by `create`, so the counter is above all of them. */
    predicate Issued()
      reads this
    {
      forall k :: k in users ==> k < nextId
    }

    constructor ()
      ensures Valid() && Issued()
      ensures users == map[] && friendships == map[] && nextId == 1
    {
      users, friendships, nextId := map[], map[], 1;
    }

    /** Gives the user the next id, stores it and gives it an empty friend map. */
    method Create(user: User) returns (r: User)
      requires Valid()
      modifies this
      ensures Valid()
      ensures r == user.(id := old(nextId)) && nextId == old(nextId) + 1
      ensures users == old(users)[r.id := r]
      ensures friendships == old(friendships)[r.id := map[]]
      ensures Targets(friendships, r.id) == {}
      ensures old(Issued()) ==> Issued() && r.id !in old(users)
    {
      r := user.(id := nextId);
      nextId := nextId + 1;
      users := users[r.id := r];
      friendships := friendships[r.id := map[]];
    }

    /** Puts the record at its own id, present or not. */
    method Update(user: User) returns (r: User)
      requires Valid()
      modifies this`users
      ensures Valid()
      ensures r == user
      ensures users == old(users)[user.id := user]
      ensures forall k :: k in old(users) && k != user.id ==> k in users && users[k] == old(users)[k]
      ensures old(Issued()) && user.id < nextId ==> Issued()
    {
      users := users[user.id := user];
      r := user;
    }

    method GetAll() returns (r: seq<User>)
      ensures |r| == |users|
      ensures forall u: User :: u in r <==> u in users.Values
    {
      ghost var keys;
      r, keys := ListValues(users);
    }

    function GetById(id: int): (r: Option<User>)
      requires Valid()
      reads this
      ensures r.Some? <==> id in users
      ensures r.Some? ==> r.value.id == id && r.value in users.Values
    {
      if id in users then Some(users[id]) else None
    }

    /** Puts the edge userId -> friendId with the given status, overwriting any old one. */
    method AddFriend(userId: int, friendId: int, status: FriendshipStatus)
      modifies this`friendships
      ensures friendships == Link(old(friendships), userId, friendId, status)
      ensures Edge(friendships, userId, friendId) == Some(status)
      ensures forall a, b :: (a != userId || b != friendId) ==> Edge(friendships, a, b) == Edge(old(friendships), a, b)
    {
      LinkEdges(friendships, userId, friendId, status);
      friendships := friendships[userId := Owned(friendships, userId)[friendId := status]];
    }

    /** Confirms userId -> friendId if it exists, and always puts friendId -> userId as confirmed. */
    method ConfirmFriend(userId: int, friendId: int)
      modifies this`friendships
      ensures friendships == Confirm(old(friendships), userId, friendId)
      ensures Edge(friendships, friendId, userId) == Some(Confirmed)
      ensures Edge(friendships, userId, friendId) ==
              if Edge(old(friendships), userId, friendId).Some? || userId == friendId then Some(Confirmed) else None
      ensures forall a, b :: (a != userId || b != friendId) && (a != friendId || b != userId) ==>
                Edge(friendships, a, b) == Edge(old(friendships), a, b)
    {
      ConfirmEdges(friendships, userId, friendId);
      if userId in friendships && friendId in friendships[userId] {
        friendships := friendships[userId := friendships[userId][friendId := Confirmed]];
      }
      friendships := friendships[friendId := Owned(friendships, friendId)[userId := Confirmed]];
    }

    /** Removes both directed edges between the two users; a no-op for absent edges. */
    method RemoveFriend(userId: int, friendId: int)
      modifies this`friendships
      ensures friendships == Unlink(old(friendships), userId, friendId)
      ensures Edge(friendships, userId, friendId) == None && Edge(friendships, friendId, userId) == None
      ensures forall a, b :: (a != userId || b != friendId) && (a != friendId || b != userId) ==>
                Edge(friendships, a, b) == Edge(old(friendships), a, b)
    {
      UnlinkEdges(friendships, userId, friendId);
      if userId in friendships {
        friendships := friendships[userId := friendships[userId] - {friendId}];
      }
      if friendId in friendships {
        friendships := friendships[friendId := friendships[friendId] - {userId}];
      }
    }

    /** The stored users that are targets of userId's edges, in any status, each once. */
    function GetFriends(userId: int): (r: seq<User>)
      requires Valid()
      reads this
      ensures Distinct(r)
      ensures forall u: User :: u in r <==> Edge(friendships, userId, u.id).Some? && u.id in users && users[u.id] == u
      ensures userId !in friendships ==> r == []
    {
      UsersWithIds(Targets(friendships, userId), users)
    }

    /** The stored users that are targets of edges of both users, each once. */
    function GetCommonFriends(userId: int, otherId: int): (r: seq<User>)
      requires Valid()
      reads this
      ensures Distinct(r)
      ensures forall u: User :: u in r <==>
                Edge(friendships, userId, u.id).Some? && Edge(friendships, otherId, u.id).Some?
                && u.id in users && users[u.id] == u
    {
      UsersWithIds(Targets(friendships, userId) * Targets(friendships, otherId), users)
    }
  }
}
