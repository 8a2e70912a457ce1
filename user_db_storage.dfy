/**
  The relational user backend: a `users` table keyed by a generated user_id and a
  `friendships(user_id, friend_id, status)` table keyed by (user_id, friend_id).
  Each SQL statement is the state transition it denotes.
 */
module UserDb {
  import opened Model
  import opened Collections

  /** (user_id, friend_id) -> status */
  type Table = map<(int, int), FriendshipStatus>

  /** The status of the row (a, b), if there is one. */
  function Edge(t: Table, a: int, b: int): (e: Option<FriendshipStatus>)
    ensures e.Some? <==> (a, b) in t
  {
    if (a, b) in t then Some(t[(a, b)]) else None
  }

  /** The friend_id of every row whose user_id is `owner`. */
  function Targets(t: Table, owner: int): (r: set<int>)
    ensures forall f :: f in r <==> (owner, f) in t
  {
    set p | p in t && p.0 == owner :: p.1
  }

  /** `MERGE INTO friendships ... KEY (user_id, friend_id)`: insert or overwrite one row. */
  function Upsert(t: Table, u: int, f: int, s: FriendshipStatus): Table {
    t[(u, f) := s]
  }

  /** `UPDATE friendships SET status = CONFIRMED WHERE user_id = f AND friend_id = u` */
  function ConfirmRow(t: Table, u: int, f: int): Table {
    if (f, u) in t then t[(f, u) := Confirmed] else t
  }

  /** `DELETE FROM friendships WHERE user_id = u AND friend_id = f` */
  function DeleteRow(t: Table, u: int, f: int): Table {
    t - {(u, f)}
  }

  lemma UpsertEdges(t: Table, u: int, f: int, s: FriendshipStatus)
    ensures Edge(Upsert(t, u, f, s), u, f) == Some(s)
    ensures forall a, b :: (a != u || b != f) ==> Edge(Upsert(t, u, f, s), a, b) == Edge(t, a, b)
  {
  }

  lemma UpsertIsIdempotent(t: Table, u: int, f: int, s: FriendshipStatus)
    ensures Upsert(Upsert(t, u, f, s), u, f, s) == Upsert(t, u, f, s)
    ensures |Upsert(t, u, f, s)| == if (u, f) in t then |t| else |t| + 1
  {
  }

  lemma ConfirmRowEdges(t: Table, u: int, f: int)
    ensures ConfirmRow(t, u, f).Keys == t.Keys
    ensures Edge(ConfirmRow(t, u, f), f, u) == if (f, u) in t then Some(Confirmed) else None
    ensures forall a, b :: (a != f || b != u) ==> Edge(ConfirmRow(t, u, f), a, b) == Edge(t, a, b)
  {
  }

  lemma DeleteRowEdges(t: Table, u: int, f: int)
    ensures Edge(DeleteRow(t, u, f), u, f) == None
    ensures forall a, b :: (a != u || b != f) ==> Edge(DeleteRow(t, u, f), a, b) == Edge(t, a, b)
    ensures (u, f) !in t ==> DeleteRow(t, u, f) == t
  {
  }

  class UserDbStorage {
    var users: map<int, User>
    var friendships: Table
    /** The next value of the user_id identity column. */
    var nextKey: int

    ghost predicate Valid()
      reads this
    {
      nextKey >= 1 && KeyedById(users) && forall k :: k in users ==> 0 < k < nextKey
    }

    constructor ()
      ensures Valid() && users == map[] && friendships == map[]
    {
      users, friendships, nextKey := map[], map[], 1;
    }

    /** Inserts a row under a fresh generated key and returns the user with that id. */
    method Create(user: User) returns (r: User)
      requires Valid()
      modifies this`users, this`nextKey
      ensures Valid()
      ensures r == user.(id := r.id) && r.id > 0 && r.id !in old(users)
      ensures users == old(users)[r.id := r]
      ensures GetById(r.id) == Some(r)
    {
      r := user.(id := nextKey);
      nextKey := nextKey + 1;
      users := users[r.id := r];
    }

    /** `UPDATE users ... WHERE user_id = ?`: rewrites the row if there is one. */
    method Update(user: User) returns (r: User)
      requires Valid()
      modifies this`users
      ensures Valid()
      ensures r == user
      ensures users == if user.id in old(users) then old(users)[user.id := user] else old(users)
      ensures users.Keys == old(users).Keys
    {
      if user.id in users {
        users := users[user.id := user];
      }
      r := user;
    }

    method GetAll() returns (r: seq<User>)
      ensures |r| == |users|
      ensures forall u: User :: u in r <==> u in users.Values
    {
      ghost var keys;
      r, keys := ListValues(users);
    }

    /** `SELECT * FROM users WHERE user_id = ?` */
    function GetById(id: int): (r: Option<User>)
      requires Valid()
      reads this
      ensures r.Some? <==> id in users
      ensures r.Some? ==> r.value.id == id && r.value in users.Values
    {
      if id in users then Some(users[id]) else None
    }

    method AddFriend(userId: int, friendId: int, status: FriendshipStatus)
      modifies this`friendships
      ensures friendships == Upsert(old(friendships), userId, friendId, status)
      ensures Edge(friendships, userId, friendId) == Some(status)
      ensures forall a, b :: (a != userId || b != friendId) ==> Edge(friendships, a, b) == Edge(old(friendships), a, b)
    {
      friendships := friendships[(userId, friendId) := status];
    }

    /** Confirms the existing row (friendId, userId); creates nothing, leaves (userId, friendId) as it was. */
    method ConfirmFriend(userId: int, friendId: int)
      modifies this`friendships
      ensures friendships == ConfirmRow(old(friendships), userId, friendId)
      ensures friendships.Keys == old(friendships).Keys
      ensures Edge(friendships, friendId, userId) == if (friendId, userId) in old(friendships) then Some(Confirmed) else None
      ensures forall a, b :: (a != friendId || b != userId) ==> Edge(friendships, a, b) == Edge(old(friendships), a, b)
    {
      ConfirmRowEdges(friendships, userId, friendId);
      if (friendId, userId) in friendships {
        friendships := friendships[(friendId, userId) := Confirmed];
      }
    }

    /** Deletes the single row (userId, friendId); the reverse row survives. */
    method RemoveFriend(userId: int, friendId: int)
      modifies this`friendships
      ensures friendships == DeleteRow(old(friendships), userId, friendId)
      ensures Edge(friendships, userId, friendId) == None
      ensures forall a, b :: (a != userId || b != friendId) ==> Edge(friendships, a, b) == Edge(old(friendships), a, b)
    {
      DeleteRowEdges(friendships, userId, friendId);
      friendships := friendships - {(userId, friendId)};
    }

    /** The users joined on friend_id with the rows owned by userId, each once. */
    function GetFriends(userId: int): (r: seq<User>)
      requires Valid()
      reads this
      ensures Distinct(r)
      ensures forall u: User :: u in r <==> (userId, u.id) in friendships && u.id in users && users[u.id] == u
    {
      UsersWithIds(Targets(friendships, userId), users)
    }

    /** The users that are friend_id of a row owned by userId and of a row owned by otherId. */
    function GetCommonFriends(userId: int, otherId: int): (r: seq<User>)
      requires Valid()
      reads this
      ensures Distinct(r)
      ensures forall u: User :: u in r <==>
                (userId, u.id) in friendships && (otherId, u.id) in friendships
                && u.id in users && users[u.id] == u
    {
      UsersWithIds(Targets(friendships, userId) * Targets(friendships, otherId), users)
    }

    /** Reads the rows owned by userId and puts each friend_id -> status into a map. */
    method LoadUserFriends(userId: int) returns (friends: map<int, FriendshipStatus>)
      ensures friends.Keys == Targets(friendships, userId)
      ensures forall f :: f in friends ==> friends[f] == friendships[(userId, f)]
    {
      friends := map[];
      var rows := Targets(friendships, userId);
      while rows != {}
        invariant rows <= Targets(friendships, userId)
        invariant friends.Keys == Targets(friendships, userId) - rows
        invariant forall f :: f in friends ==> friends[f] == friendships[(userId, f)]
        decreases |rows|
      {
        if forall f :: f !in rows {
          assert false;
        }
        var f :| f in rows;
        friends := friends[f := friendships[(userId, f)]];
        rows := rows - {f};
      }
    }
  }
}
