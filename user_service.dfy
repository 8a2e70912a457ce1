/**
  The user service over the relational user store: validation, name defaulting and
  existence checks in the order the service raises them, then the store.
 */
module Users {
  import opened Model
  import opened Validation
  import opened UserDb

  /** checkUserExists over a user table. */
  function UserCheck(users: map<int, User>, id: int): (r: Outcome)
    ensures r.Pass? <==> id in users
    ensures r.Fail? ==> r == Fail(NotFound(UserEntity, id))
  {
    if id in users then Pass else Fail(NotFound(UserEntity, id))
  }

  /** Both users must exist; the first one is checked first. */
  function PairCheck(users: map<int, User>, userId: int, otherId: int): (r: Outcome)
    ensures r.Pass? <==> userId in users && otherId in users
    ensures userId !in users ==> r == Fail(NotFound(UserEntity, userId))
    ensures userId in users && otherId !in users ==> r == Fail(NotFound(UserEntity, otherId))
  {
    var first := UserCheck(users, userId);
    if first.Fail? then first else UserCheck(users, otherId)
  }

  /** The checks of update: validation first, then existence. */
  function UpdateCheck(users: map<int, User>, user: User, today: Date): (r: Outcome)
    ensures r.Pass? <==> ValidateUser(user, today).Pass? && user.id in users
    ensures ValidateUser(user, today).Fail? ==> r == ValidateUser(user, today)
    ensures ValidateUser(user, today).Pass? && user.id !in users ==> r == Fail(NotFound(UserEntity, user.id))
  {
    var valid := ValidateUser(user, today);
    if valid.Fail? then valid else UserCheck(users, user.id)
  }

  class UserService {
    const storage: UserDbStorage

    ghost predicate Valid()
      reads this, storage
    {
      storage.Valid()
    }

    constructor (storage: UserDbStorage)
      requires storage.Valid()
      ensures Valid() && this.storage == storage
    {
      this.storage := storage;
    }

    /** create: validation, then a null or blank name becomes the login, then the store. */
    method Create(user: User, today: Date) returns (r: Result<User>)
      requires Valid()
      modifies storage`users, storage`nextKey
      ensures Valid()
      ensures r.Ok? <==> ValidateUser(user, today).Pass?
      ensures r.Err? ==> r.error == ValidateUser(user, today).error && unchanged(storage)
      ensures r.Ok? ==> && r.value == WithDefaultName(user).(id := r.value.id)
                        && !NullOrBlank(r.value.name)
                        && r.value.id !in old(storage.users)
                        && storage.users == old(storage.users)[r.value.id := r.value]
    {
      var valid := ValidateUser(user, today);
      if valid.Fail? {
        return Err(valid.error);
      }
      var created := storage.Create(WithDefaultName(user));
      return Ok(created);
    }

    /** update: validation, then NotFound for an absent id, then the name rule and the store. */
    method Update(user: User, today: Date) returns (r: Result<User>)
      requires Valid()
      modifies storage`users
      ensures Valid()
      ensures var check := old(UpdateCheck(storage.users, user, today));
              if check.Fail? then r == Err(check.error) && unchanged(storage)
              else r == Ok(WithDefaultName(user)) && storage.users == old(storage.users)[user.id := WithDefaultName(user)]
    {
      var check := UpdateCheck(storage.users, user, today);
      if check.Fail? {
        return Err(check.error);
      }
      var updated := storage.Update(WithDefaultName(user));
      return Ok(updated);
    }

    method GetAll() returns (r: seq<User>)
      ensures |r| == |storage.users|
      ensures forall u: User :: u in r <==> u in storage.users.Values
    {
      r := storage.GetAll();
    }

    /** getById: the stored user, or NotFound. */
    function GetById(id: int): (r: Result<User>)
      requires Valid()
      reads this, storage
      ensures r.Ok? <==> id in storage.users
      ensures r.Ok? ==> r.value == storage.users[id] && r.value.id == id
      ensures r.Err? ==> r.error == NotFound(UserEntity, id)
    {
      match storage.GetById(id)
      case Some(u) => Ok(u)
      case None => Err(NotFound(UserEntity, id))
    }

    /** addFriend: both users must exist, then the row (userId, friendId) is upserted with `status`. */
    method AddFriend(userId: int, friendId: int, status: FriendshipStatus) returns (r: Outcome)
      requires Valid()
      modifies storage`friendships
      ensures Valid()
      ensures r == PairCheck(storage.users, userId, friendId)
      ensures storage.friendships == if r.Pass? then Upsert(old(storage.friendships), userId, friendId, status)
                                     else old(storage.friendships)
    {
      r := PairCheck(storage.users, userId, friendId);
      if r.Pass? {
        storage.AddFriend(userId, friendId, status);
      }
    }

    /** removeFriend: both users must exist, then the row (userId, friendId) is deleted. */
    method RemoveFriend(userId: int, friendId: int) returns (r: Outcome)
      requires Valid()
      modifies storage`friendships
      ensures Valid()
      ensures r == PairCheck(storage.users, userId, friendId)
      ensures storage.friendships == if r.Pass? then DeleteRow(old(storage.friendships), userId, friendId)
                                     else old(storage.friendships)
    {
      r := PairCheck(storage.users, userId, friendId);
      if r.Pass? {
        storage.RemoveFriend(userId, friendId);
      }
    }

    /** getFriends: NotFound for an unknown user, else the friends the store lists. */
    function GetFriends(userId: int): (r: Result<seq<User>>)
      requires Valid()
      reads this, storage
      ensures r.Err? <==> userId !in storage.users
      ensures r.Err? ==> r.error == NotFound(UserEntity, userId)
      ensures r.Ok? ==> forall u: User :: u in r.value <==>
                          (userId, u.id) in storage.friendships && u.id in storage.users && storage.users[u.id] == u
    {
      var check := UserCheck(storage.users, userId);
      if check.Fail? then Err(check.error) else Ok(storage.GetFriends(userId))
    }

    /** getCommonFriends: NotFound for either unknown user, else the shared friends. */
    function GetCommonFriends(userId: int, otherId: int): (r: Result<seq<User>>)
      requires Valid()
      reads this, storage
      ensures r.Err? <==> PairCheck(storage.users, userId, otherId).Fail?
      ensures r.Err? ==> r.error == PairCheck(storage.users, userId, otherId).error
      ensures r.Ok? ==> forall u: User :: u in r.value <==>
                          (userId, u.id) in storage.friendships && (otherId, u.id) in storage.friendships
                          && u.id in storage.users && storage.users[u.id] == u
    {
      var check := PairCheck(storage.users, userId, otherId);
      if check.Fail? then Err(check.error) else Ok(storage.GetCommonFriends(userId, otherId))
    }
  }
}
