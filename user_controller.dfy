/**
  The legacy HTTP user endpoint with its own user map and id counter, independent of
  the storage classes.
 */
module Controller {
  import opened Model
  import opened Collections
  import opened Validation
  import Users

  /** The checks of updateUser: existence first, then validation. */
  function UpdateUserCheck(users: map<int, User>, user: User, today: Date): (r: Outcome)
    ensures r.Pass? <==> user.id in users && ValidateUser(user, today).Pass?
    ensures user.id !in users ==> r == Fail(NotFound(UserEntity, user.id))
    ensures user.id in users && ValidateUser(user, today).Fail? ==> r == ValidateUser(user, today)
  {
    if user.id !in users then Fail(NotFound(UserEntity, user.id)) else ValidateUser(user, today)
  }

  /** The controller and the service accept the same updates, but for an invalid record
      with an unknown id they report different errors. */
  lemma UpdateChecksDifferOnlyInOrder(users: map<int, User>, user: User, today: Date)
    ensures UpdateUserCheck(users, user, today).Pass? <==> Users.UpdateCheck(users, user, today).Pass?
    ensures user.id !in users && ValidateUser(user, today).Fail? ==>
              && UpdateUserCheck(users, user, today) == Fail(NotFound(UserEntity, user.id))
              && Users.UpdateCheck(users, user, today) == ValidateUser(user, today)
              && UpdateUserCheck(users, user, today) != Users.UpdateCheck(users, user, today)
    ensures user.id in users || ValidateUser(user, today).Pass? ==>
              UpdateUserCheck(users, user, today) == Users.UpdateCheck(users, user, today)
  {
  }

  class UserController {
    var users: map<int, User>
    var nextId: int

    /** Every stored id came from createUser, so it lies below the counter. */
    ghost predicate Valid()
      reads this
    {
      nextId >= 1 && KeyedById(users) && forall k :: k in users ==> 1 <= k < nextId
    }

    constructor ()
      ensures Valid() && users == map[] && nextId == 1
    {
      users, nextId := map[], 1;
    }

    /** createUser: validation, then the next id, the name rule and the put; a failed
        validation changes nothing. */
    method CreateUser(user: User, today: Date) returns (r: Result<User>)
      requires Valid()
      modifies this
      ensures Valid()
      ensures r.Err? <==> ValidateUser(user, today).Fail?
      ensures r.Err? ==> r.error == ValidateUser(user, today).error && users == old(users) && nextId == old(nextId)
      ensures r.Ok? ==> && r.value == WithDefaultName(user).(id := old(nextId))
                        && nextId == old(nextId) + 1
                        && r.value.id !in old(users)
                        && users == old(users)[r.value.id := r.value]
                        && |users| == |old(users)| + 1
    {
      var valid := ValidateUser(user, today);
      if valid.Fail? {
        return Err(valid.error);
      }
      var created := user.(id := nextId);
      nextId := nextId + 1;
      created := WithDefaultName(created);
      users := users[created.id := created];
      return Ok(created);
    }

    /** updateUser: NotFound for an unknown id before any validation, then the name rule
        and the put over the existing entry. */
    method UpdateUser(user: User, today: Date) returns (r: Result<User>)
      requires Valid()
      modifies this`users
      ensures Valid()
      ensures var check := old(UpdateUserCheck(users, user, today));
              if check.Fail? then r == Err(check.error) && users == old(users)
              else r == Ok(WithDefaultName(user)) && users == old(users)[user.id := WithDefaultName(user)]
      ensures users.Keys == old(users).Keys && |users| == |old(users)|
      ensures forall k :: k in old(users) && k != user.id ==> users[k] == old(users)[k]
    {
      var found := CheckUserExists(user.id);
      if found.Fail? {
        return Err(found.error);
      }
      var valid := ValidateUser(user, today);
      if valid.Fail? {
        return Err(valid.error);
      }
      var updated := WithDefaultName(user);
      users := users[updated.id := updated];
      return Ok(updated);
    }

    /** getAllUsers: the stored values, one per id. */
    method GetAllUsers() returns (r: seq<User>)
      ensures |r| == |users|
      ensures forall u: User :: u in r <==> u in users.Values
    {
      ghost var keys;
      r, keys := ListValues(users);
    }

    function CheckUserExists(id: int): (r: Outcome)
      reads this
      ensures r.Pass? <==> id in users
      ensures r.Fail? ==> r == Fail(NotFound(UserEntity, id))
    {
      if id in users then Pass else Fail(NotFound(UserEntity, id))
    }
  }
}
