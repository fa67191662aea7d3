/** The user service: create, update, read, list and delete users. */
module UserServiceImpl {
  import opened Wrappers
  import opened Domain
  import opened Tables
  import opened Dtos
  import opened UserService
  import opened UserDtoMapper

  /** getUserById: UserNotFound for an unknown id, otherwise the stored
      user's view. */
  function GetUserById(users: seq<User>, userId: int): (r: Result<UserDto>)
    ensures r.Ok? <==> exists u :: u in users && u.id == userId
    ensures r.Err? ==> r.error == UserNotFound
    ensures r.Ok? ==> r.value.id == userId && exists u :: u in users && r.value == ToUserDto(u)
  {
    var check := CheckUserExistsById(users, userId);
    if check.Fail? then Err(check.error)
    else Ok(ToUserDto(FindUser(users, userId).value))
  }

  /** getAllUsers: the view of every stored user, in store order. */
  function GetAllUsers(users: seq<User>): (r: seq<UserDto>)
    ensures |r| == |users|
    ensures forall x :: x in r <==> exists u :: u in users && x == ToUserDto(u)
  {
    var r := ToUserDtos(users);
    assert forall u :: u in users ==> exists k :: 0 <= k < |users| && users[k] == u;
    r
  }

  /** After an update, reading the user back gives the merged user. */
  lemma {:induction false} ReadAfterUpdate(users: seq<User>, m: User)
    requires exists u :: u in users && u.id == m.id
    ensures FindUser(ReplaceByKey(users, UserId, m), m.id) == Some(m)
    decreases |users|
  {
    var r := ReplaceByKey(users, UserId, m);
    if users[0].id == m.id {
      assert r[0] == m;
    } else {
      var u :| u in users && u.id == m.id;
      assert u in users[1..];
      ReadAfterUpdate(users[1..], m);
      assert r[1..] == ReplaceByKey(users[1..], UserId, m);
    }
  }

  /** After deleting user `id`, it is unknown and every other user reads
      back as before. */
  lemma {:induction false} ReadAfterDelete(users: seq<User>, id: int, other: int)
    requires other != id
    ensures FindUser(RemoveByKey(users, UserId, id), id).None?
    ensures FindUser(RemoveByKey(users, UserId, id), other) == FindUser(users, other)
    decreases |users|
  {
    if users != [] {
      ReadAfterDelete(users[1..], id, other);
    }
  }

  /** The service object: the user store and the operations that write it. */
  class UserServiceImpl {
    const users: UserTable

    constructor (users: UserTable)
      ensures this.users == users
    {
      this.users := users;
    }

    /** addUser: always stores one new user with the next id. */
    method AddUser(d: UserCreationRequest) returns (r: UserDto)
      requires users.Valid()
      modifies users
      ensures users.Valid()
      ensures var u := User(old(users.nextId), d.name, d.email);
              && users.rows == old(users.rows) + [u]
              && users.nextId == old(users.nextId) + 1
              && r == ToUserDto(u)
    {
      var added := users.Save(ToUser(d));
      r := ToUserDto(added);
    }

    /** updateUser: UserNotFound for an unknown id and nothing changes;
        otherwise the user's row is replaced by the merged user, which is
        returned. */
    method UpdateUser(d: UserUpdateRequest, userId: int) returns (r: Result<UserDto>)
      requires users.Valid()
      modifies users
      ensures users.Valid() && users.nextId == old(users.nextId)
      ensures FindUser(old(users.rows), userId).None? ==> r == Err(UserNotFound) && users.rows == old(users.rows)
      ensures FindUser(old(users.rows), userId).Some? ==>
                var m := MergeUser(FindUser(old(users.rows), userId).value, d);
                && users.rows == ReplaceByKey(old(users.rows), UserId, m)
                && r == Ok(ToUserDto(m))
                && GetUserById(users.rows, userId) == r
    {
      var check := CheckUserExistsById(users.rows, userId);
      if check.Fail? {
        return Err(check.error);
      }
      var updated := ToUpdatedUser(users, d, userId);
      assert updated.Ok?;
      ReplacedRowPresent(old(users.rows), UserId, updated.value);
      ReplaceByKeyTwice(old(users.rows), UserId, updated.value);
      ReadAfterUpdate(old(users.rows), updated.value);
      users.Put(updated.value);
      r := Ok(ToUserDto(updated.value));
    }

    /** deleteUserById: UserNotFound for an unknown id and nothing changes;
        otherwise the user's row is removed. */
    method DeleteUserById(userId: int) returns (c: Check)
      requires users.Valid()
      modifies users
      ensures users.Valid() && users.nextId == old(users.nextId)
      ensures FindUser(old(users.rows), userId).None? ==> c == Fail(UserNotFound) && users.rows == old(users.rows)
      ensures FindUser(old(users.rows), userId).Some? ==>
                && c == Pass
                && users.rows == RemoveByKey(old(users.rows), UserId, userId)
                && GetUserById(users.rows, userId) == Err(UserNotFound)
                && forall x :: x in GetAllUsers(users.rows) ==> x.id != userId
    {
      c := CheckUserExistsById(users.rows, userId);
      if c.Fail? {
        return;
      }
      users.DeleteById(userId);
    }
  }
}
