/** The user guard every service runs first (UserService.checkUserExistsById). */
module UserService {
  import opened Domain

  /** Returns normally exactly when a user with this id is stored; otherwise
      fails with UserNotFound. */
  function CheckUserExistsById(users: seq<User>, userId: int): (c: Check)
    ensures c == Pass <==> exists u :: u in users && u.id == userId
    ensures c != Pass ==> c == Fail(UserNotFound)
  {
    if FindUser(users, userId).Some? then Pass else Fail(UserNotFound)
  }
}
