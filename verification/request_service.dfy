/** The guards of the item-request service. */
module RequestService {
  import opened Domain
  import UserService

  /** The request service's own copy of the user guard. */
  function CheckUserExistsById(users: seq<User>, userId: int): (c: Check)
    ensures c == Pass <==> exists u :: u in users && u.id == userId
    ensures c != Pass ==> c == Fail(UserNotFound)
  {
    if FindUser(users, userId).Some? then Pass else Fail(UserNotFound)
  }

  /** The copy behaves exactly like the user service's guard. */
  lemma SameAsUserGuard(users: seq<User>, userId: int)
    ensures CheckUserExistsById(users, userId) == UserService.CheckUserExistsById(users, userId)
  {
  }

  /** Fails exactly when no request has this id, and the failure is a
      UserNotFound error: the exception factory for a missing request builds
      the user exception. */
  function CheckRequestExistsById(requests: seq<ItemRequest>, requestId: int): (c: Check)
    ensures c == Pass <==> exists q :: q in requests && q.id == requestId
    ensures c != Pass ==> c == Fail(UserNotFound)
  {
    if FindRequest(requests, requestId).Some? then Pass else Fail(UserNotFound)
  }
}
