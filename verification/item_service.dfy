/** The item guards shared by the item, booking and comment services. */
module ItemService {
  import opened Wrappers
  import opened Domain

  /** Fails with ItemNotFound exactly when no item has this id. */
  function CheckItemExistsById(items: seq<Item>, itemId: int): (c: Check)
    ensures c == Pass <==> exists i :: i in items && i.id == itemId
    ensures c != Pass ==> c == Fail(ItemNotFound)
  {
    if FindItem(items, itemId).Some? then Pass else Fail(ItemNotFound)
  }

  /** The user owns the item. */
  predicate IsOwner(item: Item, userId: int)
  {
    item.owner == userId
  }

  /** The caller must own the item; a non-owner gets ItemNotFound, not a
      permission error. The item is fetched as a lazy reference, so a missing
      row fails with EntityNotFound when its owner is read. */
  function CheckOwnerOfItemByItemIdAndUserId(items: seq<Item>, itemId: int, userId: int): (c: Check)
    ensures c == Fail(EntityNotFound) <==> forall i :: i in items ==> i.id != itemId
    ensures c == Pass ==> exists i :: i in items && i.id == itemId && IsOwner(i, userId)
    ensures c == Fail(ItemNotFound) ==> exists i :: i in items && i.id == itemId && !IsOwner(i, userId)
    ensures c in {Pass, Fail(ItemNotFound), Fail(EntityNotFound)}
  {
    match FindItem(items, itemId)
    case None => Fail(EntityNotFound)
    case Some(i) => if IsOwner(i, userId) then Pass else Fail(ItemNotFound)
  }

  /** Fails with RequestNotFound exactly when no item request has this id. */
  function CheckHasRequest(requests: seq<ItemRequest>, requestId: int): (c: Check)
    ensures c == Pass <==> exists q :: q in requests && q.id == requestId
    ensures c != Pass ==> c == Fail(RequestNotFound)
  {
    if FindRequest(requests, requestId).None? then Fail(RequestNotFound) else Pass
  }
}
