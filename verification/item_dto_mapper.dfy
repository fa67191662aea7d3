/** Conversions between items and their request bodies and flat views. The
    booking-aware detailed views are in ItemDetailsMapper. */
module ItemDtoMapper {
  import opened Wrappers
  import opened Domain
  import opened Tables
  import opened Dtos

  /** The create form: the owner must be stored (findById().orElseThrow()),
      and a request id, when given, must name a stored request
      (RequestNotFound); the item takes its fields from the body. */
  function ToItem(users: seq<User>, requests: seq<ItemRequest>, d: ItemCreationRequest, ownerId: int): (r: Result<NewItem>)
    ensures r == Err(NoSuchElement) <==> forall u :: u in users ==> u.id != ownerId
    ensures r == Err(RequestNotFound) <==>
              (exists u :: u in users && u.id == ownerId) && d.requestId.Some?
              && forall q :: q in requests ==> q.id != d.requestId.value
    ensures r.Ok? ==> r.value == NewItem(d.name, d.description, d.available, ownerId, d.requestId)
  {
    if FindUser(users, ownerId).None? then Err(NoSuchElement)
    else if d.requestId.Some? && FindRequest(requests, d.requestId.value).None? then Err(RequestNotFound)
    else Ok(NewItem(d.name, d.description, d.available, ownerId, d.requestId))
  }

  /** A stored item after the present fields of an update body are set and
      its owner is set to `ownerId`. */
  function MergeItem(i: Item, d: ItemUpdateRequest, ownerId: int): (r: Item)
    ensures r.id == i.id && r.request == i.request && r.owner == ownerId
    ensures r.name == (if d.name.Some? then d.name.value else i.name)
    ensures r.description == (if d.description.Some? then d.description.value else i.description)
    ensures r.available == (if d.available.Some? then d.available else i.available)
  {
    Item(i.id, d.name.UnwrapOr(i.name), d.description.UnwrapOr(i.description),
         if d.available.Some? then d.available else i.available, ownerId, i.request)
  }

  /** An empty update by the item's own owner changes nothing. */
  lemma MergeEmptyIsIdentity(i: Item)
    ensures MergeItem(i, ItemUpdateRequest(None, None, None), i.owner) == i
  {
  }

  /** Applying the same update twice is the same as applying it once. */
  lemma MergeIdempotent(i: Item, d: ItemUpdateRequest, ownerId: int)
    ensures MergeItem(MergeItem(i, d, ownerId), d, ownerId) == MergeItem(i, d, ownerId)
  {
  }

  /** The update form: the item (NoSuchElement if missing) and then the owner
      (NoSuchElement if missing) are fetched, and the item's present fields
      and its owner are set in place on the managed entity. */
  method ToUpdatedItem(items: ItemTable, users: seq<User>, d: ItemUpdateRequest, itemId: int, ownerId: int)
    returns (r: Result<Item>)
    requires items.Valid()
    modifies items
    ensures items.Valid() && items.nextId == old(items.nextId)
    ensures FindItem(old(items.rows), itemId).None? || FindUser(users, ownerId).None? ==>
              r == Err(NoSuchElement) && items.rows == old(items.rows)
    ensures FindItem(old(items.rows), itemId).Some? && FindUser(users, ownerId).Some? ==>
              && r == Ok(MergeItem(FindItem(old(items.rows), itemId).value, d, ownerId))
              && items.rows == ReplaceByKey(old(items.rows), ItemId, r.value)
  {
    var found := FindItem(items.rows, itemId);
    if found.None? {
      return Err(NoSuchElement);
    }
    if FindUser(users, ownerId).None? {
      return Err(NoSuchElement);
    }
    var i := MergeItem(found.value, d, ownerId);
    items.Put(i);
    r := Ok(i);
  }

  /** The flat view; `requestId` is set exactly when the item answers a
      request. */
  function ToItemDto(i: Item): (r: ItemDto)
    ensures r.id == i.id && r.name == i.name && r.description == i.description && r.available == i.available
    ensures r.requestId.Some? <==> i.request.Some?
    ensures r.requestId.Some? ==> r.requestId.value == i.request.value
  {
    ItemDto(i.id, i.name, i.description, i.available, i.request)
  }

  /** The owner is not part of the flat view. */
  lemma ItemDtoHidesOwner(i: Item, owner: int)
    ensures ToItemDto(i.(owner := owner)) == ToItemDto(i)
  {
  }

  /** The short view carries the id and the name only. */
  function ToShortItemDto(i: Item): (r: ShortItemDto)
    ensures r.id == i.id && r.name == i.name
  {
    ShortItemDto(i.id, i.name)
  }

  /** Items agreeing on id and name have the same short view. */
  lemma ShortItemDtoHidesDetails(i: Item, j: Item)
    requires i.id == j.id && i.name == j.name
    ensures ToShortItemDto(i) == ToShortItemDto(j)
  {
  }

  /** The list form: one flat view per item, in the same order. */
  function ToItemDtos(items: seq<Item>): (r: seq<ItemDto>)
    ensures |r| == |items|
    ensures forall k :: 0 <= k < |items| ==> r[k] == ToItemDto(items[k])
  {
    seq(|items|, k requires 0 <= k < |items| => ToItemDto(items[k]))
  }
}
