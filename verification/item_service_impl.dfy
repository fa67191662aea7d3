/** The item service: adding and updating items (the only operations that
    write), the single and per-owner detailed views, and the text search
    over available items. */
module ItemServiceImpl {
  import opened Wrappers
  import opened Domain
  import opened Seqs
  import opened Tables
  import opened Dtos
  import UserService
  import opened ItemService
  import opened ItemDtoMapper
  import opened ItemDetailsMapper

  /** addItem, as a decision: the owner must exist (UserNotFound); an item
      created on a request needs that request (RequestNotFound); then the
      mapper builds the item from the body. */
  function AddItemCheck(users: seq<User>, requests: seq<ItemRequest>, d: ItemCreationRequest, ownerId: int)
    : (r: Result<NewItem>)
    ensures r == Err(UserNotFound) <==> forall u :: u in users ==> u.id != ownerId
    ensures r == Err(RequestNotFound) <==>
              (exists u :: u in users && u.id == ownerId) && d.requestId.Some?
              && forall q :: q in requests ==> q.id != d.requestId.value
    ensures r.Err? ==> r.error == UserNotFound || r.error == RequestNotFound
    ensures r.Ok? ==> r.value == NewItem(d.name, d.description, d.available, ownerId, d.requestId)
  {
    var userCheck := UserService.CheckUserExistsById(users, ownerId);
    if userCheck.Fail? then Err(userCheck.error)
    else if d.requestId.None? then ToItem(users, requests, d, ownerId)
    else
      var requestCheck := CheckHasRequest(requests, d.requestId.value);
      // addItemOnRequest checks the owner a second time; that check
      // repeats the one above and always passes here.
      if requestCheck.Fail? then Err(requestCheck.error)
      else ToItem(users, requests, d, ownerId)
  }

  /** updateItem, as a decision: the item (ItemNotFound), the user
      (UserNotFound) and the user's ownership of the item (ItemNotFound) are
      checked in turn; the updated item keeps its id, its owner and its
      request. */
  function UpdateItemCheck(items: seq<Item>, users: seq<User>, d: ItemUpdateRequest, itemId: int, userId: int)
    : (r: Result<Item>)
    ensures (forall i :: i in items ==> i.id != itemId) ==> r == Err(ItemNotFound)
    ensures (exists i :: i in items && i.id == itemId) && (forall u :: u in users ==> u.id != userId) ==>
              r == Err(UserNotFound)
    ensures FindItem(items, itemId).Some? && FindUser(users, userId).Some? ==>
              var i := FindItem(items, itemId).value;
              && (i.owner != userId ==> r == Err(ItemNotFound))
              && (i.owner == userId ==> r == Ok(MergeItem(i, d, userId)))
    ensures r.Ok? ==> var i := FindItem(items, itemId).value;
                      r.value.id == itemId && r.value.owner == i.owner && r.value.request == i.request
  {
    var itemCheck := CheckItemExistsById(items, itemId);
    var userCheck := UserService.CheckUserExistsById(users, userId);
    if itemCheck.Fail? then Err(itemCheck.error)
    else if userCheck.Fail? then Err(userCheck.error)
    else
      var ownerCheck := CheckOwnerOfItemByItemIdAndUserId(items, itemId, userId);
      if ownerCheck.Fail? then Err(ownerCheck.error)
      else Ok(MergeItem(FindItem(items, itemId).value, d, userId))
  }

  /** Only the item's owner may change it, and no update moves an item to
      another owner or another request. */
  lemma OnlyOwnerUpdates(items: seq<Item>, users: seq<User>, d: ItemUpdateRequest, itemId: int, userId: int)
    requires UpdateItemCheck(items, users, d, itemId, userId).Ok?
    ensures exists i :: i in items && i.id == itemId && i.owner == userId
    ensures var u := UpdateItemCheck(items, users, d, itemId, userId).value;
            u.owner == userId && u == MergeItem(FindItem(items, itemId).value, d, userId)
  {
    var i := FindItem(items, itemId).value;
    assert i in items && i.id == itemId;
  }

  /** getItemByItemId: ItemNotFound for an unknown id; the owner sees the
      owner-wide last and next booking, anyone else the item without
      bookings. Both see the item's comments. */
  function GetItemByItemId(items: seq<Item>, comments: seq<Comment>, bookings: seq<Booking>,
                           itemId: int, userId: int, now: int): (r: Result<DetailedItemDto>)
    ensures r.Err? <==> forall i :: i in items ==> i.id != itemId
    ensures r.Err? ==> r.error == ItemNotFound
    ensures r.Ok? ==> var i := FindItem(items, itemId).value;
                      && r.value.id == itemId
                      && r.value.(lastBooking := None, nextBooking := None) == ToDetailedItemDto(i, comments)
                      && (i.owner == userId ==> r.value == ToDetailedItemDtoForOwner(i, comments, bookings, now))
                      && (i.owner != userId ==> r.value.lastBooking.None? && r.value.nextBooking.None?)
  {
    var itemCheck := CheckItemExistsById(items, itemId);
    if itemCheck.Fail? then Err(itemCheck.error)
    else
      var item := FindItem(items, itemId).value;
      if IsOwner(item, userId) then Ok(ToDetailedItemDtoForOwner(item, comments, bookings, now))
      else Ok(ToDetailedItemDto(item, comments))
  }

  /** findByOwner_Id: the owner's items in store order. */
  function OwnedBy(items: seq<Item>, ownerId: int): (r: seq<Item>)
    ensures forall i :: i in r <==> i in items && i.owner == ownerId
    ensures forall i :: multiset(r)[i] == if i.owner == ownerId then multiset(items)[i] else 0
  {
    Filter(items, (i: Item) => i.owner == ownerId)
  }

  /** getItemsByOwnerId: the detailed views of the owner's items (each with
      its own last and next booking), sorted by id. With both `from` and
      `size` given, `from` is used directly as the page index of the store
      query and only that page's items are shown. The owner is not checked:
      an unknown owner gets an empty list. */
  function GetItemsByOwnerId(items: seq<Item>, comments: seq<Comment>, bookings: seq<Booking>,
                             ownerId: int, from: Option<int>, size: Option<int>, now: int)
    : (r: Result<seq<DetailedItemDto>>)
    ensures from.None? || size.None? ==> r.Ok? && |r.value| == |OwnedBy(items, ownerId)|
    ensures from.Some? && size.Some? ==> (r.Err? <==> from.value < 0 || size.value < 1)
    ensures from.Some? && size.Some? && r.Ok? ==> |r.value| <= size.value
    ensures from.Some? && size.Some? && r.Ok? ==>
              r.value == ToDetailedItemDtos(Page(OwnedBy(items, ownerId), from.value, size.value), comments, bookings, now)
    ensures r.Err? ==> r.error == IllegalArgument
    ensures r.Ok? ==> SortedBy(r.value, DtoId)
    ensures r.Ok? ==> forall v :: v in r.value ==>
              exists i :: i in items && i.owner == ownerId && v == ToDetailedItemDtoWithBookings(i, comments, bookings, now)
  {
    var owned := OwnedBy(items, ownerId);
    if from.None? || size.None? then
      Ok(ViewsOf(owned, items, ownerId, comments, bookings, now))
    else if from.value < 0 || size.value < 1 then Err(IllegalArgument)
    else
      var page := Page(owned, from.value, size.value);
      assert forall i :: i in page ==> i in owned by {
        forall i | i in page ensures i in owned {
          var k :| 0 <= k < |page| && page[k] == i;
        }
      }
      Ok(ViewsOf(page, items, ownerId, comments, bookings, now))
  }

  /** The sorted views of some of the owner's items. */
  function ViewsOf(chosen: seq<Item>, items: seq<Item>, ownerId: int, comments: seq<Comment>,
                   bookings: seq<Booking>, now: int): (r: seq<DetailedItemDto>)
    requires forall i :: i in chosen ==> i in items && i.owner == ownerId
    ensures |r| == |chosen|
    ensures SortedBy(r, DtoId)
    ensures forall v :: v in r ==>
              exists i :: i in items && i.owner == ownerId && v == ToDetailedItemDtoWithBookings(i, comments, bookings, now)
  {
    var r := ToDetailedItemDtos(chosen, comments, bookings, now);
    ViewsComeFromChosen(chosen, comments, bookings, now);
    r
  }

  /** Every view in the sorted list is the view of one of the chosen items. */
  lemma ViewsComeFromChosen(chosen: seq<Item>, comments: seq<Comment>, bookings: seq<Booking>, now: int)
    ensures forall v :: v in ToDetailedItemDtos(chosen, comments, bookings, now) ==>
              exists i :: i in chosen && v == ToDetailedItemDtoWithBookings(i, comments, bookings, now)
  {
    var r := ToDetailedItemDtos(chosen, comments, bookings, now);
    var d := Details(chosen, comments, bookings, now);
    forall v | v in r
      ensures exists i :: i in chosen && v == ToDetailedItemDtoWithBookings(i, comments, bookings, now)
    {
      assert v in multiset(r);
      assert v in multiset(d);
      var k :| 0 <= k < |d| && d[k] == v;
      assert chosen[k] in chosen;
    }
  }

  /** Without paging, every item of the owner appears in the list. */
  lemma OwnerListsEveryItem(items: seq<Item>, comments: seq<Comment>, bookings: seq<Booking>,
                            ownerId: int, now: int, i: Item)
    requires i in items && i.owner == ownerId
    ensures ToDetailedItemDtoWithBookings(i, comments, bookings, now)
              in GetItemsByOwnerId(items, comments, bookings, ownerId, None, None, now).value
  {
    var owned := OwnedBy(items, ownerId);
    assert i in owned;
    var k :| 0 <= k < |owned| && owned[k] == i;
    DetailsListCoversEveryItem(owned, comments, bookings, now, k);
  }

  // ---- case-insensitive search (StringUtils.containsIgnoreCase) ----

  /** Folds a letter to lower case: the Latin letters A-Z and the Russian
      letters А-Я and Ё; every other character is left as it is. */
  function Fold(c: char): (r: char)
    ensures 'A' <= c <= 'Z' ==> r == c - 'A' + 'a'
    ensures 'А' <= c <= 'Я' ==> r == c - 'А' + 'а'
    ensures c == 'Ё' ==> r == 'ё'
    ensures !('A' <= c <= 'Z' || 'А' <= c <= 'Я' || c == 'Ё') ==> r == c
  {
    if 'A' <= c <= 'Z' then (c as int - 'A' as int + 'a' as int) as char
    else if 'А' <= c <= 'Я' then (c as int - 'А' as int + 'а' as int) as char
    else if c == 'Ё' then 'ё'
    else c
  }

  /** Folding twice is folding once. */
  lemma FoldIdempotent(c: char)
    ensures Fold(Fold(c)) == Fold(c)
  {
  }

  /** `pattern` occurs in `text` at position k, ignoring case. */
  ghost predicate OccursAt(text: string, pattern: string, k: int)
  {
    0 <= k && k + |pattern| <= |text|
    && forall j :: 0 <= j < |pattern| ==> Fold(text[k + j]) == Fold(pattern[j])
  }

  /** `text` starts with `pattern`, ignoring case. */
  function StartsWithIgnoreCase(text: string, pattern: string): (r: bool)
    ensures r <==> OccursAt(text, pattern, 0)
    decreases |pattern|
  {
    if pattern == [] then true
    else if text == [] then false
    else
      var rest := StartsWithIgnoreCase(text[1..], pattern[1..]);
      assert OccursAt(text[1..], pattern[1..], 0) ==>
               forall j :: 1 <= j < |pattern| ==> Fold(text[j]) == Fold(pattern[j]) by {
        if OccursAt(text[1..], pattern[1..], 0) {
          forall j | 1 <= j < |pattern| ensures Fold(text[j]) == Fold(pattern[j]) {
            assert text[1..][j - 1] == text[j] && pattern[1..][j - 1] == pattern[j];
          }
        }
      }
      Fold(text[0]) == Fold(pattern[0]) && rest
  }

  /** StringUtils.containsIgnoreCase: `pattern` occurs somewhere in `text`,
      ignoring case (the empty pattern occurs in every text). */
  function ContainsIgnoreCase(text: string, pattern: string): (r: bool)
    ensures r <==> exists k :: OccursAt(text, pattern, k)
    decreases |text|
  {
    if StartsWithIgnoreCase(text, pattern) then true
    else if text == [] then false
    else
      var rest := ContainsIgnoreCase(text[1..], pattern);
      ShiftOccurs(text, pattern);
      rest
  }

  /** An occurrence in the tail is an occurrence one position later in the
      whole text. */
  lemma ShiftOccurs(text: string, pattern: string)
    requires text != [] && !OccursAt(text, pattern, 0)
    ensures (exists k :: OccursAt(text[1..], pattern, k)) <==> (exists k :: OccursAt(text, pattern, k))
  {
    forall k | OccursAt(text[1..], pattern, k) ensures OccursAt(text, pattern, k + 1) {
      forall j | 0 <= j < |pattern| ensures Fold(text[k + 1 + j]) == Fold(pattern[j]) {
        assert text[1..][k + j] == text[k + 1 + j];
      }
    }
    forall k | OccursAt(text, pattern, k) ensures OccursAt(text[1..], pattern, k - 1) {
      assert k != 0;
      forall j | 0 <= j < |pattern| ensures Fold(text[1..][k - 1 + j]) == Fold(pattern[j]) {
        assert text[1..][k - 1 + j] == text[k + j];
      }
    }
  }

  /** Search patterns that differ only in case find the same texts. */
  lemma {:induction false} ContainsIgnoresPatternCase(text: string, p: string, q: string)
    requires |p| == |q| && forall j :: 0 <= j < |p| ==> Fold(p[j]) == Fold(q[j])
    ensures ContainsIgnoreCase(text, p) == ContainsIgnoreCase(text, q)
  {
    if ContainsIgnoreCase(text, p) {
      var k :| OccursAt(text, p, k);
      assert OccursAt(text, q, k);
    }
    if ContainsIgnoreCase(text, q) {
      var k :| OccursAt(text, q, k);
      assert OccursAt(text, p, k);
    }
  }

  /** An item the search finds: available (TRUE, not null), with the text in
      its name or its description. */
  predicate Matches(i: Item, text: string)
  {
    i.available == Some(true) && (ContainsIgnoreCase(i.name, text) || ContainsIgnoreCase(i.description, text))
  }

  /** findByAvailableIsTrue filtered by the text, in store order. */
  function Found(items: seq<Item>, text: string): (r: seq<Item>)
    ensures forall i :: i in r <==> i in items && Matches(i, text)
    ensures forall i :: multiset(r)[i] == if Matches(i, text) then multiset(items)[i] else 0
  {
    Filter(items, (i: Item) => Matches(i, text))
  }

  /** searchItemsByNameOrDescription: a missing or empty text finds nothing;
      otherwise the available items whose name or description contains the
      text, ignoring case, in store order; with both `from` and `size` given,
      the window that skips `from` items and keeps at most `size` (a negative
      number is refused with IllegalArgument). */
  function Search(items: seq<Item>, text: Option<string>, from: Option<int>, size: Option<int>)
    : (r: Result<seq<ItemDto>>)
    ensures text.None? || text == Some("") ==> r == Ok([])
    ensures text.Some? && text.value != "" && (from.None? || size.None?) ==>
              && r.Ok? && |r.value| == |Found(items, text.value)|
              && forall x :: x in r.value <==> exists i :: i in items && Matches(i, text.value) && x == ToItemDto(i)
    ensures text.Some? && text.value != "" && from.Some? && size.Some? ==>
              && (r.Err? <==> from.value < 0 || size.value < 0)
              && (r.Ok? ==> |r.value| <= size.value
                            && forall x :: x in r.value ==> exists i :: i in items && Matches(i, text.value) && x == ToItemDto(i))
    ensures r.Err? ==> r.error == IllegalArgument
  {
    if text.None? || text.value == "" then Ok([])
    else
      var found := Found(items, text.value);
      if from.None? || size.None? then
        FlatViewsOf(found);
        Ok(ToItemDtos(found))
      else if from.value < 0 || size.value < 0 then Err(IllegalArgument)
      else
        var window := SkipLimit(found, from.value, size.value);
        FlatViewsOf(window);
        assert forall i :: i in window ==> i in found by {
          forall i | i in window ensures i in found {
            var k :| 0 <= k < |window| && window[k] == i;
          }
        }
        Ok(ToItemDtos(window))
  }

  /** The flat views of a list are the views of its items. */
  lemma FlatViewsOf(s: seq<Item>)
    ensures forall x :: x in ToItemDtos(s) <==> exists i :: i in s && x == ToItemDto(i)
  {
    var r := ToItemDtos(s);
    forall x | x in r ensures exists i :: i in s && x == ToItemDto(i) {
      var k :| 0 <= k < |r| && r[k] == x;
      assert s[k] in s;
    }
    forall i | i in s ensures ToItemDto(i) in r {
      var k :| 0 <= k < |s| && s[k] == i;
      assert r[k] == ToItemDto(i);
    }
  }

  /** The paged search is the unpaged search's window: skip `from` results,
      keep at most `size`. */
  lemma PagedSearchIsWindow(items: seq<Item>, text: string, from: int, size: int)
    requires text != "" && from >= 0 && size >= 0
    ensures Search(items, Some(text), Some(from), Some(size)).Ok?
    ensures Search(items, Some(text), Some(from), Some(size)).value
              == SkipLimit(Search(items, Some(text), None, None).value, from, size)
  {
    var found := Found(items, text);
    var all := ToItemDtos(found);
    var paged := ToItemDtos(SkipLimit(found, from, size));
    var window := SkipLimit(all, from, size);
    assert |paged| == |window|;
    forall k | 0 <= k < |paged| ensures paged[k] == window[k] {
    }
  }

  /** The service object and the two operations that write items. */
  class ItemServiceImpl {
    const items: ItemTable
    const users: UserTable
    const requests: RequestTable

    ghost predicate Valid()
      reads items, users, requests
    {
      items.Valid() && users.Valid() && requests.Valid()
    }

    constructor (items: ItemTable, users: UserTable, requests: RequestTable)
      ensures this.items == items && this.users == users && this.requests == requests
    {
      this.items, this.users, this.requests := items, users, requests;
    }

    /** addItem: on a failed check nothing is stored; otherwise one item is
        appended with the next id and its flat view returned. */
    method AddItem(d: ItemCreationRequest, ownerId: int) returns (r: Result<ItemDto>)
      requires Valid()
      modifies items
      ensures Valid()
      ensures AddItemCheck(users.rows, requests.rows, d, ownerId).Err? ==>
                && r == Err(AddItemCheck(users.rows, requests.rows, d, ownerId).error)
                && items.rows == old(items.rows) && items.nextId == old(items.nextId)
      ensures AddItemCheck(users.rows, requests.rows, d, ownerId).Ok? ==>
                var i := Item(old(items.nextId), d.name, d.description, d.available, ownerId, d.requestId);
                && items.rows == old(items.rows) + [i]
                && items.nextId == old(items.nextId) + 1
                && r == Ok(ToItemDto(i))
    {
      var check := AddItemCheck(users.rows, requests.rows, d, ownerId);
      if check.Err? {
        return Err(check.error);
      }
      var added := items.Save(check.value);
      r := Ok(ToItemDto(added));
    }

    /** updateItem: on a failed check nothing changes; otherwise the item's
        row is replaced by the updated item and its flat view returned. */
    method UpdateItem(d: ItemUpdateRequest, itemId: int, userId: int) returns (r: Result<ItemDto>)
      requires Valid()
      modifies items
      ensures Valid() && items.nextId == old(items.nextId)
      ensures UpdateItemCheck(old(items.rows), users.rows, d, itemId, userId).Err? ==>
                && r == Err(UpdateItemCheck(old(items.rows), users.rows, d, itemId, userId).error)
                && items.rows == old(items.rows)
      ensures UpdateItemCheck(old(items.rows), users.rows, d, itemId, userId).Ok? ==>
                var u := UpdateItemCheck(old(items.rows), users.rows, d, itemId, userId).value;
                && items.rows == ReplaceByKey(old(items.rows), ItemId, u)
                && r == Ok(ToItemDto(u))
    {
      var check := UpdateItemCheck(items.rows, users.rows, d, itemId, userId);
      if check.Err? {
        return Err(check.error);
      }
      var updated := ToUpdatedItem(items, users.rows, d, itemId, userId);
      assert updated.Ok?;
      ReplacedRowPresent(old(items.rows), ItemId, updated.value);
      ReplaceByKeyTwice(old(items.rows), ItemId, updated.value);
      items.Put(updated.value);
      r := Ok(ToItemDto(updated.value));
    }
  }
}
