/** The item-request service: users post "wanted item" requests and list
    their own requests or everyone else's. */
module RequestServiceImpl {
  import opened Wrappers
  import opened Domain
  import opened Seqs
  import opened Tables
  import opened Dtos
  import opened RequestService
  import opened RequestDtoMapper

  /** findAllByRequestorId: the user's own requests, in store order. */
  function OwnRequests(requests: seq<ItemRequest>, userId: int): (r: seq<ItemRequest>)
    ensures forall q :: multiset(r)[q] == if q.requestor == userId then multiset(requests)[q] else 0
  {
    Filter(requests, (q: ItemRequest) => q.requestor == userId)
  }

  /** findAllByRequestor_IdNot: the other users' requests, in store order. */
  function OthersRequests(requests: seq<ItemRequest>, userId: int): (r: seq<ItemRequest>)
    ensures forall q :: q in r <==> q in requests && q.requestor != userId
  {
    Filter(requests, (q: ItemRequest) => q.requestor != userId)
  }

  function CreatedDesc(q: ItemRequest): int { -q.created }

  /** findAllByRequestorIdOrderByCreationTimeDesc: the user's own requests,
      newest first. */
  function OwnRequestsNewestFirst(requests: seq<ItemRequest>, userId: int): (r: seq<ItemRequest>)
    ensures multiset(r) == multiset(OwnRequests(requests, userId))
    ensures forall i, j :: 0 <= i < j < |r| ==> r[i].created >= r[j].created
  {
    var r := SortBy(OwnRequests(requests, userId), CreatedDesc);
    assert SortedBy(r, CreatedDesc);
    r
  }

  /** getRequestById: the user is checked first (UserNotFound), then the
      request, whose absence also reports UserNotFound. */
  function GetRequestById(users: seq<User>, requests: seq<ItemRequest>, items: seq<Item>, requestId: int, userId: int)
    : (r: Result<ItemRequestDto>)
    ensures r.Ok? <==> (exists u :: u in users && u.id == userId) && exists q :: q in requests && q.id == requestId
    ensures r.Err? ==> r.error == UserNotFound
    ensures r.Ok? ==> r.value.id == requestId && exists q :: q in requests && r.value == ToRequestDto(q, items)
  {
    var userCheck := CheckUserExistsById(users, userId);
    var requestCheck := CheckRequestExistsById(requests, requestId);
    if userCheck.Fail? then Err(userCheck.error)
    else if requestCheck.Fail? then Err(requestCheck.error)
    else Ok(ToRequestDto(FindRequest(requests, requestId).value, items))
  }

  /** The request list getAllRequests views, or why it fails: with `from`
      or `size` given it pages the other users' requests (a missing one of
      the two is a null Integer unboxed for PageRequest; a negative page or
      a size below 1 is refused); with neither it is the user's OWN
      requests, newest first. */
  function AllRequestsSource(requests: seq<ItemRequest>, userId: int, from: Option<int>, size: Option<int>)
    : (r: Result<seq<ItemRequest>>)
    ensures from.None? && size.None? ==> r == Ok(OwnRequestsNewestFirst(requests, userId))
    ensures (from.Some? || size.Some?) && (from.None? || size.None?) ==> r == Err(NullPointer)
    ensures from.Some? && size.Some? ==> (r.Err? <==> from.value < 0 || size.value < 1)
    ensures from.Some? && size.Some? && r.Err? ==> r.error == IllegalArgument
    ensures from.Some? && size.Some? && r.Ok? ==>
              && |r.value| <= size.value
              && r.value == Page(OthersRequests(requests, userId), from.value, size.value)
              && forall q :: q in r.value ==> q in requests && q.requestor != userId
  {
    if from.Some? || size.Some? then
      if from.None? || size.None? then Err(NullPointer)
      else if from.value < 0 || size.value < 1 then Err(IllegalArgument)
      else
        var others := OthersRequests(requests, userId);
        var page := Page(others, from.value, size.value);
        assert forall q :: q in page ==> q in others by {
          forall q | q in page ensures q in others {
            var k :| 0 <= k < |page| && page[k] == q;
          }
        }
        Ok(page)
    else Ok(OwnRequestsNewestFirst(requests, userId))
  }

  /** Without paging, getAllRequests lists the same requests as
      getAllOwnRequests (only the order differs): never another user's. */
  lemma UnpagedAllRequestsAreOwn(requests: seq<ItemRequest>, userId: int)
    ensures AllRequestsSource(requests, userId, None, None).Ok?
    ensures multiset(AllRequestsSource(requests, userId, None, None).value) == multiset(OwnRequests(requests, userId))
    ensures forall q :: q in AllRequestsSource(requests, userId, None, None).value ==> q.requestor == userId
  {
    var r := AllRequestsSource(requests, userId, None, None).value;
    forall q | q in r ensures q.requestor == userId {
      assert q in multiset(r);
    }
  }

  /** With paging, the same user never sees their own requests. */
  lemma PagedAllRequestsExcludeOwn(requests: seq<ItemRequest>, userId: int, from: int, size: int, q: ItemRequest)
    requires from >= 0 && size >= 1 && q in requests && q.requestor == userId
    ensures AllRequestsSource(requests, userId, Some(from), Some(size)).Ok?
    ensures q !in AllRequestsSource(requests, userId, Some(from), Some(size)).value
  {
  }

  /** Paging loses nothing: every request of another user is on the page
      of size `size` that its position in the store query falls in. */
  lemma EveryOthersRequestIsPaged(requests: seq<ItemRequest>, userId: int, size: int, q: ItemRequest)
    requires size >= 1 && q in requests && q.requestor != userId
    ensures exists from :: from >= 0 && AllRequestsSource(requests, userId, Some(from), Some(size)).Ok?
                           && q in AllRequestsSource(requests, userId, Some(from), Some(size)).value
  {
    var others := OthersRequests(requests, userId);
    var k :| 0 <= k < |others| && others[k] == q;
    PageHoldsPosition(others, size, k);
    var from := k / size;
    var r := AllRequestsSource(requests, userId, Some(from), Some(size));
    assert r.value == Page(others, from, size);
    assert r.value[k % size] == q;
  }

  /** The service object: the request store it writes and the stores it
      reads. The read operations run the mapper's list loop. */
  class RequestServiceImpl {
    const users: UserTable
    const requests: RequestTable
    const items: ItemTable

    constructor (users: UserTable, requests: RequestTable, items: ItemTable)
      ensures this.users == users && this.requests == requests && this.items == items
    {
      this.users, this.requests, this.items := users, requests, items;
    }

    /** createRequest: UserNotFound for an unknown user and nothing is
        stored; otherwise one request by that user, created at `now`, is
        appended with the next id and its view returned. */
    method CreateRequest(d: RequestDto, userId: int, now: int) returns (r: Result<ItemRequestDto>)
      requires requests.Valid()
      modifies requests
      ensures requests.Valid()
      ensures FindUser(users.rows, userId).None? ==>
                r == Err(UserNotFound) && requests.rows == old(requests.rows) && requests.nextId == old(requests.nextId)
      ensures FindUser(users.rows, userId).Some? ==>
                var q := ItemRequest(old(requests.nextId), d.description, now, userId);
                && requests.rows == old(requests.rows) + [q]
                && requests.nextId == old(requests.nextId) + 1
                && r == Ok(ToRequestDto(q, items.rows))
    {
      var check := CheckUserExistsById(users.rows, userId);
      if check.Fail? {
        return Err(check.error);
      }
      var requestor := FindUser(users.rows, userId).value;
      var saved := requests.Save(ToRequest(d, now), requestor.id);
      r := Ok(ToRequestDto(saved, items.rows));
    }

    /** getAllOwnRequests: UserNotFound for an unknown user; otherwise the
        views of the user's own requests, in store order. */
    method GetAllOwnRequests(userId: int) returns (r: Result<seq<ItemRequestDto>>)
      ensures r.Err? <==> forall u :: u in users.rows ==> u.id != userId
      ensures r.Err? ==> r.error == UserNotFound
      ensures r.Ok? ==> var own := OwnRequests(requests.rows, userId);
                        && |r.value| == |own|
                        && forall k :: 0 <= k < |own| ==> r.value[k] == ToRequestDto(own[k], items.rows)
    {
      var check := CheckUserExistsById(users.rows, userId);
      if check.Fail? {
        return Err(check.error);
      }
      var views := ToListOfDto(OwnRequests(requests.rows, userId), items.rows);
      r := Ok(views);
    }

    /** getAllRequests: UserNotFound for an unknown user; then the views of
        the list AllRequestsSource chooses, in its order. */
    method GetAllRequests(userId: int, from: Option<int>, size: Option<int>) returns (r: Result<seq<ItemRequestDto>>)
      ensures (forall u :: u in users.rows ==> u.id != userId) ==> r == Err(UserNotFound)
      ensures (exists u :: u in users.rows && u.id == userId) ==>
                var source := AllRequestsSource(requests.rows, userId, from, size);
                && (source.Err? ==> r == Err(source.error))
                && (source.Ok? ==> r.Ok? && |r.value| == |source.value|
                                   && forall k :: 0 <= k < |source.value| ==> r.value[k] == ToRequestDto(source.value[k], items.rows))
    {
      var check := CheckUserExistsById(users.rows, userId);
      if check.Fail? {
        return Err(check.error);
      }
      var source := AllRequestsSource(requests.rows, userId, from, size);
      if source.Err? {
        return Err(source.error);
      }
      var views := ToListOfDto(source.value, items.rows);
      r := Ok(views);
    }
  }
}
