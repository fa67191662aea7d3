/** The booking service: creating a booking, the owner's approval decision,
    fetching one booking and listing bookings by state, each as in
    BookingServiceImpl. "Now" is a parameter; every clock read within one
    call is taken to be that same instant. */
module BookingServiceImpl {
  import opened Wrappers
  import opened Domain
  import opened Seqs
  import opened Tables
  import opened Dtos
  import opened BookingRepository
  import opened BookingService
  import UserService
  import ItemService
  import opened BookingDtoMapper

  /** addBooking up to the save: user exists, item exists, the user does not
      own it, the period is valid, then the booking is built and the item
      must be available. The first failing check decides the error. */
  function AddBookingCheck(users: seq<User>, items: seq<Item>, d: BookingCreationRequest, userId: int)
    : (r: Result<NewBooking>)
    ensures (forall u :: u in users ==> u.id != userId) ==> r == Err(UserNotFound)
    ensures (exists u :: u in users && u.id == userId) && (forall i :: i in items ==> i.id != d.itemId) ==>
              r == Err(ItemNotFound)
    ensures FindUser(users, userId).Some? && FindItem(items, d.itemId).Some? ==>
              var item := FindItem(items, d.itemId).value;
              && (item.owner == userId ==> r == Err(BookingLogic))
              && (item.owner != userId && d.start >= d.end ==> r == Err(IncorrectBookingDates))
              && (item.owner != userId && d.start < d.end && item.available == Some(false) ==>
                    r == Err(ItemNotAvailableForBooking))
    ensures r.Ok? <==> && FindUser(users, userId).Some? && FindItem(items, d.itemId).Some?
                       && FindItem(items, d.itemId).value.owner != userId
                       && d.start < d.end
                       && FindItem(items, d.itemId).value.available != Some(false)
    ensures r.Ok? ==> r.value == NewBooking(d.start, d.end, FindUser(users, userId).value, FindItem(items, d.itemId).value)
  {
    var userCheck := UserService.CheckUserExistsById(users, userId);
    var itemCheck := ItemService.CheckItemExistsById(items, d.itemId);
    var notOwnerCheck := CheckUserNotOwnerByItemIdAndUserId(items, d.itemId, userId);
    var periodCheck := CheckBookingTimePeriod(d.start, d.end);
    if userCheck.Fail? then Err(userCheck.error)
    else if itemCheck.Fail? then Err(itemCheck.error)
    else if notOwnerCheck.Fail? then Err(notOwnerCheck.error)
    else if periodCheck.Fail? then Err(periodCheck.error)
    else
      match ToBooking(users, items, d, userId)
      case Err(e) => Err(e)
      case Ok(nb) =>
        var availableCheck := CheckItemAvailableForBooking(nb.item);
        if availableCheck.Fail? then Err(availableCheck.error) else Ok(nb)
  }

  /** An unknown user is reported before anything else is looked at. */
  lemma UnknownUserPreemptsEveryError(users: seq<User>, items: seq<Item>, d: BookingCreationRequest, userId: int)
    requires forall u :: u in users ==> u.id != userId
    ensures AddBookingCheck(users, items, d, userId) == Err(UserNotFound)
  {
  }

  /** The owner's decision: APPROVED only for an explicit `true`; `false` and
      a missing decision both reject. */
  function Decision(approved: Option<bool>): (s: Status)
    ensures s == Approved <==> approved == Some(true)
    ensures s != Approved ==> s == Rejected
  {
    if approved == Some(true) then Approved else Rejected
  }

  /** updateBookingStatus up to the save: the booking exists, the user
      exists, the user owns the booked item (ItemNotFound otherwise), the
      booking is not yet APPROVED; then only its status is set. */
  function UpdateStatusCheck(bookings: seq<Booking>, users: seq<User>, items: seq<Item>,
                             bookingId: int, approved: Option<bool>, userId: int): (r: Result<Booking>)
    ensures (forall b :: b in bookings ==> b.id != bookingId) ==> r == Err(BookingNotFound)
    ensures (exists b :: b in bookings && b.id == bookingId) && (forall u :: u in users ==> u.id != userId) ==>
              r == Err(UserNotFound)
    ensures FindBooking(bookings, bookingId).Some? && FindUser(users, userId).Some? ==>
              var b := FindBooking(bookings, bookingId).value;
              var ownerCheck := ItemService.CheckOwnerOfItemByItemIdAndUserId(items, b.item.id, userId);
              && (ownerCheck.Fail? ==> r == Err(ownerCheck.error))
              && (ownerCheck == Pass && b.status == Approved ==> r == Err(BookingAlreadyApproved))
              && (ownerCheck == Pass && b.status != Approved ==> r == Ok(b.(status := Decision(approved))))
  {
    if CheckBookingExistsById(bookings, bookingId).Fail? then Err(BookingNotFound)
    else if UserService.CheckUserExistsById(users, userId).Fail? then Err(UserNotFound)
    else
      var b := FindBooking(bookings, bookingId).value;
      var ownerCheck := ItemService.CheckOwnerOfItemByItemIdAndUserId(items, b.item.id, userId);
      if ownerCheck.Fail? then Err(ownerCheck.error)
      else if CheckBookingStatusNotApprove(b).Fail? then Err(BookingAlreadyApproved)
      else Ok(b.(status := Decision(approved)))
  }

  /** An APPROVED booking is final: no caller can decide it again. */
  lemma ApprovedIsTerminal(bookings: seq<Booking>, users: seq<User>, items: seq<Item>,
                           bookingId: int, approved: Option<bool>, userId: int)
    requires FindBooking(bookings, bookingId).Some? && FindBooking(bookings, bookingId).value.status == Approved
    ensures UpdateStatusCheck(bookings, users, items, bookingId, approved, userId).Err?
  {
  }

  /** Only APPROVED is blocked, so the owner may decide a WAITING or a
      REJECTED booking, and a rejected one can later be approved. */
  lemma OwnerMayRedecide(bookings: seq<Booking>, users: seq<User>, items: seq<Item>,
                         bookingId: int, approved: Option<bool>, userId: int)
    requires FindBooking(bookings, bookingId).Some? && FindUser(users, userId).Some?
    requires FindBooking(bookings, bookingId).value.status != Approved
    requires FindItem(items, FindBooking(bookings, bookingId).value.item.id).Some?
    requires FindItem(items, FindBooking(bookings, bookingId).value.item.id).value.owner == userId
    ensures UpdateStatusCheck(bookings, users, items, bookingId, approved, userId)
         == Ok(FindBooking(bookings, bookingId).value.(status := Decision(approved)))
  {
  }

  /** getBooking: the booking exists, the user exists, and the user owns the
      booked item or made the booking (BookingNotFound otherwise). Nothing
      is written. */
  function GetBooking(bookings: seq<Booking>, users: seq<User>, bookingId: int, userId: int): (r: Result<BookingDto>)
    ensures (forall b :: b in bookings ==> b.id != bookingId) ==> r == Err(BookingNotFound)
    ensures (exists b :: b in bookings && b.id == bookingId) && (forall u :: u in users ==> u.id != userId) ==>
              r == Err(UserNotFound)
    ensures FindBooking(bookings, bookingId).Some? && FindUser(users, userId).Some? ==>
              var b := FindBooking(bookings, bookingId).value;
              && (b.item.owner == userId || b.booker.id == userId ==> r == Ok(ToBookingDto(b)))
              && (b.item.owner != userId && b.booker.id != userId ==> r == Err(BookingNotFound))
  {
    if CheckBookingExistsById(bookings, bookingId).Fail? then Err(BookingNotFound)
    else if UserService.CheckUserExistsById(users, userId).Fail? then Err(UserNotFound)
    else
      var b := FindBooking(bookings, bookingId).value;
      var access := CheckOwnerOrBooker(b, userId);
      if access.Fail? then Err(access.error) else Ok(ToBookingDto(b))
  }

  /** The unpaged store query a state is sent to: the subject's bookings in
      that state relative to `now`, with the same instant as both bounds of
      CURRENT; ALL, PAST and FUTURE come by start time, latest first. */
  function StateQuery(bs: seq<Booking>, role: Role, id: int, st: State, now: int): (r: seq<Booking>)
    ensures forall b :: multiset(r)[b] == if SubjectOf(b, role) == id && InState(b, st, now) then multiset(bs)[b] else 0
    ensures st == ALL || st == PAST || st == FUTURE ==> StartDescending(r)
  {
    match st
    case ALL => FindOrderByStartDesc(bs, role, id)
    case CURRENT => FindCurrent(bs, role, id, now, now)
    case PAST => FindPast(bs, role, id, now)
    case FUTURE => FindFuture(bs, role, id, now)
    case WAITING => FindByStatus(bs, role, id, Waiting)
    case REJECTED => FindByStatus(bs, role, id, Rejected)
  }

  /** The ordered result a paged query slices: the same bookings as the
      unpaged query, in the same order, except for the owner's ALL, which the
      paged query orders by start time, earliest first. */
  function PagedSource(bs: seq<Booking>, role: Role, id: int, st: State, now: int): (r: seq<Booking>)
    ensures multiset(r) == multiset(StateQuery(bs, role, id, st, now))
    ensures role == Owner && st == ALL ==> StartAscending(r)
    ensures role == Booker || st != ALL ==> r == StateQuery(bs, role, id, st, now)
  {
    if role == Owner && st == ALL then
      var r := FindByOwnerOrderByStartAsc(bs, id);
      assert multiset(r) == multiset(StateQuery(bs, role, id, st, now));
      r
    else StateQuery(bs, role, id, st, now)
  }

  /** The owner's ALL list comes latest-first without paging and
      earliest-first with it: when two of the owner's bookings start at
      different times, their order differs between the two. */
  lemma OwnerAllOrderDependsOnPaging(bs: seq<Booking>, ownerId: int, now: int, i: int, j: int)
    requires var s := StateQuery(bs, Owner, ownerId, ALL, now);
             0 <= i < j < |s| && s[i].startTime != s[j].startTime
    ensures var s := StateQuery(bs, Owner, ownerId, ALL, now);
            var p := PagedSource(bs, Owner, ownerId, ALL, now);
            s[i].startTime > s[j].startTime
            && (forall a, b :: 0 <= a < b < |p| ==> p[a].startTime <= p[b].startTime)
  {
  }

  /** prepareFrom: 0 and 1 both become page 0, and n >= 2 becomes page n - 2.
      A negative value stays negative (and PageRequest then refuses it). */
  function PrepareFrom(from: int): (r: int)
    ensures from >= 0 ==> 0 <= r <= from
    ensures from < 0 ==> r < 0
    ensures from >= 2 ==> r == from - 2
    ensures from == 0 || from == 1 ==> r == 0
  {
    if from == 0 then from
    else if from <= 1 then from - 1
    else from - 2
  }

  /** The remapping never decreases: a larger `from` never gives an earlier page. */
  lemma PrepareFromMonotone(a: int, b: int)
    requires a <= b
    ensures PrepareFrom(a) <= PrepareFrom(b)
  {
  }

  /** `from` = 0, 1 and 2 all give the first page. */
  lemma PrepareFromFirstPages()
    ensures PrepareFrom(0) == 0 && PrepareFrom(1) == 0 && PrepareFrom(2) == 0
  {
  }

  /** Paging is used only when both `from` and `size` are given. */
  function CheckIsPagination(from: Option<int>, size: Option<int>): (r: bool)
    ensures r <==> from.Some? && size.Some?
  {
    from.Some? && size.Some?
  }

  /** getAllByBookerId (role Booker) and getAllByBookerItems (role Owner):
      the user must exist, the state must parse; then, when both `from` and
      `size` are given, page prepareFrom(from) of size `size` of the paged
      query (PageRequest refuses a negative page or a size below 1),
      otherwise the whole unpaged query. */
  function GetAll(bookings: seq<Booking>, users: seq<User>, role: Role, request: BookingGetRequest, now: int)
    : (r: Result<seq<BookingDto>>)
    ensures (forall u :: u in users ==> u.id != request.userId) ==> r == Err(UserNotFound)
    ensures (exists u :: u in users && u.id == request.userId) && CheckState(request.possibleState).Err? ==>
              r == Err(IncorrectState)
    ensures (exists u :: u in users && u.id == request.userId) && CheckState(request.possibleState).Ok? ==>
              var st := CheckState(request.possibleState).value;
              && (request.from.None? || request.size.None? ==>
                    r == Ok(ToBookingDtos(StateQuery(bookings, role, request.userId, st, now))))
              && (request.from.Some? && request.size.Some? ==>
                    var page := PrepareFrom(request.from.value);
                    var size := request.size.value;
                    && (page < 0 || size < 1 ==> r == Err(IllegalArgument))
                    && (page >= 0 && size >= 1 ==>
                          r == Ok(ToBookingDtos(Page(PagedSource(bookings, role, request.userId, st, now), page, size)))))
  {
    var userCheck := UserService.CheckUserExistsById(users, request.userId);
    var isPagination := CheckIsPagination(request.from, request.size);
    var state := CheckState(request.possibleState);
    if userCheck.Fail? then Err(userCheck.error)
    else if state.Err? then Err(state.error)
    else if !isPagination then Ok(ToBookingDtos(StateQuery(bookings, role, request.userId, state.value, now)))
    else
      var page := PrepareFrom(request.from.value);
      var size := request.size.value;
      if page < 0 || size < 1 then Err(IllegalArgument)
      else Ok(ToBookingDtos(Page(PagedSource(bookings, role, request.userId, state.value, now), page, size)))
  }

  /** Without paging, the list holds the view of every booking of the subject
      (booker or item owner) in the requested state, and nothing else: each
      listed view is the view of such a booking. */
  lemma ListedIffInState(bookings: seq<Booking>, users: seq<User>, role: Role, request: BookingGetRequest,
                         now: int, b: Booking)
    requires b in bookings
    requires FindUser(users, request.userId).Some? && CheckState(request.possibleState).Ok?
    requires request.from.None? || request.size.None?
    ensures var st := CheckState(request.possibleState).value;
            && GetAll(bookings, users, role, request, now).Ok?
            && (SubjectOf(b, role) == request.userId && InState(b, st, now) ==>
                  ToBookingDto(b) in GetAll(bookings, users, role, request, now).value)
            && (forall x :: x in GetAll(bookings, users, role, request, now).value ==>
                  exists c :: c in bookings && SubjectOf(c, role) == request.userId && InState(c, st, now)
                              && x == ToBookingDto(c))
  {
    var st := CheckState(request.possibleState).value;
    var s := StateQuery(bookings, role, request.userId, st, now);
    var views := ToBookingDtos(s);
    if SubjectOf(b, role) == request.userId && InState(b, st, now) {
      assert b in multiset(bookings);
      assert b in s;
      var k :| 0 <= k < |s| && s[k] == b;
      assert views[k] == ToBookingDto(b);
    }
    forall x | x in views
      ensures exists c :: c in bookings && SubjectOf(c, role) == request.userId && InState(c, st, now)
                          && x == ToBookingDto(c)
    {
      var k :| 0 <= k < |views| && views[k] == x;
      var c := s[k];
      assert c in multiset(s);
      assert c in bookings && SubjectOf(c, role) == request.userId && InState(c, st, now);
    }
  }

  /** The service object: the stores it writes, with the two operations that
      change them. */
  class BookingServiceImpl {
    const bookings: BookingTable
    const users: UserTable
    const items: ItemTable

    ghost predicate Valid()
      reads bookings, users, items
    {
      bookings.Valid() && users.Valid() && items.Valid()
    }

    constructor (bookings: BookingTable, users: UserTable, items: ItemTable)
      ensures this.bookings == bookings && this.users == users && this.items == items
    {
      this.bookings, this.users, this.items := bookings, users, items;
    }

    /** addBooking: on a failed check nothing is stored; otherwise exactly one
        booking is appended, WAITING, with the next id, and its view returned. */
    method AddBooking(d: BookingCreationRequest, userId: int) returns (r: Result<BookingDto>)
      requires Valid()
      modifies bookings
      ensures Valid()
      ensures AddBookingCheck(users.rows, items.rows, d, userId).Err? ==>
                && r == Err(AddBookingCheck(users.rows, items.rows, d, userId).error)
                && bookings.rows == old(bookings.rows) && bookings.nextId == old(bookings.nextId)
      ensures AddBookingCheck(users.rows, items.rows, d, userId).Ok? ==>
                var nb := AddBookingCheck(users.rows, items.rows, d, userId).value;
                var b := Booking(old(bookings.nextId), nb.startTime, nb.endTime, Waiting, nb.booker, nb.item);
                && bookings.rows == old(bookings.rows) + [b]
                && bookings.nextId == old(bookings.nextId) + 1
                && r == Ok(ToBookingDto(b))
    {
      var check := AddBookingCheck(users.rows, items.rows, d, userId);
      if check.Err? {
        return Err(check.error);
      }
      var saved := bookings.Save(check.value);
      r := Ok(ToBookingDto(saved));
    }

    /** updateBookingStatus: on a failed check nothing changes; otherwise the
        booking's row is replaced by the same booking with the decided
        status, and its view returned. */
    method UpdateBookingStatus(bookingId: int, approved: Option<bool>, userId: int) returns (r: Result<BookingDto>)
      requires Valid()
      modifies bookings
      ensures Valid() && bookings.nextId == old(bookings.nextId)
      ensures UpdateStatusCheck(old(bookings.rows), users.rows, items.rows, bookingId, approved, userId).Err? ==>
                && r == Err(UpdateStatusCheck(old(bookings.rows), users.rows, items.rows, bookingId, approved, userId).error)
                && bookings.rows == old(bookings.rows)
      ensures UpdateStatusCheck(old(bookings.rows), users.rows, items.rows, bookingId, approved, userId).Ok? ==>
                var b := UpdateStatusCheck(old(bookings.rows), users.rows, items.rows, bookingId, approved, userId).value;
                && bookings.rows == ReplaceByKey(old(bookings.rows), BookingId, b)
                && r == Ok(ToBookingDto(b))
    {
      var check := UpdateStatusCheck(bookings.rows, users.rows, items.rows, bookingId, approved, userId);
      if check.Err? {
        return Err(check.error);
      }
      bookings.Put(check.value);
      r := Ok(ToBookingDto(check.value));
    }
  }
}
