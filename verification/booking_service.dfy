/** The booking guards (the static checks of BookingService) and the six
    states a booking list can be asked for. */
module BookingService {
  import opened Wrappers
  import opened Domain

  /** The states a caller may name when listing bookings. */
  datatype State = ALL | CURRENT | PAST | FUTURE | WAITING | REJECTED

  /** The enum constant's name. */
  function Name(st: State): string
  {
    match st
    case ALL => "ALL"
    case CURRENT => "CURRENT"
    case PAST => "PAST"
    case FUTURE => "FUTURE"
    case WAITING => "WAITING"
    case REJECTED => "REJECTED"
  }

  /** State.valueOf: an exact, case-sensitive match against the six names;
      anything else fails with IncorrectState. */
  function CheckState(possibleState: string): (r: Result<State>)
    ensures r.Ok? ==> Name(r.value) == possibleState
    ensures r.Err? ==> forall st: State :: Name(st) != possibleState
    ensures r.Err? ==> r.error == IncorrectState
  {
    if possibleState == "ALL" then Ok(ALL)
    else if possibleState == "CURRENT" then Ok(CURRENT)
    else if possibleState == "PAST" then Ok(PAST)
    else if possibleState == "FUTURE" then Ok(FUTURE)
    else if possibleState == "WAITING" then Ok(WAITING)
    else if possibleState == "REJECTED" then Ok(REJECTED)
    else Err(IncorrectState)
  }

  /** Parsing a state's own name gives the state back. */
  lemma CheckStateOfName(st: State)
    ensures CheckState(Name(st)) == Ok(st)
  {
  }

  /** Names differ by case, so a lower-case name is refused. */
  lemma CheckStateIsCaseSensitive()
    ensures CheckState("all") == Err(IncorrectState)
    ensures CheckState("Waiting") == Err(IncorrectState)
  {
    assert forall st: State :: Name(st) != "all" && Name(st) != "Waiting";
  }

  /** The classification each state stands for, relative to `now`: CURRENT is
      strictly inside the period, PAST ended strictly before, FUTURE starts
      strictly after; WAITING and REJECTED look at the status only. */
  ghost predicate InState(b: Booking, st: State, now: int)
  {
    match st
    case ALL => true
    case CURRENT => b.startTime < now && now < b.endTime
    case PAST => b.endTime < now
    case FUTURE => now < b.startTime
    case WAITING => b.status == Waiting
    case REJECTED => b.status == Rejected
  }

  /** For a booking whose start is before its end (every stored booking
      passed CheckBookingTimePeriod), at most one of CURRENT, PAST and FUTURE
      holds, and exactly one holds unless `now` falls on one of its ends. */
  lemma TemporalStatesPartition(b: Booking, now: int)
    requires CheckBookingTimePeriod(b.startTime, b.endTime) == Pass
    ensures !(InState(b, CURRENT, now) && InState(b, PAST, now))
    ensures !(InState(b, CURRENT, now) && InState(b, FUTURE, now))
    ensures !(InState(b, PAST, now) && InState(b, FUTURE, now))
    ensures now != b.startTime && now != b.endTime ==>
              InState(b, CURRENT, now) || InState(b, PAST, now) || InState(b, FUTURE, now)
    ensures now == b.startTime || now == b.endTime ==>
              !InState(b, CURRENT, now) && !InState(b, PAST, now) && !InState(b, FUTURE, now)
  {
  }

  /** Accepts exactly the periods whose start is strictly before the end; a
      period that starts at its end, or ends before it starts, fails with
      IncorrectBookingDates. */
  function CheckBookingTimePeriod(start: int, end: int): (c: Check)
    ensures c == Pass <==> start < end
    ensures c != Pass ==> c == Fail(IncorrectBookingDates)
  {
    if start > end then Fail(IncorrectBookingDates)
    else if start == end then Fail(IncorrectBookingDates)
    else if end < start then Fail(IncorrectBookingDates)
    else Pass
  }

  /** Fails with BookingNotFound exactly when no booking has this id. */
  function CheckBookingExistsById(bookings: seq<Booking>, bookingId: int): (c: Check)
    ensures c == Pass <==> exists b :: b in bookings && b.id == bookingId
    ensures c != Pass ==> c == Fail(BookingNotFound)
  {
    if FindBooking(bookings, bookingId).None? then Fail(BookingNotFound) else Pass
  }

  /** Only an APPROVED booking is refused; WAITING and REJECTED pass. */
  function CheckBookingStatusNotApprove(b: Booking): (c: Check)
    ensures c == Pass <==> b.status == Waiting || b.status == Rejected
    ensures c != Pass ==> c == Fail(BookingAlreadyApproved)
  {
    match b.status
    case Approved => Fail(BookingAlreadyApproved)
    case Waiting => Pass
    case Rejected => Pass
  }

  /** Only an explicit `false` makes an item unavailable; an item whose
      availability was never set can be booked. */
  function CheckItemAvailableForBooking(item: Item): (c: Check)
    ensures c == Pass <==> item.available.None? || item.available.value
    ensures c != Pass ==> c == Fail(ItemNotAvailableForBooking)
  {
    if item.available == Some(false) then Fail(ItemNotAvailableForBooking) else Pass
  }

  /** An owner may not book their own item (BookingLogic). The item is read
      through a lazy reference, so a missing row fails with EntityNotFound. */
  function CheckUserNotOwnerByItemIdAndUserId(items: seq<Item>, itemId: int, userId: int): (c: Check)
    ensures c == Fail(EntityNotFound) <==> forall i :: i in items ==> i.id != itemId
    ensures c == Pass ==> exists i :: i in items && i.id == itemId && i.owner != userId
    ensures c == Fail(BookingLogic) ==> exists i :: i in items && i.id == itemId && i.owner == userId
    ensures c in {Pass, Fail(BookingLogic), Fail(EntityNotFound)}
  {
    match FindItem(items, itemId)
    case None => Fail(EntityNotFound)
    case Some(i) => if i.owner == userId then Fail(BookingLogic) else Pass
  }

  /** Passes iff the user owns the booked item or made the booking; anyone
      else is told the booking does not exist. */
  function CheckOwnerOrBooker(b: Booking, userId: int): (c: Check)
    ensures c == Pass <==> b.item.owner == userId || b.booker.id == userId
    ensures c != Pass ==> c == Fail(BookingNotFound)
  {
    var isOwner := b.item.owner == userId;
    var isBooker := b.booker.id == userId;
    if !isOwner && !isBooker then Fail(BookingNotFound) else Pass
  }
}
