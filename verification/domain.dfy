/** The entities of the sharing server, the errors its services raise and the
    result wrappers that carry them. Timestamps are integers (one tick per
    LocalDateTime step); identifiers are the JPA `Long` ids, unbounded here. */
module Domain {
  import opened Wrappers

  /** Every exception the modelled code raises, as a value. */
  datatype Error =
    | UserNotFound
    | ItemNotFound
    | BookingNotFound
    | RequestNotFound
    | IncorrectBookingDates
    | IncorrectState
    | BookingAlreadyApproved
    | ItemNotAvailableForBooking
    | BookingLogic        // an owner tries to book their own item
    | IncorrectComment
    | NoSuchElement       // Optional.orElseThrow() on an empty Optional
    | EntityNotFound      // a JPA reference (getReferenceById) to a missing row
    | NullPointer         // a null Integer unboxed to int
    | IllegalArgument     // PageRequest.of or Stream.skip/limit given a bad number

  /** A value or the exception that replaced it. */
  datatype Result<+T> = Ok(value: T) | Err(error: Error)

  /** The outcome of a guard that returns normally or throws. */
  datatype Check = Pass | Fail(error: Error)

  datatype Status = Waiting | Approved | Rejected

  datatype User = User(id: int, name: string, email: string)

  /** `available` is a nullable Boolean; `owner` is the owner's user id and
      `request` the id of the item request the item answers, if any. */
  datatype Item = Item(id: int, name: string, description: string,
                       available: Option<bool>, owner: int, request: Option<int>)

  /** A reservation of `item` by `booker` from startTime to endTime. */
  datatype Booking = Booking(id: int, startTime: int, endTime: int, status: Status,
                             booker: User, item: Item)

  /** A "wanted item" request; `requestor` is the requesting user's id. */
  datatype ItemRequest = ItemRequest(id: int, description: string, created: int, requestor: int)

  /** A review of item `item` written by `author`. */
  datatype Comment = Comment(id: int, text: string, author: User, item: int, created: int)

  // Entities built by the mappers before the store assigns them an id.
  datatype NewUser = NewUser(name: string, email: string)
  datatype NewItem = NewItem(name: string, description: string, available: Option<bool>,
                             owner: int, request: Option<int>)
  datatype NewBooking = NewBooking(startTime: int, endTime: int, booker: User, item: Item)
  datatype NewRequest = NewRequest(description: string, created: int)
  datatype NewComment = NewComment(text: string, author: User, item: int, created: int)

  function UserId(u: User): int { u.id }
  function ItemId(i: Item): int { i.id }
  function BookingId(b: Booking): int { b.id }
  function RequestId(r: ItemRequest): int { r.id }
  function CommentId(c: Comment): int { c.id }

  /** Row `id` of a table of users, if present (findById). */
  function FindUser(users: seq<User>, id: int): (r: Option<User>)
    ensures r.Some? ==> r.value in users && r.value.id == id
    ensures r.None? <==> forall u :: u in users ==> u.id != id
    decreases |users|
  {
    if users == [] then None
    else if users[0].id == id then Some(users[0])
    else FindUser(users[1..], id)
  }

  function FindItem(items: seq<Item>, id: int): (r: Option<Item>)
    ensures r.Some? ==> r.value in items && r.value.id == id
    ensures r.None? <==> forall i :: i in items ==> i.id != id
    decreases |items|
  {
    if items == [] then None
    else if items[0].id == id then Some(items[0])
    else FindItem(items[1..], id)
  }

  function FindBooking(bookings: seq<Booking>, id: int): (r: Option<Booking>)
    ensures r.Some? ==> r.value in bookings && r.value.id == id
    ensures r.None? <==> forall b :: b in bookings ==> b.id != id
    decreases |bookings|
  {
    if bookings == [] then None
    else if bookings[0].id == id then Some(bookings[0])
    else FindBooking(bookings[1..], id)
  }

  function FindRequest(requests: seq<ItemRequest>, id: int): (r: Option<ItemRequest>)
    ensures r.Some? ==> r.value in requests && r.value.id == id
    ensures r.None? <==> forall q :: q in requests ==> q.id != id
    decreases |requests|
  {
    if requests == [] then None
    else if requests[0].id == id then Some(requests[0])
    else FindRequest(requests[1..], id)
  }
}
