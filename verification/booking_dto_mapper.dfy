/** Conversions between bookings and their request body and views. */
module BookingDtoMapper {
  import opened Wrappers
  import opened Domain
  import opened Dtos
  import opened UserDtoMapper
  import opened ItemDtoMapper

  /** A booking of the body's item by `userId` for the body's period. Booker
      and item are fetched with findById().orElseThrow(), so a missing one
      fails with NoSuchElement. No id and no status are set here. */
  function ToBooking(users: seq<User>, items: seq<Item>, d: BookingCreationRequest, userId: int)
    : (r: Result<NewBooking>)
    ensures r.Ok? <==> (exists u :: u in users && u.id == userId) && exists i :: i in items && i.id == d.itemId
    ensures r.Err? ==> r.error == NoSuchElement
    ensures r.Ok? ==> && r.value.startTime == d.start && r.value.endTime == d.end
                      && r.value.booker in users && r.value.booker.id == userId
                      && r.value.item in items && r.value.item.id == d.itemId
  {
    match FindUser(users, userId)
    case None => Err(NoSuchElement)
    case Some(booker) =>
      match FindItem(items, d.itemId)
      case None => Err(NoSuchElement)
      case Some(item) => Ok(NewBooking(d.start, d.end, booker, item))
  }

  /** The view: id, period and status, the booker's short view and the
      item's short view. */
  function ToBookingDto(b: Booking): (r: BookingDto)
    ensures r.id == b.id && r.start == b.startTime && r.end == b.endTime && r.status == b.status
    ensures r.booker.id == b.booker.id
    ensures r.item.id == b.item.id && r.item.name == b.item.name
  {
    BookingDto(b.id, b.startTime, b.endTime, b.status, ToShortUserDto(b.booker), ToShortItemDto(b.item))
  }

  /** The view exposes the booker's id only and the item's id and name only. */
  lemma BookingDtoHidesDetails(b: Booking, booker: User, item: Item)
    requires booker.id == b.booker.id && item.id == b.item.id && item.name == b.item.name
    ensures ToBookingDto(b.(booker := booker, item := item)) == ToBookingDto(b)
  {
  }

  /** The short view: the booking id and the booker id. */
  function ToShortBookingDto(b: Booking): (r: ShortBookingDto)
    ensures r.id == b.id && r.bookerId == b.booker.id
  {
    ShortBookingDto(b.id, b.booker.id)
  }

  /** The short view is the booking view's id and booker id. */
  lemma ShortBookingDtoIsProjection(b: Booking)
    ensures ToShortBookingDto(b) == ShortBookingDto(ToBookingDto(b).id, ToBookingDto(b).booker.id)
  {
  }

  /** The list form: one view per booking, in the same order. */
  function ToBookingDtos(bookings: seq<Booking>): (r: seq<BookingDto>)
    ensures |r| == |bookings|
    ensures forall k :: 0 <= k < |bookings| ==> r[k] == ToBookingDto(bookings[k])
  {
    seq(|bookings|, k requires 0 <= k < |bookings| => ToBookingDto(bookings[k]))
  }
}
