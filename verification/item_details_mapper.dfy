/** The detailed item view: the item's fields, its comments and, depending on
    who asks, the "last" and "next" booking shown beside it. The bookings are
    chosen here; the view shows their short form. */
module ItemDetailsMapper {
  import opened Wrappers
  import opened Domain
  import opened Seqs
  import opened Dtos
  import opened BookingRepository
  import opened BookingDtoMapper
  import opened CommentDtoMapper

  /** findCommentsByItemId: the item's comments in store order. */
  function CommentsOf(comments: seq<Comment>, itemId: int): (r: seq<Comment>)
    ensures forall c :: multiset(r)[c] == if c.item == itemId then multiset(comments)[c] else 0
  {
    Filter(comments, (c: Comment) => c.item == itemId)
  }

  /** The last booking of an item: among all its bookings, whatever their
      status, that ended strictly before `time`, one with the latest end
      (the first such in store order); none if no booking has ended. */
  function GetLastBooking(bookings: seq<Booking>, itemId: int, time: int): (r: Option<Booking>)
    ensures r.Some? ==> r.value in bookings && r.value.item.id == itemId && r.value.endTime < time
    ensures r.Some? ==> forall b :: b in bookings && b.item.id == itemId && b.endTime < time ==>
                                      b.endTime <= r.value.endTime
    ensures r.None? <==> forall b :: b in bookings && b.item.id == itemId ==> b.endTime >= time
  {
    FilterMax(FindAllByItemId(bookings, itemId), (b: Booking) => b.endTime < time, EndKey)
  }

  /** The next booking of an item: among its APPROVED bookings sorted by start
      time, the first that starts strictly after `time`; so one with the
      earliest such start. */
  function GetNextBooking(bookings: seq<Booking>, itemId: int, time: int): (r: Option<Booking>)
    ensures r.Some? ==> && r.value in bookings && r.value.item.id == itemId
                        && r.value.status == Approved && r.value.startTime > time
    ensures r.Some? ==> forall b :: b in bookings && b.item.id == itemId && b.status == Approved && b.startTime > time ==>
                                      r.value.startTime <= b.startTime
    ensures r.None? <==> forall b :: b in bookings && b.item.id == itemId && b.status == Approved ==> b.startTime <= time
  {
    SortFilterFirst(FindAllByItemIdAndStatus(bookings, itemId, Approved), StartKey, (b: Booking) => b.startTime > time)
  }

  /** The owner's "last" booking ranges over the bookings of all the owner's
      items, not only the one shown. Among those that ended strictly before
      `time` it takes one with the latest end. When none has ended it falls
      back to those that started strictly before `time` and takes one with the
      EARLIEST end, which is then a booking still in progress. */
  function GetLastBookingForOwner(bookings: seq<Booking>, ownerId: int, time: int): (r: Option<Booking>)
    ensures r.Some? ==> r.value in bookings && r.value.item.owner == ownerId
    ensures (exists b :: b in bookings && b.item.owner == ownerId && b.endTime < time) ==>
              && r.Some? && r.value.endTime < time
              && forall b :: b in bookings && b.item.owner == ownerId && b.endTime < time ==> b.endTime <= r.value.endTime
    ensures (forall b :: b in bookings && b.item.owner == ownerId ==> b.endTime >= time) ==>
              && (r.Some? <==> exists b :: b in bookings && b.item.owner == ownerId && b.startTime < time)
              && (r.Some? ==> && r.value.startTime < time && r.value.endTime >= time
                              && forall b :: b in bookings && b.item.owner == ownerId && b.startTime < time ==>
                                               r.value.endTime <= b.endTime)
  {
    var all := FindAllByItemOwnerId(bookings, ownerId);
    var last := FilterMax(all, (b: Booking) => b.endTime < time, EndKey);
    if last.None? then FilterMin(all, (b: Booking) => b.startTime < time, EndKey)
    else last
  }

  /** The owner's "next" booking: among the APPROVED bookings of all the
      owner's items, sorted by start, the first starting strictly after
      `time`. */
  function GetNextBookingForOwner(bookings: seq<Booking>, ownerId: int, time: int): (r: Option<Booking>)
    ensures r.Some? ==> && r.value in bookings && r.value.item.owner == ownerId
                        && r.value.status == Approved && r.value.startTime > time
    ensures r.Some? ==> forall b :: b in bookings && b.item.owner == ownerId && b.status == Approved && b.startTime > time ==>
                                      r.value.startTime <= b.startTime
    ensures r.None? <==> forall b :: b in bookings && b.item.owner == ownerId && b.status == Approved ==> b.startTime <= time
  {
    SortFilterFirst(FindAllByItemOwnerIdAndStatus(bookings, ownerId, Approved), StartKey, (b: Booking) => b.startTime > time)
  }

  /** Optional.map(toShortBookingDto).orElse(null). */
  function ShortOf(b: Option<Booking>): (r: Option<ShortBookingDto>)
    ensures r.Some? <==> b.Some?
    ensures r.Some? ==> r.value == ToShortBookingDto(b.value)
  {
    match b
    case None => None
    case Some(x) => Some(ToShortBookingDto(x))
  }

  /** The view without bookings: the item's fields and its comments. */
  function ToDetailedItemDto(item: Item, comments: seq<Comment>): (r: DetailedItemDto)
    ensures r.id == item.id && r.name == item.name && r.description == item.description
    ensures r.available == item.available
    ensures r.lastBooking.None? && r.nextBooking.None?
    ensures r.comments == ToCommentDtos(CommentsOf(comments, item.id))
  {
    DetailedItemDto(item.id, item.name, item.description, item.available, None, None,
                    ToCommentDtos(CommentsOf(comments, item.id)))
  }

  /** The view with the item's own last and next booking, both chosen
      against the one instant `time`. */
  function ToDetailedItemDtoWithBookings(item: Item, comments: seq<Comment>, bookings: seq<Booking>, time: int)
    : (r: DetailedItemDto)
    ensures r.(lastBooking := None, nextBooking := None) == ToDetailedItemDto(item, comments)
    ensures r.lastBooking == ShortOf(GetLastBooking(bookings, item.id, time))
    ensures r.nextBooking == ShortOf(GetNextBooking(bookings, item.id, time))
  {
    ToDetailedItemDto(item, comments).(lastBooking := ShortOf(GetLastBooking(bookings, item.id, time)),
                                       nextBooking := ShortOf(GetNextBooking(bookings, item.id, time)))
  }

  /** The owner's view: last and next booking over all the owner's items,
      both chosen against the one instant `time`. */
  function ToDetailedItemDtoForOwner(item: Item, comments: seq<Comment>, bookings: seq<Booking>, time: int)
    : (r: DetailedItemDto)
    ensures r.(lastBooking := None, nextBooking := None) == ToDetailedItemDto(item, comments)
    ensures r.lastBooking == ShortOf(GetLastBookingForOwner(bookings, item.owner, time))
    ensures r.nextBooking == ShortOf(GetNextBookingForOwner(bookings, item.owner, time))
  {
    ToDetailedItemDto(item, comments).(lastBooking := ShortOf(GetLastBookingForOwner(bookings, item.owner, time)),
                                       nextBooking := ShortOf(GetNextBookingForOwner(bookings, item.owner, time)))
  }

  /** The owner's view of one item can show a booking of another of the
      owner's items, which the same item's non-owner view does not show. */
  lemma OwnerViewShowsOtherItemsBooking()
    ensures var owner := 7;
            var shown := Item(1, "drill", "cordless", Some(true), owner, None);
            var other := Item(2, "saw", "circular", Some(true), owner, None);
            var b := Booking(10, 0, 5, Approved, User(3, "ann", "ann@mail"), other);
            && ToDetailedItemDtoForOwner(shown, [], [b], 6).lastBooking == Some(ShortBookingDto(10, 3))
            && ToDetailedItemDtoWithBookings(shown, [], [b], 6).lastBooking == None
  {
    var owner := 7;
    var other := Item(2, "saw", "circular", Some(true), owner, None);
    var b := Booking(10, 0, 5, Approved, User(3, "ann", "ann@mail"), other);
    assert b in [b];
  }

  function DtoId(d: DetailedItemDto): int { d.id }

  /** Each item's view with its own last and next booking, in input order. */
  function Details(items: seq<Item>, comments: seq<Comment>, bookings: seq<Booking>, time: int)
    : (r: seq<DetailedItemDto>)
    ensures |r| == |items|
    ensures forall k :: 0 <= k < |items| ==> r[k] == ToDetailedItemDtoWithBookings(items[k], comments, bookings, time)
  {
    seq(|items|, k requires 0 <= k < |items| => ToDetailedItemDtoWithBookings(items[k], comments, bookings, time))
  }

  /** The list form: one view per item, the same views as Details, sorted
      by item id. */
  function ToDetailedItemDtos(items: seq<Item>, comments: seq<Comment>, bookings: seq<Booking>, time: int)
    : (r: seq<DetailedItemDto>)
    ensures |r| == |items|
    ensures SortedBy(r, DtoId)
    ensures multiset(r) == multiset(Details(items, comments, bookings, time))
  {
    SortBy(Details(items, comments, bookings, time), DtoId)
  }

  /** Every item gets its view in the list. */
  lemma DetailsListCoversEveryItem(items: seq<Item>, comments: seq<Comment>, bookings: seq<Booking>, time: int, k: int)
    requires 0 <= k < |items|
    ensures ToDetailedItemDtoWithBookings(items[k], comments, bookings, time)
              in ToDetailedItemDtos(items, comments, bookings, time)
  {
    var d := Details(items, comments, bookings, time);
    assert d[k] in multiset(d);
  }
}
