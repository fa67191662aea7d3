/** The derived queries of the booking repository, as functions of the table's
    rows (in store order). Each name in the repository is a filter, an optional
    ORDER BY and, for the Pageable overloads, a page of that ordered result
    (Seqs.Page). A query by booker and the same query by item owner differ only
    in the id they compare, so both are one function of a Role. */
module BookingRepository {
  import opened Domain
  import opened Seqs

  datatype Role = Booker | Owner

  /** BookerId or ItemOwnerId, the id the query compares with its argument. */
  function SubjectOf(b: Booking, role: Role): int
  {
    match role
    case Booker => b.booker.id
    case Owner => b.item.owner
  }

  function StartKey(b: Booking): int { b.startTime }
  function StartKeyDesc(b: Booking): int { -b.startTime }
  function EndKey(b: Booking): int { b.endTime }

  ghost predicate StartDescending(s: seq<Booking>)
  {
    forall i, j :: 0 <= i < j < |s| ==> s[i].startTime >= s[j].startTime
  }

  ghost predicate StartAscending(s: seq<Booking>)
  {
    forall i, j :: 0 <= i < j < |s| ==> s[i].startTime <= s[j].startTime
  }

  /** findBookingByBookerIdOrderByStartTimeDesc and
      findBookingsByItemOwnerIdOrderByStartTimeDesc. */
  function FindOrderByStartDesc(bs: seq<Booking>, role: Role, id: int): (r: seq<Booking>)
    ensures forall b :: multiset(r)[b] == if SubjectOf(b, role) == id then multiset(bs)[b] else 0
    ensures StartDescending(r)
  {
    SortBy(Filter(bs, (b: Booking) => SubjectOf(b, role) == id), StartKeyDesc)
  }

  /** findBookingsByItemOwnerIdOrderByStartTimeAsc (only a Pageable overload exists). */
  function FindByOwnerOrderByStartAsc(bs: seq<Booking>, ownerId: int): (r: seq<Booking>)
    ensures forall b :: multiset(r)[b] == if b.item.owner == ownerId then multiset(bs)[b] else 0
    ensures StartAscending(r)
  {
    SortBy(Filter(bs, (b: Booking) => b.item.owner == ownerId), StartKey)
  }

  /** ...AndStartTimeIsBeforeAndEndTimeIsAfter(id, time1, time2): strict on both
      sides, any status, no ORDER BY (store order). */
  function FindCurrent(bs: seq<Booking>, role: Role, id: int, time1: int, time2: int): (r: seq<Booking>)
    ensures forall b :: multiset(r)[b] == if SubjectOf(b, role) == id && b.startTime < time1 && b.endTime > time2 then multiset(bs)[b] else 0
  {
    Filter(bs, (b: Booking) => SubjectOf(b, role) == id && b.startTime < time1 && b.endTime > time2)
  }

  /** ...AndEndTimeIsBeforeOrderByStartTimeDesc(id, time). */
  function FindPast(bs: seq<Booking>, role: Role, id: int, time: int): (r: seq<Booking>)
    ensures forall b :: multiset(r)[b] == if SubjectOf(b, role) == id && b.endTime < time then multiset(bs)[b] else 0
    ensures StartDescending(r)
  {
    SortBy(Filter(bs, (b: Booking) => SubjectOf(b, role) == id && b.endTime < time), StartKeyDesc)
  }

  /** ...AndStartTimeIsAfterOrderByStartTimeDesc(id, time). */
  function FindFuture(bs: seq<Booking>, role: Role, id: int, time: int): (r: seq<Booking>)
    ensures forall b :: multiset(r)[b] == if SubjectOf(b, role) == id && b.startTime > time then multiset(bs)[b] else 0
    ensures StartDescending(r)
  {
    SortBy(Filter(bs, (b: Booking) => SubjectOf(b, role) == id && b.startTime > time), StartKeyDesc)
  }

  /** ...AndStatusEquals(id, status): no ORDER BY (store order). */
  function FindByStatus(bs: seq<Booking>, role: Role, id: int, status: Status): (r: seq<Booking>)
    ensures forall b :: multiset(r)[b] == if SubjectOf(b, role) == id && b.status == status then multiset(bs)[b] else 0
  {
    Filter(bs, (b: Booking) => SubjectOf(b, role) == id && b.status == status)
  }

  /** existsByBookerIdAndItemIdAndEndTimeIsBefore: whatever the status. */
  function ExistsByBookerIdAndItemIdAndEndTimeIsBefore(bs: seq<Booking>, bookerId: int, itemId: int, time: int): (r: bool)
    ensures r <==> exists b :: b in bs && b.booker.id == bookerId && b.item.id == itemId && b.endTime < time
    decreases |bs|
  {
    if bs == [] then false
    else
      assert forall b :: b in bs <==> b == bs[0] || b in bs[1..];
      (bs[0].booker.id == bookerId && bs[0].item.id == itemId && bs[0].endTime < time)
      || ExistsByBookerIdAndItemIdAndEndTimeIsBefore(bs[1..], bookerId, itemId, time)
  }

  /** findAllByItemId. */
  function FindAllByItemId(bs: seq<Booking>, itemId: int): (r: seq<Booking>)
    ensures forall b :: multiset(r)[b] == if b.item.id == itemId then multiset(bs)[b] else 0
    ensures forall b :: b in r <==> b in bs && b.item.id == itemId
  {
    Filter(bs, (b: Booking) => b.item.id == itemId)
  }

  /** findAllByItemIdAndStatus. */
  function FindAllByItemIdAndStatus(bs: seq<Booking>, itemId: int, status: Status): (r: seq<Booking>)
    ensures forall b :: multiset(r)[b] == if b.item.id == itemId && b.status == status then multiset(bs)[b] else 0
    ensures forall b :: b in r <==> b in bs && b.item.id == itemId && b.status == status
  {
    Filter(bs, (b: Booking) => b.item.id == itemId && b.status == status)
  }

  /** findAllByItemOwnerId. */
  function FindAllByItemOwnerId(bs: seq<Booking>, ownerId: int): (r: seq<Booking>)
    ensures forall b :: multiset(r)[b] == if b.item.owner == ownerId then multiset(bs)[b] else 0
    ensures forall b :: b in r <==> b in bs && b.item.owner == ownerId
  {
    Filter(bs, (b: Booking) => b.item.owner == ownerId)
  }

  /** findAllByItem_OwnerIdAndStatus. */
  function FindAllByItemOwnerIdAndStatus(bs: seq<Booking>, ownerId: int, status: Status): (r: seq<Booking>)
    ensures forall b :: multiset(r)[b] == if b.item.owner == ownerId && b.status == status then multiset(bs)[b] else 0
    ensures forall b :: b in r <==> b in bs && b.item.owner == ownerId && b.status == status
  {
    Filter(bs, (b: Booking) => b.item.owner == ownerId && b.status == status)
  }
}
