/** The comment-eligibility guard: only a user whose booking of the item has
    already ended may comment on it. */
module CommentService {
  import opened Domain
  import opened BookingRepository

  /** Passes exactly when some booking of `itemId` by `userId`, whatever its
      status, ended strictly before `time`; otherwise IncorrectComment. */
  function CheckUserBookingByUserIdAndItemId(bookings: seq<Booking>, userId: int, itemId: int, time: int): (c: Check)
    ensures c == Pass <==>
              exists b :: b in bookings && b.booker.id == userId && b.item.id == itemId && b.endTime < time
    ensures c != Pass ==> c == Fail(IncorrectComment)
  {
    if ExistsByBookerIdAndItemIdAndEndTimeIsBefore(bookings, userId, itemId, time) then Pass
    else Fail(IncorrectComment)
  }

  /** The statuses of the bookings play no part: two stores that differ only
      in booking statuses give the same answer. */
  lemma EligibilityIgnoresStatus(bs: seq<Booking>, bs': seq<Booking>, userId: int, itemId: int, time: int)
    requires |bs| == |bs'|
    requires forall k :: 0 <= k < |bs| ==> bs'[k] == bs[k].(status := bs'[k].status)
    ensures CheckUserBookingByUserIdAndItemId(bs, userId, itemId, time)
         == CheckUserBookingByUserIdAndItemId(bs', userId, itemId, time)
  {
    if CheckUserBookingByUserIdAndItemId(bs, userId, itemId, time) == Pass {
      var b :| b in bs && b.booker.id == userId && b.item.id == itemId && b.endTime < time;
      var k :| 0 <= k < |bs| && bs[k] == b;
      assert bs'[k] in bs';
    }
    if CheckUserBookingByUserIdAndItemId(bs', userId, itemId, time) == Pass {
      var b :| b in bs' && b.booker.id == userId && b.item.id == itemId && b.endTime < time;
      var k :| 0 <= k < |bs'| && bs'[k] == b;
      assert bs[k] in bs;
    }
  }

  /** Once eligible, a user stays eligible: later checks and added bookings
      do not revoke it. */
  lemma EligibilityPersists(bs: seq<Booking>, more: seq<Booking>, userId: int, itemId: int, time: int, later: int)
    requires time <= later
    requires CheckUserBookingByUserIdAndItemId(bs, userId, itemId, time) == Pass
    ensures CheckUserBookingByUserIdAndItemId(bs + more, userId, itemId, later) == Pass
  {
    var b :| b in bs && b.booker.id == userId && b.item.id == itemId && b.endTime < time;
    assert b in bs + more;
  }
}
