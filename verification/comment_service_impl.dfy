/** The comment service: a user may comment on an item once one of their
    bookings of it has ended. */
module CommentServiceImpl {
  import opened Domain
  import opened Tables
  import opened Dtos
  import UserService
  import ItemService
  import opened CommentService
  import opened CommentDtoMapper

  /** addComment, as a decision: the author (UserNotFound), the item
      (ItemNotFound) and the author's eligibility (IncorrectComment) are
      checked in turn, all against the one instant `now`, which also stamps
      the comment. */
  function AddCommentCheck(users: seq<User>, items: seq<Item>, bookings: seq<Booking>,
                           d: CommentRequest, authorId: int, itemId: int, now: int): (r: Result<NewComment>)
    ensures r == Err(UserNotFound) <==> forall u :: u in users ==> u.id != authorId
    ensures r == Err(ItemNotFound) <==>
              (exists u :: u in users && u.id == authorId) && forall i :: i in items ==> i.id != itemId
    ensures r == Err(IncorrectComment) <==>
              && (exists u :: u in users && u.id == authorId) && (exists i :: i in items && i.id == itemId)
              && forall b :: b in bookings && b.booker.id == authorId && b.item.id == itemId ==> b.endTime >= now
    ensures r.Ok? ==> && r.value.author in users && r.value.author.id == authorId
                      && r.value.item == itemId && r.value.text == d.text && r.value.created == now
                      && exists b :: b in bookings && b.booker.id == authorId && b.item.id == itemId && b.endTime < now
  {
    var userCheck := UserService.CheckUserExistsById(users, authorId);
    var itemCheck := ItemService.CheckItemExistsById(items, itemId);
    var bookingCheck := CheckUserBookingByUserIdAndItemId(bookings, authorId, itemId, now);
    if userCheck.Fail? then Err(userCheck.error)
    else if itemCheck.Fail? then Err(itemCheck.error)
    else if bookingCheck.Fail? then Err(bookingCheck.error)
    else ToComment(users, items, d, authorId, itemId, now)
  }

  /** The service object: the comment store it writes and the stores it
      reads. */
  class CommentServiceImpl {
    const comments: CommentTable
    const users: UserTable
    const items: ItemTable
    const bookings: BookingTable

    constructor (comments: CommentTable, users: UserTable, items: ItemTable, bookings: BookingTable)
      ensures this.comments == comments && this.users == users
      ensures this.items == items && this.bookings == bookings
    {
      this.comments, this.users, this.items, this.bookings := comments, users, items, bookings;
    }

    /** addComment: on a failed check nothing is stored; otherwise one
        comment is appended with the next id and its view returned. */
    method AddComment(d: CommentRequest, authorId: int, itemId: int, now: int) returns (r: Result<CommentDto>)
      requires comments.Valid()
      modifies comments
      ensures comments.Valid()
      ensures AddCommentCheck(users.rows, items.rows, bookings.rows, d, authorId, itemId, now).Err? ==>
                && r == Err(AddCommentCheck(users.rows, items.rows, bookings.rows, d, authorId, itemId, now).error)
                && comments.rows == old(comments.rows) && comments.nextId == old(comments.nextId)
      ensures AddCommentCheck(users.rows, items.rows, bookings.rows, d, authorId, itemId, now).Ok? ==>
                var n := AddCommentCheck(users.rows, items.rows, bookings.rows, d, authorId, itemId, now).value;
                var c := Comment(old(comments.nextId), n.text, n.author, n.item, n.created);
                && comments.rows == old(comments.rows) + [c]
                && comments.nextId == old(comments.nextId) + 1
                && r == Ok(ToCommentDto(c))
    {
      var check := AddCommentCheck(users.rows, items.rows, bookings.rows, d, authorId, itemId, now);
      if check.Err? {
        return Err(check.error);
      }
      var added := comments.Save(check.value);
      r := Ok(ToCommentDto(added));
    }
  }
}
