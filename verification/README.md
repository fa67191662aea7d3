# ShareIt server core in Dafny

This project models the server side of ShareIt, a service where users lend
items to each other. Owners list items. Other users book an item for a
period, and the owner approves or rejects the booking. After a booking has
ended, the booker may comment on the item. A user with no matching item can
post a request for one, and items can be created in answer to a request.

The model covers:

- the booking guards and the booking lifecycle: create, then approve or
  reject, then read and list by booker or item owner in six states (ALL,
  CURRENT, PAST, FUTURE, WAITING, REJECTED), with or without paging;
- the derived queries of the booking repository, as functions over the
  stored rows;
- the mappers between entities and their request bodies and views,
  including the detailed item view with its last and next booking;
- the item, user, comment and request services.

How the model is built:

- Entities are datatypes (`domain.dfy`) and views are datatypes (`dtos.dfy`).
  Nullable Java values (`Long`, `Boolean`, `Integer`, `Optional`) become
  `Option`.
- Each store is a class (`tables.dfy`). It holds its rows in insertion order
  and a counter for the next id, starting at 1. Saving assigns the id, and a
  saved booking starts as WAITING.
- Guards are pure functions that return `Check` (pass, or fail with an
  error). Every exception the code raises is an `Error` value inside a
  `Result`.
- Read-only service operations are functions over the stores' rows.
- Each operation that writes a store is a method on a service class. The
  method is tied to a pure function that decides its outcome, such as
  `AddBookingCheck` or `UpdateStatusCheck`.
- The clock is a parameter. Each operation reads one `now`.

Three points where a natural reading of the design differs from the code;
the model follows the code:

- CURRENT uses strict comparisons, `start < now < end`
  (`booking/repository/BookingRepository.java:16-17`), not an inclusive
  range `start <= now <= end`. `BookingService.TemporalStatesPartition`
  shows the effect: at an end point, a booking is in none of CURRENT, PAST
  and FUTURE.
- A booking decision is not final once REJECTED: the code only blocks
  re-deciding an APPROVED booking, so the owner may later approve a
  rejected one (`BookingServiceImpl.OwnerMayRedecide`).
- A list query reads the clock once, in the query helper it dispatches to
  (`booking/service/BookingServiceImpl.java:239-288`), so CURRENT, PAST and
  FUTURE each compare against a single `now`; the model passes that `now`
  as a parameter.

## Model

| member | source | states |
|---|---|---|
| BookingService.CheckBookingTimePeriod | server/src/main/java/ru/practicum/shareit/booking/service/BookingService.java:17-27 | passes iff start < end; start == end and start after end fail with IncorrectBookingDates |
| BookingService.CheckBookingExistsById | server/src/main/java/ru/practicum/shareit/booking/service/BookingService.java:29-33 | passes iff some stored booking has the id, otherwise BookingNotFound |
| BookingService.CheckBookingStatusNotApprove | server/src/main/java/ru/practicum/shareit/booking/service/BookingService.java:35-39 | passes iff the status is WAITING or REJECTED; APPROVED fails with BookingAlreadyApproved |
| BookingService.CheckState | server/src/main/java/ru/practicum/shareit/booking/service/BookingService.java:41-47 | a parsed state has exactly the given name; a failure means no state has that name, and the error is IncorrectState |
| BookingService.CheckStateOfName | server/src/main/java/ru/practicum/shareit/booking/service/BookingService.java:41-47 | each of the six names parses to its own state |
| BookingService.CheckStateIsCaseSensitive | server/src/main/java/ru/practicum/shareit/booking/service/BookingService.java:41-47 | "all" and "Waiting" are refused with IncorrectState |
| BookingService.TemporalStatesPartition | server/src/main/java/ru/practicum/shareit/booking/service/BookingServiceImpl.java:243-254 | for a valid period, CURRENT, PAST and FUTURE exclude each other, one holds unless now is an end point, and none holds at an end point |
| BookingService.CheckItemAvailableForBooking | server/src/main/java/ru/practicum/shareit/booking/service/BookingService.java:49-53 | passes iff availability is unset or true; only false fails, with ItemNotAvailableForBooking |
| BookingService.CheckUserNotOwnerByItemIdAndUserId | server/src/main/java/ru/practicum/shareit/booking/service/BookingService.java:55-60 | EntityNotFound iff the item is missing; BookingLogic only for the owner; Pass only for a non-owner |
| BookingService.CheckOwnerOrBooker | server/src/main/java/ru/practicum/shareit/booking/service/BookingService.java:62-72 | passes iff the user owns the item or made the booking; otherwise BookingNotFound |
| ItemService.CheckItemExistsById | server/src/main/java/ru/practicum/shareit/item/service/ItemService.java:16-20 | passes iff some stored item has the id, otherwise ItemNotFound |
| ItemService.CheckOwnerOfItemByItemIdAndUserId | server/src/main/java/ru/practicum/shareit/item/service/ItemService.java:27-33 | EntityNotFound iff the item is missing; Pass only when the user owns it; a non-owner gets ItemNotFound |
| ItemService.CheckHasRequest | server/src/main/java/ru/practicum/shareit/item/service/ItemService.java:35-37 | passes iff the request id is stored, otherwise RequestNotFound |
| UserService.CheckUserExistsById | server/src/main/java/ru/practicum/shareit/user/service/UserService.java:12-16 | passes iff the user id is stored, otherwise UserNotFound |
| RequestService.CheckUserExistsById | server/src/main/java/ru/practicum/shareit/request/service/RequestService.java:15-19 | passes iff the user id is stored, otherwise UserNotFound |
| RequestService.SameAsUserGuard | server/src/main/java/ru/practicum/shareit/request/service/RequestService.java:15-19 | the request service's user guard gives the same outcome as the user service's on every input |
| RequestService.CheckRequestExistsById | server/src/main/java/ru/practicum/shareit/request/exceptions/RequestNotFoundException.java:14-16 | passes iff the request id is stored; a missing request fails with UserNotFound |
| CommentService.CheckUserBookingByUserIdAndItemId | server/src/main/java/ru/practicum/shareit/item/service/comment/CommentService.java:11-17 | passes iff some booking of the item by the user, of any status, ended strictly before the time; otherwise IncorrectComment |
| CommentService.EligibilityIgnoresStatus | server/src/main/java/ru/practicum/shareit/item/service/comment/CommentService.java:14 | stores that differ only in booking statuses give the same eligibility |
| CommentService.EligibilityPersists | server/src/main/java/ru/practicum/shareit/item/service/comment/CommentService.java:11-17 | once eligible at a time, a user stays eligible at any later time and after more bookings are stored |
| BookingRepository.FindOrderByStartDesc | server/src/main/java/ru/practicum/shareit/booking/repository/BookingRepository.java:13-14 | exactly the subject's bookings, each as often as stored, latest start first (booker and owner variants, lines 13 and 28) |
| BookingRepository.FindByOwnerOrderByStartAsc | server/src/main/java/ru/practicum/shareit/booking/repository/BookingRepository.java:69-70 | exactly the owner's bookings, earliest start first |
| BookingRepository.FindCurrent | server/src/main/java/ru/practicum/shareit/booking/repository/BookingRepository.java:16-17 | exactly the subject's bookings with start < time1 and end > time2, strict, any status, store order |
| BookingRepository.FindPast | server/src/main/java/ru/practicum/shareit/booking/repository/BookingRepository.java:19-20 | exactly the subject's bookings with end < time, latest start first |
| BookingRepository.FindFuture | server/src/main/java/ru/practicum/shareit/booking/repository/BookingRepository.java:22-23 | exactly the subject's bookings with start > time, latest start first |
| BookingRepository.FindByStatus | server/src/main/java/ru/practicum/shareit/booking/repository/BookingRepository.java:25-26 | exactly the subject's bookings with the given status, store order |
| BookingRepository.ExistsByBookerIdAndItemIdAndEndTimeIsBefore | server/src/main/java/ru/practicum/shareit/booking/repository/BookingRepository.java:43-44 | true iff some booking with that booker and item ended strictly before the time, whatever its status |
| BookingRepository.FindAllByItemId | server/src/main/java/ru/practicum/shareit/booking/repository/BookingRepository.java:46 | exactly the item's bookings |
| BookingRepository.FindAllByItemIdAndStatus | server/src/main/java/ru/practicum/shareit/booking/repository/BookingRepository.java:48 | exactly the item's bookings with the status |
| BookingRepository.FindAllByItemOwnerId | server/src/main/java/ru/practicum/shareit/booking/repository/BookingRepository.java:50 | exactly the bookings of the owner's items |
| BookingRepository.FindAllByItemOwnerIdAndStatus | server/src/main/java/ru/practicum/shareit/booking/repository/BookingRepository.java:52 | exactly the bookings of the owner's items with the status |
| BookingServiceImpl.AddBookingCheck | server/src/main/java/ru/practicum/shareit/booking/service/BookingServiceImpl.java:57-64 | the first failing check decides the error: UserNotFound, ItemNotFound, BookingLogic, IncorrectBookingDates, then ItemNotAvailableForBooking; success iff all hold, with the found booker and item |
| BookingServiceImpl.UnknownUserPreemptsEveryError | server/src/main/java/ru/practicum/shareit/booking/service/BookingServiceImpl.java:58 | an unknown user gets UserNotFound whatever else is wrong |
| BookingServiceImpl.Decision | server/src/main/java/ru/practicum/shareit/booking/service/BookingServiceImpl.java:81 | APPROVED iff approved is true; false and null both give REJECTED |
| BookingServiceImpl.UpdateStatusCheck | server/src/main/java/ru/practicum/shareit/booking/service/BookingServiceImpl.java:73-84 | BookingNotFound, then UserNotFound, then ItemNotFound for a non-owner, then BookingAlreadyApproved; on success only the status changes |
| BookingServiceImpl.ApprovedIsTerminal | server/src/main/java/ru/practicum/shareit/booking/service/BookingServiceImpl.java:79 | an APPROVED booking can never be decided again |
| BookingServiceImpl.OwnerMayRedecide | server/src/main/java/ru/practicum/shareit/booking/service/BookingServiceImpl.java:79-81 | the owner may decide a WAITING or REJECTED booking, so a rejected booking can later be approved |
| BookingServiceImpl.GetBooking | server/src/main/java/ru/practicum/shareit/booking/service/BookingServiceImpl.java:92-101 | BookingNotFound, then UserNotFound, then BookingNotFound for anyone but owner or booker; otherwise the booking's view |
| BookingServiceImpl.StateQuery | server/src/main/java/ru/practicum/shareit/booking/service/BookingServiceImpl.java:239-288 | exactly the subject's bookings in the state relative to now, as often as stored; ALL, PAST and FUTURE ordered latest start first |
| BookingServiceImpl.PagedSource | server/src/main/java/ru/practicum/shareit/booking/service/BookingServiceImpl.java:290-371 | the same bookings as the unpaged query, in the same order except the owner's ALL, which is ordered earliest start first |
| BookingServiceImpl.OwnerAllOrderDependsOnPaging | server/src/main/java/ru/practicum/shareit/booking/service/BookingServiceImpl.java:264-292 | the owner's ALL list is latest-first unpaged and earliest-first paged, so two bookings with different starts swap order |
| BookingServiceImpl.PrepareFrom | server/src/main/java/ru/practicum/shareit/booking/service/BookingServiceImpl.java:295-303 | 0 and 1 map to page 0, n >= 2 to n - 2; never above a non-negative from; a negative from stays negative |
| BookingServiceImpl.PrepareFromMonotone | server/src/main/java/ru/practicum/shareit/booking/service/BookingServiceImpl.java:295-303 | a larger from never gives an earlier page |
| BookingServiceImpl.PrepareFromFirstPages | server/src/main/java/ru/practicum/shareit/booking/service/BookingServiceImpl.java:295-303 | from = 0, 1 and 2 all give page 0 |
| BookingServiceImpl.CheckIsPagination | server/src/main/java/ru/practicum/shareit/booking/service/BookingServiceImpl.java:373-375 | paging iff both from and size are given |
| BookingServiceImpl.GetAll | server/src/main/java/ru/practicum/shareit/booking/service/BookingServiceImpl.java:105-163 | UserNotFound, then IncorrectState; unpaged gives the views of the state query; paged gives page prepareFrom(from) of the paged query, IllegalArgument for a negative page or size below 1 |
| BookingServiceImpl.ListedIffInState | server/src/main/java/ru/practicum/shareit/booking/service/BookingServiceImpl.java:105-132 | without paging (from or size absent), the view of every stored booking of the subject in the requested state is listed, and every listed view is the view of such a booking |
| BookingServiceImpl.BookingServiceImpl.AddBooking | server/src/main/java/ru/practicum/shareit/booking/service/BookingServiceImpl.java:57-71 | on a failed check the store is unchanged; otherwise exactly one WAITING booking with the next id is appended and its view returned |
| BookingServiceImpl.BookingServiceImpl.UpdateBookingStatus | server/src/main/java/ru/practicum/shareit/booking/service/BookingServiceImpl.java:73-90 | on a failed check the store is unchanged; otherwise only that booking's row is replaced by the decided one |
| BookingDtoMapper.ToBooking | server/src/main/java/ru/practicum/shareit/booking/mapper/BookingDtoMapper.java:29-41 | NoSuchElement iff booker or item is missing; otherwise the body's period with the stored booker and item, no id |
| BookingDtoMapper.ToBookingDto | server/src/main/java/ru/practicum/shareit/booking/mapper/BookingDtoMapper.java:43-56 | copies id, start, end and status, with the booker's id and the item's id and name |
| BookingDtoMapper.BookingDtoHidesDetails | server/src/main/java/ru/practicum/shareit/booking/mapper/BookingDtoMapper.java:43-56 | the view does not depend on the booker's name or email or on the item's other fields |
| BookingDtoMapper.ToShortBookingDto | server/src/main/java/ru/practicum/shareit/booking/mapper/BookingDtoMapper.java:58-65 | carries the booking id and the booker id |
| BookingDtoMapper.ShortBookingDtoIsProjection | server/src/main/java/ru/practicum/shareit/booking/mapper/BookingDtoMapper.java:58-65 | the short view is the full view's id and booker id |
| BookingDtoMapper.ToBookingDtos | server/src/main/java/ru/practicum/shareit/booking/mapper/BookingDtoMapper.java:67-73 | same length and order as the input, element by element |
| ItemDtoMapper.ToItem | server/src/main/java/ru/practicum/shareit/user/mapper/ItemDtoMapper.java:40-57 | NoSuchElement iff the owner is missing; RequestNotFound iff a given request id is missing; otherwise the body's fields with the owner and request |
| ItemDtoMapper.MergeItem | server/src/main/java/ru/practicum/shareit/user/mapper/ItemDtoMapper.java:60-71 | present name, description and availability overwrite, the rest is kept, and the owner is set |
| ItemDtoMapper.MergeEmptyIsIdentity | server/src/main/java/ru/practicum/shareit/user/mapper/ItemDtoMapper.java:60-71 | an empty update by the item's owner changes nothing |
| ItemDtoMapper.MergeIdempotent | server/src/main/java/ru/practicum/shareit/user/mapper/ItemDtoMapper.java:60-71 | applying an update twice equals applying it once |
| ItemDtoMapper.ToUpdatedItem | server/src/main/java/ru/practicum/shareit/user/mapper/ItemDtoMapper.java:60-71 | NoSuchElement and no change when item or owner is missing; otherwise the stored row becomes the merged item |
| ItemDtoMapper.ToItemDto | server/src/main/java/ru/practicum/shareit/user/mapper/ItemDtoMapper.java:73-86 | copies id, name, description and availability; requestId is set iff the item has a request |
| ItemDtoMapper.ItemDtoHidesOwner | server/src/main/java/ru/practicum/shareit/user/mapper/ItemDtoMapper.java:73-86 | the flat view does not depend on the owner |
| ItemDtoMapper.ToShortItemDto | server/src/main/java/ru/practicum/shareit/user/mapper/ItemDtoMapper.java:88-95 | carries the id and the name |
| ItemDtoMapper.ShortItemDtoHidesDetails | server/src/main/java/ru/practicum/shareit/user/mapper/ItemDtoMapper.java:88-95 | items agreeing on id and name have the same short view |
| ItemDtoMapper.ToItemDtos | server/src/main/java/ru/practicum/shareit/user/mapper/ItemDtoMapper.java:137-141 | same length and order as the input, element by element |
| ItemDetailsMapper.CommentsOf | server/src/main/java/ru/practicum/shareit/user/mapper/ItemDtoMapper.java:100 | exactly the item's comments, as often as stored |
| ItemDetailsMapper.GetLastBooking | server/src/main/java/ru/practicum/shareit/user/mapper/ItemDtoMapper.java:184-193 | among the item's bookings of any status that ended before the time, one with the latest end; none iff none ended |
| ItemDetailsMapper.GetNextBooking | server/src/main/java/ru/practicum/shareit/user/mapper/ItemDtoMapper.java:195-204 | among the item's APPROVED bookings starting after the time, one with the earliest start; none iff none does |
| ItemDetailsMapper.GetLastBookingForOwner | server/src/main/java/ru/practicum/shareit/user/mapper/ItemDtoMapper.java:152-170 | over all the owner's items: the latest-ending ended booking; if none ended, the earliest-ending booking that has started, which is then still running |
| ItemDetailsMapper.GetNextBookingForOwner | server/src/main/java/ru/practicum/shareit/user/mapper/ItemDtoMapper.java:172-182 | over all the owner's items: an APPROVED booking starting after the time with the earliest start; none iff none does |
| ItemDetailsMapper.ShortOf | server/src/main/java/ru/practicum/shareit/user/mapper/ItemDtoMapper.java:192 | a short view iff a booking was chosen, and it is that booking's |
| ItemDetailsMapper.ToDetailedItemDto | server/src/main/java/ru/practicum/shareit/user/mapper/ItemDtoMapper.java:97-109 | the item's fields and its comments' views, with no bookings |
| ItemDetailsMapper.ToDetailedItemDtoWithBookings | server/src/main/java/ru/practicum/shareit/user/mapper/ItemDtoMapper.java:111-122 | the plain view plus the item's own last and next booking, both against one time |
| ItemDetailsMapper.ToDetailedItemDtoForOwner | server/src/main/java/ru/practicum/shareit/user/mapper/ItemDtoMapper.java:124-135 | the plain view plus the owner-wide last and next booking, both against one time |
| ItemDetailsMapper.OwnerViewShowsOtherItemsBooking | server/src/main/java/ru/practicum/shareit/user/mapper/ItemDtoMapper.java:152-158 | a booking of another of the owner's items shows as the owner's last booking but not in the plain view |
| ItemDetailsMapper.Details | server/src/main/java/ru/practicum/shareit/user/mapper/ItemDtoMapper.java:143-149 | one view per item, in input order |
| ItemDetailsMapper.ToDetailedItemDtos | server/src/main/java/ru/practicum/shareit/user/mapper/ItemDtoMapper.java:143-150 | one view per item, the same views, sorted by item id |
| ItemDetailsMapper.DetailsListCoversEveryItem | server/src/main/java/ru/practicum/shareit/user/mapper/ItemDtoMapper.java:143-150 | every input item's view is in the list |
| ItemServiceImpl.AddItemCheck | server/src/main/java/ru/practicum/shareit/item/service/ItemServiceImpl.java:53-71 | UserNotFound iff the owner is missing; RequestNotFound iff a given request is missing; otherwise the item from the body |
| ItemServiceImpl.UpdateItemCheck | server/src/main/java/ru/practicum/shareit/item/service/ItemServiceImpl.java:74-82 | ItemNotFound, then UserNotFound, then ItemNotFound for a non-owner; success keeps id, owner and request |
| ItemServiceImpl.OnlyOwnerUpdates | server/src/main/java/ru/practicum/shareit/item/service/ItemServiceImpl.java:77 | an accepted update was made by the stored owner and is the merge of the stored item |
| ItemServiceImpl.GetItemByItemId | server/src/main/java/ru/practicum/shareit/item/service/ItemServiceImpl.java:86-94 | ItemNotFound iff missing; the owner (isOwner, ItemService.java:22-25) gets the owner-wide bookings, anyone else no bookings |
| ItemServiceImpl.OwnedBy | server/src/main/java/ru/practicum/shareit/item/service/ItemServiceImpl.java:100 | exactly the owner's items |
| ItemServiceImpl.GetItemsByOwnerId | server/src/main/java/ru/practicum/shareit/item/service/ItemServiceImpl.java:97-111 | unpaged: one view per owned item; paged (both given): IllegalArgument iff from < 0 or size < 1, else exactly the sorted views of page `from` (used directly as page index) of size `size` of the owner's items; always sorted by id, each the view of an owned item with its own bookings |
| ItemServiceImpl.ViewsOf | server/src/main/java/ru/practicum/shareit/user/mapper/ItemDtoMapper.java:143-150 | one view per chosen item, sorted by id, each the view of an item the owner owns |
| ItemServiceImpl.ViewsComeFromChosen | server/src/main/java/ru/practicum/shareit/user/mapper/ItemDtoMapper.java:143-150 | every view in the sorted list is the view of an input item |
| ItemServiceImpl.OwnerListsEveryItem | server/src/main/java/ru/practicum/shareit/item/service/ItemServiceImpl.java:99-102 | without paging, every item of the owner appears |
| ItemServiceImpl.Fold | server/src/main/java/ru/practicum/shareit/item/service/ItemServiceImpl.java:122-123 | maps A-Z and А-Я, Ё to lower case and leaves other characters |
| ItemServiceImpl.FoldIdempotent | server/src/main/java/ru/practicum/shareit/item/service/ItemServiceImpl.java:122-123 | folding twice equals folding once |
| ItemServiceImpl.StartsWithIgnoreCase | server/src/main/java/ru/practicum/shareit/item/service/ItemServiceImpl.java:122-123 | true iff the pattern occurs at position 0 up to case |
| ItemServiceImpl.ContainsIgnoreCase | server/src/main/java/ru/practicum/shareit/item/service/ItemServiceImpl.java:122-123 | true iff the pattern occurs at some position up to case |
| ItemServiceImpl.ShiftOccurs | server/src/main/java/ru/practicum/shareit/item/service/ItemServiceImpl.java:122-123 | an occurrence in the tail is an occurrence one position later |
| ItemServiceImpl.ContainsIgnoresPatternCase | server/src/main/java/ru/practicum/shareit/item/service/ItemServiceImpl.java:122-123 | patterns that differ only in case match the same texts |
| ItemServiceImpl.Found | server/src/main/java/ru/practicum/shareit/item/service/ItemServiceImpl.java:120-124 | exactly the available items whose name or description contains the text |
| ItemServiceImpl.Search | server/src/main/java/ru/practicum/shareit/item/service/ItemServiceImpl.java:115-141 | no text or empty text gives []; otherwise, unpaged, exactly the views of the available items whose name or description contains the text; paged, IllegalArgument iff from or size is negative, else at most size such views |
| ItemServiceImpl.FlatViewsOf | server/src/main/java/ru/practicum/shareit/user/mapper/ItemDtoMapper.java:137-141 | the flat views of a list are exactly the views of its items |
| ItemServiceImpl.PagedSearchIsWindow | server/src/main/java/ru/practicum/shareit/item/service/ItemServiceImpl.java:132-141 | the paged search skips from results of the unpaged search and keeps at most size |
| ItemServiceImpl.ItemServiceImpl.AddItem | server/src/main/java/ru/practicum/shareit/item/service/ItemServiceImpl.java:53-71 | store unchanged on failure; otherwise one item with the next id is appended and its view returned |
| ItemServiceImpl.ItemServiceImpl.UpdateItem | server/src/main/java/ru/practicum/shareit/item/service/ItemServiceImpl.java:74-82 | store unchanged on failure; otherwise only that item's row is replaced by the update |
| CommentServiceImpl.AddCommentCheck | server/src/main/java/ru/practicum/shareit/item/service/comment/CommentServiceImpl.java:33-37 | UserNotFound, then ItemNotFound, then IncorrectComment, all against one now; success only after an ended booking, stamped now |
| CommentServiceImpl.CommentServiceImpl.AddComment | server/src/main/java/ru/practicum/shareit/item/service/comment/CommentServiceImpl.java:33-40 | store unchanged on failure; otherwise exactly one comment with the next id is appended and its view returned |
| CommentDtoMapper.ToComment | server/src/main/java/ru/practicum/shareit/user/mapper/CommentDtoMapper.java:27-39 | the body's text, the stored author and the item id, created at now; EntityNotFound iff author or item is missing |
| CommentDtoMapper.ToCommentDto | server/src/main/java/ru/practicum/shareit/user/mapper/CommentDtoMapper.java:41-50 | copies id, text and created, with the author's name |
| CommentDtoMapper.CommentDtoHidesAuthorDetails | server/src/main/java/ru/practicum/shareit/user/mapper/CommentDtoMapper.java:44-47 | the view does not depend on the author's email or id |
| CommentDtoMapper.ToCommentDtos | server/src/main/java/ru/practicum/shareit/user/mapper/CommentDtoMapper.java:52-56 | same length and order as the input, element by element |
| UserDtoMapper.ToUser | server/src/main/java/ru/practicum/shareit/user/mapper/UserDtoMapper.java:21-28 | copies name and email, no id |
| UserDtoMapper.MergeUser | server/src/main/java/ru/practicum/shareit/user/mapper/UserDtoMapper.java:30-37 | present name and email overwrite; absent ones keep the stored value; the id is kept |
| UserDtoMapper.MergeEmptyIsIdentity | server/src/main/java/ru/practicum/shareit/user/mapper/UserDtoMapper.java:30-37 | an empty update changes nothing |
| UserDtoMapper.MergeIdempotent | server/src/main/java/ru/practicum/shareit/user/mapper/UserDtoMapper.java:30-37 | applying an update twice equals applying it once |
| UserDtoMapper.MergeTwice | server/src/main/java/ru/practicum/shareit/user/mapper/UserDtoMapper.java:30-37 | two updates act as one taking the later present value of each field |
| UserDtoMapper.ToUpdatedUser | server/src/main/java/ru/practicum/shareit/user/mapper/UserDtoMapper.java:30-37 | EntityNotFound and no change for a missing user; otherwise the row becomes the merged user |
| UserDtoMapper.ToUserDto | server/src/main/java/ru/practicum/shareit/user/mapper/UserDtoMapper.java:39-47 | copies id, name and email |
| UserDtoMapper.UserDtoRoundTrip | server/src/main/java/ru/practicum/shareit/user/mapper/UserDtoMapper.java:39-47 | the user can be rebuilt from the view |
| UserDtoMapper.ToShortUserDto | server/src/main/java/ru/practicum/shareit/user/mapper/UserDtoMapper.java:49-55 | carries the id |
| UserDtoMapper.ShortUserDtoHidesDetails | server/src/main/java/ru/practicum/shareit/user/mapper/UserDtoMapper.java:49-55 | users with the same id have the same short view |
| UserDtoMapper.ToUserDtos | server/src/main/java/ru/practicum/shareit/user/mapper/UserDtoMapper.java:57-61 | same length and order as the input, element by element |
| UserServiceImpl.GetUserById | server/src/main/java/ru/practicum/shareit/user/service/UserServiceImpl.java:47-52 | UserNotFound iff missing; otherwise the view of the stored user with that id |
| UserServiceImpl.GetAllUsers | server/src/main/java/ru/practicum/shareit/user/service/UserServiceImpl.java:56-60 | one view per stored user; a view is listed iff it is a stored user's |
| UserServiceImpl.ReadAfterUpdate | server/src/main/java/ru/practicum/shareit/user/service/UserServiceImpl.java:37-43 | after an update the user reads back as the merged user |
| UserServiceImpl.ReadAfterDelete | server/src/main/java/ru/practicum/shareit/user/service/UserServiceImpl.java:63-67 | after a delete the user is unknown and every other user reads back as before |
| UserServiceImpl.UserServiceImpl.AddUser | server/src/main/java/ru/practicum/shareit/user/service/UserServiceImpl.java:29-34 | appends one user with the next id and returns its view |
| UserServiceImpl.UserServiceImpl.UpdateUser | server/src/main/java/ru/practicum/shareit/user/service/UserServiceImpl.java:37-43 | UserNotFound and no change for a missing user; otherwise only that row is replaced by the merge, which reads back |
| UserServiceImpl.UserServiceImpl.DeleteUserById | server/src/main/java/ru/practicum/shareit/user/service/UserServiceImpl.java:63-67 | UserNotFound and no change for a missing user; otherwise the row is removed and the user is no longer listed |
| RequestDtoMapper.ToRequest | server/src/main/java/ru/practicum/shareit/request/mapper/RequestDtoMapper.java:26-31 | copies the description, created at now, no id |
| RequestDtoMapper.ItemsAnswering | server/src/main/java/ru/practicum/shareit/request/mapper/RequestDtoMapper.java:38 | exactly the items that answer the request |
| RequestDtoMapper.ToRequestDto | server/src/main/java/ru/practicum/shareit/request/mapper/RequestDtoMapper.java:33-40 | copies id, description and created; lists exactly the views of the items answering this request |
| RequestDtoMapper.ToDtos | server/src/main/java/ru/practicum/shareit/request/mapper/RequestDtoMapper.java:42-51 | one view per request, in input order |
| RequestDtoMapper.ToListOfDto | server/src/main/java/ru/practicum/shareit/request/mapper/RequestDtoMapper.java:42-51 | the loop returns one view per request, in input order (empty for empty input) |
| RequestServiceImpl.OwnRequests | server/src/main/java/ru/practicum/shareit/request/service/RequestServiceImpl.java:46 | exactly the user's requests, as often as stored |
| RequestServiceImpl.OthersRequests | server/src/main/java/ru/practicum/shareit/request/service/RequestServiceImpl.java:72 | exactly the stored requests of other users |
| RequestServiceImpl.OwnRequestsNewestFirst | server/src/main/java/ru/practicum/shareit/request/service/RequestServiceImpl.java:78 | the user's requests, newest first |
| RequestServiceImpl.GetRequestById | server/src/main/java/ru/practicum/shareit/request/service/RequestServiceImpl.java:56-60 | UserNotFound for a missing user or a missing request; otherwise that request's view |
| RequestServiceImpl.AllRequestsSource | server/src/main/java/ru/practicum/shareit/request/service/RequestServiceImpl.java:62-79 | either bound given means paging: one missing is NullPointer, bad numbers IllegalArgument, else exactly page `from` of size `size` of the other users' requests; neither means the user's own, newest first |
| RequestServiceImpl.UnpagedAllRequestsAreOwn | server/src/main/java/ru/practicum/shareit/request/service/RequestServiceImpl.java:77-79 | without paging the list holds exactly the user's own requests |
| RequestServiceImpl.PagedAllRequestsExcludeOwn | server/src/main/java/ru/practicum/shareit/request/service/RequestServiceImpl.java:70-75 | with paging the user's own requests never appear |
| RequestServiceImpl.EveryOthersRequestIsPaged | server/src/main/java/ru/practicum/shareit/request/service/RequestServiceImpl.java:70-75 | paging loses nothing: every request of another user appears on some page of any size |
| RequestServiceImpl.RequestServiceImpl.CreateRequest | server/src/main/java/ru/practicum/shareit/request/service/RequestServiceImpl.java:36-41 | UserNotFound and no change for a missing user; otherwise one request by that user, created now, with the next id |
| RequestServiceImpl.RequestServiceImpl.GetAllOwnRequests | server/src/main/java/ru/practicum/shareit/request/service/RequestServiceImpl.java:44-47 | UserNotFound iff missing; otherwise the views of the user's requests in store order |
| RequestServiceImpl.RequestServiceImpl.GetAllRequests | server/src/main/java/ru/practicum/shareit/request/service/RequestServiceImpl.java:50-53 | UserNotFound for a missing user; otherwise the views of the list AllRequestsSource chooses, or its error |

## Left out

- HTTP controllers, the gateway, request validation annotations, the error handler and logging are not modelled. Only the service layer below them is.
- Transactions and concurrency are not modelled. In particular, nothing protects two concurrent approvals of the same booking; every operation is a single step.
- The `@Cacheable` annotation on getBooking (`booking/service/BookingServiceImpl.java:91`) is not modelled. The model always reads the current store.
- The clock is a parameter `now` of each operation. The code may read the clock more than once per call, for example once per item in the detailed list. The model uses one time per call.
- Entities are values, not JPA references. A booking holds a snapshot of its booker and item, so a later rename of the user or item is not seen through an older booking.
- Deleting a user does not remove or block their items, bookings or comments. Foreign-key constraints in the database are not modelled.
- Rows without an ORDER BY come back in insertion order. Rows with equal sort keys keep insertion order, as in a stable sort. A database may return either in another order.
- Spring Data's PageRequest refuses a negative page or a size below 1, and stream skip/limit refuse negative numbers. Both are modelled as an `IllegalArgument` error instead of a thrown exception.
- The item, user, request and comment repositories are not part of this model. Their derived queries (findByOwner_Id, findByAvailableIsTrue, findAllByRequestorId, findAllByRequestorIdNot and the findById/save calls) are modelled from their names.
- ItemServiceImpl.Fold: only ASCII A-Z and Russian А-Я and Ё are folded to lower case. Other Unicode case pairs that `StringUtils.containsIgnoreCase` also folds are not modelled.
- BookingServiceImpl.PrepareFrom: a from of Integer.MIN_VALUE would wrap around to a large positive page in 32-bit Java arithmetic. The model uses unbounded integers, so it gives a negative page and IllegalArgument instead.
- Ids are unbounded integers. Overflow of the `Long` id counter is not modelled.
