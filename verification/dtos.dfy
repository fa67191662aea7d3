/** The request bodies the server accepts and the views it returns. Optional
    fields of the update bodies are `Option`s; a nullable id or Boolean is an
    `Option` as well. */
module Dtos {
  import opened Wrappers
  import opened Domain

  // Request bodies.
  datatype UserCreationRequest = UserCreationRequest(name: string, email: string)
  datatype UserUpdateRequest = UserUpdateRequest(name: Option<string>, email: Option<string>)
  datatype ItemCreationRequest = ItemCreationRequest(name: string, description: string,
                                                     available: Option<bool>, requestId: Option<int>)
  datatype ItemUpdateRequest = ItemUpdateRequest(name: Option<string>, description: Option<string>,
                                                 available: Option<bool>)
  /** The parameters of a booking list query; `from` and `size` may be absent. */
  datatype BookingGetRequest = BookingGetRequest(userId: int, possibleState: string,
                                                 from: Option<int>, size: Option<int>)
  datatype BookingCreationRequest = BookingCreationRequest(itemId: int, start: int, end: int)
  datatype CommentRequest = CommentRequest(text: string)
  datatype RequestDto = RequestDto(description: string)

  // Views.
  datatype ShortUserDto = ShortUserDto(id: int)
  datatype UserDto = UserDto(id: int, name: string, email: string)
  datatype ShortItemDto = ShortItemDto(id: int, name: string)
  datatype ItemDto = ItemDto(id: int, name: string, description: string,
                             available: Option<bool>, requestId: Option<int>)
  datatype ShortBookingDto = ShortBookingDto(id: int, bookerId: int)
  datatype BookingDto = BookingDto(id: int, start: int, end: int, status: Status,
                                   booker: ShortUserDto, item: ShortItemDto)
  datatype CommentDto = CommentDto(id: int, text: string, authorName: string, created: int)
  datatype DetailedItemDto = DetailedItemDto(id: int, name: string, description: string,
                                             available: Option<bool>,
                                             lastBooking: Option<ShortBookingDto>,
                                             nextBooking: Option<ShortBookingDto>,
                                             comments: seq<CommentDto>)
  datatype ItemRequestDto = ItemRequestDto(id: int, description: string, created: int, items: seq<ItemDto>)
}
