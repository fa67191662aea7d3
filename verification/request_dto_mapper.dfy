/** Conversions between item requests and their body and view. */
module RequestDtoMapper {
  import opened Wrappers
  import opened Domain
  import opened Seqs
  import opened Dtos
  import opened ItemDtoMapper

  /** A request with the body's description, created at `now`; no id and no
      requestor yet. */
  function ToRequest(d: RequestDto, now: int): (r: NewRequest)
    ensures r.description == d.description && r.created == now
  {
    NewRequest(d.description, now)
  }

  /** findAllByRequestId: the items that answer request `requestId`, in store order. */
  function ItemsAnswering(items: seq<Item>, requestId: int): (r: seq<Item>)
    ensures forall i :: i in r <==> i in items && i.request == Some(requestId)
  {
    Filter(items, (i: Item) => i.request == Some(requestId))
  }

  /** The view: id, description, creation time and the flat views of exactly
      the items that answer this request. */
  function ToRequestDto(q: ItemRequest, items: seq<Item>): (r: ItemRequestDto)
    ensures r.id == q.id && r.description == q.description && r.created == q.created
    ensures forall x :: x in r.items <==> exists i :: i in items && i.request == Some(q.id) && x == ToItemDto(i)
  {
    var answering := ItemsAnswering(items, q.id);
    var views := ToItemDtos(answering);
    assert forall x :: x in views ==> exists k :: 0 <= k < |answering| && x == ToItemDto(answering[k]);
    assert forall i :: i in answering ==> exists k :: 0 <= k < |answering| && i == answering[k];
    ItemRequestDto(q.id, q.description, q.created, views)
  }

  /** One view per request, in input order. */
  function ToDtos(requests: seq<ItemRequest>, items: seq<Item>): (r: seq<ItemRequestDto>)
    ensures |r| == |requests|
    ensures forall k :: 0 <= k < |requests| ==> r[k] == ToRequestDto(requests[k], items)
  {
    seq(|requests|, k requires 0 <= k < |requests| => ToRequestDto(requests[k], items))
  }

  /** toListOfDto: a loop that appends each request's view to a fresh list. */
  method ToListOfDto(requests: seq<ItemRequest>, items: seq<Item>) returns (r: seq<ItemRequestDto>)
    ensures |r| == |requests|
    ensures forall k :: 0 <= k < |requests| ==> r[k] == ToRequestDto(requests[k], items)
    ensures r == ToDtos(requests, items)
  {
    r := [];
    var n := 0;
    while n < |requests|
      invariant 0 <= n <= |requests|
      invariant |r| == n
      invariant forall k :: 0 <= k < n ==> r[k] == ToRequestDto(requests[k], items)
    {
      r := r + [ToRequestDto(requests[n], items)];
      n := n + 1;
    }
  }
}
