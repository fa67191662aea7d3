/** In-memory stand-ins for the JPA repositories. Each table keeps its rows in
    insertion order together with the next identity value; `save` of a new
    entity assigns that value (the first row of every table gets id 1). */
module Tables {
  import opened Wrappers
  import opened Domain
  import opened Seqs

  /** Keys strictly increase in row order (so they are unique). */
  ghost predicate Increasing<T>(rows: seq<T>, key: T -> int)
  {
    forall i, j :: 0 <= i < j < |rows| ==> key(rows[i]) < key(rows[j])
  }

  /** Keys are positive, below the next identity value and strictly increasing
      in row order (so the rows are sorted by id). */
  ghost predicate Keyed<T>(rows: seq<T>, key: T -> int, nextId: int)
  {
    && nextId >= 1
    && (forall i :: 0 <= i < |rows| ==> 1 <= key(rows[i]) < nextId)
    && Increasing(rows, key)
  }

  /** Rows with the given key replaced by x. */
  function ReplaceByKey<T>(rows: seq<T>, key: T -> int, x: T): (r: seq<T>)
    ensures |r| == |rows|
    ensures forall i :: 0 <= i < |rows| ==> r[i] == if key(rows[i]) == key(x) then x else rows[i]
  {
    seq(|rows|, i requires 0 <= i < |rows| => if key(rows[i]) == key(x) then x else rows[i])
  }

  /** Rows whose key is not k (deleteById). */
  function RemoveByKey<T(!new)>(rows: seq<T>, key: T -> int, k: int): (r: seq<T>)
    ensures |r| <= |rows|
    ensures forall x :: x in r <==> x in rows && key(x) != k
    ensures Increasing(rows, key) ==> Increasing(r, key)
    decreases |rows|
  {
    if rows == [] then []
    else
      var rest := RemoveByKey(rows[1..], key, k);
      assert forall x :: x in rows[1..] ==> x in rows;
      assert Increasing(rows, key) ==> forall y :: y in rows[1..] ==> key(rows[0]) < key(y);
      if key(rows[0]) == k then rest else [rows[0]] + rest
  }

  lemma KeyedReplace<T>(rows: seq<T>, key: T -> int, nextId: int, x: T)
    requires Keyed(rows, key, nextId)
    requires exists i :: 0 <= i < |rows| && key(rows[i]) == key(x)
    ensures Keyed(ReplaceByKey(rows, key, x), key, nextId)
  {
  }

  lemma KeyedRemove<T(!new)>(rows: seq<T>, key: T -> int, nextId: int, k: int)
    requires Keyed(rows, key, nextId)
    ensures Keyed(RemoveByKey(rows, key, k), key, nextId)
  {
    var r := RemoveByKey(rows, key, k);
    forall i | 0 <= i < |r| ensures 1 <= key(r[i]) < nextId {
      assert r[i] in rows;
    }
  }

  /** After the replacement, x is a row. */
  lemma ReplacedRowPresent<T>(rows: seq<T>, key: T -> int, x: T)
    requires exists i :: 0 <= i < |rows| && key(rows[i]) == key(x)
    ensures x in ReplaceByKey(rows, key, x)
  {
    var i :| 0 <= i < |rows| && key(rows[i]) == key(x);
    assert ReplaceByKey(rows, key, x)[i] == x;
  }

  /** Writing the same row a second time changes nothing. */
  lemma ReplaceByKeyTwice<T>(rows: seq<T>, key: T -> int, x: T)
    ensures ReplaceByKey(ReplaceByKey(rows, key, x), key, x) == ReplaceByKey(rows, key, x)
  {
  }

  class UserTable {
    var rows: seq<User>
    var nextId: int

    ghost predicate Valid() reads this { Keyed(rows, UserId, nextId) }

    constructor ()
      ensures Valid() && rows == [] && nextId == 1
    {
      rows, nextId := [], 1;
    }

    /** save() of a new user: the user gets the next identity value. */
    method Save(d: NewUser) returns (u: User)
      requires Valid()
      modifies this
      ensures Valid()
      ensures u == User(old(nextId), d.name, d.email)
      ensures rows == old(rows) + [u] && nextId == old(nextId) + 1
    {
      u := User(nextId, d.name, d.email);
      rows, nextId := rows + [u], nextId + 1;
    }

    /** save() of a user that is already stored: its row is overwritten. */
    method Put(u: User)
      requires Valid() && exists v :: v in rows && v.id == u.id
      modifies this
      ensures Valid() && nextId == old(nextId)
      ensures rows == ReplaceByKey(old(rows), UserId, u)
    {
      KeyedReplace(rows, UserId, nextId, u);
      rows := ReplaceByKey(rows, UserId, u);
    }

    method DeleteById(id: int)
      requires Valid()
      modifies this
      ensures Valid() && nextId == old(nextId)
      ensures rows == RemoveByKey(old(rows), UserId, id)
    {
      KeyedRemove(rows, UserId, nextId, id);
      rows := RemoveByKey(rows, UserId, id);
    }
  }

  class ItemTable {
    var rows: seq<Item>
    var nextId: int

    ghost predicate Valid() reads this { Keyed(rows, ItemId, nextId) }

    constructor ()
      ensures Valid() && rows == [] && nextId == 1
    {
      rows, nextId := [], 1;
    }

    method Save(d: NewItem) returns (i: Item)
      requires Valid()
      modifies this
      ensures Valid()
      ensures i == Item(old(nextId), d.name, d.description, d.available, d.owner, d.request)
      ensures rows == old(rows) + [i] && nextId == old(nextId) + 1
    {
      i := Item(nextId, d.name, d.description, d.available, d.owner, d.request);
      rows, nextId := rows + [i], nextId + 1;
    }

    method Put(i: Item)
      requires Valid() && exists v :: v in rows && v.id == i.id
      modifies this
      ensures Valid() && nextId == old(nextId)
      ensures rows == ReplaceByKey(old(rows), ItemId, i)
    {
      KeyedReplace(rows, ItemId, nextId, i);
      rows := ReplaceByKey(rows, ItemId, i);
    }
  }

  class BookingTable {
    var rows: seq<Booking>
    var nextId: int

    ghost predicate Valid() reads this { Keyed(rows, BookingId, nextId) }

    constructor ()
      ensures Valid() && rows == [] && nextId == 1
    {
      rows, nextId := [], 1;
    }

    /** save() of a new booking: next identity value, status WAITING (the
        entity's default, which the mapper never sets). */
    method Save(d: NewBooking) returns (b: Booking)
      requires Valid()
      modifies this
      ensures Valid()
      ensures b == Booking(old(nextId), d.startTime, d.endTime, Waiting, d.booker, d.item)
      ensures rows == old(rows) + [b] && nextId == old(nextId) + 1
    {
      b := Booking(nextId, d.startTime, d.endTime, Waiting, d.booker, d.item);
      rows, nextId := rows + [b], nextId + 1;
    }

    method Put(b: Booking)
      requires Valid() && exists v :: v in rows && v.id == b.id
      modifies this
      ensures Valid() && nextId == old(nextId)
      ensures rows == ReplaceByKey(old(rows), BookingId, b)
    {
      KeyedReplace(rows, BookingId, nextId, b);
      rows := ReplaceByKey(rows, BookingId, b);
    }
  }

  class RequestTable {
    var rows: seq<ItemRequest>
    var nextId: int

    ghost predicate Valid() reads this { Keyed(rows, RequestId, nextId) }

    constructor ()
      ensures Valid() && rows == [] && nextId == 1
    {
      rows, nextId := [], 1;
    }

    /** save() of a new request whose requestor has been set. */
    method Save(d: NewRequest, requestor: int) returns (q: ItemRequest)
      requires Valid()
      modifies this
      ensures Valid()
      ensures q == ItemRequest(old(nextId), d.description, d.created, requestor)
      ensures rows == old(rows) + [q] && nextId == old(nextId) + 1
    {
      q := ItemRequest(nextId, d.description, d.created, requestor);
      rows, nextId := rows + [q], nextId + 1;
    }
  }

  class CommentTable {
    var rows: seq<Comment>
    var nextId: int

    ghost predicate Valid() reads this { Keyed(rows, CommentId, nextId) }

    constructor ()
      ensures Valid() && rows == [] && nextId == 1
    {
      rows, nextId := [], 1;
    }

    method Save(d: NewComment) returns (c: Comment)
      requires Valid()
      modifies this
      ensures Valid()
      ensures c == Comment(old(nextId), d.text, d.author, d.item, d.created)
      ensures rows == old(rows) + [c] && nextId == old(nextId) + 1
    {
      c := Comment(nextId, d.text, d.author, d.item, d.created);
      rows, nextId := rows + [c], nextId + 1;
    }
  }
}
