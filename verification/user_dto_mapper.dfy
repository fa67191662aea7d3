/** Conversions between users and their request bodies and views. */
module UserDtoMapper {
  import opened Wrappers
  import opened Domain
  import opened Tables
  import opened Dtos

  /** The create form: name and email from the body, no id yet. */
  function ToUser(d: UserCreationRequest): (u: NewUser)
    ensures u.name == d.name && u.email == d.email
  {
    NewUser(d.name, d.email)
  }

  /** A stored user after the present fields of an update body are set. */
  function MergeUser(u: User, d: UserUpdateRequest): (r: User)
    ensures r.id == u.id
    ensures r.name == (if d.name.Some? then d.name.value else u.name)
    ensures r.email == (if d.email.Some? then d.email.value else u.email)
  {
    User(u.id, d.name.UnwrapOr(u.name), d.email.UnwrapOr(u.email))
  }

  /** An update that carries no field changes nothing. */
  lemma MergeEmptyIsIdentity(u: User)
    ensures MergeUser(u, UserUpdateRequest(None, None)) == u
  {
  }

  /** Applying the same update twice is the same as applying it once. */
  lemma MergeIdempotent(u: User, d: UserUpdateRequest)
    ensures MergeUser(MergeUser(u, d), d) == MergeUser(u, d)
  {
  }

  /** Two updates in a row act as one whose fields are the later present
      value, else the earlier one. */
  lemma MergeTwice(u: User, d1: UserUpdateRequest, d2: UserUpdateRequest)
    ensures MergeUser(MergeUser(u, d1), d2)
         == MergeUser(u, UserUpdateRequest(if d2.name.Some? then d2.name else d1.name,
                                           if d2.email.Some? then d2.email else d1.email))
  {
  }

  /** The update form: the stored user with this id is fetched by reference
      and its present fields are set in place (the managed entity is written
      back). A reference to a missing row fails with EntityNotFound and
      nothing changes. */
  method ToUpdatedUser(users: UserTable, d: UserUpdateRequest, userId: int) returns (r: Result<User>)
    requires users.Valid()
    modifies users
    ensures users.Valid() && users.nextId == old(users.nextId)
    ensures FindUser(old(users.rows), userId).None? ==> r == Err(EntityNotFound) && users.rows == old(users.rows)
    ensures FindUser(old(users.rows), userId).Some? ==>
              && r == Ok(MergeUser(FindUser(old(users.rows), userId).value, d))
              && users.rows == ReplaceByKey(old(users.rows), UserId, r.value)
  {
    var found := FindUser(users.rows, userId);
    if found.None? {
      return Err(EntityNotFound);
    }
    var u := MergeUser(found.value, d);
    users.Put(u);
    r := Ok(u);
  }

  /** The full view: id, name and email. */
  function ToUserDto(u: User): (r: UserDto)
    ensures r.id == u.id && r.name == u.name && r.email == u.email
  {
    UserDto(u.id, u.name, u.email)
  }

  /** The view loses nothing: the user can be read back from it. */
  function FromUserDto(d: UserDto): User
  {
    User(d.id, d.name, d.email)
  }

  lemma UserDtoRoundTrip(u: User)
    ensures FromUserDto(ToUserDto(u)) == u
  {
  }

  /** The short view carries the id only. */
  function ToShortUserDto(u: User): (r: ShortUserDto)
    ensures r.id == u.id
  {
    ShortUserDto(u.id)
  }

  /** Users with the same id have the same short view, whatever their name
      and email. */
  lemma ShortUserDtoHidesDetails(u: User, v: User)
    requires u.id == v.id
    ensures ToShortUserDto(u) == ToShortUserDto(v)
  {
  }

  /** The list form: one view per user, in the same order. */
  function ToUserDtos(users: seq<User>): (r: seq<UserDto>)
    ensures |r| == |users|
    ensures forall k :: 0 <= k < |users| ==> r[k] == ToUserDto(users[k])
  {
    seq(|users|, k requires 0 <= k < |users| => ToUserDto(users[k]))
  }
}
