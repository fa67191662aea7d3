/** Conversions between comments and their request body and view. */
module CommentDtoMapper {
  import opened Wrappers
  import opened Domain
  import opened Dtos

  /** A comment by `authorId` on `itemId` with the body's text, stamped with
      `now`. Author and item are taken as lazy references; a reference to a
      missing row fails with EntityNotFound. */
  function ToComment(users: seq<User>, items: seq<Item>, d: CommentRequest, authorId: int, itemId: int, now: int)
    : (r: Result<NewComment>)
    ensures r.Ok? <==> (exists u :: u in users && u.id == authorId) && exists i :: i in items && i.id == itemId
    ensures r.Err? ==> r.error == EntityNotFound
    ensures r.Ok? ==> r.value.text == d.text && r.value.author in users && r.value.author.id == authorId
                      && r.value.item == itemId && r.value.created == now
  {
    match FindUser(users, authorId)
    case None => Err(EntityNotFound)
    case Some(author) =>
      if FindItem(items, itemId).None? then Err(EntityNotFound)
      else Ok(NewComment(d.text, author, itemId, now))
  }

  /** The view: id, text, creation time and the author's name. */
  function ToCommentDto(c: Comment): (r: CommentDto)
    ensures r.id == c.id && r.text == c.text && r.created == c.created
    ensures r.authorName == c.author.name
  {
    CommentDto(c.id, c.text, c.author.name, c.created)
  }

  /** Nothing of the author but the name is exposed: not the email, not the id. */
  lemma CommentDtoHidesAuthorDetails(c: Comment, email: string, authorId: int)
    ensures ToCommentDto(c.(author := c.author.(email := email, id := authorId))) == ToCommentDto(c)
  {
  }

  /** The list form: one view per comment, in the same order. */
  function ToCommentDtos(comments: seq<Comment>): (r: seq<CommentDto>)
    ensures |r| == |comments|
    ensures forall k :: 0 <= k < |comments| ==> r[k] == ToCommentDto(comments[k])
  {
    seq(|comments|, k requires 0 <= k < |comments| => ToCommentDto(comments[k]))
  }
}
