/**
 * The request handlers of `routes/api.js`: each checks its guard, calls one
 * store operation and maps the outcome to a status code and a JSON body.
 */
module Api {
  import opened Optional
  import opened Kanban

  /** One request, by route; path ids are taken as already parsed to numbers. */
  datatype Request =
    | GetCards                                         // GET    /cards
    | GetCard(id: nat)                                 // GET    /cards/:id
    | PostCard(body: CardInput)                        // POST   /cards
    | PutCard(id: nat, body: CardInput)                // PUT    /cards/:id
    | PatchMove(id: nat, column: Option<string>)       // PATCH  /cards/:id/move
    | DeleteCard(id: nat)                              // DELETE /cards/:id
    | GetHistory(date: Option<string>)                 // GET    /history?date=
    | GetComments(cardId: nat)                         // GET    /cards/:id/comments
    | PostComment(cardId: nat, content: Option<string>) // POST   /cards/:id/comments
    | PutComment(id: nat, content: Option<string>)     // PUT    /comments/:id
    | DeleteComment(id: nat)                           // DELETE /comments/:id

  datatype Body =
    | CardsBody(cards: seq<CardView>)
    | CardBody(detail: CardDetail)
    | EchoBody(echo: CardEcho)
    | MovedBody(moved: MoveResult)
    | DeletedBody(deletedCount: nat)
    | CommentsBody(comments: seq<Comment>)
    | CommentBody(comment: Comment)
    | CommentUpdatedBody(update: CommentUpdate)
    | ErrorBody(error: string)

  datatype Response = Response(status: nat, body: Body)

  /** JavaScript truthiness of a string field that may be missing. */
  predicate Truthy(x: Option<string>) {
    x.Some? && x.value != ""
  }

  /**
   * The 400 answers a handler gives before touching the store: a missing or
   * empty title on card creation, column on a move, or content on a comment
   * write. No other route has a guard.
   */
  function Guard(req: Request): (r: Option<Response>)
    ensures r.Some? <==>
      || (req.PostCard? && !Truthy(req.body.title))
      || (req.PatchMove? && !Truthy(req.column))
      || ((req.PostComment? || req.PutComment?) && !Truthy(req.content))
    ensures r.Some? ==> r.value.status == 400 && r.value.body.ErrorBody?
  {
    match req
    case PostCard(body) =>
      if Truthy(body.title) then None else Some(Response(400, ErrorBody("Title is required")))
    case PatchMove(_, column) =>
      if Truthy(column) then None else Some(Response(400, ErrorBody("Column is required")))
    case PostComment(_, content) =>
      if Truthy(content) then None else Some(Response(400, ErrorBody("Content is required")))
    case PutComment(_, content) =>
      if Truthy(content) then None else Some(Response(400, ErrorBody("Content is required")))
    case _ => None
  }

  /** The catch block of the comment writes: 'Comment not found' is a 404, anything else a 500. */
  function CommentFailure(message: string, fallback: string): (r: Response)
    ensures r.status == 404 <==> message == CommentNotFound
    ensures r.status != 404 ==> r == Response(500, ErrorBody(fallback))
    ensures r.status == 404 ==> r.body == ErrorBody(CommentNotFound)
  {
    if message == CommentNotFound then Response(404, ErrorBody(CommentNotFound))
    else Response(500, ErrorBody(fallback))
  }

  /** `req.query.date || null`. */
  function HistoryDate(query: Option<string>): (r: Option<string>)
    ensures r.Some? <==> Truthy(query)
    ensures r.Some? ==> r == query
  {
    if Truthy(query) then query else None
  }

  /** A request to one of the comment routes. */
  predicate IsCommentRoute(req: Request) {
    req.GetComments? || req.PostComment? || req.PutComment? || req.DeleteComment?
  }

  /** Serves one request against the store. */
  method Handle(board: Board, req: Request, now: string, today: string) returns (resp: Response)
    requires board.Valid()
    modifies board
    ensures board.Valid()
    // Guards answer 400 and leave the store alone.
    ensures Guard(req).Some? ==> resp == Guard(req).value && unchanged(board)
    // Reads.
    ensures req.GetCards? ==> resp == Response(200, CardsBody(board.GetAllCards(today))) && unchanged(board)
    ensures req.GetCard? ==> unchanged(board)
    ensures req.GetCard? && req.id !in board.cards ==> resp == Response(404, ErrorBody("Card not found"))
    ensures req.GetCard? && req.id in board.cards ==> resp == Response(200, CardBody(board.GetCardById(req.id).value))
    ensures req.GetHistory? ==>
      resp == Response(200, CardsBody(board.GetHistoryCards(HistoryDate(req.date)))) && unchanged(board)
    ensures req.GetComments? ==>
      resp == Response(200, CommentsBody(board.GetCommentsByCardId(req.cardId))) && unchanged(board)
    // Card writes.
    ensures req.PostCard? && Truthy(req.body.title) ==>
      && resp == Response(201, EchoBody(CardEcho(old(board.nextCardId), req.body)))
      && board.cards == old(board.cards)[old(board.nextCardId) := NewCard(old(board.nextCardId), req.body, now)]
      && board.nextCardId == old(board.nextCardId) + 1
      && board.tags == old(board.tags) + RowsFor(old(board.nextCardId), SuppliedTags(req.body.tags))
      && board.comments == old(board.comments) && board.nextCommentId == old(board.nextCommentId)
    ensures req.PutCard? ==>
      && resp == Response(200, EchoBody(CardEcho(req.id, req.body)))
      && board.cards == (if req.id in old(board.cards)
                         then old(board.cards)[req.id := UpdatedCard(old(board.cards)[req.id], req.body, now)]
                         else old(board.cards))
      && board.tags == WithoutCard(old(board.tags), req.id) + RowsFor(req.id, SuppliedTags(req.body.tags))
      && NamesOf(board.tags, req.id) == SuppliedTags(req.body.tags)
      && board.comments == old(board.comments)
      && board.nextCardId == old(board.nextCardId) && board.nextCommentId == old(board.nextCommentId)
    ensures req.PatchMove? && Truthy(req.column) ==>
      && resp == Response(200, MovedBody(MoveResult(req.id, req.column.value, if req.id in old(board.cards) then 1 else 0)))
      && board.cards == (if req.id in old(board.cards)
                         then old(board.cards)[req.id := MovedCard(old(board.cards)[req.id], req.column.value, now)]
                         else old(board.cards))
      && board.tags == old(board.tags) && board.comments == old(board.comments)
      && board.nextCardId == old(board.nextCardId) && board.nextCommentId == old(board.nextCommentId)
    ensures req.DeleteCard? ==>
      && resp == Response(200, DeletedBody(if req.id in old(board.cards) then 1 else 0))
      && board.cards == old(board.cards) - {req.id}
      && board.tags == (if req.id in old(board.cards) then WithoutCard(old(board.tags), req.id) else old(board.tags))
      && board.comments == (if req.id in old(board.cards) then CommentsNotOf(old(board.comments), req.id) else old(board.comments))
      && board.nextCardId == old(board.nextCardId) && board.nextCommentId == old(board.nextCommentId)
    // PUT and DELETE on a card never answer 404, whether or not the card exists.
    ensures req.PutCard? || req.DeleteCard? ==> resp.status == 200
    // Comment writes.
    ensures req.PostComment? && Truthy(req.content) ==>
      && resp == Response(201, CommentBody(Comment(old(board.nextCommentId), req.cardId, req.content.value, now)))
      && board.comments == old(board.comments)[old(board.nextCommentId) := resp.body.comment]
      && board.nextCommentId == old(board.nextCommentId) + 1
      && board.cards == old(board.cards) && board.tags == old(board.tags) && board.nextCardId == old(board.nextCardId)
    ensures req.PutComment? && Truthy(req.content) ==>
      && (req.id in old(board.comments) ==>
            && resp == Response(200, CommentUpdatedBody(CommentUpdate(req.id, req.content.value, 1)))
            && board.comments == old(board.comments)[req.id := old(board.comments)[req.id].(content := req.content.value)]
            && board.cards == old(board.cards) && board.tags == old(board.tags)
            && board.nextCardId == old(board.nextCardId) && board.nextCommentId == old(board.nextCommentId))
      && (req.id !in old(board.comments) ==> resp == Response(404, ErrorBody(CommentNotFound)) && unchanged(board))
    ensures req.DeleteComment? ==>
      && (req.id in old(board.comments) ==>
            && resp == Response(200, DeletedBody(1)) && board.comments == old(board.comments) - {req.id}
            && board.cards == old(board.cards) && board.tags == old(board.tags)
            && board.nextCardId == old(board.nextCardId) && board.nextCommentId == old(board.nextCommentId))
      && (req.id !in old(board.comments) ==> resp == Response(404, ErrorBody(CommentNotFound)) && unchanged(board))
  {
    var guard := Guard(req);
    if guard.Some? {
      return guard.value;
    }
    if IsCommentRoute(req) {
      resp := ServeComment(board, req, now);
    } else {
      resp := ServeCard(board, req, now, today);
    }
  }

  /** The card routes, past their guards. */
  method ServeCard(board: Board, req: Request, now: string, today: string) returns (resp: Response)
    requires board.Valid()
    requires Guard(req).None? && !IsCommentRoute(req)
    modifies board
    ensures board.Valid()
    ensures req.GetCards? ==> resp == Response(200, CardsBody(board.GetAllCards(today))) && unchanged(board)
    ensures req.GetCard? ==> unchanged(board)
    ensures req.GetCard? && req.id !in board.cards ==> resp == Response(404, ErrorBody("Card not found"))
    ensures req.GetCard? && req.id in board.cards ==> resp == Response(200, CardBody(board.GetCardById(req.id).value))
    ensures req.GetHistory? ==>
      resp == Response(200, CardsBody(board.GetHistoryCards(HistoryDate(req.date)))) && unchanged(board)
    ensures req.PostCard? && Truthy(req.body.title) ==>
      && resp == Response(201, EchoBody(CardEcho(old(board.nextCardId), req.body)))
      && board.cards == old(board.cards)[old(board.nextCardId) := NewCard(old(board.nextCardId), req.body, now)]
      && board.nextCardId == old(board.nextCardId) + 1
      && board.tags == old(board.tags) + RowsFor(old(board.nextCardId), SuppliedTags(req.body.tags))
      && board.comments == old(board.comments) && board.nextCommentId == old(board.nextCommentId)
    ensures req.PutCard? ==>
      && resp == Response(200, EchoBody(CardEcho(req.id, req.body)))
      && board.cards == (if req.id in old(board.cards)
                         then old(board.cards)[req.id := UpdatedCard(old(board.cards)[req.id], req.body, now)]
                         else old(board.cards))
      && board.tags == WithoutCard(old(board.tags), req.id) + RowsFor(req.id, SuppliedTags(req.body.tags))
      && NamesOf(board.tags, req.id) == SuppliedTags(req.body.tags)
      && board.comments == old(board.comments)
      && board.nextCardId == old(board.nextCardId) && board.nextCommentId == old(board.nextCommentId)
    ensures req.PatchMove? && Truthy(req.column) ==>
      && resp == Response(200, MovedBody(MoveResult(req.id, req.column.value, if req.id in old(board.cards) then 1 else 0)))
      && board.cards == (if req.id in old(board.cards)
                         then old(board.cards)[req.id := MovedCard(old(board.cards)[req.id], req.column.value, now)]
                         else old(board.cards))
      && board.tags == old(board.tags) && board.comments == old(board.comments)
      && board.nextCardId == old(board.nextCardId) && board.nextCommentId == old(board.nextCommentId)
    ensures req.DeleteCard? ==>
      && resp == Response(200, DeletedBody(if req.id in old(board.cards) then 1 else 0))
      && board.cards == old(board.cards) - {req.id}
      && board.tags == (if req.id in old(board.cards) then WithoutCard(old(board.tags), req.id) else old(board.tags))
      && board.comments == (if req.id in old(board.cards) then CommentsNotOf(old(board.comments), req.id) else old(board.comments))
      && board.nextCardId == old(board.nextCardId) && board.nextCommentId == old(board.nextCommentId)
    // PUT and DELETE on a card never answer 404, whether or not the card exists.
    ensures req.PutCard? || req.DeleteCard? ==> resp.status == 200
  {
    match req
    case GetCards =>
      resp := Response(200, CardsBody(board.GetAllCards(today)));
    case GetCard(id) =>
      var card := board.GetCardById(id);
      if card.None? {
        resp := Response(404, ErrorBody("Card not found"));
      } else {
        resp := Response(200, CardBody(card.value));
      }
    case PostCard(body) =>
      var created := board.CreateCard(body, now);
      resp := Response(201, EchoBody(created));
    case PutCard(id, body) =>
      var echo := board.UpdateCard(id, body, now);
      resp := Response(200, EchoBody(echo));
    case PatchMove(id, column) =>
      var moved := board.MoveCard(id, column.value, now);
      resp := Response(200, MovedBody(moved));
    case DeleteCard(id) =>
      var deletedCount := board.DeleteCard(id);
      resp := Response(200, DeletedBody(deletedCount));
    case GetHistory(date) =>
      resp := Response(200, CardsBody(board.GetHistoryCards(HistoryDate(date))));
    case _ =>
      assert false;
  }

  /** The comment routes, past their guards. */
  method ServeComment(board: Board, req: Request, now: string) returns (resp: Response)
    requires board.Valid()
    requires Guard(req).None? && IsCommentRoute(req)
    modifies board
    ensures board.Valid()
    ensures req.GetComments? ==>
      resp == Response(200, CommentsBody(board.GetCommentsByCardId(req.cardId))) && unchanged(board)
    ensures req.PostComment? && Truthy(req.content) ==>
      && resp == Response(201, CommentBody(Comment(old(board.nextCommentId), req.cardId, req.content.value, now)))
      && board.comments == old(board.comments)[old(board.nextCommentId) := resp.body.comment]
      && board.nextCommentId == old(board.nextCommentId) + 1
      && board.cards == old(board.cards) && board.tags == old(board.tags) && board.nextCardId == old(board.nextCardId)
    ensures req.PutComment? && Truthy(req.content) ==>
      && (req.id in old(board.comments) ==>
            && resp == Response(200, CommentUpdatedBody(CommentUpdate(req.id, req.content.value, 1)))
            && board.comments == old(board.comments)[req.id := old(board.comments)[req.id].(content := req.content.value)]
            && board.cards == old(board.cards) && board.tags == old(board.tags)
            && board.nextCardId == old(board.nextCardId) && board.nextCommentId == old(board.nextCommentId))
      && (req.id !in old(board.comments) ==> resp == Response(404, ErrorBody(CommentNotFound)) && unchanged(board))
    ensures req.DeleteComment? ==>
      && (req.id in old(board.comments) ==>
            && resp == Response(200, DeletedBody(1)) && board.comments == old(board.comments) - {req.id}
            && board.cards == old(board.cards) && board.tags == old(board.tags)
            && board.nextCardId == old(board.nextCardId) && board.nextCommentId == old(board.nextCommentId))
      && (req.id !in old(board.comments) ==> resp == Response(404, ErrorBody(CommentNotFound)) && unchanged(board))
  {
    match req
    case GetComments(cardId) =>
      resp := Response(200, CommentsBody(board.GetCommentsByCardId(cardId)));
    case PostComment(cardId, content) =>
      var created := board.CreateComment(cardId, content.value, now);
      resp := Response(201, CommentBody(created));
    case PutComment(id, content) =>
      var outcome := board.UpdateComment(id, content.value);
      match outcome {
        case Resolved(update) =>
          resp := Response(200, CommentUpdatedBody(update));
        case Rejected(message) =>
          resp := CommentFailure(message, "Failed to update comment");
      }
    case DeleteComment(id) =>
      var outcome := board.DeleteComment(id);
      match outcome {
        case Resolved(deletedCount) =>
          resp := Response(200, DeletedBody(deletedCount));
        case Rejected(message) =>
          resp := CommentFailure(message, "Failed to delete comment");
      }
    case _ =>
      assert false;
  }
}
