/**
 * The board store behind `models/Card.js` and `models/Comment.js`: three
 * tables (cards, tags, comments) held by one object, with the queries as
 * functions of that state and the writes as methods that change it.
 *
 * Time enters as text: `now` is the timestamp of the write (the ISO-8601
 * text the source takes from its clock) and `today` the calendar day of
 * the query. Timestamps compare as text, as SQLite compares them.
 */
module Kanban {
  import opened Optional
  import opened Text
  import opened Sorting
  import opened Rows

  /** The terminal column: moving a card here stamps its completion. */
  const Done := "done"
  /** The column a card gets when it is created without one. */
  const DefaultColumn := "todo"
  /** The message of the error the comment writes reject with. */
  const CommentNotFound := "Comment not found"

  // ---------------------------------------------------------------------
  // Rows of the three tables
  // ---------------------------------------------------------------------

  datatype Card = Card(
    id: nat,
    title: Option<string>,
    description: Option<string>,
    column: Option<string>,
    dueDate: Option<string>,
    createdAt: string,
    updatedAt: string,
    completedAt: Option<string>)

  datatype TagRow = TagRow(cardId: nat, name: string)

  datatype Comment = Comment(id: nat, cardId: nat, content: string, createdAt: string)

  /** The fields a create or update request supplies; any may be missing. */
  datatype CardInput = CardInput(
    title: Option<string>,
    description: Option<string>,
    column: Option<string>,
    dueDate: Option<string>,
    tags: Option<seq<string>>)

  /** `{ id, ...cardData }`: the value createCard and updateCard resolve with. */
  datatype CardEcho = CardEcho(id: nat, data: CardInput)

  /** A listed card: its row and its tag names as the listing splits them. */
  datatype CardView = CardView(card: Card, tags: seq<string>)

  /** A card with its tag names and its comments, newest first. */
  datatype CardDetail = CardDetail(card: Card, tags: seq<string>, comments: seq<Comment>)

  datatype MoveResult = MoveResult(id: nat, column: string, changes: nat)

  datatype CommentUpdate = CommentUpdate(id: nat, content: string, changes: nat)

  /** A settled promise: resolved with a value or rejected with an error message. */
  datatype Outcome<T> = Resolved(value: T) | Rejected(message: string)

  // ---------------------------------------------------------------------
  // Timestamps
  // ---------------------------------------------------------------------

  /**
   * The calendar day of a timestamp: the text before the first `T`. This is
   * what SQLite's `date()` gives for ISO-8601 text and what the client takes
   * with `split('T')[0]`.
   */
  function DateOf(ts: string): (d: string)
    ensures 'T' !in d
    ensures d <= ts
  {
    if ts == [] || ts[0] == 'T' then [] else [ts[0]] + DateOf(ts[1..])
  }

  /** DateOf is the first piece of `ts.split('T')`. */
  lemma {:induction false} DateOfSplit(ts: string)
    ensures DateOf(ts) == Split(ts, 'T')[0]
  {
    if ts != [] && ts[0] != 'T' {
      DateOfSplit(ts[1..]);
    }
  }

  /** The day an ISO-8601 timestamp `day + "T" + time` falls on is `day`. */
  lemma {:induction false} DateOfIso(day: string, time: string)
    requires 'T' !in day
    ensures DateOf(day + "T" + time) == day
  {
    if day != [] {
      assert (day + "T" + time)[1..] == day[1..] + "T" + time;
      DateOfIso(day[1..], time);
      assert [day[0]] + day[1..] == day;
    }
  }

  /** completed_at for a write that puts a card in `column` at `now`. */
  function CompletionStamp(column: Option<string>, now: string): (r: Option<string>)
    ensures r.Some? <==> column == Some(Done)
    ensures r.Some? ==> r.value == now
  {
    if column == Some(Done) then Some(now) else None
  }

  /** A card's completion stamp, when it has one, was written by its last write, into the terminal column. */
  predicate CompletionConsistent(c: Card) {
    c.completedAt.Some? ==> c.column == Some(Done) && c.completedAt.value == c.updatedAt
  }

  // ---------------------------------------------------------------------
  // Card rows as the writes produce them
  // ---------------------------------------------------------------------

  function SuppliedTags(tags: Option<seq<string>>): seq<string> {
    tags.GetOr([])
  }

  /** JavaScript `x || fallback` on a nullable string. */
  function OrElse(x: Option<string>, fallback: string): string {
    if x.Some? && x.value != "" then x.value else fallback
  }

  /** The row createCard inserts. */
  function NewCard(id: nat, data: CardInput, now: string): (c: Card)
    ensures c.id == id && c.title == data.title && c.dueDate == data.dueDate
    ensures c.description == Some(OrElse(data.description, ""))
    ensures c.column == Some(OrElse(data.column, DefaultColumn))
    ensures data.column.None? ==> c.column == Some(DefaultColumn)
    ensures c.createdAt == now && c.updatedAt == now
    ensures c.completedAt.None?
    ensures CompletionConsistent(c)
  {
    Card(id, data.title, Some(OrElse(data.description, "")), Some(OrElse(data.column, DefaultColumn)),
         data.dueDate, now, now, None)
  }

  /** The row updateCard writes over `c`: every editable field taken from `data`, as given. */
  function UpdatedCard(c: Card, data: CardInput, now: string): (r: Card)
    ensures r.id == c.id && r.createdAt == c.createdAt
    ensures r.title == data.title && r.description == data.description
    ensures r.column == data.column && r.dueDate == data.dueDate
    ensures r.updatedAt == now
    ensures r.completedAt.Some? <==> data.column == Some(Done)
    ensures r.completedAt.Some? ==> r.completedAt.value == now
    ensures CompletionConsistent(r)
  {
    c.(title := data.title, description := data.description, column := data.column,
       dueDate := data.dueDate, updatedAt := now, completedAt := CompletionStamp(data.column, now))
  }

  /** The row moveCard writes over `c`: only column, updated_at and completed_at change. */
  function MovedCard(c: Card, column: string, now: string): (r: Card)
    ensures r.id == c.id && r.title == c.title && r.description == c.description
    ensures r.dueDate == c.dueDate && r.createdAt == c.createdAt
    ensures r.column == Some(column) && r.updatedAt == now
    ensures r.completedAt.Some? <==> column == Done
    ensures r.completedAt.Some? ==> r.completedAt.value == now
    ensures CompletionConsistent(r)
  {
    c.(column := Some(column), updatedAt := now, completedAt := CompletionStamp(Some(column), now))
  }

  /** Leaving the terminal column clears the stamp; moving into it again restamps. */
  lemma {:induction false} MoveOutClearsCompletion(c: Card, away: string, t1: string, t2: string, t3: string)
    requires away != Done
    ensures MovedCard(MovedCard(c, Done, t1), away, t2).completedAt == None
    ensures MovedCard(MovedCard(MovedCard(c, Done, t1), away, t2), Done, t3).completedAt == Some(t3)
  {
    var once := MovedCard(c, Done, t1);
    assert once.completedAt == Some(t1);
    var back := MovedCard(once, away, t2);
    assert back.completedAt == None;
  }

  // ---------------------------------------------------------------------
  // The tags table and GROUP_CONCAT
  // ---------------------------------------------------------------------

  /** `SELECT name FROM tags WHERE card_id = ?`, in row order. */
  function NamesOf(rows: seq<TagRow>, cardId: nat): seq<string> {
    if rows == [] then []
    else (if rows[0].cardId == cardId then [rows[0].name] else []) + NamesOf(rows[1..], cardId)
  }

  /** `DELETE FROM tags WHERE card_id = ?`. */
  function WithoutCard(rows: seq<TagRow>, cardId: nat): (r: seq<TagRow>)
    ensures forall i :: 0 <= i < |r| ==> r[i].cardId != cardId
  {
    if rows == [] then []
    else (if rows[0].cardId == cardId then [] else [rows[0]]) + WithoutCard(rows[1..], cardId)
  }

  /** One `INSERT INTO tags (card_id, name)` row per name, in order. */
  function RowsFor(cardId: nat, names: seq<string>): (r: seq<TagRow>)
    ensures |r| == |names|
    ensures forall i :: 0 <= i < |r| ==> r[i] == TagRow(cardId, names[i])
  {
    if names == [] then [] else [TagRow(cardId, names[0])] + RowsFor(cardId, names[1..])
  }

  lemma {:induction false} NamesOfAppend(a: seq<TagRow>, b: seq<TagRow>, cardId: nat)
    ensures NamesOf(a + b, cardId) == NamesOf(a, cardId) + NamesOf(b, cardId)
  {
    if a != [] {
      assert (a + b)[0] == a[0] && (a + b)[1..] == a[1..] + b;
      NamesOfAppend(a[1..], b, cardId);
    } else {
      assert a + b == b;
    }
  }

  lemma {:induction false} NamesOfWithoutCard(rows: seq<TagRow>, removed: nat, cardId: nat)
    ensures NamesOf(WithoutCard(rows, removed), cardId) == if cardId == removed then [] else NamesOf(rows, cardId)
  {
    if rows != [] {
      NamesOfWithoutCard(rows[1..], removed, cardId);
      var head := if rows[0].cardId == removed then [] else [rows[0]];
      NamesOfAppend(head, WithoutCard(rows[1..], removed), cardId);
    }
  }

  lemma {:induction false} NamesOfRowsFor(owner: nat, names: seq<string>, cardId: nat)
    ensures NamesOf(RowsFor(owner, names), cardId) == if cardId == owner then names else []
  {
    if names != [] {
      NamesOfRowsFor(owner, names[1..], cardId);
      NamesOfAppend([TagRow(owner, names[0])], RowsFor(owner, names[1..]), cardId);
      assert [names[0]] + names[1..] == names;
    }
  }

  /**
   * Replace, not merge: after deleting a card's tag rows and inserting one
   * row per new name, that card has exactly the new names and every other
   * card keeps its own.
   */
  lemma ReplaceTags(rows: seq<TagRow>, owner: nat, names: seq<string>, cardId: nat)
    ensures NamesOf(WithoutCard(rows, owner) + RowsFor(owner, names), cardId)
            == if cardId == owner then names else NamesOf(rows, cardId)
  {
    NamesOfAppend(WithoutCard(rows, owner), RowsFor(owner, names), cardId);
    NamesOfWithoutCard(rows, owner, cardId);
    NamesOfRowsFor(owner, names, cardId);
  }

  /** `GROUP_CONCAT(t.name)`: NULL when the card has no tag row, else the names joined by commas. */
  function GroupConcat(names: seq<string>): Option<string> {
    if names == [] then None else Some(Join(names, ","))
  }

  /** `row.tags ? row.tags.split(',') : []`. */
  function SplitTags(concat: Option<string>): seq<string> {
    if concat.Some? && concat.value != "" then Split(concat.value, ',') else []
  }

  /** The tag list a listing reports for a card whose tag rows hold `names`. */
  function TagList(names: seq<string>): seq<string> {
    SplitTags(GroupConcat(names))
  }

  /**
   * The listing gives back a card's tag names exactly when none of them
   * holds a comma and the names are not one empty name.
   */
  lemma TagListRoundTrip(names: seq<string>)
    ensures TagList(names) == names <==> names != [""] && forall i :: 0 <= i < |names| ==> ',' !in names[i]
  {
    if names != [] && names != [""] {
      if forall i :: 0 <= i < |names| ==> ',' !in names[i] {
        SplitJoin(names, ',');
      }
    }
  }

  /** A name with a comma comes back as two tags. */
  lemma TagWithCommaSplits()
    ensures TagList(["a,b"]) == ["a", "b"]
  {
    SplitAtSeparator("a", ',', "b");
    SplitNoSeparator("b", ',');
    assert "a" + [','] + "b" == "a,b";
  }

  // ---------------------------------------------------------------------
  // Listings
  // ---------------------------------------------------------------------

  /** Shown on the board: not completed, or completed on `today`. */
  predicate IsActive(c: Card, today: string) {
    c.completedAt.None? || DateOf(c.completedAt.value) == today
  }

  /** In the history: completed, and on `date`'s day when a date is given. */
  predicate InHistory(c: Card, date: Option<string>) {
    c.completedAt.Some? && (date.None? || date.value == "" || DateOf(c.completedAt.value) == DateOf(date.value))
  }

  function CreatedKey(v: CardView): string { v.card.createdAt }

  function CompletedKey(v: CardView): string { v.card.completedAt.GetOr("") }

  function CommentCreatedKey(c: Comment): string { c.createdAt }

  /** The listed form of each card, its tags taken from `rows`. */
  function Views(cs: seq<Card>, rows: seq<TagRow>): (r: seq<CardView>)
    ensures |r| == |cs|
    ensures forall i :: 0 <= i < |cs| ==> r[i] == CardView(cs[i], TagList(NamesOf(rows, cs[i].id)))
  {
    if cs == [] then [] else [CardView(cs[0], TagList(NamesOf(rows, cs[0].id)))] + Views(cs[1..], rows)
  }

  lemma ViewsMember(cs: seq<Card>, rows: seq<TagRow>, v: CardView)
    ensures v in Views(cs, rows) <==> v.card in cs && v.tags == TagList(NamesOf(rows, v.card.id))
  {
    var r := Views(cs, rows);
    if v.card in cs && v.tags == TagList(NamesOf(rows, v.card.id)) {
      var i :| 0 <= i < |cs| && cs[i] == v.card;
      assert r[i] == v;
    }
  }

  lemma ViewsDistinct(cs: seq<Card>, rows: seq<TagRow>)
    requires Distinct(cs)
    ensures Distinct(Views(cs, rows))
  {
    var r := Views(cs, rows);
    forall i, j | 0 <= i < j < |r| ensures r[i] != r[j] {
      assert r[i].card == cs[i] && r[j].card == cs[j];
    }
  }

  /** `WHERE card_id <> ?` on the comments table, the cascade of a card delete. */
  function CommentsNotOf(m: map<nat, Comment>, cardId: nat): (r: map<nat, Comment>)
    ensures forall k :: k in r <==> k in m && m[k].cardId != cardId
    ensures forall k :: k in r ==> r[k] == m[k]
  {
    map k | k in m && m[k].cardId != cardId :: m[k]
  }

  /** The comment rows of one card: `WHERE card_id = ?`. */
  function OfCard(cardId: nat): Comment -> bool {
    (c: Comment) => c.cardId == cardId
  }

  /** The board's row filter, as a value. */
  function ActiveOn(today: string): Card -> bool {
    (c: Card) => IsActive(c, today)
  }

  /** The history's row filter, as a value. */
  function CompletedOn(date: Option<string>): Card -> bool {
    (c: Card) => InHistory(c, date)
  }

  function CommentIdsOf(m: map<nat, Comment>, cardId: nat): set<nat> {
    set k | k in m && m[k].cardId == cardId
  }

  // ---------------------------------------------------------------------
  // The store
  // ---------------------------------------------------------------------

  class Board {
    var cards: map<nat, Card>
    var tags: seq<TagRow>
    var comments: map<nat, Comment>
    /** The id the next card insert is given (`this.lastID`). */
    var nextCardId: nat
    /** The id the next comment insert is given. */
    var nextCommentId: nat

    ghost predicate Valid()
      reads this
    {
      && (forall id :: id in cards ==> cards[id].id == id && id < nextCardId)
      && (forall id :: id in comments ==> comments[id].id == id && id < nextCommentId)
      && (forall id :: id in cards ==> CompletionConsistent(cards[id]))
    }

    /** An empty board; SQLite numbers rows from 1. */
    constructor ()
      ensures Valid()
      ensures cards == map[] && tags == [] && comments == map[]
      ensures nextCardId == 1 && nextCommentId == 1
    {
      cards, tags, comments := map[], [], map[];
      nextCardId, nextCommentId := 1, 1;
    }

    /** Every card row, in id order. */
    function CardRows(): seq<Card>
      reads this
    {
      ValuesBelow(cards, nextCardId)
    }

    function CommentRows(): seq<Comment>
      reads this
    {
      ValuesBelow(comments, nextCommentId)
    }

    lemma CardRowsMember(c: Card)
      requires Valid()
      ensures c in CardRows() <==> c.id in cards && cards[c.id] == c
    {
      if c in CardRows() {
        var k :| 0 <= k < nextCardId && k in cards && cards[k] == c;
      }
    }

    lemma CardRowsDistinct()
      requires Valid()
      ensures Distinct(CardRows())
    {
      ValuesBelowDistinct(cards, nextCardId);
    }

    lemma CommentRowsMember(c: Comment)
      requires Valid()
      ensures c in CommentRows() <==> c.id in comments && comments[c.id] == c
    {
      if c in CommentRows() {
        var k :| 0 <= k < nextCommentId && k in comments && comments[k] == c;
      }
    }

    /** The rows `WHERE completed_at IS NULL OR date(completed_at) = date('now')`, in id order. */
    function ActiveRows(today: string): seq<Card>
      reads this
    {
      Filter(CardRows(), ActiveOn(today))
    }

    /** The rows `WHERE completed_at IS NOT NULL [AND date(completed_at) = date(?)]`, in id order. */
    function HistoryRows(date: Option<string>): seq<Card>
      reads this
    {
      Filter(CardRows(), CompletedOn(date))
    }

    /** getAllCards: the active cards with their tags, newest first. */
    function GetAllCards(today: string): (r: seq<CardView>)
      reads this
      ensures SortedDescBy(r, CreatedKey)
      ensures multiset(r) == multiset(Views(ActiveRows(today), tags))
    {
      SortDesc(Views(ActiveRows(today), tags), CreatedKey)
    }

    /** getHistoryCards: the completed cards (of one day, when given) with their tags, latest completion first. */
    function GetHistoryCards(date: Option<string>): (r: seq<CardView>)
      reads this
      ensures SortedDescBy(r, CompletedKey)
      ensures multiset(r) == multiset(Views(HistoryRows(date), tags))
    {
      SortDesc(Views(HistoryRows(date), tags), CompletedKey)
    }

    /** getCommentsByCardId: the comments of one card, newest first. */
    function GetCommentsByCardId(cardId: nat): (r: seq<Comment>)
      reads this
      ensures SortedDescBy(r, CommentCreatedKey)
      ensures multiset(r) == multiset(Filter(CommentRows(), OfCard(cardId)))
    {
      SortDesc(Filter(CommentRows(), OfCard(cardId)), CommentCreatedKey)
    }

    /** getCardById: nothing for an unknown id, else the row, its tag names and its comments. */
    function GetCardById(id: nat): (r: Option<CardDetail>)
      reads this
      ensures r.None? <==> id !in cards
      ensures r.Some? ==> r.value.card == cards[id] && r.value.tags == NamesOf(tags, id)
      ensures r.Some? ==> r.value.comments == GetCommentsByCardId(id)
    {
      if id in cards then Some(CardDetail(cards[id], NamesOf(tags, id), GetCommentsByCardId(id))) else None
    }

    // -------------------------------------------------------------------
    // What the listings contain
    // -------------------------------------------------------------------

    /** getAllCards lists a card exactly when it is active, carrying its split tag names. */
    lemma AllCardsMember(today: string, v: CardView)
      requires Valid()
      ensures v in GetAllCards(today) <==>
        && v.card.id in cards && cards[v.card.id] == v.card
        && IsActive(v.card, today)
        && v.tags == TagList(NamesOf(tags, v.card.id))
    {
      var xs := Views(ActiveRows(today), tags);
      assert v in GetAllCards(today) <==> v in xs by {
        assert v in multiset(GetAllCards(today)) <==> v in multiset(xs);
      }
      FilterMembers(CardRows(), ActiveOn(today));
      ViewsMember(ActiveRows(today), tags, v);
      CardRowsMember(v.card);
    }

    /** getAllCards lists no card twice. */
    lemma AllCardsOnce(today: string)
      requires Valid()
      ensures var r := GetAllCards(today);
        forall i, j :: 0 <= i < j < |r| ==> r[i].card.id != r[j].card.id
    {
      var r := GetAllCards(today);
      CardRowsDistinct();
      FilterDistinct(CardRows(), ActiveOn(today));
      ViewsDistinct(ActiveRows(today), tags);
      DistinctPermutation(Views(ActiveRows(today), tags), r);
      forall i, j | 0 <= i < j < |r| ensures r[i].card.id != r[j].card.id {
        AllCardsMember(today, r[i]);
        AllCardsMember(today, r[j]);
      }
    }

    /** getHistoryCards lists a card exactly when it is completed (on the given day), carrying its split tag names. */
    lemma HistoryMember(date: Option<string>, v: CardView)
      requires Valid()
      ensures v in GetHistoryCards(date) <==>
        && v.card.id in cards && cards[v.card.id] == v.card
        && InHistory(v.card, date)
        && v.tags == TagList(NamesOf(tags, v.card.id))
    {
      var xs := Views(HistoryRows(date), tags);
      assert v in GetHistoryCards(date) <==> v in xs by {
        assert v in multiset(GetHistoryCards(date)) <==> v in multiset(xs);
      }
      FilterMembers(CardRows(), CompletedOn(date));
      ViewsMember(HistoryRows(date), tags, v);
      CardRowsMember(v.card);
    }

    /** getHistoryCards lists no card twice. */
    lemma HistoryOnce(date: Option<string>)
      requires Valid()
      ensures var r := GetHistoryCards(date);
        forall i, j :: 0 <= i < j < |r| ==> r[i].card.id != r[j].card.id
    {
      var r := GetHistoryCards(date);
      CardRowsDistinct();
      FilterDistinct(CardRows(), CompletedOn(date));
      ViewsDistinct(HistoryRows(date), tags);
      DistinctPermutation(Views(HistoryRows(date), tags), r);
      forall i, j | 0 <= i < j < |r| ensures r[i].card.id != r[j].card.id {
        HistoryMember(date, r[i]);
        HistoryMember(date, r[j]);
      }
    }

    /** Every card in the history sits in the terminal column and was completed by its last write. */
    lemma HistoryCardsAreDone(date: Option<string>, v: CardView)
      requires Valid()
      requires v in GetHistoryCards(date)
      ensures v.card.column == Some(Done)
      ensures v.card.completedAt == Some(v.card.updatedAt)
    {
      HistoryMember(date, v);
    }

    /**
     * Every card is on the board or in the history: on the board while it
     * has no completion stamp (in particular whenever it is outside the
     * terminal column), in the history once it has one, and in both on the
     * day it was completed.
     */
    lemma BoardOrHistory(today: string, id: nat)
      requires Valid()
      requires id in cards
      ensures var v := CardView(cards[id], TagList(NamesOf(tags, id)));
        && (v in GetAllCards(today) || v in GetHistoryCards(None))
        && (cards[id].column != Some(Done) ==> v in GetAllCards(today) && v !in GetHistoryCards(None))
        && (v in GetAllCards(today) && v in GetHistoryCards(None) <==>
              cards[id].completedAt.Some? && DateOf(cards[id].completedAt.value) == today)
    {
      var v := CardView(cards[id], TagList(NamesOf(tags, id)));
      AllCardsMember(today, v);
      HistoryMember(None, v);
    }

    /** getCommentsByCardId lists exactly the comments of that card. */
    lemma CommentsMember(cardId: nat, c: Comment)
      requires Valid()
      ensures c in GetCommentsByCardId(cardId) <==> c.id in comments && comments[c.id] == c && c.cardId == cardId
    {
      var xs := Filter(CommentRows(), OfCard(cardId));
      assert c in GetCommentsByCardId(cardId) <==> c in xs by {
        assert c in multiset(GetCommentsByCardId(cardId)) <==> c in multiset(xs);
      }
      FilterMembers(CommentRows(), OfCard(cardId));
      CommentRowsMember(c);
    }

    /** getCommentsByCardId lists no comment twice. */
    lemma CommentsOnce(cardId: nat)
      requires Valid()
      ensures var r := GetCommentsByCardId(cardId);
        forall i, j :: 0 <= i < j < |r| ==> r[i].id != r[j].id
    {
      var r := GetCommentsByCardId(cardId);
      ValuesBelowDistinct(comments, nextCommentId);
      FilterDistinct(CommentRows(), OfCard(cardId));
      DistinctPermutation(Filter(CommentRows(), OfCard(cardId)), r);
      forall i, j | 0 <= i < j < |r| ensures r[i].id != r[j].id {
        CommentsMember(cardId, r[i]);
        CommentsMember(cardId, r[j]);
      }
    }

    // -------------------------------------------------------------------
    // Card writes
    // -------------------------------------------------------------------

    /** The tag inserts of createCard and updateCardTags, one row per name. */
    method InsertTags(cardId: nat, names: seq<string>)
      modifies this`tags
      ensures tags == old(tags) + RowsFor(cardId, names)
    {
      var i := 0;
      while i < |names|
        invariant 0 <= i <= |names|
        invariant tags == old(tags) + RowsFor(cardId, names[..i])
      {
        assert RowsFor(cardId, names[..i + 1]) == RowsFor(cardId, names[..i]) + [TagRow(cardId, names[i])];
        tags := tags + [TagRow(cardId, names[i])];
        i := i + 1;
      }
      assert names[..i] == names;
    }

    /** createCard: inserts one row under a fresh id, then one tag row per supplied tag. */
    method CreateCard(data: CardInput, now: string) returns (created: CardEcho)
      requires Valid()
      modifies this`cards, this`tags, this`nextCardId
      ensures Valid()
      ensures created == CardEcho(old(nextCardId), data)
      ensures created.id !in old(cards)
      ensures cards == old(cards)[created.id := NewCard(created.id, data, now)]
      ensures nextCardId == old(nextCardId) + 1
      ensures tags == old(tags) + RowsFor(created.id, SuppliedTags(data.tags))
      ensures NamesOf(tags, created.id) == NamesOf(old(tags), created.id) + SuppliedTags(data.tags)
    {
      var id := nextCardId;
      cards := cards[id := NewCard(id, data, now)];
      nextCardId := nextCardId + 1;
      InsertTags(id, SuppliedTags(data.tags));
      NamesOfAppend(old(tags), RowsFor(id, SuppliedTags(data.tags)), id);
      NamesOfRowsFor(id, SuppliedTags(data.tags), id);
      created := CardEcho(id, data);
    }

    /** updateCardTags: deletes every tag row of the card, then inserts the supplied ones. */
    method UpdateCardTags(cardId: nat, supplied: Option<seq<string>>)
      modifies this`tags
      ensures tags == WithoutCard(old(tags), cardId) + RowsFor(cardId, SuppliedTags(supplied))
      ensures NamesOf(tags, cardId) == SuppliedTags(supplied)
      ensures forall other :: other != cardId ==> NamesOf(tags, other) == NamesOf(old(tags), other)
    {
      tags := WithoutCard(tags, cardId);
      InsertTags(cardId, SuppliedTags(supplied));
      forall other ensures NamesOf(tags, other) == if other == cardId then SuppliedTags(supplied) else NamesOf(old(tags), other) {
        ReplaceTags(old(tags), cardId, SuppliedTags(supplied), other);
      }
    }

    /**
     * updateCard: overwrites every editable field of the row with that id
     * (if there is one) and replaces the card's tags; it resolves with the
     * request whether or not a row matched.
     */
    method UpdateCard(id: nat, data: CardInput, now: string) returns (echo: CardEcho)
      requires Valid()
      modifies this`cards, this`tags
      ensures Valid()
      ensures echo == CardEcho(id, data)
      ensures cards == if id in old(cards) then old(cards)[id := UpdatedCard(old(cards)[id], data, now)] else old(cards)
      ensures tags == WithoutCard(old(tags), id) + RowsFor(id, SuppliedTags(data.tags))
      ensures NamesOf(tags, id) == SuppliedTags(data.tags)
      ensures forall other :: other != id ==> NamesOf(tags, other) == NamesOf(old(tags), other)
    {
      if id in cards {
        cards := cards[id := UpdatedCard(cards[id], data, now)];
      }
      UpdateCardTags(id, data.tags);
      echo := CardEcho(id, data);
    }

    /** moveCard: rewrites the column and the two timestamps of the row; reports how many rows matched. */
    method MoveCard(id: nat, column: string, now: string) returns (result: MoveResult)
      requires Valid()
      modifies this`cards
      ensures Valid()
      ensures result == MoveResult(id, column, if id in old(cards) then 1 else 0)
      ensures cards == if id in old(cards) then old(cards)[id := MovedCard(old(cards)[id], column, now)] else old(cards)
    {
      var changes := 0;
      if id in cards {
        cards := cards[id := MovedCard(cards[id], column, now)];
        changes := 1;
      }
      result := MoveResult(id, column, changes);
    }

    /**
     * deleteCard: removes the row; the schema's cascade removes the card's
     * tag rows and comments with it. Reports how many rows matched.
     */
    method DeleteCard(id: nat) returns (deletedCount: nat)
      requires Valid()
      modifies this`cards, this`tags, this`comments
      ensures Valid()
      ensures deletedCount == if id in old(cards) then 1 else 0
      ensures cards == old(cards) - {id}
      ensures tags == if id in old(cards) then WithoutCard(old(tags), id) else old(tags)
      ensures comments == if id in old(cards) then CommentsNotOf(old(comments), id) else old(comments)
      ensures GetCardById(id).None?
      ensures id in old(cards) ==> NamesOf(tags, id) == [] && GetCommentsByCardId(id) == []
    {
      deletedCount := 0;
      if id in cards {
        cards := cards - {id};
        tags := WithoutCard(tags, id);
        comments := CommentsNotOf(comments, id);
        deletedCount := 1;
        NamesOfWithoutCard(old(tags), id, id);
        NoCommentsOf(id);
      }
    }

    /** A card none of whose comments remain has an empty comment listing. */
    lemma NoCommentsOf(cardId: nat)
      requires Valid()
      requires forall k :: k in comments ==> comments[k].cardId != cardId
      ensures GetCommentsByCardId(cardId) == []
    {
      var r := GetCommentsByCardId(cardId);
      if r != [] {
        CommentsMember(cardId, r[0]);
      }
    }

    // -------------------------------------------------------------------
    // Comment writes
    // -------------------------------------------------------------------

    /** createComment: inserts one comment under a fresh id and resolves with it. */
    method CreateComment(cardId: nat, content: string, now: string) returns (created: Comment)
      requires Valid()
      modifies this`comments, this`nextCommentId
      ensures Valid()
      ensures created == Comment(old(nextCommentId), cardId, content, now)
      ensures created.id !in old(comments)
      ensures comments == old(comments)[created.id := created]
      ensures nextCommentId == old(nextCommentId) + 1
    {
      created := Comment(nextCommentId, cardId, content, now);
      comments := comments[created.id := created];
      nextCommentId := nextCommentId + 1;
    }

    /** updateComment: rewrites the content of that comment, or rejects with 'Comment not found'. */
    method UpdateComment(id: nat, content: string) returns (r: Outcome<CommentUpdate>)
      requires Valid()
      modifies this`comments
      ensures Valid()
      ensures id in old(comments) ==> r == Resolved(CommentUpdate(id, content, 1))
      ensures id !in old(comments) ==> r == Rejected(CommentNotFound)
      ensures comments == if id in old(comments) then old(comments)[id := old(comments)[id].(content := content)] else old(comments)
    {
      if id in comments {
        comments := comments[id := comments[id].(content := content)];
        r := Resolved(CommentUpdate(id, content, 1));
      } else {
        r := Rejected(CommentNotFound);
      }
    }

    /** deleteComment: removes that comment and reports one deletion, or rejects with 'Comment not found'. */
    method DeleteComment(id: nat) returns (r: Outcome<nat>)
      requires Valid()
      modifies this`comments
      ensures Valid()
      ensures id in old(comments) ==> r == Resolved(1)
      ensures id !in old(comments) ==> r == Rejected(CommentNotFound) && comments == old(comments)
      ensures comments == old(comments) - {id}
    {
      if id in comments {
        comments := comments - {id};
        r := Resolved(1);
      } else {
        r := Rejected(CommentNotFound);
      }
    }

    /** deleteCommentsByCardId: removes every comment of the card, however many, and reports the number. */
    method DeleteCommentsByCardId(cardId: nat) returns (deletedCount: nat)
      requires Valid()
      modifies this`comments
      ensures Valid()
      ensures comments == CommentsNotOf(old(comments), cardId)
      ensures deletedCount == |CommentIdsOf(old(comments), cardId)|
      ensures GetCommentsByCardId(cardId) == []
      ensures forall other :: other != cardId ==> GetCommentsByCardId(other) == old(GetCommentsByCardId(other))
    {
      deletedCount := |CommentIdsOf(comments, cardId)|;
      comments := CommentsNotOf(comments, cardId);
      NoCommentsOf(cardId);
      forall other | other != cardId ensures GetCommentsByCardId(other) == old(GetCommentsByCardId(other)) {
        FilterValuesAgree(comments, old(comments), nextCommentId, OfCard(other));
      }
    }
  }
}
