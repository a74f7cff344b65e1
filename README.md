# Kanban board: a verified model of its store, routes and client helpers

This project models the core of a small kanban board. The server keeps cards, their tags and their comments in SQLite (`models/Card.js`, `models/Comment.js`) and serves them as a JSON API (`routes/api.js`). The browser client (`public/js/app.js`) reads the tag field of the card forms, groups the history by completion day, formats today's date, summarises an import result and checks the shape of an import file.

The model has these modules:

- `Kanban` holds the store as one class, `Kanban.Board`. Its fields are the three tables plus the next row id of each keyed table. The queries are functions of that state. The writes are methods with `modifies` clauses whose `ensures` state the whole new state. The invariant `Valid` says three things:
  - every row sits under its own id, below the next id;
  - every completion stamp belongs to a card in the terminal column `done`;
  - every completion stamp was written by the card's last write (with one `now` per write; see "## Left out").
- `Api` holds the request handlers. Each one checks its guard, calls one store operation and maps the result to a status code and a body.
- `Client` holds the computations embedded in the client. The grouping of the history is imperative, as in the source: a keyed filing loop, then a sort of the keys, then a listing loop.
- `Text`, `Sorting`, `Rows` and `Optional` are the vocabulary the other modules share:
  - `Text` covers JavaScript `split`, `join` and `trim` on strings, decimal numerals, and text order;
  - `Sorting` covers `ORDER BY … DESC` and `sort().reverse()`;
  - `Rows` covers the rows of a table in id order, and `WHERE` as an order-keeping filter.

Time is a parameter. `now` is the timestamp of a write and `today` the calendar day of a query. Timestamps are text and compare as text, as SQLite compares them.

Three behaviours of the source shape the model:

- **Leaving `done` clears `completed_at`.** `updateCard` and `moveCard` write `null` into `completed_at` for every column other than `done` (`models/Card.js:122-125`, `:198-201`). So a card moved out of `done` loses its stamp, and moving it back stamps it again (`Kanban.MoveOutClearsCompletion`).
- **A card's tags can repeat.** The source inserts one tag row per supplied name, duplicates included (`models/Card.js:94-103`, `:158-167`). So `Kanban.NamesOf` is a sequence, not a set.
- **Only creation checks the title.** `POST /cards` answers 400 for a missing or empty title (`routes/api.js:41-43`). `PUT /cards/:id` has no such check and writes whatever title it is given (`routes/api.js:61-78`, `Kanban.UpdatedCard`).

## Model

| member | source | states |
|---|---|---|
| Text.Split | public/js/app.js:525 | JavaScript `split`: never an empty list, no piece holds the separator, and the input is one piece exactly when it holds no separator |
| Text.SplitJoin | models/Card.js:29 | splitting the separator-joined pieces gives the pieces back when none holds the separator |
| Text.Trim | public/js/app.js:525 | `trim()`: the result has no white space at either end and holds only characters of the input |
| Text.Join | models/Card.js:14 | `join(sep)` and `GROUP_CONCAT`: the pieces with the separator between each two; Text.SplitJoin and Text.JoinSplit prove it the inverse of Text.Split |
| Text.TrimShape | public/js/app.js:525 | `trim()` removes only a white-space run at the front and another at the back; what is left is a contiguous slice of the input |
| Sorting.Sort | models/Card.js:19 | the rows come out in ascending key order, a permutation of the input |
| Sorting.SortDesc | models/Card.js:19 | `ORDER BY key DESC`: descending key order, a permutation of the input |
| Rows.ValuesBelow | models/Card.js:15 | the rows of a keyed table are exactly the values stored under ids below the next id |
| Rows.Filter | models/Card.js:17 | `WHERE`: the rows that pass the test, in table order; its membership and multiplicity are proved by Rows.FilterMembers and Rows.FilterDistinct |
| Rows.FilterMembers | models/Card.js:17 | `WHERE`: a row is in the result exactly when it is in the table and passes the test, and every row of the result passes |
| Rows.FilterDistinct | models/Card.js:17 | `WHERE` never repeats a row more often than the table holds it, so a listing without repeats stays without |
| Rows.FilterValuesAgree | models/Comment.js:95 | two tables that agree on every row the test selects give the same filtered listing |
| Kanban.DateOf | models/Card.js:17 | `date(completed_at)`: the day has no `T` and is a prefix of the timestamp |
| Kanban.DateOfSplit | public/js/app.js:605 | the day SQLite's `date()` gives is `completed_at.split('T')[0]`, the key the client groups by |
| Kanban.DateOfIso | models/Card.js:17 | the day of `day + "T" + time` is `day` |
| Kanban.CompletionStamp | models/Card.js:121-125 | `completed_at` is set exactly when the new column is `done`, and then to the write's time |
| Kanban.NewCard | models/Card.js:80-87 | createCard's row: the title and due date as given, the description `''` and the column `'todo'` when missing or empty, created and updated now, not completed |
| Kanban.UpdatedCard | models/Card.js:119-134 | updateCard's row: id and created_at kept, every editable field overwritten as given (even when missing), updated now, completion stamped exactly for `done` |
| Kanban.MovedCard | models/Card.js:196-209 | moveCard's row: only the column, updated_at and completed_at change; completion is stamped exactly for `done` |
| Kanban.MoveOutClearsCompletion | models/Card.js:198-205 | moving a done card to another column clears its completion, and moving it back stamps it again with the new time |
| Kanban.NamesOf | models/Card.js:41-61 | `SELECT name FROM tags WHERE card_id = ?` mapped to names: the names of that card's tag rows, in row order; Kanban.ReplaceTags and its helpers prove how the writes change it |
| Kanban.WithoutCard | models/Card.js:151 | `DELETE FROM tags WHERE card_id = ?` leaves no row of that card |
| Kanban.RowsFor | models/Card.js:158-167 | one tag row per supplied name, in the order of the names |
| Kanban.NamesOfWithoutCard | models/Card.js:151 | after the delete, the card has no tag names and every other card keeps its own |
| Kanban.NamesOfRowsFor | models/Card.js:158-167 | the inserted rows give their card exactly the inserted names and no other card any |
| Kanban.ReplaceTags | models/Card.js:148-177 | delete then insert replaces and does not merge: the card has exactly the new names, every other card keeps its own |
| Kanban.TagListRoundTrip | models/Card.js:14-29 | `GROUP_CONCAT` then `split(',')` gives a card's tag names back exactly when none holds a comma and the names are not one empty name; a card with no tags lists `[]` |
| Kanban.GroupConcat | models/Card.js:14 | `GROUP_CONCAT(t.name)`: NULL for a card without tag rows, else the names joined by commas |
| Kanban.SplitTags | models/Card.js:29 | `row.tags ? row.tags.split(',') : []` |
| Kanban.TagList | models/Card.js:14-29 | the tag list a listing reports for a card; Kanban.TagListRoundTrip says exactly when it equals the card's names |
| Kanban.IsActive | models/Card.js:17 | the board's filter: no completion, or a completion on `today`; Kanban.Board.AllCardsMember proves the board lists exactly these cards |
| Kanban.InHistory | models/Card.js:228-233 | the history's filter: completed, and on the given day when one is given; Kanban.Board.HistoryMember proves the history lists exactly these cards |
| Kanban.TagWithCommaSplits | models/Card.js:29 | a tag named `a,b` is listed as the two tags `a` and `b` |
| Kanban.Views | models/Card.js:27-30 | each listed card carries its row and its split tag names, one entry per row, in order |
| Kanban.CommentsNotOf | models/Comment.js:95 | `DELETE FROM comments WHERE card_id = ?` keeps exactly the comments of other cards, unchanged |
| Kanban.Board.CardRowsMember | models/Card.js:15 | a card is listed exactly when it is stored under its own id |
| Kanban.Board.CommentRowsMember | models/Comment.js:12 | a comment is listed exactly when it is stored under its own id |
| Kanban.Board.GetAllCards | models/Card.js:9-35 | getAllCards: newest `created_at` first, a permutation of the active cards with their tags |
| Kanban.Board.GetHistoryCards | models/Card.js:220-251 | getHistoryCards: latest `completed_at` first, a permutation of the completed cards (of the given day) with their tags |
| Kanban.Board.GetCommentsByCardId | models/Comment.js:9-25 | getCommentsByCardId: newest `created_at` first, a permutation of that card's comments |
| Kanban.Board.GetCardById | models/Card.js:38-75 | getCardById: null exactly for an unknown id; otherwise the row, exactly its tag names and its comments newest first |
| Kanban.Board.AllCardsMember | models/Card.js:17-29 | a card is on the board exactly when it is stored, has no completion or was completed today, and it carries its split tag names |
| Kanban.Board.AllCardsOnce | models/Card.js:18 | `GROUP BY c.id`: the board lists no card twice |
| Kanban.Board.HistoryMember | models/Card.js:228-245 | a card is in the history exactly when it is stored and completed, on the given day when one is given, and it carries its split tag names |
| Kanban.Board.HistoryOnce | models/Card.js:237 | the history lists no card twice |
| Kanban.Board.HistoryCardsAreDone | models/Card.js:228 | every card in the history sits in `done`; its second clause, stamp equal to `updated_at`, holds only under the one-clock model (see "## Left out") |
| Kanban.Board.BoardOrHistory | models/Card.js:17 | every card is on the board or in the history; a card outside `done` is on the board and not in the history; it is in both exactly on its completion day |
| Kanban.Board.CommentsMember | models/Comment.js:11-14 | a comment is listed for a card exactly when it is stored and belongs to that card |
| Kanban.Board.CommentsOnce | models/Comment.js:11-14 | a card's comment listing repeats no comment |
| Kanban.Board.NoCommentsOf | models/Comment.js:11-14 | a card none of whose comments remain lists no comments |
| Kanban.Board.InsertTags | models/Card.js:95-103 | the tag inserts append one row per name, in order, and change nothing else |
| Kanban.Board.CreateCard | models/Card.js:78-114 | createCard: a fresh id, its row added and no other row changed, the next id advanced, one tag row per supplied tag appended; resolves with `{ id, ...cardData }` |
| Kanban.Board.UpdateCardTags | models/Card.js:148-177 | updateCardTags: the card's tag names become exactly the supplied ones, and every other card keeps its own |
| Kanban.Board.UpdateCard | models/Card.js:117-145 | updateCard: the row with that id, if any, is overwritten and no other row changes; the tags are replaced even when no row matched; resolves with the request either way |
| Kanban.Board.MoveCard | models/Card.js:196-217 | moveCard: the row is rewritten if present, nothing else changes; reports changes 1 for an existing id and 0 otherwise |
| Kanban.Board.DeleteCard | models/Card.js:180-193 | deleteCard: the row goes, its tag rows and comments go with it when it existed; reports the number of rows deleted; the card is then unknown and has no tags or comments |
| Kanban.Board.CreateComment | models/Comment.js:28-48 | createComment: a fresh id, the new comment stored and nothing else changed; resolves with that comment |
| Kanban.Board.UpdateComment | models/Comment.js:51-71 | updateComment: rewrites only the content of an existing comment and reports one change; rejects an unknown id with 'Comment not found' and changes nothing |
| Kanban.Board.DeleteComment | models/Comment.js:74-90 | deleteComment: removes an existing comment and reports one deletion; rejects an unknown id with 'Comment not found' and changes nothing |
| Kanban.Board.DeleteCommentsByCardId | models/Comment.js:93-105 | deleteCommentsByCardId: removes exactly that card's comments and reports how many; that card then lists none and every other card's listing is unchanged |
| Api.Guard | routes/api.js:41-43 | a 400 comes back exactly for a missing or empty title on POST /cards, column on a move, or content on a comment write; no other route has a guard |
| Api.CommentFailure | routes/api.js:162-167 | a failed comment write answers 404 exactly for 'Comment not found', and otherwise 500 with the route's own message |
| Api.HistoryDate | routes/api.js:111 | `req.query.date \|\| null`: a date filter exactly when the query gives a non-empty one |
| Api.ServeCard | routes/api.js:12-118 | the card routes past their guards: each one's status, body and whole new store, as Api.Handle states them |
| Api.ServeComment | routes/api.js:123-184 | the comment routes past their guards: each one's status, body and whole new store, as Api.Handle states them |
| Api.Handle | routes/api.js:12-184 | each route's status and body and the whole new store: the guards and reads leave it unchanged; each write changes only the tables its store operation changes, as that operation states, with the cascade of a card delete; PUT and DELETE on a card answer 200 whether or not the card exists; comment writes on an unknown id answer 404 and change nothing |
| Client.KeptTagsClean | public/js/app.js:525 | every kept tag is non-empty and trimmed, and holds no comma when no piece did |
| Client.ParseTags | public/js/app.js:524-525 | the tag field: nothing for an empty field; every tag is non-empty, trimmed and comma-free; which tags they are is fixed by Client.ParseTagsPiece and Client.ParseTagsConcat |
| Client.KeptTags | public/js/app.js:525 | `.map(tag => tag.trim()).filter(tag => tag)`: each piece trimmed, the empty ones dropped, in order; Client.KeptTagsClean and Client.KeptTagsAppend prove its shape and order |
| Client.ParseTagsPiece | public/js/app.js:525 | a field without a comma yields its trim as the one tag, or no tag when the trim is empty; with Client.ParseTagsConcat this fixes the result for every field |
| Client.ParseTagsConcat | public/js/app.js:525 | reading `a,b` gives the tags of `a` followed by those of `b` |
| Client.ParseTagsOfJoined | public/js/app.js:174 | saving the edit form unchanged reads back exactly the tags it was filled with (the `join(', ')` of line 174) when each is non-empty, trimmed and comma-free |
| Client.GroupKey | public/js/app.js:605 | the day a history card is filed under: `completed_at.split('T')[0]`, or 'unknown' without a stamp; Client.GroupKeyOfCompleted proves the day of an ISO stamp |
| Client.HavingMember | public/js/app.js:604-610 | a card is in the group of a key exactly when it is in the history and files under that key |
| Client.FileByKey | public/js/app.js:603-610 | the filing loop: each key is filed once, the keys are listed once each, each key's list is exactly its elements in input order and never empty, and every element's key is filed |
| Client.NewestFirst | public/js/app.js:613 | `keys.sort().reverse()` on distinct keys: the same keys, strictly descending |
| Client.ListGroups | public/js/app.js:613 | one group per sorted key, in that order, with that key's list |
| Client.GroupNewestFirst | public/js/app.js:603-613 | groups in strictly descending key order, each exactly the elements of its key in input order and non-empty, and every element has its group |
| Client.GroupHistory | public/js/app.js:594-613 | displayHistory's grouping: no groups for an empty history; days newest first; each day holds exactly the cards completed that day, in history order; every card has its day |
| Client.GroupKeyOfCompleted | public/js/app.js:605 | a card completed at `day + "T" + time` is filed under `day` |
| Client.PadStart2 | public/js/app.js:953-954 | `padStart(2, '0')`: a text of two or more characters is kept, a shorter one gets as many leading `'0'`s as bring it to two |
| Client.DateString | public/js/app.js:952-955 | setTodayDate's `${year}-${month}-${day}`; Client.DateStringRoundTrip proves it reads back as the date |
| Client.TwoDigits | public/js/app.js:953-954 | a month or day is written as two digits that read back as the number |
| Client.DateStringRoundTrip | public/js/app.js:950-955 | setTodayDate's text splits at the dashes into the year, the calendar month (one past `getMonth()`) and the day; it is ten characters long for a four-digit year |
| Client.FirstErrors | public/js/app.js:925 | `errors.slice(0, 3)`: the first three errors, or all of them when there are fewer |
| Client.SummaryLines | public/js/app.js:918-928 | the lines of executeImport's alert: the head lines, then the error lines; Client.ImportMessage and Client.ImportMessageLines prove the alert is these lines |
| Client.HeadLines | public/js/app.js:918-922 | the completion line, the imported count, and the skipped count only when it is positive |
| Client.ErrorLines | public/js/app.js:923-928 | with errors, their count, the first three and a line counting the rest when there are more than three; without errors, the empty line the trailing break leaves |
| Client.ImportMessage | public/js/app.js:918-929 | executeImport's alert text, appended piece by piece, is the summary lines joined by line breaks |
| Client.ImportMessageLines | public/js/app.js:918-929 | when no error message holds a line break, the alert splits into exactly the summary lines; with more than three errors it has 7 lines, or 8 when some were skipped |
| Client.ImportFileAccepted | public/js/app.js:857-859 | an accepted file is an object with a `cards` member; every object whose `cards` is an array is accepted, the empty array included |

## Left out

- SQLite itself is not modelled: its I/O, its errors (every `reject(err)` path and the 500 answers they lead to), and the promise callbacks and their interleaving. The tag inserts of one card run concurrently in the source; the model inserts them in order.
- The clock is a parameter. One `now` stands for both SQLite's `CURRENT_TIMESTAMP` (`updated_at`, and `created_at` by the schema's default) and JavaScript's `new Date().toISOString()` (`completed_at`, and the `created_at` that createComment resolves with). In the source these are two readings of the clock, taken moments apart (JavaScript reads it before the statement is issued, SQLite when the statement runs, to the second), in two text formats; they can fall in different seconds, and around midnight on different days.
- Kanban.Board.HistoryCardsAreDone: its second ensures, that `completed_at` equals `updated_at`, is an artefact of modelling both clock readings with one `now`; in the source the two strings are never equal. The same holds for the second conjunct of `Kanban.CompletionConsistent` in the invariant `Valid`. Only the first ensures, that a history card sits in `done`, is a property of the source.
- `date()` normalisation is taken to be "the text before the first `T`", which is what SQLite gives for ISO-8601 timestamps. Other timestamp formats, time zones and `date('now')` as a clock reading (it is the parameter `today`) are not modelled.
- The schema file is not part of this model. Three schema consequences are taken as stated instead:
  - row ids start at 1 and are never reused;
  - deleting a card cascades to its tags and comments;
  - no foreign key is checked when a comment or tag row is inserted.
- Path ids are taken as already parsed to numbers. Request bodies are taken as already decoded, with `tags` present as a list of strings or missing.
- Kanban.Board.GetAllCards: the order of cards with equal `created_at` is one of the orders SQL allows (an insertion sort, then a reversal). The same holds for GetHistoryCards and GetCommentsByCardId. The order of names inside `GROUP_CONCAT` is taken to be tag-row order, which SQLite does not promise.
- Sorting.Sort: strings compare by code point. JavaScript's `sort()` compares UTF-16 code units, which differ only outside the Basic Multilingual Plane.
- Text.Trim: the white-space set is written out as ECMAScript defines it. Unicode normalisation is not modelled.
- Client.DateStringRoundTrip: the round trip is stated for years of zero or more. `DateString` also formats negative years, with a minus sign that then splits as a dash.
- Client.GroupHistory: the groups are what the client renders. The HTML, `toLocaleDateString` and `escapeHtml` are left out, as are the rest of the DOM and rendering code and the overdue check that uses the clock.
- Client.ImportFileAccepted: `JSON.parse` failures are not modelled; the input is an already parsed document. The result's `errors` field is modelled as an optional list of texts. The import and export server routes are not part of this model.
