# Collaborative editor room server, modelled in Dafny

The server of this collaborative code editor keeps one in-memory table, `rooms`. It maps a room id to the room's code, its language, its single author socket, its list of viewer sockets and its comment log. Seven Socket.IO handlers read and change that table:

- `join-room`
- `code-change`
- `language-change`
- `run-code`
- `send-comment`
- `author-reply`
- `disconnect`

Node runs each handler to completion on one thread. The server is therefore a sequential transition system, and this project models it as one.

- `rooms.dfy` (module `Rooms`) holds the values:
  - rooms, comments and replies;
  - the messages the server emits, and the audience each event is addressed to;
  - the functions that specify each handler's effect on the table;
  - the invariant the table keeps.
- `server.dfy` (module `Server`) holds the class `RoomServer`. Its fields are:
  - the `rooms` table;
  - the order in which `for…in` visits the keys;
  - Socket.IO's own membership of each room name, which decides who receives `io.to(roomId)`;
  - an outbox of every emitted event, each carrying its audience and its resolved recipients.

  Each handler is one method. Its `ensures` gives the new state and the events emitted, in terms of the functions of `Rooms`. Every handler method keeps the table invariant `Valid()`; the two helper methods of `Disconnect` (its loop and the loop body) work on parts of the state and leave the invariant to `Disconnect`:
  - keys and visiting order agree;
  - a room with no author has no viewers and no comments;
  - the author and every listed viewer are joined to the room;
  - comment ids are unique.
- `room_properties.dfy` (module `RoomProperties`) proves what the handlers promise, over those functions.

The model reproduces the server's quirks as written:

- A viewer who joins while no author is set is never listed. This stays true after an author arrives.
- In a room that already has an author, a socket that joins as a viewer twice is listed twice.
- In a room that already has an author, a socket can join as a viewer and then as author, and then holds both roles.
- `language-change` accepts any string.
- `author-reply` broadcasts even when no comment has the id.
- `disconnect` sends `user-count` to every room in the table. For a room it deletes, that count is read from the stale room: it still says an author is present, and it counts the unfiltered viewers.

## Model

| member | source | states |
|---|---|---|
| Server.RoomServer.constructor | server/index.js:16 | The server starts with an empty table, no memberships and nothing emitted, and the table invariant holds. |
| Server.RoomServer.JoinRoom | server/index.js:21-50 | The socket joins the room's membership. The table entry becomes `Joined` of the old entry. A new id is appended to the visiting order. The joiner alone gets `room-data` with the new code, language, comments and whether it is now the author. The whole room, including the joiner, gets `user-count`. The invariant is kept. |
| Rooms.JoinKeepsTable | server/index.js:21-37 | Joining keeps the table invariant: the joiner is a member, so a newly recorded author or viewer is present, and the order gains exactly the new key. |
| Rooms.JoinedKeepsInvariant | server/index.js:23-37 | A joined room keeps the room invariant once the joiner is among its members. |
| RoomProperties.JoinCreatesDefaultRoom | server/index.js:23-31 | Joining an unknown id creates a room with code `// Start coding...\n`, language `python`, no viewers and no comments. Its author is the joiner exactly when it joined as author. |
| RoomProperties.JoinKeepsContent | server/index.js:23-37 | Joining an existing room leaves its code, language and comments untouched. |
| RoomProperties.AuthorJoinTakesSlot | server/index.js:33-34 | An author join makes the joiner the author, replacing any previous author (last writer wins), and leaves the viewers as they were. |
| RoomProperties.ViewerJoinRule | server/index.js:35-37 | A viewer join never changes the author. It appends the socket to the viewers when an author is set, and otherwise leaves the viewers unchanged. |
| RoomProperties.RoomDataIsAuthorExactly | server/index.js:39-44 | After the update, the author equals the joiner exactly when it asked for the slot or already held it. This is the `isAuthor` flag of `room-data`. |
| RoomProperties.EarlyViewerStaysUnregistered | server/index.js:33-37 | A viewer who joins a fresh room before any author is not listed, even after an author joins. |
| RoomProperties.ViewerThenAuthorHoldsBoth | server/index.js:33-37 | In a room that already has an author, a socket that joins as a viewer and then as author is both the author and a listed viewer. |
| RoomProperties.RepeatedViewerJoinListsTwice | server/index.js:35-36 | In a room that already has an author, two viewer joins by one socket add two occurrences of it to the viewers. |
| RoomProperties.JoinPresenceCounts | server/index.js:46-49 | The `user-count` after a join reports an author exactly when the joiner took the slot or one was set before. Its viewer count is the old list's length, plus one for a viewer join while an author is set, even when the socket was listed already. |
| Server.RoomServer.CodeChange | server/index.js:52-57 | Only from the room's author: code is replaced, nothing else changes, and `code-update` goes to the room minus the sender. From anyone else, or for an unknown room: no change and no event. |
| Server.RoomServer.LanguageChange | server/index.js:59-64 | Only from the room's author: language is replaced by any string, and `language-update` goes to the whole room. Otherwise no change and no event. |
| Server.RoomServer.RunCode | server/index.js:66-72 | The table never changes. From the author, exactly one `output` event, carrying the execution service's answer for the room's language and code, goes to the whole room. Otherwise nothing is emitted. The invariant is kept. |
| Server.RoomServer.SendComment | server/index.js:74-91 | Only from a listed viewer: exactly one comment, with no replies, is appended to the log. `new-comment` goes to the author socket alone. An `author-reply` with empty text and the new id goes to the room minus the sender. Otherwise no change and no event. The invariant, including unique ids, is kept. |
| RoomProperties.CommentExtendsHistory | server/index.js:84 | Appending a comment extends the log: earlier comments keep their position, contents and replies. |
| Rooms.FindComment | server/index.js:97 | Returns the index of the first comment with the id, or none exactly when no comment has it. |
| Rooms.WithReply | server/index.js:97-101 | The log keeps its length. The first comment with the id gets the reply appended to its replies. Every other comment is unchanged. |
| Server.RoomServer.AuthorReplies | server/index.js:93-104 | Only from the author: the log becomes `WithReply` of the old log, and the reply goes to the whole room even when no comment has the id. Otherwise no change and no event. |
| RoomProperties.ReplyExtendsHistory | server/index.js:97-101 | A reply only extends the log. |
| RoomProperties.ExtendsTransitive | server/index.js:84-101 | Log extension is transitive, so the log only grows across handlers. |
| RoomProperties.UnknownReplyIdChangesNothing | server/index.js:97-98 | A reply to an id no comment carries leaves the log unchanged. |
| RoomProperties.ReplyLandsOnItsComment | server/index.js:97-100 | With unique ids, a reply to comment j's id lands on comment j alone, at the end of its replies. |
| RoomProperties.ReplyKeepsIdsUnique | server/index.js:97-100 | Replies keep comment ids unique. |
| Rooms.Departed | server/index.js:106 | When a socket disconnects, Socket.IO drops it from every room's membership. The model keeps every room name as a key, with the remaining members (possibly none); Socket.IO itself forgets a room name once its last member leaves, which makes no difference because membership is only read through `MembersOf`, where a missing name means no members. |
| Rooms.Without | server/index.js:113 | Filtering keeps exactly the elements different from the socket, each as many times as before and with every occurrence of the socket removed. A list without the socket comes back unchanged. |
| Rooms.WithoutDistributes | server/index.js:113 | Filtering a concatenation filters each part and concatenates the results, so the kept elements stay in their order. |
| Rooms.WithoutOne | server/index.js:113 | Filtering a one-element list drops the element exactly when it is the socket. |
| Rooms.WithoutLength | server/index.js:113 | Filtering shortens the list by the number of occurrences of the socket. |
| Server.RoomServer.Disconnect | server/index.js:106-120 | Memberships lose the socket. The table becomes `Reaped`. The visiting order loses the deleted rooms. The outbox gains `DisconnectEvents` over the old visiting order. The invariant is kept. |
| Server.RoomServer.ReapAll | server/index.js:107-119 | The `for…in` loop visits every key once in order. It ends with the table `Reaped`, the order `Kept` and the emitted events `DisconnectEvents`. |
| Server.RoomServer.ReapRoomAt | server/index.js:108-118 | One iteration: an authored room is deleted and told `author-left`. Otherwise, a room listing the socket has it filtered out. Either way the room gets a `user-count` read from the local room. |
| Rooms.ReapKeysVisits | server/index.js:107-114 | After the loop over distinct keys, each visited room holds its reaped value (or is gone), and every other entry is as before. |
| Rooms.ReapKeysAll | server/index.js:107-114 | The loop over the table's keys gives `Reaped` of the table. |
| Rooms.Kept | server/index.js:109-110 | The surviving visiting order holds exactly the keys whose author is not the socket, and stays free of duplicates. |
| Rooms.KeptDistributes | server/index.js:107-110 | The surviving keys of a concatenation are those of each part, concatenated, so the survivors keep their relative order. |
| Rooms.KeptOne | server/index.js:109-110 | A single key survives exactly when the socket is not its author. |
| Rooms.DisconnectKeepsTable | server/index.js:106-120 | The table invariant holds after disconnect. |
| RoomProperties.ReapedForgetsSocket | server/index.js:109-113 | After disconnect, the table holds exactly the rooms the socket did not author. In each of them the viewers become `Without` of the old viewers: every occurrence of the socket is gone, and every other viewer keeps its multiplicity. Author, code, language and comments are unchanged. |
| RoomProperties.FilteredRoomCount | server/index.js:112-118 | A surviving room is sent exactly one `user-count`. It counts the old viewers minus every occurrence of the socket. |
| RoomProperties.ReapedLeavesStrangersAlone | server/index.js:109-114 | A room the socket neither authored nor viewed is unchanged. |
| RoomProperties.RejoinAfterAuthorLeftIsFresh | server/index.js:23-31 | After its author leaves, the room id is gone, and the next join of it creates a fresh default room. |
| RoomProperties.DeletedRoomCountIsStale | server/index.js:109-118 | For a deleted room, `author-left` is followed by a `user-count` that still reports an author and counts the unfiltered viewers. |
| RoomProperties.ReapEventsShape | server/index.js:108-118 | One iteration emits to its own room only, and ends with that room's `user-count`. It emits two events when the room is deleted and one otherwise, and `author-left` exactly when the room is deleted. |
| RoomProperties.DisconnectEventCount | server/index.js:107-119 | Disconnect emits one `user-count` per room plus one `author-left` per deleted room. |
| RoomProperties.DisconnectEventsGoToVisitedRooms | server/index.js:111-118 | Every disconnect event is addressed to a visited room, and reaches exactly the sockets still joined to it. |
| RoomProperties.DisconnectCountsEveryRoom | server/index.js:115-118 | Every room in the table receives a `user-count`. |
| RoomProperties.AuthorLeftExactlyForAuthoredRooms | server/index.js:109-111 | `author-left` goes to a room exactly when the disconnecting socket was its author. |

## Left out

- `server/compiler.js`, the HTTP call to the remote execution service, is not part of this model. It becomes the function-valued field `compile`, whose answer is opaque.
- The `await` in `run-code` is taken as atomic. Handlers that interleave with it are not modelled.
- Comment ids (`Date.now() + Math.random()`) and the `new Date()` timestamps are method parameters. `SendComment` requires the id to be unused in the room, because the source relies on the random id being fresh.
- Express, static serving, `dotenv`, `server.listen` and `console.log` are transport, bootstrap and logging.
- `public/script.js`, the browser page, is not part of this model.
- The visiting order of `for…in` is modelled as insertion order. JavaScript visits integer-like keys first, in numeric order; the model does not.
- Room ids that collide with a socket id, and ids such as `__proto__` that clash with `Object.prototype`, are not modelled. For `new-comment`, `io.to(author)` is taken to reach the author socket alone.
- `socket.to(roomId)` is modelled as the room's members minus the sender. Socket.IO's private room per socket is not modelled.
- `comment.replies = comment.replies || []` is not modelled: every stored comment is created with a replies list, so the line has no effect.
- The execution service is modelled as a deterministic function of language and code. Its error texts are part of its opaque answer. The real service may answer differently on different runs.

The model follows the code as written, including where stricter behaviour might be expected:

- `language-change` does no validation.
- The viewer list may contain the author and duplicates.
- The author slot is last writer wins, not first claim.
- `user-count` counts list entries.
