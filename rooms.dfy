/** Values of the collaborative-editor server: rooms, comments, replies,
    the events the server emits, and the pure functions that say what each
    socket handler does to one room. The class in server.dfy keeps the
    table of rooms and applies these functions in place. */
module Rooms {

  /** A room id is whatever string the client sends in `join-room`. */
  type RoomId = string

  /** A Socket.IO connection id. Socket.IO never hands out an empty id, so
      "an author is set" (JavaScript truthiness of `room.author`) is exactly
      `author.Some?`. */
  type SocketId = id: string | id != "" witness "socket"

  /** Comment ids are `Date.now() + Math.random()` in the server; here an
      opaque number that the caller supplies. */
  type CommentId = int

  /** A `new Date()` timestamp, supplied by the caller. */
  type Time = int

  const DefaultCode: string := "// Start coding...\n"
  const DefaultLanguage: string := "python"

  datatype Option<T> = None | Some(value: T)

  datatype Reply = Reply(commentId: CommentId, text: string, time: Time)

  datatype Comment = Comment(id: CommentId, viewerId: SocketId, comment: string, time: Time,
                             replies: seq<Reply>)

  /** One entry of the server's `rooms` table. */
  datatype Room = Room(code: string, language: string, author: Option<SocketId>,
                       viewers: seq<SocketId>, comments: seq<Comment>)

  /** Who an emission is addressed to, as the handler writes it:
      `socket.emit` (ToSocket), `io.to(room)` (ToRoom) or
      `socket.to(room)` (ToRoomExcept, the room minus the sender). */
  datatype Audience =
    | ToSocket(socket: SocketId)
    | ToRoom(room: RoomId)
    | ToRoomExcept(room: RoomId, sender: SocketId)

  datatype Message =
    | RoomData(code: string, language: string, isAuthor: bool, comments: seq<Comment>)
    | UserCount(author: bool, viewers: nat)
    | CodeUpdate(code: string)
    | LanguageUpdate(language: string)
    | Output(output: string)
    | NewComment(comment: Comment)
    | AuthorReply(reply: Reply)
    | AuthorLeft

  /** One emission: its audience, the sockets that audience resolved to at
      the moment of emission, and the payload. */
  datatype Event = Event(audience: Audience, recipients: set<SocketId>, msg: Message)

  predicate Distinct<T(==)>(xs: seq<T>) {
    forall i, j :: 0 <= i < j < |xs| ==> xs[i] != xs[j]
  }

  function Lookup(rooms: map<RoomId, Room>, r: RoomId): Option<Room> {
    if r in rooms then Some(rooms[r]) else None
  }

  /** The transport-level members of a Socket.IO room (nobody if the room
      was never joined). */
  function MembersOf(members: map<RoomId, set<SocketId>>, r: RoomId): set<SocketId> {
    if r in members then members[r] else {}
  }

  /** Socket.IO takes a disconnecting socket out of every room it joined
      before the `disconnect` handler runs. Socket.IO forgets a room name
      once it is empty; the model keeps the key with no members, which reads
      the same through `MembersOf`. */
  function Departed(members: map<RoomId, set<SocketId>>, s: SocketId)
    : (m: map<RoomId, set<SocketId>>)
    ensures m.Keys == members.Keys
    ensures forall r :: MembersOf(m, r) == MembersOf(members, r) - {s}
  {
    map r | r in members :: members[r] - {s}
  }

  /** `rooms[roomId]?.author === socket.id` */
  predicate IsAuthor(rooms: map<RoomId, Room>, r: RoomId, s: SocketId) {
    r in rooms && rooms[r].author == Some(s)
  }

  /** `rooms[roomId]?.viewers.includes(socket.id)` */
  predicate IsViewer(rooms: map<RoomId, Room>, r: RoomId, s: SocketId) {
    r in rooms && s in rooms[r].viewers
  }

  /** The room `join-room` creates for an unknown id. */
  function NewRoom(author: Option<SocketId>): Room {
    Room(DefaultCode, DefaultLanguage, author, [], [])
  }

  /** The room after socket `s` joins it: create it if absent, then the
      author slot is taken by every author join (last writer wins), and a
      viewer join is recorded only when an author is already set. */
  function Joined(existing: Option<Room>, s: SocketId, isAuthor: bool): Room {
    var room := if existing.Some? then existing.value else NewRoom(if isAuthor then Some(s) else None);
    if isAuthor then room.(author := Some(s))
    else if room.author.Some? then room.(viewers := room.viewers + [s])
    else room
  }

  /** The `user-count` payload for a room. */
  function Presence(room: Room): Message {
    UserCount(room.author.Some?, |room.viewers|)
  }

  /** `xs.filter(y => y !== x)` */
  function Without<T(==,!new)>(xs: seq<T>, x: T): (r: seq<T>)
    ensures forall y :: y in r <==> y in xs && y != x
    ensures x !in xs ==> r == xs
    ensures multiset(r) == multiset(xs)[x := 0]
  {
    if xs == [] then []
    else
      assert xs == [xs[0]] + xs[1..];
      (if xs[0] == x then [] else [xs[0]]) + Without(xs[1..], x)
  }

  /** Filtering keeps the order of what it keeps: it works piece by piece,
      so together with `WithoutOne` this pins down the result. */
  lemma {:induction false} WithoutDistributes<T(!new)>(a: seq<T>, b: seq<T>, x: T)
    ensures Without(a + b, x) == Without(a, x) + Without(b, x)
    decreases |a|
  {
    if a == [] {
      assert a + b == b;
    } else {
      var head := if a[0] == x then [] else [a[0]];
      assert (a + b)[0] == a[0];
      assert (a + b)[1..] == a[1..] + b;
      calc {
        Without(a + b, x);
        head + Without(a[1..] + b, x);
        { WithoutDistributes(a[1..], b, x); }
        head + (Without(a[1..], x) + Without(b, x));
        { AppendAssociates(head, Without(a[1..], x), Without(b, x)); }
        head + Without(a[1..], x) + Without(b, x);
        Without(a, x) + Without(b, x);
      }
    }
  }

  /** Filtering a single element drops it exactly when it is the socket. */
  lemma WithoutOne<T(!new)>(y: T, x: T)
    ensures Without([y], x) == if y == x then [] else [y]
  {
    assert [y][1..] == [];
  }

  /** Filtering shortens the list by the number of occurrences removed. */
  lemma WithoutLength<T(!new)>(xs: seq<T>, x: T)
    ensures |Without(xs, x)| == |xs| - multiset(xs)[x]
  {
    var r := Without(xs, x);
    assert |multiset(r)| == |r| && |multiset(xs)| == |xs|;
    assert multiset(xs) == multiset(r) + multiset{}[x := multiset(xs)[x]];
  }

  /** `comments.find(c => c.id === id)`, as the index of the first match. */
  function FindComment(comments: seq<Comment>, id: CommentId): (k: Option<nat>)
    ensures k.Some? ==> k.value < |comments| && comments[k.value].id == id
    ensures k.Some? ==> forall j :: 0 <= j < k.value ==> comments[j].id != id
    ensures k.None? <==> forall j :: 0 <= j < |comments| ==> comments[j].id != id
  {
    if comments == [] then None
    else if comments[0].id == id then Some(0)
    else match FindComment(comments[1..], id)
      case None => None
      case Some(k) => Some(k + 1)
  }

  /** The comment log after `author-reply`: the reply is pushed onto the
      replies of the first comment with that id, if there is one. */
  function WithReply(comments: seq<Comment>, id: CommentId, reply: Reply): (r: seq<Comment>)
    ensures |r| == |comments|
    ensures forall j :: 0 <= j < |comments| ==>
      r[j] == if comments[j].id == id && (forall i :: 0 <= i < j ==> comments[i].id != id)
              then comments[j].(replies := comments[j].replies + [reply])
              else comments[j]
  {
    match FindComment(comments, id)
    case None => comments
    case Some(k) => comments[k := comments[k].(replies := comments[k].replies + [reply])]
  }

  predicate UniqueIds(comments: seq<Comment>) {
    forall i, j :: 0 <= i < j < |comments| ==> comments[i].id != comments[j].id
  }

  /** What the server keeps true of every room in its table, given the
      sockets that are transport members of that room: a room without an
      author has no viewers and no comments; the author and every viewer
      joined the room; comment ids are unique. */
  predicate RoomInvariant(room: Room, present: set<SocketId>) {
    && (room.author.None? ==> room.viewers == [] && room.comments == [])
    && (room.author.Some? ==> room.author.value in present)
    && (forall v :: v in room.viewers ==> v in present)
    && UniqueIds(room.comments)
  }

  /** `join-room` keeps the room invariant once the joiner is a member. */
  lemma JoinedKeepsInvariant(existing: Option<Room>, before: set<SocketId>, present: set<SocketId>,
                             s: SocketId, isAuthor: bool)
    requires existing.Some? ==> RoomInvariant(existing.value, before)
    requires before <= present && s in present
    ensures RoomInvariant(Joined(existing, s, isAuthor), present)
  {
  }

  /** What the server keeps true of the whole table: `order` lists every key
      exactly once, and every room keeps RoomInvariant. */
  ghost predicate TableInvariant(rooms: map<RoomId, Room>, order: seq<RoomId>,
                                 members: map<RoomId, set<SocketId>>) {
    && Distinct(order)
    && (forall k :: k in rooms <==> k in order)
    && forall k :: k in rooms ==> RoomInvariant(rooms[k], MembersOf(members, k))
  }

  /** `join-room` keeps the table invariant. */
  lemma JoinKeepsTable(rooms: map<RoomId, Room>, order: seq<RoomId>, members: map<RoomId, set<SocketId>>,
                       r: RoomId, s: SocketId, isAuthor: bool)
    requires TableInvariant(rooms, order, members)
    ensures TableInvariant(rooms[r := Joined(Lookup(rooms, r), s, isAuthor)],
                           if r in rooms then order else order + [r],
                           members[r := MembersOf(members, r) + {s}])
  {
    var members' := members[r := MembersOf(members, r) + {s}];
    var rooms' := rooms[r := Joined(Lookup(rooms, r), s, isAuthor)];
    JoinedKeepsInvariant(Lookup(rooms, r), MembersOf(members, r), MembersOf(members', r), s, isAuthor);
    forall k | k in rooms' ensures RoomInvariant(rooms'[k], MembersOf(members', k)) {
      if k != r {
        assert MembersOf(members', k) == MembersOf(members, k);
      }
    }
  }

  /** The comment history of `b` extends that of `a`: earlier comments keep
      their place and contents, and each one's replies only grow at the end. */
  ghost predicate Extends(a: seq<Comment>, b: seq<Comment>) {
    && |a| <= |b|
    && forall i :: 0 <= i < |a| ==>
         && b[i].(replies := []) == a[i].(replies := [])
         && a[i].replies <= b[i].replies
  }

  /** One iteration of the `disconnect` loop on a room: None when the room is
      deleted because `s` was its author, otherwise the room with every
      occurrence of `s` filtered out of its viewers. */
  function ReapRoom(room: Room, s: SocketId): Option<Room> {
    if room.author == Some(s) then None
    else if s in room.viewers then Some(room.(viewers := Without(room.viewers, s)))
    else Some(room)
  }

  /** The whole table after `disconnect` of `s`. */
  function Reaped(rooms: map<RoomId, Room>, s: SocketId): map<RoomId, Room> {
    map k | k in rooms && ReapRoom(rooms[k], s).Some? :: ReapRoom(rooms[k], s).value
  }

  /** One iteration of the `disconnect` loop on the table, for key `k`. */
  function ReapStep(rooms: map<RoomId, Room>, k: RoomId, s: SocketId): map<RoomId, Room> {
    if k !in rooms then rooms
    else match ReapRoom(rooms[k], s)
      case None => rooms - {k}
      case Some(room) => rooms[k := room]
  }

  /** The table after the `disconnect` loop has visited `keys`, in order. */
  function ReapKeys(rooms: map<RoomId, Room>, keys: seq<RoomId>, s: SocketId): map<RoomId, Room>
    decreases |keys|
  {
    if keys == [] then rooms
    else ReapStep(ReapKeys(rooms, keys[..|keys| - 1], s), keys[|keys| - 1], s)
  }

  /** After visiting distinct `keys`, the visited rooms are reaped and the
      others are untouched. */
  lemma {:induction false} ReapKeysVisits(rooms: map<RoomId, Room>, keys: seq<RoomId>, s: SocketId,
                                          k: RoomId)
    requires Distinct(keys)
    ensures Lookup(ReapKeys(rooms, keys, s), k) ==
      if k in keys && k in rooms then ReapRoom(rooms[k], s) else Lookup(rooms, k)
    decreases |keys|
  {
    if keys != [] {
      var front, last := keys[..|keys| - 1], keys[|keys| - 1];
      assert keys == front + [last];
      assert Distinct(front);
      ReapKeysVisits(rooms, front, s, k);
      ReapKeysVisits(rooms, front, s, last);
      assert last !in front;
    }
  }

  /** Visiting every key of the table, once each, reaps the whole table. */
  lemma ReapKeysAll(rooms: map<RoomId, Room>, keys: seq<RoomId>, s: SocketId)
    requires Distinct(keys)
    requires forall k :: k in rooms <==> k in keys
    ensures ReapKeys(rooms, keys, s) == Reaped(rooms, s)
  {
    var after := ReapKeys(rooms, keys, s);
    forall k ensures Lookup(after, k) == Lookup(Reaped(rooms, s), k) {
      ReapKeysVisits(rooms, keys, s, k);
    }
    assert forall k :: k in after <==> Lookup(after, k).Some?;
  }

  /** The key order of the table once the rooms authored by `s` are deleted. */
  function Kept(keys: seq<RoomId>, rooms: map<RoomId, Room>, s: SocketId): (r: seq<RoomId>)
    requires forall k :: k in keys ==> k in rooms
    ensures forall k :: k in r <==> k in keys && rooms[k].author != Some(s)
    ensures Distinct(keys) ==> Distinct(r)
    decreases |keys|
  {
    if keys == [] then []
    else
      var last := keys[|keys| - 1];
      var front := Kept(keys[..|keys| - 1], rooms, s);
      assert Distinct(keys) ==> last !in keys[..|keys| - 1];
      if rooms[last].author == Some(s) then front else front + [last]
  }

  /** The surviving keys keep their relative order: `Kept` works piece by
      piece, and on a single key it is `KeptOne`. */
  lemma {:induction false} KeptDistributes(a: seq<RoomId>, b: seq<RoomId>, rooms: map<RoomId, Room>,
                                           s: SocketId)
    requires forall k :: k in a ==> k in rooms
    requires forall k :: k in b ==> k in rooms
    ensures Kept(a + b, rooms, s) == Kept(a, rooms, s) + Kept(b, rooms, s)
    decreases |b|
  {
    if b == [] {
      assert a + b == a;
    } else {
      var front, last := b[..|b| - 1], b[|b| - 1];
      var ab := a + b;
      assert ab[..|ab| - 1] == a + front;
      assert ab[|ab| - 1] == last;
      var tail := if rooms[last].author == Some(s) then [] else [last];
      assert Kept(ab, rooms, s) == Kept(a + front, rooms, s) + tail;
      assert Kept(b, rooms, s) == Kept(front, rooms, s) + tail;
      KeptDistributes(a, front, rooms, s);
      AppendAssociates(Kept(a, rooms, s), Kept(front, rooms, s), tail);
    }
  }

  /** On a single key, `Kept` keeps exactly a key not authored by `s`. */
  lemma KeptOne(k: RoomId, rooms: map<RoomId, Room>, s: SocketId)
    requires k in rooms
    ensures Kept([k], rooms, s) == if rooms[k].author == Some(s) then [] else [k]
  {
    assert [k][..0] == [];
  }

  /** What one iteration of the `disconnect` loop emits for room `k`, whose
      transport members are `present`. A deleted room is announced with
      `author-left`, and its `user-count` is read from the stale room, so it
      still reports an author and the unfiltered viewers. */
  function ReapEvents(k: RoomId, room: Room, present: set<SocketId>, s: SocketId): seq<Event> {
    if room.author == Some(s) then
      [Event(ToRoom(k), present, AuthorLeft), Event(ToRoom(k), present, Presence(room))]
    else if s in room.viewers then
      [Event(ToRoom(k), present, Presence(room.(viewers := Without(room.viewers, s))))]
    else [Event(ToRoom(k), present, Presence(room))]
  }

  /** Everything `disconnect` emits, room by room in key order. */
  function DisconnectEvents(keys: seq<RoomId>, rooms: map<RoomId, Room>,
                            members: map<RoomId, set<SocketId>>, s: SocketId): seq<Event>
    requires forall k :: k in keys ==> k in rooms
    decreases |keys|
  {
    if keys == [] then []
    else
      var last := keys[|keys| - 1];
      DisconnectEvents(keys[..|keys| - 1], rooms, members, s)
        + ReapEvents(last, rooms[last], MembersOf(members, last), s)
  }

  lemma AppendAssociates<T>(a: seq<T>, b: seq<T>, c: seq<T>)
    ensures a + b + c == a + (b + c)
  {
  }

  /** One more iteration of the `disconnect` loop, for the folds above. */
  lemma DisconnectLoopStep(rooms: map<RoomId, Room>, members: map<RoomId, set<SocketId>>,
                           keys: seq<RoomId>, i: nat, s: SocketId)
    requires i < |keys|
    requires forall k :: k in keys ==> k in rooms
    ensures ReapKeys(rooms, keys[..i + 1], s) == ReapStep(ReapKeys(rooms, keys[..i], s), keys[i], s)
    ensures Kept(keys[..i + 1], rooms, s) ==
      if rooms[keys[i]].author == Some(s) then Kept(keys[..i], rooms, s)
      else Kept(keys[..i], rooms, s) + [keys[i]]
    ensures DisconnectEvents(keys[..i + 1], rooms, members, s) ==
      DisconnectEvents(keys[..i], rooms, members, s)
        + ReapEvents(keys[i], rooms[keys[i]], MembersOf(members, keys[i]), s)
  {
    assert keys[..i + 1][..i] == keys[..i];
  }

  /** The key order after one more iteration of the `disconnect` loop. */
  lemma KeptLoopStep(rooms: map<RoomId, Room>, keys: seq<RoomId>, i: nat, s: SocketId)
    requires i < |keys| && Distinct(keys)
    requires forall k :: k in keys ==> k in rooms
    ensures var k := keys[i];
      (if rooms[k].author == Some(s) then Without(Kept(keys[..i], rooms, s) + keys[i..], k)
       else Kept(keys[..i], rooms, s) + keys[i..])
      == Kept(keys[..i + 1], rooms, s) + keys[i + 1..]
  {
    var k := keys[i];
    var front := Kept(keys[..i], rooms, s);
    assert keys[..i + 1][..i] == keys[..i];
    assert front + keys[i..] == front + [k] + keys[i + 1..];
    assert forall j :: 0 <= j < |keys| && j != i ==> keys[j] != k;
    assert k !in keys[..i];
    assert k !in keys[i + 1..];
    if rooms[k].author == Some(s) {
      WithoutAbsent(front, k, keys[i + 1..]);
    }
  }

  /** Removing a key that occurs once, between two runs that lack it. */
  lemma {:induction false} WithoutAbsent(a: seq<RoomId>, x: RoomId, b: seq<RoomId>)
    requires x !in a && x !in b
    ensures Without(a + [x] + b, x) == a + b
  {
    var xs := a + [x] + b;
    if a == [] {
      assert xs == [x] + b && xs[0] == x && xs[1..] == b;
      assert Without(xs, x) == [] + Without(b, x);
    } else {
      assert xs[0] == a[0] && xs[1..] == a[1..] + [x] + b;
      WithoutAbsent(a[1..], x, b);
      assert Without(xs, x) == [a[0]] + Without(xs[1..], x);
      assert a == [a[0]] + a[1..];
    }
  }

  /** Everything one iteration of the `disconnect` loop needs: the room it
      visits is still as it was, and each fold advances by one step. */
  lemma ReapLoopStep(rooms: map<RoomId, Room>, members: map<RoomId, set<SocketId>>,
                     keys: seq<RoomId>, i: nat, s: SocketId)
    requires i < |keys| && Distinct(keys)
    requires forall k :: k in keys ==> k in rooms
    ensures var k, now := keys[i], ReapKeys(rooms, keys[..i], s);
      && k in now && now[k] == rooms[k]
      && ReapStep(now, k, s) == ReapKeys(rooms, keys[..i + 1], s)
      && (if rooms[k].author == Some(s) then Without(Kept(keys[..i], rooms, s) + keys[i..], k)
          else Kept(keys[..i], rooms, s) + keys[i..])
         == Kept(keys[..i + 1], rooms, s) + keys[i + 1..]
      && DisconnectEvents(keys[..i], rooms, members, s) + ReapEvents(k, rooms[k], MembersOf(members, k), s)
         == DisconnectEvents(keys[..i + 1], rooms, members, s)
  {
    DisconnectLoopStep(rooms, members, keys, i, s);
    ReapKeysVisits(rooms, keys[..i], s, keys[i]);
    KeptLoopStep(rooms, keys, i, s);
    assert keys[i] !in keys[..i];
  }

  /** `disconnect` keeps the table invariant. */
  lemma DisconnectKeepsTable(rooms: map<RoomId, Room>, order: seq<RoomId>,
                             members: map<RoomId, set<SocketId>>, s: SocketId)
    requires TableInvariant(rooms, order, members)
    ensures TableInvariant(Reaped(rooms, s), Kept(order, rooms, s), Departed(members, s))
  {
    var rooms', members' := Reaped(rooms, s), Departed(members, s);
    forall k | k in rooms' ensures RoomInvariant(rooms'[k], MembersOf(members', k)) {
      assert RoomInvariant(rooms[k], MembersOf(members, k));
    }
  }
}
