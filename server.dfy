/** The Socket.IO server of the collaborative editor: the in-memory `rooms`
    table and the handlers that read and update it. Node runs each handler
    to completion on one thread, so each handler is one method here and the
    server is a sequential transition system. */
module Server {
  import opened Rooms

  class RoomServer {
    /** The `rooms` table. */
    var rooms: map<RoomId, Room>
    /** The order in which `for (const roomId in rooms)` visits the keys:
        insertion order. */
    var order: seq<RoomId>
    /** Socket.IO's own room membership: who joined which room name with
        `socket.join`, which decides who receives `io.to(roomId)`. */
    var members: map<RoomId, set<SocketId>>
    /** Every emission so far, oldest first. */
    var outbox: seq<Event>
    /** `compileCode(language, code)`: the remote execution service, whose
        answer (output or error text) is opaque to the server. */
    const compile: (string, string) -> string

    ghost predicate Valid()
      reads this
    {
      TableInvariant(rooms, order, members)
    }

    function Members(r: RoomId): set<SocketId>
      reads this
    {
      MembersOf(members, r)
    }

    constructor (compile: (string, string) -> string)
      ensures Valid()
      ensures rooms == map[] && order == [] && members == map[] && outbox == []
      ensures this.compile == compile
    {
      rooms, order, members, outbox := map[], [], map[], [];
      this.compile := compile;
    }

    /** `join-room`: join the Socket.IO room, create the table entry on first
        use, apply the author/viewer rule, answer the joiner with
        `room-data` and send `user-count` to the whole room. */
    method JoinRoom(r: RoomId, s: SocketId, isAuthor: bool)
      requires Valid()
      modifies this
      ensures Valid()
      ensures members == old(members)[r := old(Members(r)) + {s}]
      ensures rooms == old(rooms)[r := Joined(Lookup(old(rooms), r), s, isAuthor)]
      ensures order == if r in old(rooms) then old(order) else old(order) + [r]
      ensures outbox == old(outbox) + [
        Event(ToSocket(s), {s},
              RoomData(rooms[r].code, rooms[r].language, rooms[r].author == Some(s), rooms[r].comments)),
        Event(ToRoom(r), Members(r), Presence(rooms[r]))]
    {
      JoinKeepsTable(rooms, order, members, r, s, isAuthor);
      ghost var joined := Joined(Lookup(rooms, r), s, isAuthor);
      members := members[r := Members(r) + {s}];
      if r !in rooms {
        rooms := rooms[r := NewRoom(if isAuthor then Some(s) else None)];
        order := order + [r];
      }
      var room := rooms[r];
      if isAuthor {
        room := room.(author := Some(s));
      } else if room.author.Some? {
        room := room.(viewers := room.viewers + [s]);
      }
      assert room == joined;
      rooms := rooms[r := room];
      assert TableInvariant(rooms, order, members);
      var data := RoomData(room.code, room.language, room.author == Some(s), room.comments);
      outbox := outbox + [Event(ToSocket(s), {s}, data)];
      outbox := outbox + [Event(ToRoom(r), Members(r), Presence(room))];
    }

    /** `code-change`: only the room's author may replace the code; the new
        code goes to everybody in the room but the sender. */
    method CodeChange(r: RoomId, s: SocketId, code: string)
      requires Valid()
      modifies this
      ensures Valid()
      ensures members == old(members) && order == old(order)
      ensures old(IsAuthor(rooms, r, s)) ==>
        && rooms == old(rooms)[r := old(rooms)[r].(code := code)]
        && outbox == old(outbox) + [Event(ToRoomExcept(r, s), Members(r) - {s}, CodeUpdate(code))]
      ensures !old(IsAuthor(rooms, r, s)) ==> rooms == old(rooms) && outbox == old(outbox)
    {
      if IsAuthor(rooms, r, s) {
        rooms := rooms[r := rooms[r].(code := code)];
        outbox := outbox + [Event(ToRoomExcept(r, s), Members(r) - {s}, CodeUpdate(code))];
      }
    }

    /** `language-change`: only the room's author may set the language, to
        any string at all; the change goes to the whole room. */
    method LanguageChange(r: RoomId, s: SocketId, language: string)
      requires Valid()
      modifies this
      ensures Valid()
      ensures members == old(members) && order == old(order)
      ensures old(IsAuthor(rooms, r, s)) ==>
        && rooms == old(rooms)[r := old(rooms)[r].(language := language)]
        && outbox == old(outbox) + [Event(ToRoom(r), Members(r), LanguageUpdate(language))]
      ensures !old(IsAuthor(rooms, r, s)) ==> rooms == old(rooms) && outbox == old(outbox)
    {
      if IsAuthor(rooms, r, s) {
        rooms := rooms[r := rooms[r].(language := language)];
        outbox := outbox + [Event(ToRoom(r), Members(r), LanguageUpdate(language))];
      }
    }

    /** `run-code`: only the room's author may run the code; the execution
        service's answer goes to the whole room. */
    method RunCode(r: RoomId, s: SocketId)
      requires Valid()
      modifies this`outbox
      ensures Valid()
      ensures rooms == old(rooms) && members == old(members) && order == old(order)
      ensures IsAuthor(rooms, r, s) ==>
        var output := compile(rooms[r].language, rooms[r].code);
        outbox == old(outbox) + [Event(ToRoom(r), Members(r), Output(output))]
      ensures !IsAuthor(rooms, r, s) ==> outbox == old(outbox)
    {
      if IsAuthor(rooms, r, s) {
        var room := rooms[r];
        var output := compile(room.language, room.code);
        outbox := outbox + [Event(ToRoom(r), Members(r), Output(output))];
      }
    }

    /** `send-comment`: only a socket listed among the room's viewers may
        comment. The comment, with no replies, is appended to the log and
        sent to the author alone; the rest of the room but the sender gets
        an `author-reply` with empty text and the new id. `id` and `now`
        stand for `Date.now() + Math.random()` and `new Date()`. */
    method SendComment(r: RoomId, s: SocketId, text: string, id: CommentId, now: Time)
      requires Valid()
      requires r in rooms ==> forall c :: c in rooms[r].comments ==> c.id != id
      modifies this
      ensures Valid()
      ensures members == old(members) && order == old(order)
      ensures old(IsViewer(rooms, r, s)) ==>
        var c := Comment(id, s, text, now, []);
        var author := old(rooms)[r].author.value;
        && rooms == old(rooms)[r := old(rooms)[r].(comments := old(rooms)[r].comments + [c])]
        && outbox == old(outbox) + [
             Event(ToSocket(author), {author}, NewComment(c)),
             Event(ToRoomExcept(r, s), Members(r) - {s}, AuthorReply(Reply(id, "", now)))]
      ensures !old(IsViewer(rooms, r, s)) ==> rooms == old(rooms) && outbox == old(outbox)
    {
      if IsViewer(rooms, r, s) {
        var c := Comment(id, s, text, now, []);
        var room := rooms[r];
        rooms := rooms[r := room.(comments := room.comments + [c])];
        match room.author {
          case Some(author) =>
            outbox := outbox + [Event(ToSocket(author), {author}, NewComment(c))];
          case None =>
        }
        outbox := outbox + [Event(ToRoomExcept(r, s), Members(r) - {s}, AuthorReply(Reply(id, "", now)))];
      }
    }

    /** `author-reply`: only the room's author may reply. The reply is pushed
        onto the first comment with the given id, if any, and is sent to the
        whole room either way. */
    method AuthorReplies(r: RoomId, s: SocketId, id: CommentId, text: string, now: Time)
      requires Valid()
      modifies this
      ensures Valid()
      ensures members == old(members) && order == old(order)
      ensures old(IsAuthor(rooms, r, s)) ==>
        var reply := Reply(id, text, now);
        && rooms == old(rooms)[r := old(rooms)[r].(comments := WithReply(old(rooms)[r].comments, id, reply))]
        && outbox == old(outbox) + [Event(ToRoom(r), Members(r), AuthorReply(reply))]
      ensures !old(IsAuthor(rooms, r, s)) ==> rooms == old(rooms) && outbox == old(outbox)
    {
      if IsAuthor(rooms, r, s) {
        var room := rooms[r];
        var reply := Reply(id, text, now);
        var found := FindComment(room.comments, id);
        match found {
          case Some(k) =>
            var comment := room.comments[k];
            room := room.(comments := room.comments[k := comment.(replies := comment.replies + [reply])]);
            rooms := rooms[r := room];
          case None =>
        }
        outbox := outbox + [Event(ToRoom(r), Members(r), AuthorReply(reply))];
      }
    }

    /** `disconnect`: Socket.IO first removes the socket from every room it
        joined; then, for every room in the table in key order, a room the
        socket authored is deleted and told `author-left`, any other room has
        the socket filtered out of its viewers, and every room is sent a
        `user-count`. */
    method Disconnect(s: SocketId)
      requires Valid()
      modifies this
      ensures Valid()
      ensures members == Departed(old(members), s)
      ensures rooms == Reaped(old(rooms), s)
      ensures order == Kept(old(order), old(rooms), s)
      ensures outbox == old(outbox) + DisconnectEvents(old(order), old(rooms), members, s)
    {
      DisconnectKeepsTable(rooms, order, members, s);
      members := Departed(members, s);
      ReapAll(s);
    }

    /** The `for (const roomId in rooms)` loop of `disconnect`. */
    method ReapAll(s: SocketId)
      requires Distinct(order) && forall k :: k in rooms <==> k in order
      modifies this`rooms, this`order, this`outbox
      ensures rooms == Reaped(old(rooms), s)
      ensures order == Kept(old(order), old(rooms), s)
      ensures outbox == old(outbox) + DisconnectEvents(old(order), old(rooms), members, s)
    {
      var keys := order;
      var i := 0;
      while i < |keys|
        invariant 0 <= i <= |keys|
        invariant rooms == ReapKeys(old(rooms), keys[..i], s)
        invariant order == Kept(keys[..i], old(rooms), s) + keys[i..]
        invariant outbox == old(outbox) + DisconnectEvents(keys[..i], old(rooms), members, s)
      {
        var k := keys[i];
        ReapLoopStep(old(rooms), members, keys, i, s);
        ghost var emitted := DisconnectEvents(keys[..i], old(rooms), members, s);
        ghost var step := ReapEvents(k, old(rooms)[k], MembersOf(members, k), s);
        ReapRoomAt(k, s);
        AppendAssociates(old(outbox), emitted, step);
        i := i + 1;
      }
      assert keys[..i] == keys && keys[i..] == [];
      ReapKeysAll(old(rooms), keys, s);
    }

    /** One iteration of the `disconnect` loop, for the room `k`. */
    method ReapRoomAt(k: RoomId, s: SocketId)
      requires k in rooms
      modifies this`rooms, this`order, this`outbox
      ensures rooms == ReapStep(old(rooms), k, s)
      ensures order == if old(rooms)[k].author == Some(s) then Without(old(order), k) else old(order)
      ensures outbox == old(outbox) + ReapEvents(k, old(rooms)[k], Members(k), s)
    {
      var room := rooms[k];
      if room.author == Some(s) {
        rooms := rooms - {k};
        order := Without(order, k);
        outbox := outbox + [Event(ToRoom(k), Members(k), AuthorLeft)];
      } else if s in room.viewers {
        room := room.(viewers := Without(room.viewers, s));
        rooms := rooms[k := room];
      }
      outbox := outbox + [Event(ToRoom(k), Members(k), Presence(room))];
    }
  }
}
