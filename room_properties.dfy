/** Properties of the room handlers, stated over the functions in rooms.dfy
    that the methods of RoomServer are proved against. */
module RoomProperties {
  import opened Rooms

  // ---------------------------------------------------------------------
  // join-room

  /** Joining an unknown id creates the default room. */
  lemma JoinCreatesDefaultRoom(s: SocketId, isAuthor: bool)
    ensures var room := Joined(None, s, isAuthor);
      && room.code == "// Start coding...\n"
      && room.language == "python"
      && room.viewers == []
      && room.comments == []
      && room.author == (if isAuthor then Some(s) else None)
  {
  }

  /** Joining an existing room never touches its code, language or comments. */
  lemma JoinKeepsContent(room: Room, s: SocketId, isAuthor: bool)
    ensures var after := Joined(Some(room), s, isAuthor);
      after.code == room.code && after.language == room.language && after.comments == room.comments
  {
  }

  /** An author join takes the slot whatever held it before (last writer
      wins) and leaves the viewers alone. */
  lemma AuthorJoinTakesSlot(existing: Option<Room>, s: SocketId)
    ensures Joined(existing, s, true).author == Some(s)
    ensures existing.Some? ==> Joined(existing, s, true).viewers == existing.value.viewers
  {
  }

  /** A viewer join never changes the author, and is recorded exactly when an
      author is already set. */
  lemma ViewerJoinRule(existing: Option<Room>, s: SocketId)
    ensures var before := if existing.Some? then existing.value else NewRoom(None);
      var after := Joined(existing, s, false);
      && after.author == before.author
      && after.viewers == if before.author.Some? then before.viewers + [s] else before.viewers
  {
  }

  /** The `isAuthor` flag of `room-data` holds exactly when the joiner asked
      for the author slot or already held it. */
  lemma RoomDataIsAuthorExactly(existing: Option<Room>, s: SocketId, isAuthor: bool)
    ensures Joined(existing, s, isAuthor).author == Some(s) <==>
      isAuthor || (existing.Some? && existing.value.author == Some(s))
  {
  }

  /** A viewer who arrives before any author is never registered, not even
      once an author has joined. */
  lemma EarlyViewerStaysUnregistered(v: SocketId, a: SocketId)
    ensures Joined(Some(Joined(None, v, false)), a, true).viewers == []
  {
  }

  /** In a room that already has an author, a socket that joins as a viewer
      and then as author holds both roles. */
  lemma ViewerThenAuthorHoldsBoth(room: Room, s: SocketId)
    requires room.author.Some?
    ensures var after := Joined(Some(Joined(Some(room), s, false)), s, true);
      after.author == Some(s) && s in after.viewers
  {
    assert Joined(Some(room), s, false).viewers == room.viewers + [s];
  }

  /** In a room that already has an author, two viewer joins by one socket
      list it twice. */
  lemma RepeatedViewerJoinListsTwice(room: Room, s: SocketId)
    requires room.author.Some?
    ensures var after := Joined(Some(Joined(Some(room), s, false)), s, false);
      multiset(after.viewers)[s] == multiset(room.viewers)[s] + 2
  {
    assert Joined(Some(Joined(Some(room), s, false)), s, false).viewers == room.viewers + [s] + [s];
  }

  /** The `user-count` sent on join counts list entries, duplicates included:
      a viewer join with an author set adds one, whether or not the socket
      is listed already; any other join leaves the count as it was. */
  lemma JoinPresenceCounts(existing: Option<Room>, s: SocketId, isAuthor: bool)
    ensures var before := if existing.Some? then existing.value else NewRoom(None);
      Presence(Joined(existing, s, isAuthor)).viewers ==
        |before.viewers| + (if !isAuthor && before.author.Some? then 1 else 0)
    ensures Presence(Joined(existing, s, isAuthor)).author ==
      (isAuthor || (existing.Some? && existing.value.author.Some?))
  {
  }

  // ---------------------------------------------------------------------
  // The comment log

  /** `send-comment` appends, so the history is extended. */
  lemma CommentExtendsHistory(comments: seq<Comment>, c: Comment)
    ensures Extends(comments, comments + [c])
  {
  }

  /** `author-reply` only appends a reply, so the history is extended. */
  lemma ReplyExtendsHistory(comments: seq<Comment>, id: CommentId, reply: Reply)
    ensures Extends(comments, WithReply(comments, id, reply))
  {
    var after := WithReply(comments, id, reply);
    forall i | 0 <= i < |comments|
      ensures after[i].(replies := []) == comments[i].(replies := [])
      ensures comments[i].replies <= after[i].replies
    {
    }
  }

  /** Histories only grow: extension is transitive. */
  lemma ExtendsTransitive(a: seq<Comment>, b: seq<Comment>, c: seq<Comment>)
    requires Extends(a, b) && Extends(b, c)
    ensures Extends(a, c)
  {
    forall i | 0 <= i < |a|
      ensures c[i].(replies := []) == a[i].(replies := [])
      ensures a[i].replies <= c[i].replies
    {
      assert b[i].replies <= c[i].replies;
    }
  }

  /** An id no comment carries leaves the log as it was. */
  lemma UnknownReplyIdChangesNothing(comments: seq<Comment>, id: CommentId, reply: Reply)
    requires forall c :: c in comments ==> c.id != id
    ensures WithReply(comments, id, reply) == comments
  {
    assert FindComment(comments, id).None?;
  }

  /** With unique ids, a reply to comment `j`'s id lands on comment `j`
      alone, at the end of its replies. */
  lemma ReplyLandsOnItsComment(comments: seq<Comment>, j: nat, reply: Reply)
    requires UniqueIds(comments) && j < |comments|
    ensures var after := WithReply(comments, comments[j].id, reply);
      && after[j] == comments[j].(replies := comments[j].replies + [reply])
      && forall i :: 0 <= i < |comments| && i != j ==> after[i] == comments[i]
  {
  }

  /** Replies keep the ids unique. */
  lemma ReplyKeepsIdsUnique(comments: seq<Comment>, id: CommentId, reply: Reply)
    requires UniqueIds(comments)
    ensures UniqueIds(WithReply(comments, id, reply))
  {
    var after := WithReply(comments, id, reply);
    assert forall i :: 0 <= i < |comments| ==> after[i].id == comments[i].id;
  }

  // ---------------------------------------------------------------------
  // disconnect

  /** After `disconnect`, the table holds exactly the rooms the socket did
      not author; in each, every occurrence of the socket is gone from the
      viewers and nothing else changed. */
  lemma ReapedForgetsSocket(rooms: map<RoomId, Room>, s: SocketId)
    ensures forall k :: k in Reaped(rooms, s) <==> k in rooms && rooms[k].author != Some(s)
    ensures forall k :: k in Reaped(rooms, s) ==>
      var before, after := rooms[k], Reaped(rooms, s)[k];
      && after.author == before.author
      && after.viewers == Without(before.viewers, s)
      && s !in after.viewers
      && (forall v :: v in after.viewers <==> v in before.viewers && v != s)
      && multiset(after.viewers) == multiset(before.viewers)[s := 0]
      && after.code == before.code && after.language == before.language && after.comments == before.comments
  {
  }

  /** A surviving room's `user-count` counts the viewers left once every
      occurrence of the socket is filtered out. */
  lemma FilteredRoomCount(k: RoomId, room: Room, present: set<SocketId>, s: SocketId)
    requires room.author != Some(s)
    ensures ReapEvents(k, room, present, s) ==
      [Event(ToRoom(k), present, UserCount(room.author.Some?, |room.viewers| - multiset(room.viewers)[s]))]
  {
    WithoutLength(room.viewers, s);
    assert s !in room.viewers ==> multiset(room.viewers)[s] == 0;
  }

  /** A room the socket neither authored nor viewed comes through unchanged. */
  lemma ReapedLeavesStrangersAlone(rooms: map<RoomId, Room>, s: SocketId, k: RoomId)
    requires k in rooms && rooms[k].author != Some(s) && s !in rooms[k].viewers
    ensures k in Reaped(rooms, s) && Reaped(rooms, s)[k] == rooms[k]
  {
  }

  /** Author departure is final: the id is gone, and the next join of it
      starts a fresh default room. */
  lemma RejoinAfterAuthorLeftIsFresh(rooms: map<RoomId, Room>, s: SocketId, k: RoomId, t: SocketId,
                                     isAuthor: bool)
    requires k in rooms && rooms[k].author == Some(s)
    ensures Lookup(Reaped(rooms, s), k) == None
    ensures Joined(Lookup(Reaped(rooms, s), k), t, isAuthor) == NewRoom(if isAuthor then Some(t) else None)
  {
  }

  /** A deleted room's `user-count` is read from the stale room: it still
      reports an author, and counts the viewers before filtering. */
  lemma DeletedRoomCountIsStale(k: RoomId, room: Room, present: set<SocketId>, s: SocketId)
    requires room.author == Some(s)
    ensures ReapEvents(k, room, present, s)[0].msg == AuthorLeft
    ensures ReapEvents(k, room, present, s)[1].msg == UserCount(true, |room.viewers|)
  {
  }

  /** The events of one iteration all go to the visited room and end with
      its `user-count`; `author-left` is among them exactly when the room is
      deleted. */
  lemma ReapEventsShape(k: RoomId, room: Room, present: set<SocketId>, s: SocketId)
    ensures var events := ReapEvents(k, room, present, s);
      && |events| == (if room.author == Some(s) then 2 else 1)
      && (forall e :: e in events ==> e.audience == ToRoom(k) && e.recipients == present)
      && events[|events| - 1].msg.UserCount?
      && ((exists e :: e in events && e.msg.AuthorLeft?) <==> room.author == Some(s))
  {
    var events := ReapEvents(k, room, present, s);
    if room.author == Some(s) {
      assert events[0].msg.AuthorLeft?;
    }
  }

  /** `disconnect` emits one `user-count` per visited room plus one
      `author-left` per deleted room. */
  lemma {:induction false} DisconnectEventCount(keys: seq<RoomId>, rooms: map<RoomId, Room>,
                                                members: map<RoomId, set<SocketId>>, s: SocketId)
    requires forall k :: k in keys ==> k in rooms
    ensures |DisconnectEvents(keys, rooms, members, s)| == 2 * |keys| - |Kept(keys, rooms, s)|
    decreases |keys|
  {
    if keys != [] {
      var front, last := keys[..|keys| - 1], keys[|keys| - 1];
      DisconnectEventCount(front, rooms, members, s);
      var tail := ReapEvents(last, rooms[last], MembersOf(members, last), s);
      assert |DisconnectEvents(keys, rooms, members, s)| ==
        |DisconnectEvents(front, rooms, members, s)| + |tail|;
      ReapEventsShape(last, rooms[last], MembersOf(members, last), s);
      if rooms[last].author == Some(s) {
        assert Kept(keys, rooms, s) == Kept(front, rooms, s);
      } else {
        assert Kept(keys, rooms, s) == Kept(front, rooms, s) + [last];
      }
    }
  }

  /** Every event goes to one of the rooms `keys`, and reaches exactly the
      sockets joined to that room. */
  predicate RoutedTo(events: seq<Event>, keys: seq<RoomId>, members: map<RoomId, set<SocketId>>) {
    forall e :: e in events ==>
      e.audience.ToRoom? && e.audience.room in keys && e.recipients == MembersOf(members, e.audience.room)
  }

  /** Every event `disconnect` emits goes to one of the visited rooms, and
      reaches exactly the sockets still joined to that room. */
  lemma {:induction false} DisconnectEventsGoToVisitedRooms(keys: seq<RoomId>,
                                                            rooms: map<RoomId, Room>,
                                                            members: map<RoomId, set<SocketId>>,
                                                            s: SocketId)
    requires forall k :: k in keys ==> k in rooms
    ensures RoutedTo(DisconnectEvents(keys, rooms, members, s), keys, members)
    decreases |keys|
  {
    if keys != [] {
      var front, last := keys[..|keys| - 1], keys[|keys| - 1];
      DisconnectEventsGoToVisitedRooms(front, rooms, members, s);
      var head := DisconnectEvents(front, rooms, members, s);
      var tail := ReapEvents(last, rooms[last], MembersOf(members, last), s);
      assert DisconnectEvents(keys, rooms, members, s) == head + tail;
      assert keys == front + [last];
      ReapEventsShape(last, rooms[last], MembersOf(members, last), s);
    }
  }

  /** Every visited room is sent a `user-count`. */
  lemma {:induction false} DisconnectCountsEveryRoom(keys: seq<RoomId>, rooms: map<RoomId, Room>,
                                                     members: map<RoomId, set<SocketId>>,
                                                     s: SocketId, k: RoomId)
    requires forall k :: k in keys ==> k in rooms
    requires k in keys
    ensures exists e ::
      e in DisconnectEvents(keys, rooms, members, s) && e.audience == ToRoom(k) && e.msg.UserCount?
    decreases |keys|
  {
    var front, last := keys[..|keys| - 1], keys[|keys| - 1];
    var head := DisconnectEvents(front, rooms, members, s);
    var tail := ReapEvents(last, rooms[last], MembersOf(members, last), s);
    assert DisconnectEvents(keys, rooms, members, s) == head + tail;
    if k == last {
      ReapEventsShape(last, rooms[last], MembersOf(members, last), s);
      assert tail[|tail| - 1] in tail;
    } else {
      assert keys == front + [last];
      DisconnectCountsEveryRoom(front, rooms, members, s, k);
    }
  }

  /** `author-left` goes out exactly to the rooms the socket authored. */
  lemma {:induction false} AuthorLeftExactlyForAuthoredRooms(keys: seq<RoomId>,
                                                             rooms: map<RoomId, Room>,
                                                             members: map<RoomId, set<SocketId>>,
                                                             s: SocketId, k: RoomId)
    requires forall k :: k in keys ==> k in rooms
    ensures (exists e :: e in DisconnectEvents(keys, rooms, members, s) &&
               e.audience == ToRoom(k) && e.msg.AuthorLeft?) <==>
      (k in keys && rooms[k].author == Some(s))
    decreases |keys|
  {
    if keys != [] {
      var front, last := keys[..|keys| - 1], keys[|keys| - 1];
      var head := DisconnectEvents(front, rooms, members, s);
      var tail := ReapEvents(last, rooms[last], MembersOf(members, last), s);
      assert DisconnectEvents(keys, rooms, members, s) == head + tail;
      assert keys == front + [last];
      AuthorLeftExactlyForAuthoredRooms(front, rooms, members, s, k);
      ReapEventsShape(last, rooms[last], MembersOf(members, last), s);
      if k != last {
        assert forall e :: e in tail ==> e.audience != ToRoom(k);
      }
    }
  }
}
