/**
 * The presence hub of backend/server.js: the handlers of one Socket.IO
 * connection (connect, joinRoom, cursorChange, setAppNickname,
 * disconnect) over socketToRoomMap, userInfoMap and the server's room
 * membership.
 *
 * Every emit becomes a Broadcast value (event name, recipients, payload)
 * that the handler returns; acknowledgement callbacks become returned
 * values. Room ids, socket ids and nicknames are strings, and a room id is
 * "no room" when it is absent or empty, as JavaScript's truthiness has it.
 */
module Presence {
  import opened Optional

  type SocketId = string
  type RoomId = string

  const UserLeftAppRoom := "userLeftAppRoom"
  const UserJoinedAppRoom := "userJoinedAppRoom"
  const CursorUpdate := "cursorUpdate"
  const UserNicknameChanged := "userNicknameChanged"

  /** A field value of an emitted object: missing (`undefined`), a string,
      or any other JSON value the client sent, kept opaque. */
  datatype Json = Undefined | Str(s: string) | Opaque(text: string)

  /** The objects the handlers emit. */
  datatype Payload =
    | Membership(userId: SocketId, nickname: string, roomId: RoomId, message: string)
    | NicknameChange(userId: SocketId, oldNickname: Option<string>, newNickname: string, roomId: RoomId)
    | Cursor(fields: map<string, Json>)

  /** One emit: the event name, the sockets it reaches and its payload. */
  datatype Broadcast = Broadcast(event: string, recipients: set<SocketId>, payload: Payload)

  /** The joinRoom callback's argument. */
  datatype JoinAck = JoinAck(status: string, message: string, roomId: RoomId)

  /** The setAppNickname acknowledgement's argument. */
  datatype NicknameAck = NicknameAck(status: string, nickname: string)

  /** An element of the usersInRoom list built in joinRoom. */
  datatype UserSummary = UserSummary(id: SocketId, nickname: string)

  /** `User-` followed by the first five characters of the socket id
      (fewer when the id is shorter). */
  function DefaultNickname(s: SocketId): (nick: string)
    ensures |nick| == 5 + (if |s| < 5 then |s| else 5)
    ensures nick[..5] == "User-" && nick[5..] == s[..|nick| - 5]
  {
    "User-" + (if |s| < 5 then s else s[..5])
  }

  /** The room a socket is in according to socketToRoomMap, when that value
      is truthy. */
  function KnownRoom(socketToRoom: map<SocketId, RoomId>, s: SocketId): Option<RoomId>
  {
    if s in socketToRoom && socketToRoom[s] != "" then Some(socketToRoom[s]) else None
  }

  /** The sockets in room r (none when the room does not exist). */
  function Members(rooms: map<RoomId, set<SocketId>>, r: RoomId): set<SocketId>
  {
    if r in rooms then rooms[r] else {}
  }

  /** socket.join(r): s is added to r; no other room changes. */
  function Join(rooms: map<RoomId, set<SocketId>>, r: RoomId, s: SocketId): (rooms': map<RoomId, set<SocketId>>)
    ensures Members(rooms', r) == Members(rooms, r) + {s}
    ensures forall q :: q != r ==> Members(rooms', q) == Members(rooms, q)
    ensures rooms'.Keys == rooms.Keys + {r}
  {
    rooms[r := Members(rooms, r) + {s}]
  }

  /** socket.leave(r): s is removed from r, and a room left empty is
      deleted; no other room changes. */
  function Leave(rooms: map<RoomId, set<SocketId>>, r: RoomId, s: SocketId): (rooms': map<RoomId, set<SocketId>>)
    ensures Members(rooms', r) == Members(rooms, r) - {s}
    ensures forall q :: q != r ==> Members(rooms', q) == Members(rooms, q)
    ensures r in rooms' <==> Members(rooms, r) - {s} != {}
    ensures forall q :: q != r ==> (q in rooms' <==> q in rooms)
  {
    var rest := Members(rooms, r) - {s};
    if rest == {} then rooms - {r} else rooms[r := rest]
  }

  /** What a disconnecting socket s does to the rooms: it leaves every one
      of them, and the rooms left empty are deleted. */
  function LeaveAll(rooms: map<RoomId, set<SocketId>>, s: SocketId): (rooms': map<RoomId, set<SocketId>>)
    ensures forall q :: Members(rooms', q) == Members(rooms, q) - {s}
    ensures forall q :: q in rooms' <==> q in rooms && Members(rooms, q) - {s} != {}
  {
    map q | q in rooms && rooms[q] - {s} != {} :: rooms[q] - {s}
  }

  /** The cursorUpdate payload { userId, nickname, ...cursorData }: the
      fields of cursorData are spread last and so override the first two. */
  function CursorPayload(s: SocketId, nickname: Json, cursorData: map<string, Json>): (p: map<string, Json>)
    ensures p.Keys == cursorData.Keys + {"userId", "nickname"}
    ensures forall k :: k in cursorData ==> p[k] == cursorData[k]
    ensures "userId" !in cursorData ==> p["userId"] == Str(s)
    ensures "nickname" !in cursorData ==> p["nickname"] == nickname
  {
    map["userId" := Str(s), "nickname" := nickname] + cursorData
  }

  /** The nickname the handlers use for s: its userInfoMap entry, or the
      default one. */
  function NicknameIn(userInfo: map<SocketId, string>, s: SocketId): string
  {
    if s in userInfo then userInfo[s] else DefaultNickname(s)
  }

  /** Every user of the list carries the nickname userInfo gives it. */
  predicate NicknamesFrom(users: seq<UserSummary>, userInfo: map<SocketId, string>)
  {
    forall i :: 0 <= i < |users| ==> users[i].nickname == NicknameIn(userInfo, users[i].id)
  }

  /** The ids of a users list. */
  function Ids(users: seq<UserSummary>): set<SocketId>
  {
    set i | 0 <= i < |users| :: users[i].id
  }

  /** No socket appears twice in a users list. */
  predicate DistinctIds(users: seq<UserSummary>)
  {
    forall i, j :: 0 <= i < j < |users| ==> users[i].id != users[j].id
  }

  /** Appending a user whose id is new, with its nickname, to a list keeps
      its ids distinct and its nicknames right, and adds that id. */
  lemma AppendUser(users: seq<UserSummary>, u: UserSummary, userInfo: map<SocketId, string>)
    requires DistinctIds(users) && u.id !in Ids(users)
    requires NicknamesFrom(users, userInfo) && u.nickname == NicknameIn(userInfo, u.id)
    ensures Ids(users + [u]) == Ids(users) + {u.id}
    ensures DistinctIds(users + [u])
    ensures NicknamesFrom(users + [u], userInfo)
  {
    var us := users + [u];
    forall x | x in Ids(us) ensures x in Ids(users) + {u.id} {
      var i :| 0 <= i < |us| && us[i].id == x;
      if i < |users| { assert users[i].id == x; }
    }
    forall x | x in Ids(users) ensures x in Ids(us) {
      var i :| 0 <= i < |users| && users[i].id == x;
      assert us[i].id == x;
    }
    assert us[|users|].id == u.id;
    forall i, j | 0 <= i < j < |us| ensures us[i].id != us[j].id {
      if j == |users| {
        assert users[i].id in Ids(users);
      } else {
        assert us[i] == users[i] && us[j] == users[j];
      }
    }
  }

  /** A member of a room has it as its socketToRoomMap value, unless the
      room is the falsy "" (which a later joinRoom does not leave). */
  ghost predicate MembersAgree(socketToRoom: map<SocketId, RoomId>, rooms: map<RoomId, set<SocketId>>)
  {
    forall r, x :: x in Members(rooms, r) ==> x in socketToRoom && (socketToRoom[x] == r || r == "")
  }

  /** A connected socket is a member of the room its socketToRoomMap entry
      names; the entry of a disconnected socket survives only when it is
      the falsy "". */
  ghost predicate RoomsHeld(connected: set<SocketId>, socketToRoom: map<SocketId, RoomId>,
                            rooms: map<RoomId, set<SocketId>>)
  {
    forall x :: x in socketToRoom ==>
      if x in connected then x in Members(rooms, socketToRoom[x]) else socketToRoom[x] == ""
  }

  /** Every room is non-empty and holds connected sockets only. */
  ghost predicate RoomsLive(connected: set<SocketId>, rooms: map<RoomId, set<SocketId>>)
  {
    forall r :: r in rooms ==> rooms[r] != {} && rooms[r] <= connected
  }

  /** The hub invariant: userInfoMap holds exactly the connected sockets,
      and the membership, socketToRoomMap and connections agree. */
  ghost predicate HubInv(connected: set<SocketId>, socketToRoom: map<SocketId, RoomId>,
                         userInfo: map<SocketId, string>, rooms: map<RoomId, set<SocketId>>)
  {
    && userInfo.Keys == connected
    && MembersAgree(socketToRoom, rooms)
    && RoomsHeld(connected, socketToRoom, rooms)
    && RoomsLive(connected, rooms)
  }

  /** The rooms after joinRoom(roomId) by s: it leaves a truthy previous
      room that differs, then joins roomId. Only s's memberships change:
      it is in roomId and stays in every other room except the one it
      left. */
  function RoomsAfterJoin(socketToRoom: map<SocketId, RoomId>, rooms: map<RoomId, set<SocketId>>,
                          s: SocketId, roomId: RoomId): (rooms': map<RoomId, set<SocketId>>)
    ensures forall q, x :: x != s ==> (x in Members(rooms', q) <==> x in Members(rooms, q))
    ensures forall q :: s in Members(rooms', q) <==>
      q == roomId || (s in Members(rooms, q) && KnownRoom(socketToRoom, s) != Some(q))
    ensures rooms'.Keys <= rooms.Keys + {roomId}
  {
    var prev := KnownRoom(socketToRoom, s);
    Join(if prev.Some? && prev.value != roomId then Leave(rooms, prev.value, s) else rooms, roomId, s)
  }

  /** joinRoom keeps the membership agreement. */
  lemma JoinKeepsMembersAgree(socketToRoom: map<SocketId, RoomId>, rooms: map<RoomId, set<SocketId>>,
                              s: SocketId, roomId: RoomId)
    requires MembersAgree(socketToRoom, rooms)
    ensures MembersAgree(socketToRoom[s := roomId], RoomsAfterJoin(socketToRoom, rooms, s, roomId))
  {
    var rooms' := RoomsAfterJoin(socketToRoom, rooms, s, roomId);
    forall r, x | x in Members(rooms', r)
      ensures x in socketToRoom[s := roomId] && (socketToRoom[s := roomId][x] == r || r == "")
    {
      if x != s {
        assert x in Members(rooms, r);
      } else if r != roomId {
        assert s in Members(rooms, r);
      }
    }
  }

  /** joinRoom by a connected socket keeps every connected socket in the
      room its map entry names. */
  lemma JoinKeepsRoomsHeld(connected: set<SocketId>, socketToRoom: map<SocketId, RoomId>,
                           rooms: map<RoomId, set<SocketId>>, s: SocketId, roomId: RoomId)
    requires RoomsHeld(connected, socketToRoom, rooms) && s in connected
    ensures RoomsHeld(connected, socketToRoom[s := roomId], RoomsAfterJoin(socketToRoom, rooms, s, roomId))
  {
    var rooms' := RoomsAfterJoin(socketToRoom, rooms, s, roomId);
    forall x | x in socketToRoom[s := roomId] && x != s && x in connected
      ensures x in Members(rooms', socketToRoom[x])
    {
      assert x in Members(rooms, socketToRoom[x]);
    }
  }

  /** joinRoom by a connected socket keeps the rooms non-empty and made of
      connected sockets. */
  lemma JoinKeepsRoomsLive(connected: set<SocketId>, socketToRoom: map<SocketId, RoomId>,
                           rooms: map<RoomId, set<SocketId>>, s: SocketId, roomId: RoomId)
    requires RoomsLive(connected, rooms) && s in connected
    ensures RoomsLive(connected, RoomsAfterJoin(socketToRoom, rooms, s, roomId))
  {
    var rooms' := RoomsAfterJoin(socketToRoom, rooms, s, roomId);
    forall r | r in rooms' ensures rooms'[r] != {} && rooms'[r] <= connected {
      assert rooms'[r] == Members(rooms', r);
      if r != roomId {
        assert r in rooms && rooms[r] == Members(rooms, r);
        forall x | x in rooms'[r] ensures x in connected {
          if x != s { assert x in Members(rooms, r); }
        }
      }
    }
  }

  /** joinRoom by a connected socket keeps the hub invariant. */
  lemma JoinKeepsHubInv(connected: set<SocketId>, socketToRoom: map<SocketId, RoomId>,
                        userInfo: map<SocketId, string>, rooms: map<RoomId, set<SocketId>>,
                        s: SocketId, roomId: RoomId)
    requires HubInv(connected, socketToRoom, userInfo, rooms) && s in connected
    ensures HubInv(connected, socketToRoom[s := roomId], userInfo, RoomsAfterJoin(socketToRoom, rooms, s, roomId))
  {
    JoinKeepsMembersAgree(socketToRoom, rooms, s, roomId);
    JoinKeepsRoomsHeld(connected, socketToRoom, rooms, s, roomId);
    JoinKeepsRoomsLive(connected, socketToRoom, rooms, s, roomId);
  }

  /** disconnect keeps the membership agreement. */
  lemma DisconnectKeepsMembersAgree(socketToRoom: map<SocketId, RoomId>, rooms: map<RoomId, set<SocketId>>, s: SocketId)
    requires MembersAgree(socketToRoom, rooms)
    ensures MembersAgree(if KnownRoom(socketToRoom, s).Some? then socketToRoom - {s} else socketToRoom, LeaveAll(rooms, s))
  {
    var rooms' := LeaveAll(rooms, s);
    forall r, x | x in Members(rooms', r) ensures x in Members(rooms, r) && x != s {
    }
  }

  /** disconnect keeps every connected socket in the room its map entry
      names; the disconnected socket keeps its entry only when it is the
      falsy "". */
  lemma DisconnectKeepsRoomsHeld(connected: set<SocketId>, socketToRoom: map<SocketId, RoomId>,
                                 rooms: map<RoomId, set<SocketId>>, s: SocketId)
    requires RoomsHeld(connected, socketToRoom, rooms)
    ensures RoomsHeld(connected - {s}, if KnownRoom(socketToRoom, s).Some? then socketToRoom - {s} else socketToRoom,
                      LeaveAll(rooms, s))
  {
    var rooms' := LeaveAll(rooms, s);
    var map' := if KnownRoom(socketToRoom, s).Some? then socketToRoom - {s} else socketToRoom;
    forall x | x in map' && x in connected - {s} ensures x in Members(rooms', map'[x]) {
      assert x in Members(rooms, socketToRoom[x]);
    }
  }

  /** disconnect keeps the rooms non-empty and made of connected sockets. */
  lemma DisconnectKeepsRoomsLive(connected: set<SocketId>, rooms: map<RoomId, set<SocketId>>, s: SocketId)
    requires RoomsLive(connected, rooms)
    ensures RoomsLive(connected - {s}, LeaveAll(rooms, s))
  {
    var rooms' := LeaveAll(rooms, s);
    forall r | r in rooms' ensures rooms'[r] != {} && rooms'[r] <= connected - {s} {
      assert rooms'[r] == Members(rooms, r) - {s};
    }
  }

  class Hub {
    /** Sockets connected to the server. */
    var connected: set<SocketId>
    /** socketToRoomMap. */
    var socketToRoom: map<SocketId, RoomId>
    /** userInfoMap, reduced to each socket's nickname. */
    var userInfo: map<SocketId, string>
    /** The server's room membership (io.sockets.adapter.rooms). */
    var rooms: map<RoomId, set<SocketId>>

    ghost predicate Valid()
      reads this
    {
      HubInv(connected, socketToRoom, userInfo, rooms)
    }

    constructor ()
      ensures Valid()
      ensures connected == {} && socketToRoom == map[] && userInfo == map[] && rooms == map[]
    {
      connected, socketToRoom, userInfo, rooms := {}, map[], map[], map[];
    }

    /** A new connection: the socket gets the default nickname. Socket ids
        are never reused. */
    method Connect(s: SocketId)
      requires Valid() && s !in connected && s !in socketToRoom
      modifies this
      ensures Valid()
      ensures connected == old(connected) + {s}
      ensures userInfo == old(userInfo)[s := DefaultNickname(s)]
      ensures socketToRoom == old(socketToRoom) && rooms == old(rooms)
    {
      connected := connected + {s};
      userInfo := userInfo[s := DefaultNickname(s)];
    }

    /** The usersInRoom list of joinRoom: every other member of r, once,
        with its nickname. */
    method UsersInRoom(r: RoomId, s: SocketId) returns (users: seq<UserSummary>)
      ensures Ids(users) == Members(rooms, r) - {s}
      ensures DistinctIds(users)
      ensures NicknamesFrom(users, userInfo)
    {
      users := [];
      var info := userInfo;
      var members := Members(rooms, r);
      var todo := members;
      while todo != {}
        invariant todo <= members
        invariant Ids(users) == members - todo - {s}
        invariant DistinctIds(users)
        invariant NicknamesFrom(users, info)
        decreases |todo|
      {
        var x :| x in todo;
        if x != s {
          AppendUser(users, UserSummary(x, NicknameIn(info, x)), info);
          users := users + [UserSummary(x, NicknameIn(info, x))];
          assert Ids(users) == members - (todo - {x}) - {s};
        } else {
          assert members - (todo - {x}) - {s} == members - todo - {s};
        }
        todo := todo - {x};
      }
    }

    /** The first half of joinRoom: a socket whose truthy previous room
        differs from roomId leaves it, and the remaining members of that
        room hear userLeftAppRoom. */
    method LeavePrevious(s: SocketId, roomId: RoomId, nick: string) returns (departures: seq<Broadcast>)
      modifies this
      ensures var prev := old(KnownRoom(socketToRoom, s));
        if prev.Some? && prev.value != roomId then
          && rooms == Leave(old(rooms), prev.value, s)
          && departures == [Broadcast(UserLeftAppRoom, old(Members(rooms, prev.value)) - {s},
                                      Membership(s, nick, prev.value, nick + " left the room."))]
        else
          rooms == old(rooms) && departures == []
      ensures socketToRoom == old(socketToRoom) && userInfo == old(userInfo) && connected == old(connected)
    {
      departures := [];
      if s in socketToRoom && socketToRoom[s] != "" && socketToRoom[s] != roomId {
        var previousRoom := socketToRoom[s];
        rooms := Leave(rooms, previousRoom, s);
        departures := [Broadcast(UserLeftAppRoom, Members(rooms, previousRoom),
                                 Membership(s, nick, previousRoom, nick + " left the room."))];
      }
    }

    /** The second half of joinRoom: the socket joins roomId, which becomes
        its socketToRoomMap value, and the room's other members hear
        userJoinedAppRoom. */
    method Enter(s: SocketId, roomId: RoomId, nick: string) returns (joined: Broadcast)
      modifies this
      ensures rooms == Join(old(rooms), roomId, s)
      ensures socketToRoom == old(socketToRoom)[s := roomId]
      ensures joined == Broadcast(UserJoinedAppRoom, old(Members(rooms, roomId)) - {s},
                                  Membership(s, nick, roomId, nick + " joined the room."))
      ensures userInfo == old(userInfo) && connected == old(connected)
    {
      rooms := Join(rooms, roomId, s);
      socketToRoom := socketToRoom[s := roomId];
      joined := Broadcast(UserJoinedAppRoom, Members(rooms, roomId) - {s},
                          Membership(s, nick, roomId, nick + " joined the room."));
    }

    /** joinRoom(roomId): a socket whose truthy previous room differs
        leaves it, and that room's remaining members hear userLeftAppRoom;
        the socket joins roomId, which becomes its socketToRoomMap value,
        and the other members of roomId hear userJoinedAppRoom. With a
        callback the socket gets an ok acknowledgement. */
    method JoinRoom(s: SocketId, roomId: RoomId, hasCallback: bool) returns (out: seq<Broadcast>, ack: Option<JoinAck>)
      requires Valid() && s in connected
      modifies this
      ensures Valid()
      ensures var nick := NicknameIn(old(userInfo), s);
        var prev := old(KnownRoom(socketToRoom, s));
        var joined := Broadcast(UserJoinedAppRoom, old(Members(rooms, roomId)) - {s},
                                Membership(s, nick, roomId, nick + " joined the room."));
        if prev.Some? && prev.value != roomId then
          && out == [Broadcast(UserLeftAppRoom, old(Members(rooms, prev.value)) - {s},
                               Membership(s, nick, prev.value, nick + " left the room.")), joined]
          && rooms == Join(Leave(old(rooms), prev.value, s), roomId, s)
        else
          && out == [joined]
          && rooms == Join(old(rooms), roomId, s)
      ensures socketToRoom == old(socketToRoom)[s := roomId]
      ensures ack == if hasCallback then Some(JoinAck("ok", "Successfully joined Socket.IO room: " + roomId, roomId)) else None
      ensures userInfo == old(userInfo) && connected == old(connected)
    {
      var nick := NicknameIn(userInfo, s);
      JoinKeepsHubInv(connected, socketToRoom, userInfo, rooms, s, roomId);
      var departures := LeavePrevious(s, roomId, nick);
      var joined := Enter(s, roomId, nick);
      out := departures + [joined];
      ack := Acknowledge(s, roomId, hasCallback);
    }

    /** The tail of joinRoom: with a callback the room's user list is built
        but left out of the acknowledgement, which is a plain ok. */
    method Acknowledge(s: SocketId, roomId: RoomId, hasCallback: bool) returns (ack: Option<JoinAck>)
      ensures ack == if hasCallback then Some(JoinAck("ok", "Successfully joined Socket.IO room: " + roomId, roomId)) else None
    {
      if hasCallback {
        var users := UsersInRoom(roomId, s);
        ack := Some(JoinAck("ok", "Successfully joined Socket.IO room: " + roomId, roomId));
      } else {
        ack := None;
      }
    }

    /** cursorChange(cursorData): from a socket in a room, cursorUpdate goes
        to the room's other members; otherwise nothing is sent. */
    method CursorChange(s: SocketId, cursorData: map<string, Json>) returns (out: seq<Broadcast>)
      ensures KnownRoom(socketToRoom, s).None? ==> out == []
      ensures KnownRoom(socketToRoom, s).Some? ==>
        var nick := if s in userInfo then Str(userInfo[s]) else Undefined;
        out == [Broadcast(CursorUpdate, Members(rooms, socketToRoom[s]) - {s}, Cursor(CursorPayload(s, nick, cursorData)))]
    {
      out := [];
      if s in socketToRoom && socketToRoom[s] != "" {
        var currentRoom := socketToRoom[s];
        var nickname := if s in userInfo then Str(userInfo[s]) else Undefined;
        out := [Broadcast(CursorUpdate, Members(rooms, currentRoom) - {s}, Cursor(CursorPayload(s, nickname, cursorData)))];
      }
    }

    /** setAppNickname(nickname): the nickname is stored; a socket in a room
        has userNicknameChanged sent to all of the room's members, itself
        included; with an ack function the socket gets an ok
        acknowledgement. */
    method SetAppNickname(s: SocketId, nickname: string, hasAck: bool) returns (out: seq<Broadcast>, ack: Option<NicknameAck>)
      requires Valid() && s in connected
      modifies this
      ensures Valid()
      ensures userInfo == old(userInfo)[s := nickname]
      ensures var prev := old(if s in userInfo then Some(userInfo[s]) else None);
        var room := old(KnownRoom(socketToRoom, s));
        out == if room.Some?
               then [Broadcast(UserNicknameChanged, old(Members(rooms, room.value)),
                               NicknameChange(s, prev, nickname, room.value))]
               else []
      ensures ack == if hasAck then Some(NicknameAck("ok", nickname)) else None
      ensures socketToRoom == old(socketToRoom) && rooms == old(rooms) && connected == old(connected)
    {
      var oldNickname := if s in userInfo then Some(userInfo[s]) else None;
      userInfo := userInfo[s := nickname];
      out := [];
      if s in socketToRoom && socketToRoom[s] != "" {
        var currentRoom := socketToRoom[s];
        out := [Broadcast(UserNicknameChanged, Members(rooms, currentRoom), NicknameChange(s, oldNickname, nickname, currentRoom))];
      }
      ack := if hasAck then Some(NicknameAck("ok", nickname)) else None;
    }

    /** disconnect: the server has already taken the socket out of every
        room; a socket with a truthy room has userLeftAppRoom, with its
        last-known nickname, sent to the room's remaining members and loses
        its socketToRoomMap entry; its userInfoMap entry goes in any case. */
    method Disconnect(s: SocketId) returns (out: seq<Broadcast>)
      requires Valid() && s in connected
      modifies this
      ensures Valid()
      ensures rooms == LeaveAll(old(rooms), s)
      ensures connected == old(connected) - {s}
      ensures userInfo == old(userInfo) - {s}
      ensures var nick := NicknameIn(old(userInfo), s);
        var room := old(KnownRoom(socketToRoom, s));
        if room.Some? then
          && out == [Broadcast(UserLeftAppRoom, old(Members(rooms, room.value)) - {s},
                               Membership(s, nick, room.value, nick + " left the room."))]
          && socketToRoom == old(socketToRoom) - {s}
        else
          && out == []
          && socketToRoom == old(socketToRoom)
    {
      DisconnectKeepsMembersAgree(socketToRoom, rooms, s);
      DisconnectKeepsRoomsHeld(connected, socketToRoom, rooms, s);
      DisconnectKeepsRoomsLive(connected, rooms, s);
      rooms := LeaveAll(rooms, s);
      connected := connected - {s};
      var nick := NicknameIn(userInfo, s);
      out := [];
      if s in socketToRoom && socketToRoom[s] != "" {
        var disconnectedRoom := socketToRoom[s];
        out := [Broadcast(UserLeftAppRoom, Members(rooms, disconnectedRoom),
                          Membership(s, nick, disconnectedRoom, nick + " left the room."))];
        socketToRoom := socketToRoom - {s};
      }
      userInfo := userInfo - {s};
    }
  }

  /** Every socket is in exactly the truthy app room socketToRoomMap gives
      it, and in no truthy room when it has none. */
  lemma OneAppRoom(hub: Hub, s: SocketId)
    requires hub.Valid()
    ensures forall r :: r != "" ==> (s in Members(hub.rooms, r) <==> KnownRoom(hub.socketToRoom, s) == Some(r))
  {
    if KnownRoom(hub.socketToRoom, s).Some? {
      assert s in hub.connected;
    }
  }

  /** No cross-room leakage: every member of a socket's truthy app room has
      that room as its own socketToRoomMap value, so an emit to the sender's
      room reaches only sockets of the sender's app room. */
  lemma MembersShareRoom(hub: Hub, s: SocketId)
    requires hub.Valid() && KnownRoom(hub.socketToRoom, s).Some?
    ensures forall x :: x in Members(hub.rooms, hub.socketToRoom[s]) ==>
      KnownRoom(hub.socketToRoom, x) == KnownRoom(hub.socketToRoom, s)
  {
    forall x | x in Members(hub.rooms, hub.socketToRoom[s])
      ensures KnownRoom(hub.socketToRoom, x) == KnownRoom(hub.socketToRoom, s)
    {
      OneAppRoom(hub, x);
    }
  }

  /** Two fresh sockets connect and the first joins room "doc1". */
  method FirstJoin() returns (hub: Hub)
    ensures fresh(hub) && hub.Valid()
    ensures hub.socketToRoom == map["alpha1" := "doc1"]
    ensures Members(hub.rooms, "doc1") == {"alpha1"} && "doc2" !in hub.rooms
    ensures hub.connected == {"alpha1", "beta22"} && NicknameIn(hub.userInfo, "beta22") == "User-beta2"
  {
    hub := new Hub();
    hub.Connect("alpha1");
    hub.Connect("beta22");
    assert hub.socketToRoom == map[] && hub.rooms == map[];
    var joinA, ack := hub.JoinRoom("alpha1", "doc1", false);
  }

  /** Two fresh sockets join room "doc1": the second joiner's arrival is
      announced to the first only. */
  method SharedRoom() returns (hub: Hub, joinB: seq<Broadcast>)
    ensures fresh(hub) && hub.Valid()
    ensures joinB == [Broadcast(UserJoinedAppRoom, {"alpha1"},
                                Membership("beta22", "User-beta2", "doc1", "User-beta2" + " joined the room."))]
    ensures hub.socketToRoom == map["alpha1" := "doc1", "beta22" := "doc1"]
    ensures Members(hub.rooms, "doc1") == {"alpha1", "beta22"} && Members(hub.rooms, "doc2") == {}
  {
    hub := FirstJoin();
    assert "alpha1" != "beta22" by { assert "alpha1"[0] != "beta22"[0]; }
    assert {"alpha1"} - {"beta22"} == {"alpha1"};
    assert KnownRoom(hub.socketToRoom, "beta22") == None;
    var ack;
    joinB, ack := hub.JoinRoom("beta22", "doc1", false);
  }

  /** A cursor reaches only the other member of the room, and switching
      rooms tells the old room and nobody else. */
  method TwoUsersScenario() returns (cursor: seq<Broadcast>, switch: seq<Broadcast>)
    ensures |cursor| == 1 && cursor[0].recipients == {"beta22"}
    ensures |switch| == 2 && switch[0].event == UserLeftAppRoom && switch[0].recipients == {"beta22"}
    ensures switch[1].event == UserJoinedAppRoom && switch[1].recipients == {}
  {
    var hub, joinB := SharedRoom();
    cursor := hub.CursorChange("alpha1", map["line" := Opaque("3")]);
    var ack;
    switch, ack := hub.JoinRoom("alpha1", "doc2", true);
  }
}
