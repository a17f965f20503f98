/** The relay object: its three maps are fields updated in place, and every
    frame it sends or connection it closes is appended to `outbox`, in the
    order simp.py awaits them. Each method is proved against the
    value-level transition and event predicates of module Protocol. */
module Server {
  import opened Text
  import opened Protocol
  import Invariants
  import Properties

  datatype Option<T> = None | Some(value: T)

  /** An HTTP answer given before the websocket upgrade. */
  datatype HttpReply = HttpReply(status: int, headers: seq<(string, string)>, body: seq<bv8>)

  /** The health endpoint's body, `b"OK\n"`. */
  const HealthBody: seq<bv8> := [0x4F, 0x4B, 0x0A]

  /** One possible iteration of the Python set `members`, leaving out the
      ids in `skip`: every id of `members - skip` exactly once. */
  method Roster(members: set<string>, skip: set<string>) returns (order: seq<string>)
    ensures Enumerates(order, members - skip)
  {
    var left := members;
    order := [];
    while left != {}
      invariant left <= members
      invariant Enumerates(order, members - left - skip)
      decreases left
    {
      var p :| p in left;
      assert p !in order;
      left := left - {p};
      if p !in skip {
        order := order + [p];
      }
    }
  }

  /** What three appends to an outbox add to it. */
  lemma AppendedEvents(before: seq<Event>, a: seq<Event>, b: seq<Event>, c: seq<Event>)
    ensures |before| <= |before + a + b + c|
    ensures (before + a + b + c)[..|before|] == before
    ensures (before + a + b + c)[|before|..] == a + b + c
  {
    assert before + a + b + c == before + (a + b + c);
  }

  /** What two appends to an outbox add to it. */
  lemma AppendedPair(before: seq<Event>, a: seq<Event>, b: seq<Event>)
    ensures |before| <= |before + a + b|
    ensures (before + a + b)[..|before|] == before
    ensures (before + a + b)[|before|..] == a + b
  {
    assert before + a + b == before + (a + b);
  }

  class SimpleServer {
    var peers: map<string, Status>
    var sessions: map<string, string>
    var rooms: map<string, set<string>>
    /** Everything sent or closed so far, oldest first. */
    var outbox: seq<Event>
    const healthPath: string

    ghost function State(): Relay
      reads this
    {
      Relay(peers, sessions, rooms)
    }

    /** The consistency the relay keeps between its three maps. */
    ghost predicate Valid()
      reads this
    {
      Invariants.Valid(State())
    }

    constructor (healthPath: string)
      ensures State() == Empty && outbox == [] && this.healthPath == healthPath
      ensures Valid()
    {
      peers := map[];
      sessions := map[];
      rooms := map[];
      outbox := [];
      this.healthPath := healthPath;
      Invariants.EmptyValid();
    }

    /** `health_check`: `200`, no headers and `OK\n` on the configured
      health path, and no answer (`None`) on any other path. */
    function HealthCheck(path: string): (r: Option<HttpReply>)
      ensures r.Some? <==> path == healthPath
      ensures r.Some? ==> r.value.status == 200 && r.value.headers == [] && r.value.body == HealthBody
    {
      if path == healthPath then Some(HttpReply(200, [], HealthBody)) else None
    }

    /** The handshake followed by registration: a welcomed id is greeted
      with `HELLO` and stored as idle; a refusal or a malformed first frame
      leaves the relay untouched. */
    method Connect(frame: string) returns (h: Handshake)
      requires Valid()
      modifies this`peers, this`outbox
      ensures h == Hello(old(peers), frame)
      ensures h.Welcome? ==>
        State() == Registered(old(State()), h.uid) && outbox == old(outbox) + [Send(h.uid, "HELLO")]
      ensures !h.Welcome? ==> State() == old(State()) && outbox == old(outbox)
      ensures Valid()
    {
      h := Hello(peers, frame);
      Invariants.HelloPreservesValid(State(), frame);
      if h.Welcome? {
        outbox := outbox + [Send(h.uid, "HELLO")];
        peers := peers[h.uid := Idle];
      }
    }

    /** Sends `text` to each id of `members` not in `skip`, in one possible
      iteration order of the set. Every recipient must be registered. */
    method Broadcast(members: set<string>, skip: set<string>, text: string)
      requires members - skip <= peers.Keys
      modifies this`outbox
      ensures exists order :: Enumerates(order, members - skip) && outbox == old(outbox) + Notify(order, text)
    {
      var order := Roster(members, skip);
      var i := 0;
      while i < |order|
        invariant 0 <= i <= |order|
        invariant outbox == old(outbox) + Notify(order[..i], text)
      {
        Properties.NotifyAppend(order[..i], order[i], text);
        assert order[..i + 1] == order[..i] + [order[i]];
        outbox := outbox + [Send(order[i], text)];
        i := i + 1;
      }
      assert order[..|order|] == order;
    }

    /** Ends `u`'s session: its entry goes; when the partner still has an
      entry, that entry and the partner's registration go too, and the
      partner's connection is closed. */
    method CleanupSession(u: string)
      modifies this`peers, this`sessions, this`outbox
      ensures State() == SessionCleaned(old(State()), u)
      ensures outbox == old(outbox) + SessionCloses(old(State()), u)
    {
      if u in sessions {
        var other := sessions[u];
        sessions := sessions - {u};
        if other in sessions {
          sessions := sessions - {other};
          if other in peers {
            peers := peers - {other};
            outbox := outbox + [Close(other)];
          }
        }
      }
    }

    /** Takes `u` out of room `r` and tells every remaining member; nothing
      happens when the room or the membership is gone. The room entry is
      kept even when it becomes empty. */
    method CleanupRoom(u: string, r: string)
      requires r in rooms ==> rooms[r] - {u} <= peers.Keys
      modifies this`rooms, this`outbox
      ensures State() == RoomLeft(old(State()), u, r)
      ensures exists order ::
        Enumerates(order, LeftBehind(old(State()), u, r)) && outbox == old(outbox) + Notify(order, "ROOM_PEER_LEFT " + u)
    {
      if r !in rooms || u !in rooms[r] {
        assert Enumerates([], LeftBehind(old(State()), u, r));
        assert outbox == old(outbox) + Notify([], "ROOM_PEER_LEFT " + u);
        return;
      }
      rooms := rooms[r := rooms[r] - {u}];
      assert rooms[r] - {} == LeftBehind(old(State()), u, r);
      Broadcast(rooms[r], {}, "ROOM_PEER_LEFT " + u);
    }

    /** The rest of `remove_peer` once the session is cleaned up: when `u`
      is still registered, room cleanup if its status names a room, then
      its registration goes and its connection is closed. */
    method Deregister(u: string)
      requires u in peers && peers[u].InRoom? && peers[u].room in rooms ==> rooms[peers[u].room] - {u} <= peers.Keys
      modifies this`peers, this`rooms, this`outbox
      ensures State() == Deregistered(old(State()), u)
      ensures exists order ::
        && Enumerates(order, Bystanders(old(State()), u))
        && outbox == old(outbox) + Notify(order, "ROOM_PEER_LEFT " + u) + (if u in old(peers) then [Close(u)] else [])
    {
      ghost var out0 := outbox;
      ghost var order: seq<string> := [];
      if u in peers {
        var status := peers[u];
        if status.InRoom? && status.room != [] {
          CleanupRoom(u, status.room);
          order :| Enumerates(order, Bystanders(old(State()), u))
            && outbox == out0 + Notify(order, "ROOM_PEER_LEFT " + u);
        }
        peers := peers - {u};
        outbox := outbox + [Close(u)];
      }
      assert Enumerates(order, Bystanders(old(State()), u));
    }

    /** The cleanup run when `u`'s connection ends: session cleanup, then
      deregistration. */
    method RemovePeer(u: string)
      requires Valid()
      modifies this`peers, this`sessions, this`rooms, this`outbox
      ensures State() == Removed(old(State()), u)
      ensures |old(outbox)| <= |outbox| && outbox[..|old(outbox)|] == old(outbox)
      ensures RemovalEvents(old(State()), u, outbox[|old(outbox)|..])
      ensures Valid()
    {
      ghost var s := State();
      ghost var out0 := outbox;
      Invariants.SessionCleanedKeepsRooms(s, u);
      Invariants.RemovedPreservesValid(s, u);
      CleanupSession(u);
      ghost var s1 := State();
      ghost var out1 := outbox;
      ghost var closing := if u in s1.peers then [Close(u)] else [];
      if u in peers && peers[u].InRoom? && peers[u].room in rooms {
        Invariants.RoomMembersRegistered(s1, peers[u].room);
      }
      Deregister(u);
      ghost var order :| Enumerates(order, Bystanders(s1, u))
        && outbox == out1 + Notify(order, "ROOM_PEER_LEFT " + u) + closing;
      assert Bystanders(s1, u) == Audience(s, u);
      Invariants.ValidRemovalCompletes(s, u);
      Protocol.ReachedEnumeration(order, Audience(s, u), s1.peers.Keys);
      AppendedEvents(out0, SessionCloses(s, u), Notify(order, "ROOM_PEER_LEFT " + u), closing);
    }

    /** `ROOM_PEER_LIST` from a member of room `r`: the other members, in
      one iteration order, back to the asker. */
    method ListRoom(uid: string, r: string)
      requires r in rooms
      modifies this`outbox
      ensures exists order ::
        Enumerates(order, rooms[r] - {uid}) && outbox == old(outbox) + [Send(uid, "ROOM_PEER_LIST " + Join(order))]
    {
      var order := Roster(rooms[r], {uid});
      outbox := outbox + [Send(uid, "ROOM_PEER_LIST " + Join(order))];
    }

    /** A granted `SESSION` request: `SESSION_OK` to the caller, then both
      peers are marked as in a session with each other. */
    method OpenSessionWith(uid: string, callee: string)
      modifies this`peers, this`sessions, this`outbox
      ensures State() == Paired(old(State()), uid, callee)
      ensures outbox == old(outbox) + [Send(uid, "SESSION_OK")]
    {
      outbox := outbox + [Send(uid, "SESSION_OK")];
      peers := peers[uid := InSession];
      sessions := sessions[uid := callee];
      peers := peers[callee := InSession];
      sessions := sessions[callee := uid];
    }

    /** A granted `ROOM` request: the room is created when absent, the
      joiner gets `ROOM_OK` with the members present before it, then joins,
      then every other member is told. */
    method JoinRoomAs(uid: string, r: string)
      requires Valid()
      modifies this`peers, this`rooms, this`outbox
      ensures State() == Joined(old(State()), uid, r)
      ensures |old(outbox)| <= |outbox| && outbox[..|old(outbox)|] == old(outbox)
      ensures Emitted(old(State()), uid, JoinRoom(r), outbox[|old(outbox)|..])
      ensures old(uid in peers && peers[uid] == Idle) && ValidRoomId(r) ==> Valid()
    {
      ghost var s := State();
      ghost var out0 := outbox;
      ghost var m := Members(s, r);
      if r !in rooms {
        rooms := rooms[r := {}];
      }
      assert rooms == s.rooms[r := m];
      var before := Roster(rooms[r], {});
      assert rooms[r] - {} == m;
      var greeting := Send(uid, "ROOM_OK " + Join(before));
      outbox := outbox + [greeting];
      peers := peers[uid := InRoom(r)];
      rooms := rooms[r := rooms[r] + {uid}];
      assert rooms == s.rooms[r := m + {uid}];
      assert State() == Joined(s, uid, r);
      Properties.MembersRegistered(s, r);
      Broadcast(rooms[r], {uid}, "ROOM_PEER_JOINED " + uid);
      ghost var others :| Enumerates(others, m + {uid} - {uid})
        && outbox == out0 + [greeting] + Notify(others, "ROOM_PEER_JOINED " + uid);
      AppendedPair(out0, [greeting], Notify(others, "ROOM_PEER_JOINED " + uid));
      Properties.JoinEmitted(s, uid, r, before, others, outbox[|out0|..]);
      if uid in s.peers && s.peers[uid] == Idle && ValidRoomId(r) {
        Invariants.JoinedPreservesValid(s, uid, r);
      }
    }

    /** One iteration of the connection loop for `uid`: the frame is
      dispatched on the stored status, its effects are applied in place,
      and a frame that makes the loop raise ends in the cleanup cascade.
      The session check is the one as written, so the maps stay consistent
      only when the frame does not ask for a busy callee. */
    method HandleFrame(uid: string, msg: string) returns (a: Action)
      requires Valid()
      modifies this`peers, this`sessions, this`rooms, this`outbox
      ensures a == Dispatch(old(State()), uid, msg)
      ensures State() == Next(old(State()), uid, msg)
      ensures |old(outbox)| <= |outbox| && outbox[..|old(outbox)|] == old(outbox)
      ensures Emitted(old(State()), uid, a, outbox[|old(outbox)|..])
      ensures CalleeIdle(old(State()), uid, msg) ==> Valid()
    {
      ghost var s := State();
      if CalleeIdle(s, uid, msg) {
        Invariants.NextPreservesValid(s, uid, msg);
      }
      a := Dispatch(Relay(peers, sessions, rooms), uid, msg);
      match a
      case Forward(to, text) =>
        outbox := outbox + [Send(to, text)];
      case Reply(text) =>
        outbox := outbox + [Send(uid, text)];
      case Ignore =>
      case ListPeers(r) =>
        ListRoom(uid, r);
      case OpenSession(callee) =>
        OpenSessionWith(uid, callee);
      case JoinRoom(r) =>
        Properties.MembersRegistered(s, r);
        JoinRoomAs(uid, r);
      case Crash =>
        RemovePeer(uid);
    }
  }
}
