/** The consistency the three maps are meant to keep, its preservation by
    every transition, and the two ways the session request as written
    breaks it, one of which later makes the cleanup cascade raise. */
module Invariants {
  import opened Text
  import opened Protocol

  /** Session entries come in pairs: a -> b exists exactly when b -> a does. */
  ghost predicate SessionsSymmetric(s: Relay) {
    forall a :: a in s.sessions ==> s.sessions[a] in s.sessions && s.sessions[s.sessions[a]] == a
  }

  /** A peer has a session entry exactly when its status is "session". */
  ghost predicate SessionsAgree(s: Relay) {
    && (forall a :: a in s.sessions ==> a in s.peers && s.peers[a] == InSession)
    && (forall a :: a in s.peers && s.peers[a] == InSession ==> a in s.sessions)
  }

  /** A peer is a member of room r exactly when its status is r, and that
      room id is a valid one. */
  ghost predicate RoomsAgree(s: Relay) {
    && (forall r, p :: r in s.rooms && p in s.rooms[r] ==> p in s.peers && s.peers[p] == InRoom(r))
    && (forall p :: p in s.peers && s.peers[p].InRoom? ==>
          ValidRoomId(s.peers[p].room) && s.peers[p].room in s.rooms && p in s.rooms[s.peers[p].room])
  }

  /** Every registered id passed the handshake's whitespace test. */
  ghost predicate PeersNamed(s: Relay) {
    forall p :: p in s.peers ==> IsWord(p)
  }

  ghost predicate Valid(s: Relay) {
    SessionsSymmetric(s) && SessionsAgree(s) && RoomsAgree(s) && PeersNamed(s)
  }

  lemma EmptyValid()
    ensures Valid(Empty)
  {
  }

  /** Registering a fresh id keeps the maps consistent. */
  lemma RegisteredPreservesValid(s: Relay, uid: string)
    requires Valid(s) && IsWord(uid) && uid !in s.peers
    ensures Valid(Registered(s, uid))
  {
  }

  /** A successful handshake keeps the maps consistent once the id is registered. */
  lemma HelloPreservesValid(s: Relay, frame: string)
    requires Valid(s)
    ensures Hello(s.peers, frame).Welcome? ==> Valid(Registered(s, Hello(s.peers, frame).uid))
  {
    var h := Hello(s.peers, frame);
    if h.Welcome? {
      RegisteredPreservesValid(s, h.uid);
    }
  }

  /** Pairing two idle peers keeps the maps consistent. */
  lemma PairedPreservesValid(s: Relay, uid: string, callee: string)
    requires Valid(s)
    requires uid in s.peers && s.peers[uid] == Idle
    requires callee in s.peers && s.peers[callee] == Idle
    ensures Valid(Paired(s, uid, callee))
  {
    var t := Paired(s, uid, callee);
    forall a | a in t.sessions
      ensures t.sessions[a] in t.sessions && t.sessions[t.sessions[a]] == a
    {
      if a != uid && a != callee {
        assert s.sessions[a] != uid && s.sessions[a] != callee;
      }
    }
    forall q, p | q in t.rooms && p in t.rooms[q]
      ensures p in t.peers && t.peers[p] == InRoom(q)
    {
      assert s.peers[p] == InRoom(q);
    }
    forall p | p in t.peers && t.peers[p].InRoom?
      ensures ValidRoomId(t.peers[p].room) && t.peers[p].room in t.rooms && p in t.rooms[t.peers[p].room]
    {
      assert t.peers[p] == s.peers[p];
    }
  }

  /** An idle peer joining a room under a valid id keeps the maps consistent. */
  lemma JoinedPreservesValid(s: Relay, uid: string, r: string)
    requires Valid(s)
    requires uid in s.peers && s.peers[uid] == Idle
    requires ValidRoomId(r)
    ensures Valid(Joined(s, uid, r))
  {
    var t := Joined(s, uid, r);
    forall q, p | q in t.rooms && p in t.rooms[q]
      ensures p in t.peers && t.peers[p] == InRoom(q)
    {
      if p != uid {
        assert p in s.rooms[q];
      }
    }
    forall p | p in t.peers && t.peers[p].InRoom?
      ensures ValidRoomId(t.peers[p].room) && t.peers[p].room in t.rooms && p in t.rooms[t.peers[p].room]
    {
      if p != uid {
        assert t.peers[p] == s.peers[p];
      }
    }
  }

  /** Session cleanup keeps room membership consistent and drops only
      session-holders. */
  lemma SessionCleanedKeepsRooms(s: Relay, u: string)
    requires Valid(s)
    ensures SessionCleaned(s, u).rooms == s.rooms
    ensures RoomsAgree(SessionCleaned(s, u))
    ensures PeersNamed(SessionCleaned(s, u))
    ensures forall p :: p in SessionCleaned(s, u).peers ==> p in s.peers && SessionCleaned(s, u).peers[p] == s.peers[p]
  {
  }

  /** With membership in agreement with status, every member of a room is
      registered. */
  lemma RoomMembersRegistered(t: Relay, r: string)
    requires RoomsAgree(t) && r in t.rooms
    ensures t.rooms[r] <= t.peers.Keys
  {
  }

  /** Removing a peer in a session drops it and its partner from both
      maps and leaves the rooms alone. */
  lemma RemovedFromSession(s: Relay, u: string)
    requires Valid(s) && u in s.sessions
    ensures Removed(s, u) == Relay(s.peers - {u, s.sessions[u]}, s.sessions - {u, s.sessions[u]}, s.rooms)
  {
    var s1 := SessionCleaned(s, u);
    SessionCleanedPair(s, u);
    assert Bystanders(s1, u) == {};
    assert Removed(s, u) == s1.(peers := s1.peers - {u});
  }

  /** Session cleanup of a session-holder: the pair's session entries go,
      the partner's registration too, and `u`'s status, if it is still
      registered, names no room. */
  lemma SessionCleanedPair(s: Relay, u: string)
    requires Valid(s) && u in s.sessions
    ensures SessionCleaned(s, u).peers - {u} == s.peers - {u, s.sessions[u]}
    ensures SessionCleaned(s, u).sessions == s.sessions - {u, s.sessions[u]}
    ensures SessionCleaned(s, u).rooms == s.rooms
    ensures DepartedRoom(SessionCleaned(s, u), u) == []
  {
    var o := s.sessions[u];
    var s1 := SessionCleaned(s, u);
    if o == u {
      assert s1 == s.(sessions := s.sessions - {u});
    } else {
      assert s1 == Relay(s.peers - {o}, s.sessions - {u} - {o}, s.rooms);
    }
  }

  /** Removing a peer outside any session drops its registration and, when
      it is in a room, its membership. */
  lemma RemovedOutsideSession(s: Relay, u: string)
    requires Valid(s) && u !in s.sessions
    ensures u in s.peers && s.peers[u].InRoom? ==>
      Removed(s, u) == Relay(s.peers - {u}, s.sessions, s.rooms[s.peers[u].room := s.rooms[s.peers[u].room] - {u}])
    ensures !(u in s.peers && s.peers[u].InRoom?) ==> Removed(s, u) == s.(peers := s.peers - {u})
  {
    ValidRemovalCompletes(s, u);
    assert SessionCleaned(s, u) == s;
    if u in s.peers && s.peers[u].InRoom? {
      var r := s.peers[u].room;
      TokenIffWord(r);
      assert DepartedRoom(s, u) == r && r != [];
      RoomMembersRegistered(s, r);
      assert RoomLeft(s, u, r) == s.(rooms := s.rooms[r := s.rooms[r] - {u}]);
      assert Bystanders(s, u) <= s.peers.Keys;
    } else {
      assert DepartedRoom(s, u) == [];
    }
  }

  lemma DropPairPreservesValid(s: Relay, u: string)
    requires Valid(s) && u in s.sessions
    ensures Valid(Relay(s.peers - {u, s.sessions[u]}, s.sessions - {u, s.sessions[u]}, s.rooms))
  {
    var o := s.sessions[u];
    var t := Relay(s.peers - {u, o}, s.sessions - {u, o}, s.rooms);
    forall a | a in t.sessions
      ensures t.sessions[a] in t.sessions && t.sessions[t.sessions[a]] == a
    {
      assert s.sessions[a] != u && s.sessions[a] != o;
    }
    assert SessionsSymmetric(t);
    assert SessionsAgree(t);
    assert RoomsAgree(t);
  }

  lemma DropMemberPreservesValid(s: Relay, u: string)
    requires Valid(s) && u !in s.sessions && u in s.peers && s.peers[u].InRoom?
    ensures Valid(Relay(s.peers - {u}, s.sessions, s.rooms[s.peers[u].room := s.rooms[s.peers[u].room] - {u}]))
  {
    var r := s.peers[u].room;
    var t := Relay(s.peers - {u}, s.sessions, s.rooms[r := s.rooms[r] - {u}]);
    forall q, p | q in t.rooms && p in t.rooms[q]
      ensures p in t.peers && t.peers[p] == InRoom(q)
    {
      if q == r {
        assert p in s.rooms[r] && p != u;
      } else {
        assert p in s.rooms[q] && s.peers[p] == InRoom(q);
        assert p != u;
      }
    }
    forall p | p in t.peers && t.peers[p].InRoom?
      ensures ValidRoomId(t.peers[p].room) && t.peers[p].room in t.rooms && p in t.rooms[t.peers[p].room]
    {
      assert p != u && t.peers[p] == s.peers[p];
    }
    assert SessionsAgree(t);
  }

  lemma DropIdlePreservesValid(s: Relay, u: string)
    requires Valid(s) && u !in s.sessions && !(u in s.peers && s.peers[u].InRoom?)
    ensures Valid(s.(peers := s.peers - {u}))
  {
    var t := s.(peers := s.peers - {u});
    forall q, p | q in t.rooms && p in t.rooms[q]
      ensures p in t.peers && t.peers[p] == InRoom(q)
    {
      assert p in s.rooms[q];
    }
  }

  /** The cleanup cascade keeps the maps consistent. */
  lemma RemovedPreservesValid(s: Relay, u: string)
    requires Valid(s)
    ensures Valid(Removed(s, u))
  {
    if u in s.sessions {
      RemovedFromSession(s, u);
      DropPairPreservesValid(s, u);
    } else {
      RemovedOutsideSession(s, u);
      if u in s.peers && s.peers[u].InRoom? {
        DropMemberPreservesValid(s, u);
      } else {
        DropIdlePreservesValid(s, u);
      }
    }
  }

  /** Every frame the code as written dispatches keeps the maps consistent,
      unless it is a session request to a busy callee. */
  lemma NextPreservesValid(s: Relay, uid: string, msg: string)
    requires Valid(s) && CalleeIdle(s, uid, msg)
    ensures Valid(Next(s, uid, msg))
  {
    match Dispatch(s, uid, msg)
    case OpenSession(callee) => PairedPreservesValid(s, uid, callee);
    case JoinRoom(r) => JoinedPreservesValid(s, uid, r);
    case Crash => RemovedPreservesValid(s, uid);
    case _ =>
  }

  /** Under the intended session check, whatever frame arrives, the state
      after it is dispatched is consistent. */
  lemma IntendedNextPreservesValid(s: Relay, uid: string, msg: string)
    requires Valid(s)
    ensures Valid(IntendedNext(s, uid, msg))
  {
    if CalleeIdle(s, uid, msg) {
      NextPreservesValid(s, uid, msg);
    }
  }

  /** After the cleanup cascade the peer has no session entry, whatever
      the state was; it has no registration exactly when the cascade
      completes. */
  lemma RemovedForgetsPeer(s: Relay, u: string)
    ensures u !in Removed(s, u).sessions
    ensures u !in Removed(s, u).peers <==> RemovalCompletes(s, u)
  {
  }

  /** In a consistent state every member room cleanup looks up is
      registered, so the cleanup cascade always completes. */
  lemma ValidRemovalCompletes(s: Relay, u: string)
    requires Valid(s)
    ensures RemovalCompletes(s, u)
  {
    var s1 := SessionCleaned(s, u);
    SessionCleanedKeepsRooms(s, u);
    var r := DepartedRoom(s1, u);
    if r != [] && r in s1.rooms && u in s1.rooms[r] {
      RoomMembersRegistered(s1, r);
    }
  }

  /** Removing a peer that is in a session also unregisters its partner,
      drops both entries and closes the partner's connection. */
  lemma RemovedEndsPartner(s: Relay, u: string)
    requires Valid(s) && u in s.sessions && s.sessions[u] != u
    ensures s.sessions[u] !in Removed(s, u).peers && s.sessions[u] !in Removed(s, u).sessions
    ensures SessionCloses(s, u) == [Close(s.sessions[u])]
    ensures Audience(s, u) == {}
  {
    var o := s.sessions[u];
    assert o in s.sessions && o in s.peers;
    assert DepartedRoom(SessionCleaned(s, u), u) == [];
  }

  /** Session cleanup is a no-op without an entry, and applying it twice is
      applying it once. */
  lemma SessionCleanedIdempotent(s: Relay, u: string)
    ensures u !in s.sessions ==> SessionCleaned(s, u) == s
    ensures u !in SessionCleaned(s, u).sessions
    ensures SessionCleaned(SessionCleaned(s, u), u) == SessionCleaned(s, u)
    ensures SessionCloses(SessionCleaned(s, u), u) == []
  {
  }

  /** Room cleanup is a no-op when the room or the membership is absent,
      removes only `u` otherwise, keeps the room's entry even when it
      empties, and applying it twice is applying it once. */
  lemma RoomLeftOnlyRemoves(s: Relay, u: string, r: string)
    ensures !(r in s.rooms && u in s.rooms[r]) ==> RoomLeft(s, u, r) == s
    ensures r in s.rooms ==> r in RoomLeft(s, u, r).rooms && RoomLeft(s, u, r).rooms[r] == s.rooms[r] - {u}
    ensures RoomLeft(s, u, r).rooms.Keys == s.rooms.Keys
    ensures forall q :: q in s.rooms && q != r ==> RoomLeft(s, u, r).rooms[q] == s.rooms[q]
    ensures RoomLeft(s, u, r).peers == s.peers && RoomLeft(s, u, r).sessions == s.sessions
    ensures RoomLeft(RoomLeft(s, u, r), u, r) == RoomLeft(s, u, r)
  {
  }

  /** Running the cleanup cascade twice is running it once. */
  lemma RemovedIdempotent(s: Relay, u: string)
    ensures RemovalCompletes(s, u) ==> Removed(Removed(s, u), u) == Removed(s, u)
    ensures !RemovalCompletes(s, u) ==> RemovalCompletes(Removed(s, u), u) && u !in Removed(Removed(s, u), u).peers
  {
    var t := Removed(s, u);
    assert SessionCleaned(t, u) == t;
    if RemovalCompletes(s, u) {
      assert DepartedRoom(t, u) == [];
    } else {
      var s1 := SessionCleaned(s, u);
      var r := DepartedRoom(s1, u);
      assert r != [] && r in s1.rooms && u in s1.rooms[r];
      assert t.rooms[r] == s1.rooms[r] - {u};
      assert LeftBehind(t, u, r) == {};
    }
  }

  // ----- The session request as written --------------------------------

  /** As written, the busy test reads the caller's status, which is idle
      whenever the request is dispatched: every registered callee is
      accepted. */
  lemma CallerBusyCheckIsDead(s: Relay, uid: string, callee: string)
    requires uid in s.peers && s.peers[uid] == Idle
    ensures SessionRequestAsWritten(s, uid, callee)
      == if callee in s.peers then OpenSession(callee) else Reply("ERROR peer " + callee + " not found")
  {
  }

  /** b and c are in a session with each other; a is idle. */
  const InCall: Relay := Relay(
    map["a" := Idle, "b" := InSession, "c" := InSession],
    map["b" := "c", "c" := "b"],
    map[])

  /** a calls b while b is in a session with c: as written the request is
      accepted and leaves c -> b beside b -> a, whereas the intended check
      refuses it with `busy`. */
  lemma BusyCalleeBreaksSymmetry()
    ensures Valid(InCall)
    ensures SessionRequestAsWritten(InCall, "a", "b") == OpenSession("b")
    ensures !SessionsSymmetric(Paired(InCall, "a", "b"))
    ensures SessionRequest(InCall, "b") == Reply("ERROR peer " + "b" + " busy")
  {
    InCallValid();
    CallPairingMisfiles();
  }

  lemma InCallValid()
    ensures Valid(InCall)
  {
    SmallNamesAreWords();
    InCallSessionsAgree();
  }

  lemma InCallSessionsAgree()
    ensures SessionsSymmetric(InCall) && SessionsAgree(InCall)
  {
    assert InCall.sessions.Keys == {"b", "c"};
  }

  lemma CallPairingMisfiles()
    ensures !SessionsSymmetric(Paired(InCall, "a", "b"))
  {
    var t := Paired(InCall, "a", "b");
    assert t.sessions["c"] == "b" && t.sessions["b"] == "a";
  }

  lemma LobbyIsRoomId()
    ensures ValidRoomId("lobby")
  {
    assert IsWord("lobby") by {
      forall i | 0 <= i < 5 ensures !IsSpace("lobby"[i]) {
      }
    }
    TokenIffWord("lobby");
  }

  /** b is alone in room "lobby"; a is idle. */
  const InLobby: Relay := Joined(Registered(Registered(Empty, "a"), "b"), "b", "lobby")

  /** a calls b while b is in a room: as written b's status becomes
      "session" while b stays a member of the room, whereas the intended
      check refuses it with `busy`. */
  lemma RoomCalleeBreaksAgreement()
    ensures Valid(InLobby)
    ensures SessionRequestAsWritten(InLobby, "a", "b") == OpenSession("b")
    ensures !RoomsAgree(Paired(InLobby, "a", "b"))
    ensures SessionRequest(InLobby, "b") == Reply("ERROR peer " + "b" + " busy")
  {
    InLobbyValid();
    LobbyPairingMisfiles();
  }

  lemma InLobbyPeers()
    ensures InLobby.peers.Keys == {"a", "b"}
  {
    assert Registered(Empty, "a").peers.Keys == {"a"};
    assert Registered(Registered(Empty, "a"), "b").peers.Keys == {"a", "b"};
  }

  lemma InLobbyValid()
    ensures Valid(InLobby)
  {
    SmallNamesAreWords();
    LobbyIsRoomId();
    var r := Registered(Registered(Empty, "a"), "b");
    EmptyValid();
    RegisteredPreservesValid(Empty, "a");
    RegisteredPreservesValid(Registered(Empty, "a"), "b");
    JoinedPreservesValid(r, "b", "lobby");
  }

  lemma SmallNamesAreWords()
    ensures IsWord("a") && IsWord("b") && IsWord("c")
  {
  }

  lemma LobbyPairingMisfiles()
    ensures !RoomsAgree(Paired(InLobby, "a", "b"))
  {
    var t := Paired(InLobby, "a", "b");
    assert "b" in t.rooms["lobby"] && t.peers["b"] == InSession;
  }

  /** `InLobby` once c has connected and joined "lobby": b and c are in
      the room, a is idle. */
  const Crowded: Relay := Joined(Registered(InLobby, "c"), "c", "lobby")

  /** What `Crowded` comes to once a has paired with b as written and a's
      connection has ended: only c is registered, yet b is still listed in
      room "lobby". */
  const Stranded: Relay := Crowded.(peers := Crowded.peers - {"a", "b"})

  lemma CrowdedValid()
    ensures Valid(Crowded)
  {
    InLobbyValid();
    SmallNamesAreWords();
    LobbyIsRoomId();
    InLobbyPeers();
    RegisteredPreservesValid(InLobby, "c");
    JoinedPreservesValid(Registered(InLobby, "c"), "c", "lobby");
  }

  /** An idle peer pairs with a room member as written, then the caller's
      connection ends: session cleanup drops both registrations, and the
      callee stays listed in its room with no registration. */
  lemma RoomCalleeOrphaned(s: Relay, a: string, b: string)
    requires a in s.peers && s.peers[a] == Idle && a !in s.sessions
    requires b in s.peers && s.peers[b].InRoom? && b !in s.sessions
    requires s.peers[b].room in s.rooms && b in s.rooms[s.peers[b].room]
    ensures Removed(Paired(s, a, b), a) == s.(peers := s.peers - {a, b})
    ensures b in Removed(Paired(s, a, b), a).rooms[s.peers[b].room]
    ensures !RoomsAgree(Removed(Paired(s, a, b), a))
  {
    var t := Paired(s, a, b);
    var t1 := SessionCleaned(t, a);
    assert t1 == Relay(t.peers - {b}, s.sessions, s.rooms);
    assert DepartedRoom(t1, a) == [];
    assert Deregistered(t1, a) == Relay(t.peers - {b} - {a}, s.sessions, s.rooms);
    assert t.peers - {b} - {a} == s.peers - {a, b};
  }

  /** c's connection ends in `Stranded`: room cleanup takes c out of the
      room, then raises looking up b, so c keeps its registration, no one
      is told and no connection is closed. */
  lemma StrandedTables()
    ensures Stranded == Relay(map["c" := InRoom("lobby")], map[], map["lobby" := {"b", "c"}])
  {
    var r := Registered(InLobby, "c");
    assert r.peers.Keys == {"a", "b", "c"};
    assert Crowded.peers.Keys == {"a", "b", "c"} && Crowded.peers["c"] == InRoom("lobby");
    assert Stranded.peers.Keys == {"c"};
    assert Crowded.rooms.Keys == {"lobby"} && Crowded.rooms["lobby"] == {"b", "c"};
  }

  lemma StrandedLeaverKept()
    ensures !RemovalCompletes(Stranded, "c")
    ensures Removed(Stranded, "c") == Relay(map["c" := InRoom("lobby")], map[], map["lobby" := {"b"}])
    ensures forall ev :: RemovalEvents(Stranded, "c", ev) ==> ev == []
  {
    StrandedTables();
    assert SessionCleaned(Stranded, "c") == Stranded;
    assert DepartedRoom(Stranded, "c") == "lobby";
    assert Stranded.rooms["lobby"] - {"c"} == {"b"};
    assert Audience(Stranded, "c") == {"b"};
    assert "b" !in Stranded.peers;
    forall ev | RemovalEvents(Stranded, "c", ev)
      ensures ev == []
    {
      var order :| Enumerates(order, {"b"}) && ev == RemovalTrace(Stranded, "c", order);
      assert order[0] == "b" by {
        assert "b" in order;
        assert order[0] in order;
      }
      assert Reached(order, Stranded.peers.Keys) == [];
      assert SessionCloses(Stranded, "c") == [];
    }
  }

  /** Under the intended session check the cleanup cascade completes from
      every state a frame leads to, so a peer whose connection ends is
      always unregistered. */
  lemma IntendedRemovalCompletes(s: Relay, uid: string, msg: string, u: string)
    requires Valid(s)
    ensures RemovalCompletes(IntendedNext(s, uid, msg), u)
    ensures u !in Removed(IntendedNext(s, uid, msg), u).peers
  {
    IntendedNextPreservesValid(s, uid, msg);
    ValidRemovalCompletes(IntendedNext(s, uid, msg), u);
  }
}
