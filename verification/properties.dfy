/** What each well-formed frame does, stated on the frames a client sends,
    and what the outbound events promise their recipients. */
module Properties {
  import opened Text
  import opened Protocol
  import opened Invariants

  // ----- Handshake -------------------------------------------------------

  /** `HELLO <uid>` registers `uid` exactly when it is a fresh whitespace-free
      id; otherwise the connection is refused with code 1002. */
  lemma HelloFrame(peers: map<string, Status>, uid: string)
    requires uid != [] && !IsSpace(uid[0])
    ensures Hello(peers, "HELLO " + uid)
      == if IsWord(uid) && uid !in peers then Welcome(uid)
         else Refused(ProtocolError, "invalid peer uid")
  {
    HelloParses(uid);
    TokenIffWord(uid);
  }

  lemma HelloParses(uid: string)
    requires uid != [] && !IsSpace(uid[0])
    ensures SplitMax("HELLO " + uid, 1) == ["HELLO", uid]
  {
    assert "HELLO " + uid == "HELLO" + " " + uid;
    HelloIsWord();
    CommandWithArgument("HELLO", uid);
  }

  /** A first frame whose command is not `HELLO` is refused with code 1002. */
  lemma HelloWrongCommand(peers: map<string, Status>, cmd: string, uid: string)
    requires IsWord(cmd) && cmd != "HELLO"
    requires uid != [] && !IsSpace(uid[0])
    ensures Hello(peers, cmd + " " + uid) == Refused(ProtocolError, "invalid protocol")
  {
    CommandWithArgument(cmd, uid);
  }

  /** A bare `HELLO` does not unpack into command and id. */
  lemma HelloAlone(peers: map<string, Status>)
    ensures Hello(peers, "HELLO") == Malformed
  {
    HelloIsWord();
    BareCommand("HELLO", 1);
  }

  lemma HelloIsWord()
    ensures IsWord("HELLO")
  {
  }

  // ----- Idle peers ------------------------------------------------------

  lemma CommandWordsAreWords()
    ensures IsWord("SESSION") && IsWord("ROOM") && IsWord("ROOM_PEER_MSG")
  {
  }

  /** `SESSION <callee>` from an idle peer, as written: an unknown callee
      is not found and changes nothing; any registered callee, whatever its
      status, is paired with the caller. */
  lemma SessionFrame(s: Relay, uid: string, callee: string)
    requires uid in s.peers && s.peers[uid] == Idle
    requires callee != [] && !IsSpace(callee[0])
    ensures Dispatch(s, uid, "SESSION " + callee)
      == if callee !in s.peers then Reply("ERROR peer " + callee + " not found")
         else OpenSession(callee)
    ensures callee !in s.peers ==> Next(s, uid, "SESSION " + callee) == s
    ensures callee in s.peers ==> Next(s, uid, "SESSION " + callee) == Paired(s, uid, callee)
  {
    SessionRequestParses(callee);
  }

  /** `SESSION <callee>` from an idle peer under the intended check: not
      found, busy, or a new session; a refusal changes nothing. */
  lemma IntendedSessionFrame(s: Relay, uid: string, callee: string)
    requires uid in s.peers && s.peers[uid] == Idle
    requires callee != [] && !IsSpace(callee[0])
    ensures IntendedDispatch(s, uid, "SESSION " + callee)
      == if callee !in s.peers then Reply("ERROR peer " + callee + " not found")
         else if s.peers[callee] != Idle then Reply("ERROR peer " + callee + " busy")
         else OpenSession(callee)
    ensures !(callee in s.peers && s.peers[callee] == Idle) ==> IntendedNext(s, uid, "SESSION " + callee) == s
  {
    SessionFrame(s, uid, callee);
  }

  /** The first counterexample of module Invariants, reached through the
      frame a client sends: as written, `SESSION b` to a peer already in a
      session leaves inconsistent tables, whereas the intended check
      answers `busy` and keeps them. */
  lemma SessionToCallingPeer()
    ensures Valid(InCall)
    ensures Dispatch(InCall, "a", "SESSION b") == OpenSession("b")
    ensures !Valid(Next(InCall, "a", "SESSION b"))
    ensures IntendedDispatch(InCall, "a", "SESSION b") == Reply("ERROR peer b busy")
    ensures IntendedNext(InCall, "a", "SESSION b") == InCall
  {
    InCallValid();
    CallPairingMisfiles();
    CounterexampleTexts();
    assert InCall.peers["a"] == Idle && InCall.peers["b"] != Idle;
    SessionFrame(InCall, "a", "b");
    IntendedSessionFrame(InCall, "a", "b");
  }

  /** The second counterexample, reached the same way: as written,
      `SESSION b` to a room member leaves it in the room with status
      "session"; the intended check answers `busy`. */
  lemma SessionToRoomMember()
    ensures Valid(InLobby)
    ensures Dispatch(InLobby, "a", "SESSION b") == OpenSession("b")
    ensures !Valid(Next(InLobby, "a", "SESSION b"))
    ensures IntendedDispatch(InLobby, "a", "SESSION b") == Reply("ERROR peer b busy")
    ensures IntendedNext(InLobby, "a", "SESSION b") == InLobby
  {
    InLobbyValid();
    LobbyPairingMisfiles();
    CounterexampleTexts();
    assert InLobby.peers["a"] == Idle && InLobby.peers["b"] != Idle;
    SessionFrame(InLobby, "a", "b");
    IntendedSessionFrame(InLobby, "a", "b");
  }

  /** The third counterexample, a consequence of the second: b and c are
      in room "lobby", a sends `SESSION b` and is paired with b as written;
      when a's connection ends, b loses its registration but stays in the
      room. When c's connection ends later, room cleanup raises looking up
      b: c keeps its registration for good, and b's membership is never
      cleaned up. */
  lemma StaleMemberStrandsLeaver()
    ensures Valid(Crowded)
    ensures Next(Crowded, "a", "SESSION b") == Paired(Crowded, "a", "b")
    ensures Removed(Next(Crowded, "a", "SESSION b"), "a") == Stranded
    ensures !RemovalCompletes(Stranded, "c")
    ensures "c" in Removed(Stranded, "c").peers && !Valid(Removed(Stranded, "c"))
    ensures forall ev :: RemovalEvents(Stranded, "c", ev) ==> ev == []
  {
    CrowdedValid();
    CounterexampleTexts();
    assert Crowded.peers["a"] == Idle && "b" in Crowded.peers;
    SessionFrame(Crowded, "a", "b");
    assert Crowded.peers["b"] == InRoom("lobby");
    RoomCalleeOrphaned(Crowded, "a", "b");
    StrandedLeaverKept();
    var t := Removed(Stranded, "c");
    assert t.peers["c"] == InRoom("lobby") && "c" !in t.rooms["lobby"];
  }

  /** The same stale member makes a later join raise: d connects and sends
      `ROOM lobby`; the roster goes out, then the notice loop raises looking
      up b, and the cleanup cascade takes d out of the room again but
      leaves it registered with status "lobby". */
  lemma StaleMemberStrandsJoiner()
    ensures var s := Registered(Stranded, "d");
      Dispatch(s, "d", "ROOM lobby") == JoinRoom("lobby")
    ensures var t := Next(Registered(Stranded, "d"), "d", "ROOM lobby");
      "d" in t.peers && t.peers["d"] == InRoom("lobby") && "d" !in t.rooms["lobby"] && !Valid(t)
  {
    var s := Registered(Stranded, "d");
    StrandedTables();
    LobbyIsRoomId();
    CounterexampleTexts();
    assert s.peers["d"] == Idle && s.sessions == map[];
    assert !IsSpace("lobby"[0]);
    RoomFrame(s, "d", "lobby");
    assert Dispatch(s, "d", "ROOM lobby") == JoinRoom("lobby");
    assert "b" in Members(s, "lobby") - {"d"} && "b" !in s.peers;
    var t := Next(s, "d", "ROOM lobby");
    assert t == Apply(s, "d", JoinRoom("lobby"));
    assert t.peers["d"] == InRoom("lobby") && "d" !in t.rooms["lobby"];
  }

  lemma CounterexampleTexts()
    ensures "ERROR peer " + "b" + " busy" == "ERROR peer b busy"
    ensures "SESSION " + "b" == "SESSION b"
    ensures "ROOM " + "lobby" == "ROOM lobby"
  {
  }

  lemma SessionRequestParses(callee: string)
    requires callee != [] && !IsSpace(callee[0])
    ensures StartsWith("SESSION " + callee, "SESSION")
    ensures SplitMax("SESSION " + callee, 1) == ["SESSION", callee]
  {
    var msg := "SESSION " + callee;
    assert msg == "SESSION" + " " + callee;
    assert msg[..7] == "SESSION";
    CommandWordsAreWords();
    CommandWithArgument("SESSION", callee);
  }

  /** A bare `SESSION` fails to unpack, which ends the connection. */
  lemma BareSessionCrashes(s: Relay, uid: string)
    requires uid in s.peers && s.peers[uid] == Idle
    ensures Dispatch(s, uid, "SESSION") == Crash
    ensures Next(s, uid, "SESSION") == Removed(s, uid)
  {
    CommandWordsAreWords();
    BareCommand("SESSION", 1);
  }

  /** `ROOM <r>` from an idle peer: refused when `r` is the session marker
      or holds whitespace, a join otherwise. */
  lemma RoomFrame(s: Relay, uid: string, r: string)
    requires uid in s.peers && s.peers[uid] == Idle
    requires r != [] && !IsSpace(r[0])
    ensures Dispatch(s, uid, "ROOM " + r)
      == if r == SessionMarker || !IsWord(r) then Reply("ERROR invalid room id " + r)
         else JoinRoom(r)
    ensures r == SessionMarker || !IsWord(r) ==> Next(s, uid, "ROOM " + r) == s
  {
    RoomRequestParses(r);
    TokenIffWord(r);
    assert IdleStep(s, uid, "ROOM " + r)
      == if !ValidRoomId(r) then Reply("ERROR invalid room id " + r) else JoinRoom(r);
  }

  lemma RoomRequestParses(r: string)
    requires r != [] && !IsSpace(r[0])
    ensures !StartsWith("ROOM " + r, "SESSION") && StartsWith("ROOM " + r, "ROOM")
    ensures SplitMax("ROOM " + r, 1) == ["ROOM", r]
  {
    var msg := "ROOM " + r;
    assert msg == "ROOM" + " " + r;
    assert msg[..4] == "ROOM";
    if 7 <= |msg| {
      assert msg[..7][0] == 'R' != "SESSION"[0];
    }
    CommandWordsAreWords();
    CommandWithArgument("ROOM", r);
  }

  /** Anything else from an idle peer is ignored: no reply, no state change. */
  lemma IdleOtherIgnored(s: Relay, uid: string, msg: string, ev: seq<Event>)
    requires uid in s.peers && s.peers[uid] == Idle
    requires !StartsWith(msg, "SESSION") && !StartsWith(msg, "ROOM")
    ensures Dispatch(s, uid, msg) == Ignore
    ensures Next(s, uid, msg) == s
    ensures Emitted(s, uid, Dispatch(s, uid, msg), ev) <==> ev == []
  {
  }

  // ----- Peers in a session ---------------------------------------------

  /** In a consistent state a peer in a session has every frame forwarded
      verbatim to its partner and to no one else, with no state change. */
  lemma SessionForwards(s: Relay, uid: string, msg: string, ev: seq<Event>)
    requires Valid(s)
    requires uid in s.peers && s.peers[uid] == InSession
    ensures Dispatch(s, uid, msg) == Forward(s.sessions[uid], msg)
    ensures Next(s, uid, msg) == s
    ensures Emitted(s, uid, Dispatch(s, uid, msg), ev) <==> ev == [Send(s.sessions[uid], msg)]
  {
  }

  // ----- Peers in a room -------------------------------------------------

  /** `ROOM_PEER_MSG <target> <text>` from a member of room `r`: not found,
      not in the room, or `ROOM_PEER_MSG <uid> <text>` to the target alone;
      no map changes in any case. */
  lemma RoomMessageFrame(s: Relay, uid: string, r: string, target: string, text: string)
    requires uid in s.peers && s.peers[uid] == InRoom(r) && r != []
    requires IsWord(target)
    requires text != [] && !IsSpace(text[0])
    ensures Dispatch(s, uid, "ROOM_PEER_MSG " + target + " " + text)
      == if target !in s.peers then Reply("ERROR peer " + target + " not found")
         else if s.peers[target] != InRoom(r) then Reply("ERROR peer " + target + " is not in the room")
         else Forward(target, "ROOM_PEER_MSG " + uid + " " + text)
    ensures Next(s, uid, "ROOM_PEER_MSG " + target + " " + text) == s
  {
    RoomMessageParses(target, text);
  }

  lemma RoomMessageParses(target: string, text: string)
    requires IsWord(target)
    requires text != [] && !IsSpace(text[0])
    ensures StartsWith("ROOM_PEER_MSG " + target + " " + text, "ROOM_PEER_MSG")
    ensures SplitMax("ROOM_PEER_MSG " + target + " " + text, 2) == ["ROOM_PEER_MSG", target, text]
  {
    var msg := "ROOM_PEER_MSG " + target + " " + text;
    assert msg == "ROOM_PEER_MSG" + " " + target + " " + text;
    assert msg[..13] == "ROOM_PEER_MSG";
    CommandWordsAreWords();
    CommandWithTwoArguments("ROOM_PEER_MSG", target, text);
  }

  /** `ROOM_PEER_LIST` from a member of an existing room asks for the roster. */
  lemma RoomListFrame(s: Relay, uid: string, r: string)
    requires uid in s.peers && s.peers[uid] == InRoom(r) && r != [] && r in s.rooms
    ensures Dispatch(s, uid, "ROOM_PEER_LIST") == ListPeers(r)
    ensures Next(s, uid, "ROOM_PEER_LIST") == s
  {
    assert !StartsWith("ROOM_PEER_LIST", "ROOM_PEER_MSG") by {
      assert "ROOM_PEER_LIST"[..13][10] != "ROOM_PEER_MSG"[10];
    }
  }

  /** Any other frame from a room member is answered with an error and
      changes nothing. */
  lemma RoomOtherRejected(s: Relay, uid: string, r: string, msg: string)
    requires uid in s.peers && s.peers[uid] == InRoom(r) && r != []
    requires !StartsWith(msg, "ROOM_PEER_MSG") && msg != "ROOM_PEER_LIST"
    ensures Dispatch(s, uid, msg) == Reply("ERROR invalid msg, already in room")
    ensures Next(s, uid, msg) == s
  {
  }

  // ----- Outbound events -------------------------------------------------

  lemma {:induction false} NotifyAppend(order: seq<string>, p: string, text: string)
    ensures Notify(order + [p], text) == Notify(order, text) + [Send(p, text)]
  {
    if order != [] {
      assert (order + [p])[1..] == order[1..] + [p];
      NotifyAppend(order[1..], p, text);
    }
  }

  lemma {:induction false} DeliveriesAppend(a: seq<Event>, b: seq<Event>, p: string)
    ensures Deliveries(a + b, p) == Deliveries(a, p) + Deliveries(b, p)
  {
    if a == [] {
      assert a + b == b;
    } else {
      assert (a + b)[0] == a[0];
      assert (a + b)[1..] == a[1..] + b;
      DeliveriesAppend(a[1..], b, p);
    }
  }

  /** Notifying an enumeration of a set reaches each member exactly once and
      no one else. */
  lemma {:induction false} NotifyReachesEachOnce(order: seq<string>, members: set<string>, text: string, p: string)
    requires Enumerates(order, members)
    ensures Deliveries(Notify(order, text), p) == if p in members then 1 else 0
  {
    if order != [] {
      var rest := members - {order[0]};
      forall x
        ensures x in order[1..] <==> x in rest
      {
        if x in order[1..] {
          var k :| 1 <= k < |order| && order[k] == x;
          assert order[0] != order[k];
        }
        if x in rest {
          var k :| 0 <= k < |order| && order[k] == x;
          assert k != 0;
          assert order[1..][k - 1] == x;
        }
      }
      assert Enumerates(order[1..], rest);
      NotifyReachesEachOnce(order[1..], rest, text, p);
    }
  }

  /** In a consistent state every member of a room is a registered,
      whitespace-free id whose status names that room. */
  lemma MembersRegistered(s: Relay, r: string)
    requires Valid(s)
    ensures forall x :: x in Members(s, r) ==> x in s.peers && s.peers[x] == InRoom(r) && IsWord(x)
  {
  }

  /** A roster `<cmd> <id> <id> ...` built from an enumeration of ids
      reads back as the command followed by those ids. */
  lemma RosterReadsBack(cmd: string, order: seq<string>, members: set<string>)
    requires forall x :: x in members ==> IsWord(x)
    requires IsWord(cmd)
    requires Enumerates(order, members)
    ensures Split(cmd + " " + Join(order)) == [cmd] + order
    ensures Enumerates(Split(cmd + " " + Join(order))[1..], members)
  {
    forall i | 0 <= i < |order|
      ensures IsWord(order[i])
    {
      assert order[i] in members;
    }
    SplitJoin(order);
    SplitWordSpace(cmd, Join(order), 0);
    assert ([cmd] + order)[1..] == order;
  }

  lemma RosterCommandsAreWords()
    ensures IsWord("ROOM_OK") && IsWord("ROOM_PEER_LIST")
  {
  }

  /** The events of a join, taken apart: the roster to the joiner, then one
      notice per element of `others`, when every other member is
      registered. */
  lemma JoinEventsShape(s: Relay, uid: string, r: string, ev: seq<Event>)
    requires Members(s, r) - {uid} <= s.peers.Keys
    requires Emitted(s, uid, JoinRoom(r), ev)
    ensures exists before, others ::
      && Enumerates(before, Members(s, r))
      && Enumerates(others, Members(s, r) + {uid} - {uid})
      && ev == [Send(uid, "ROOM_OK " + Join(before))] + Notify(others, "ROOM_PEER_JOINED " + uid)
  {
    var before :| Enumerates(before, Members(s, r))
      && (exists others :: Enumerates(others, Members(s, r) + {uid} - {uid})
            && JoinEvents(s, uid, r, before, others, ev));
    var others :| Enumerates(others, Members(s, r) + {uid} - {uid})
      && JoinEvents(s, uid, r, before, others, ev);
    assert ev == [Send(uid, "ROOM_OK " + Join(before))] + Notify(others, "ROOM_PEER_JOINED " + uid);
  }

  /** The roster reply and one notice per other member are the events of
      a join in which every other member is registered. */
  lemma JoinEmitted(s: Relay, uid: string, r: string, before: seq<string>, others: seq<string>, ev: seq<Event>)
    requires Members(s, r) - {uid} <= s.peers.Keys
    requires Enumerates(before, Members(s, r)) && Enumerates(others, Members(s, r) + {uid} - {uid})
    requires ev == [Send(uid, "ROOM_OK " + Join(before))] + Notify(others, "ROOM_PEER_JOINED " + uid)
    ensures Emitted(s, uid, JoinRoom(r), ev)
  {
    assert JoinEvents(s, uid, r, before, others, ev);
  }

  lemma RoomOkText(x: string)
    ensures "ROOM_OK " + x == "ROOM_OK" + " " + x
  {
  }

  lemma RoomListText(x: string)
    ensures "ROOM_PEER_LIST " + x == "ROOM_PEER_LIST" + " " + x
  {
  }

  /** Joining room `r`: the joiner's `ROOM_OK` lists exactly the members
      present before it joined, so never the joiner itself. */
  lemma JoinReply(s: Relay, uid: string, r: string, ev: seq<Event>)
    requires Valid(s) && uid in s.peers && s.peers[uid] == Idle
    requires Emitted(s, uid, JoinRoom(r), ev)
    ensures |ev| >= 1 && ev[0].Send? && ev[0].to == uid
    ensures Split(ev[0].text)[0] == "ROOM_OK"
    ensures Enumerates(Split(ev[0].text)[1..], Members(s, r))
    ensures uid !in Members(s, r)
  {
    MembersRegistered(s, r);
    var m := Members(s, r);
    assert m - {uid} <= s.peers.Keys;
    JoinEventsShape(s, uid, r, ev);
    var before, others :|
      && Enumerates(before, m)
      && Enumerates(others, m + {uid} - {uid})
      && ev == [Send(uid, "ROOM_OK " + Join(before))] + Notify(others, "ROOM_PEER_JOINED " + uid);
    assert ev[0] == Send(uid, "ROOM_OK " + Join(before));
    RosterCommandsAreWords();
    RoomOkText(Join(before));
    RosterReadsBack("ROOM_OK", before, m);
  }

  /** Joining room `r`: after the reply, every member present before the
      join, and no one else, gets exactly one `ROOM_PEER_JOINED <uid>`. */
  lemma JoinNotices(s: Relay, uid: string, r: string, ev: seq<Event>, p: string)
    requires Valid(s) && uid in s.peers && s.peers[uid] == Idle
    requires Emitted(s, uid, JoinRoom(r), ev)
    ensures |ev| >= 1
    ensures Deliveries(ev[1..], p) == if p in Members(s, r) then 1 else 0
    ensures forall i :: 1 <= i < |ev| ==> ev[i].Send? && ev[i].text == "ROOM_PEER_JOINED " + uid
  {
    MembersRegistered(s, r);
    var m := Members(s, r);
    assert m - {uid} <= s.peers.Keys;
    JoinEventsShape(s, uid, r, ev);
    var before, others :|
      && Enumerates(before, m)
      && Enumerates(others, m + {uid} - {uid})
      && ev == [Send(uid, "ROOM_OK " + Join(before))] + Notify(others, "ROOM_PEER_JOINED " + uid);
    assert m + {uid} - {uid} == m;
    GreetingThenNotices(ev[0], others, m, uid, ev, p);
  }

  /** One frame, then one `ROOM_PEER_JOINED <uid>` per element of an
      enumeration of `members`. */
  lemma GreetingThenNotices(greeting: Event, others: seq<string>, members: set<string>, uid: string, ev: seq<Event>, p: string)
    requires Enumerates(others, members)
    requires ev == [greeting] + Notify(others, "ROOM_PEER_JOINED " + uid)
    ensures Deliveries(ev[1..], p) == if p in members then 1 else 0
    ensures forall i :: 1 <= i < |ev| ==> ev[i].Send? && ev[i].text == "ROOM_PEER_JOINED " + uid
  {
    var notices := Notify(others, "ROOM_PEER_JOINED " + uid);
    assert ev[1..] == notices;
    NotifyReachesEachOnce(others, members, "ROOM_PEER_JOINED " + uid, p);
    forall i | 1 <= i < |ev|
      ensures ev[i].Send? && ev[i].text == "ROOM_PEER_JOINED " + uid
    {
      assert ev[i] == notices[i - 1];
    }
  }

  /** `ROOM_PEER_LIST` is answered to the asker alone with the other members
      of its room. */
  lemma ListAnswer(s: Relay, uid: string, r: string, ev: seq<Event>)
    requires Valid(s)
    requires Emitted(s, uid, ListPeers(r), ev)
    ensures |ev| == 1 && ev[0].Send? && ev[0].to == uid
    ensures Split(ev[0].text)[0] == "ROOM_PEER_LIST"
    ensures Enumerates(Split(ev[0].text)[1..], Members(s, r) - {uid})
  {
    MembersRegistered(s, r);
    var m := Members(s, r) - {uid};
    var order :| Enumerates(order, m) && ev == [Send(uid, "ROOM_PEER_LIST " + Join(order))];
    RosterCommandsAreWords();
    RoomListText(Join(order));
    RosterReadsBack("ROOM_PEER_LIST", order, m);
  }

  /** When a room member's connection ends, each other member of its room
      gets exactly one `ROOM_PEER_LEFT <u>`, the leaver none, and the
      leaver's connection is closed last; every earlier event is such a
      notice. */
  lemma LeaveAnnouncements(s: Relay, u: string, r: string, ev: seq<Event>, p: string)
    requires Valid(s) && u in s.peers && s.peers[u] == InRoom(r)
    requires RemovalEvents(s, u, ev)
    ensures Deliveries(ev, p) == if p in s.rooms[r] && p != u then 1 else 0
    ensures |ev| >= 1 && ev[|ev| - 1] == Close(u)
    ensures forall i :: 0 <= i < |ev| - 1 ==> ev[i].Send? && ev[i].text == "ROOM_PEER_LEFT " + u
  {
    var order := LeaveEvents(s, u, r, ev);
    NoticesThenClose(order, s.rooms[r] - {u}, u, ev, p);
  }

  /** One `ROOM_PEER_LEFT <u>` per element of an enumeration of `members`,
      then the close of `u`. */
  lemma NoticesThenClose(order: seq<string>, members: set<string>, u: string, ev: seq<Event>, p: string)
    requires Enumerates(order, members)
    requires ev == Notify(order, "ROOM_PEER_LEFT " + u) + [Close(u)]
    ensures Deliveries(ev, p) == if p in members then 1 else 0
    ensures |ev| >= 1 && ev[|ev| - 1] == Close(u)
    ensures forall i :: 0 <= i < |ev| - 1 ==> ev[i].Send? && ev[i].text == "ROOM_PEER_LEFT " + u
  {
    var notices := Notify(order, "ROOM_PEER_LEFT " + u);
    DeliveriesAppend(notices, [Close(u)], p);
    NotifyReachesEachOnce(order, members, "ROOM_PEER_LEFT " + u, p);
    forall i | 0 <= i < |ev| - 1
      ensures ev[i].Send? && ev[i].text == "ROOM_PEER_LEFT " + u
    {
      assert ev[i] == notices[i];
    }
  }

  /** A room member's removal events: the notices to one enumeration of
      the rest of the room, then the close. */
  lemma LeaveEvents(s: Relay, u: string, r: string, ev: seq<Event>) returns (order: seq<string>)
    requires Valid(s) && u in s.peers && s.peers[u] == InRoom(r)
    requires RemovalEvents(s, u, ev)
    ensures Enumerates(order, s.rooms[r] - {u})
    ensures ev == Notify(order, "ROOM_PEER_LEFT " + u) + [Close(u)]
  {
    TokenIffWord(r);
    ValidRemovalCompletes(s, u);
    assert u !in s.sessions;
    assert SessionCleaned(s, u) == s;
    assert SessionCloses(s, u) == [];
    order :| Enumerates(order, Audience(s, u))
      && ev == RemovalTrace(s, u, order);
    assert Audience(s, u) == s.rooms[r] - {u};
    RoomMembersRegistered(s, r);
    ReachedEnumeration(order, Audience(s, u), s.peers.Keys);
    var notices := Notify(order, "ROOM_PEER_LEFT " + u);
    assert [] + notices == notices;
  }

  /** When a session peer's connection ends, its partner's connection is
      closed and then its own; nothing else is sent. */
  lemma SessionTeardown(s: Relay, u: string, ev: seq<Event>)
    requires Valid(s) && u in s.sessions && s.sessions[u] != u
    requires RemovalEvents(s, u, ev)
    ensures ev == [Close(s.sessions[u]), Close(u)]
  {
    RemovedEndsPartner(s, u);
    ValidRemovalCompletes(s, u);
    var order :| Enumerates(order, Audience(s, u))
      && ev == RemovalTrace(s, u, order);
    assert Audience(s, u) == {};
    assert |order| == 0 by {
      assert forall i :: 0 <= i < |order| ==> order[i] in order;
    }
    assert u in SessionCleaned(s, u).peers;
  }
}
