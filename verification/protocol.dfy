/** The relay's shared state, the decision taken on each inbound frame and
    the state transitions and outbound events each decision implies.
    Everything here is a value; the class in module Server applies these
    transitions in place. */
module Protocol {
  import opened Text

  /** A registered peer's status: `None`, `"session"` or a room id in the
      third slot of a `peers` entry in simp.py. */
  datatype Status = Idle | InSession | InRoom(room: string)

  /** The three shared maps: peer id to status, session partner, room members. */
  datatype Relay = Relay(
    peers: map<string, Status>,
    sessions: map<string, string>,
    rooms: map<string, set<string>>)

  /** What the relay does to a connection: send it a text frame, or close it. */
  datatype Event = Send(to: string, text: string) | Close(peer: string)

  /** Result of the handshake: a fresh peer id, a refusal with a close code
      and reason, or a first frame that does not unpack into two parts. */
  datatype Handshake = Welcome(uid: string) | Refused(code: int, reason: string) | Malformed

  /** The decision taken on one inbound frame. `Crash` stands for an
      exception escaping the dispatch loop (failed unpack, missing key,
      unknown status), after which the connection is cleaned up. */
  datatype Action =
    | Forward(to: string, text: string)
    | Reply(text: string)
    | ListPeers(room: string)
    | OpenSession(callee: string)
    | JoinRoom(room: string)
    | Ignore
    | Crash

  /** The status string that marks a peer in a session; no room may use it. */
  const SessionMarker: string := "session"

  /** Close code sent when the handshake is refused. */
  const ProtocolError: int := 1002

  const Empty: Relay := Relay(map[], map[], map[])

  /** A room id is accepted when it is not the session marker and
      `r.split() == [r]`: exactly the whitespace-free ids other than
      "session". */
  predicate ValidRoomId(r: string): (b: bool)
    ensures b <==> r != SessionMarker && IsWord(r)
  {
    TokenIffWord(r);
    r != SessionMarker && IsToken(r)
  }

  // ----- Handshake -------------------------------------------------------

  /** The first frame must unpack as `HELLO <uid>`, and the uid must be
      non-empty, unregistered and free of whitespace. */
  function Hello(peers: map<string, Status>, frame: string): (h: Handshake)
    ensures h.Welcome? ==> IsWord(h.uid) && h.uid !in peers
    ensures h.Welcome? ==> SplitMax(frame, 1) == ["HELLO", h.uid]
    ensures h.Refused? ==> h.code == ProtocolError
    ensures h.Malformed? <==> |SplitMax(frame, 1)| != 2
  {
    var parts := SplitMax(frame, 1);
    if |parts| != 2 then Malformed
    else if parts[0] != "HELLO" then Refused(ProtocolError, "invalid protocol")
    else
      var uid := parts[1];
      if uid == [] || uid in peers || !IsToken(uid) then Refused(ProtocolError, "invalid peer uid")
      else
        TokenIffWord(uid);
        Welcome(uid)
  }

  // ----- Dispatch --------------------------------------------------------

  /** `SESSION <callee>` from an idle peer, as the relay is meant to answer
      it: a callee that is not registered or not idle is refused. */
  function SessionRequest(s: Relay, callee: string): (a: Action)
    ensures a.OpenSession? ==> a.callee == callee && callee in s.peers && s.peers[callee] == Idle
    ensures !a.OpenSession? ==> a.Reply?
  {
    if callee !in s.peers then Reply("ERROR peer " + callee + " not found")
    else if s.peers[callee] != Idle then Reply("ERROR peer " + callee + " busy")
    else OpenSession(callee)
  }

  /** `SESSION <callee>` exactly as `connection_handler` answers it: the
      busy test looks at the caller's status, never at the callee's. */
  function SessionRequestAsWritten(s: Relay, uid: string, callee: string): (a: Action)
    requires uid in s.peers
    ensures a.OpenSession? ==> a.callee == callee && callee in s.peers
  {
    if callee !in s.peers then Reply("ERROR peer " + callee + " not found")
    else if s.peers[uid] != Idle then Reply("ERROR peer " + callee + " busy")
    else OpenSession(callee)
  }

  /** A frame from the idle peer `uid`: `SESSION*` and `ROOM*` are
      requests, anything else is ignored. */
  function IdleStep(s: Relay, uid: string, msg: string): (a: Action)
    requires uid in s.peers
    ensures a.OpenSession? ==> a.callee in s.peers
    ensures a.JoinRoom? ==> ValidRoomId(a.room)
    ensures !a.Forward? && !a.ListPeers?
  {
    if StartsWith(msg, "SESSION") then
      var parts := SplitMax(msg, 1);
      if |parts| != 2 then Crash else SessionRequestAsWritten(s, uid, parts[1])
    else if StartsWith(msg, "ROOM") then
      var parts := SplitMax(msg, 1);
      if |parts| != 2 then Crash
      else if !ValidRoomId(parts[1]) then Reply("ERROR invalid room id " + parts[1])
      else JoinRoom(parts[1])
    else Ignore
  }

  /** A frame from a peer in room `r`: a direct message to another member,
      a roster request, or an error reply. */
  function RoomStep(s: Relay, uid: string, r: string, msg: string): (a: Action)
    ensures a.Forward? ==> a.to in s.peers && s.peers[a.to] == InRoom(r)
    ensures a.ListPeers? ==> a.room == r && r in s.rooms
    ensures !a.OpenSession? && !a.JoinRoom? && !a.Ignore?
  {
    if StartsWith(msg, "ROOM_PEER_MSG") then
      var parts := SplitMax(msg, 2);
      if |parts| != 3 then Crash
      else
        var target := parts[1];
        if target !in s.peers then Reply("ERROR peer " + target + " not found")
        else if s.peers[target] != InRoom(r) then Reply("ERROR peer " + target + " is not in the room")
        else Forward(target, "ROOM_PEER_MSG " + uid + " " + parts[2])
    else if msg == "ROOM_PEER_LIST" then
      if r in s.rooms then ListPeers(r) else Crash
    else Reply("ERROR invalid msg, already in room")
  }

  /** One iteration of the connection loop: the frame `msg` from `uid` is
      dispatched on `uid`'s status as currently stored. */
  function Dispatch(s: Relay, uid: string, msg: string): (a: Action)
    ensures uid !in s.peers ==> a == Crash
    ensures a.OpenSession? ==> uid in s.peers && s.peers[uid] == Idle && a.callee in s.peers
    ensures a.JoinRoom? ==> uid in s.peers && s.peers[uid] == Idle && ValidRoomId(a.room)
    ensures a.ListPeers? ==> uid in s.peers && s.peers[uid] == InRoom(a.room) && a.room in s.rooms
    ensures a.Forward? ==>
      && uid in s.peers && a.to in s.peers
      && (|| (s.peers[uid] == InSession && uid in s.sessions && a.to == s.sessions[uid] && a.text == msg)
          || (s.peers[uid].InRoom? && s.peers[a.to] == s.peers[uid]))
    ensures a.Ignore? ==> uid in s.peers && s.peers[uid] == Idle
  {
    if uid !in s.peers then Crash
    else match s.peers[uid]
      case InSession =>
        if uid !in s.sessions || s.sessions[uid] !in s.peers then Crash
        else Forward(s.sessions[uid], msg)
      case InRoom(r) =>
        if r == [] then Crash else RoomStep(s, uid, r, msg)
      case Idle =>
        IdleStep(s, uid, msg)
  }

  // ----- State transitions -----------------------------------------------

  /** Members of room `r`, the empty set when the room does not exist yet. */
  function Members(s: Relay, r: string): set<string> {
    if r in s.rooms then s.rooms[r] else {}
  }

  /** A new connection `uid` is stored as idle; nothing else changes. */
  function Registered(s: Relay, uid: string): (t: Relay)
    ensures t.peers.Keys == s.peers.Keys + {uid} && t.peers[uid] == Idle
    ensures forall p :: p in s.peers && p != uid ==> t.peers[p] == s.peers[p]
    ensures t.sessions == s.sessions && t.rooms == s.rooms
  {
    s.(peers := s.peers[uid := Idle])
  }

  /** `uid` and `callee` are bound to each other in both directions; every
      other peer keeps its status and partner, and no room changes. */
  function Paired(s: Relay, uid: string, callee: string): (t: Relay)
    ensures t.peers.Keys == s.peers.Keys + {uid, callee} && t.sessions.Keys == s.sessions.Keys + {uid, callee}
    ensures t.peers[uid] == InSession && t.peers[callee] == InSession
    ensures t.sessions[uid] == callee && t.sessions[callee] == uid
    ensures forall p :: p in s.peers && p != uid && p != callee ==> t.peers[p] == s.peers[p]
    ensures forall p :: p in s.sessions && p != uid && p != callee ==> t.sessions[p] == s.sessions[p]
    ensures t.rooms == s.rooms
  {
    Relay(s.peers[uid := InSession][callee := InSession],
          s.sessions[uid := callee][callee := uid],
          s.rooms)
  }

  /** `uid` joins room `r`, which is created when absent; every other room
      and every other peer's status are kept. */
  function Joined(s: Relay, uid: string, r: string): (t: Relay)
    ensures t.peers.Keys == s.peers.Keys + {uid} && t.peers[uid] == InRoom(r)
    ensures forall p :: p in s.peers && p != uid ==> t.peers[p] == s.peers[p]
    ensures t.rooms.Keys == s.rooms.Keys + {r} && t.rooms[r] == Members(s, r) + {uid}
    ensures forall q :: q in s.rooms && q != r ==> t.rooms[q] == s.rooms[q]
    ensures t.sessions == s.sessions
  {
    Relay(s.peers[uid := InRoom(r)], s.sessions, s.rooms[r := Members(s, r) + {uid}])
  }

  /** `u`'s session entry is dropped; when the partner still has its own
      entry, that entry and the partner's registration are dropped too. */
  function SessionCleaned(s: Relay, u: string): (t: Relay)
    ensures u !in s.sessions ==> t == s
    ensures u in s.sessions ==> t.sessions.Keys == s.sessions.Keys - {u, s.sessions[u]}
    ensures u in s.sessions ==> s.peers.Keys - {s.sessions[u]} <= t.peers.Keys <= s.peers.Keys
    ensures forall p :: p in t.peers ==> t.peers[p] == s.peers[p]
    ensures forall a :: a in t.sessions ==> t.sessions[a] == s.sessions[a]
    ensures t.rooms == s.rooms
  {
    if u !in s.sessions then s
    else
      var other := s.sessions[u];
      var rest := s.sessions - {u};
      if other !in rest then s.(sessions := rest)
      else Relay(s.peers - {other}, rest - {other}, s.rooms)
  }

  /** The connections session cleanup closes: the partner's, exactly when
      session cleanup drops the partner's registration. */
  function SessionCloses(s: Relay, u: string): (ev: seq<Event>)
    ensures |ev| <= 1
    ensures ev != [] <==> u in s.sessions && s.sessions[u] in s.peers && s.sessions[u] !in SessionCleaned(s, u).peers
    ensures ev != [] ==> ev == [Close(s.sessions[u])]
  {
    if u in s.sessions && s.sessions[u] != u && s.sessions[u] in s.sessions && s.sessions[u] in s.peers
    then [Close(s.sessions[u])]
    else []
  }

  /** The members told that `u` left room `r`: everyone else in it, or no
      one when the room or the membership is already gone. */
  function LeftBehind(s: Relay, u: string, r: string): (m: set<string>)
    ensures u !in m
    ensures m != {} ==> r in s.rooms && m == RoomLeft(s, u, r).rooms[r]
  {
    if r in s.rooms && u in s.rooms[r] then s.rooms[r] - {u} else {}
  }

  /** `u` leaves room `r`; an emptied room keeps its entry. */
  function RoomLeft(s: Relay, u: string, r: string): (t: Relay)
    ensures t.peers == s.peers && t.sessions == s.sessions && t.rooms.Keys == s.rooms.Keys
    ensures r in s.rooms ==> t.rooms[r] == s.rooms[r] - {u}
    ensures forall q :: q in s.rooms && q != r ==> t.rooms[q] == s.rooms[q]
  {
    if r in s.rooms && u in s.rooms[r] then s.(rooms := s.rooms[r := s.rooms[r] - {u}]) else s
  }

  /** The room `u` leaves during removal: its stored status when that is a
      non-empty room id, and none (the empty id) when `u` is unregistered,
      idle, in a session, or its status is the empty, falsy string. */
  function DepartedRoom(s: Relay, u: string): (r: string)
    ensures r != [] <==> u in s.peers && s.peers[u].InRoom? && s.peers[u].room != []
    ensures r != [] ==> s.peers[u] == InRoom(r)
  {
    if u in s.peers && s.peers[u].InRoom? then s.peers[u].room else []
  }

  /** What `remove_peer` does once the session is cleaned up: room cleanup
      when the stored status is a room id, then the registration goes. Room
      cleanup looks up every remaining member's connection; when one of
      them is not registered, that lookup raises after `u` has left the
      room, and `u`'s registration is never deleted. */
  function Deregistered(s: Relay, u: string): (t: Relay)
    ensures Bystanders(s, u) <= s.peers.Keys ==> t.peers.Keys == s.peers.Keys - {u}
    ensures !(Bystanders(s, u) <= s.peers.Keys) ==> u in s.peers && t.peers == s.peers
    ensures forall p :: p in t.peers ==> t.peers[p] == s.peers[p]
    ensures t.sessions == s.sessions && t.rooms.Keys == s.rooms.Keys
    ensures forall q :: q in s.rooms ==>
      t.rooms[q] == if q != [] && u in s.peers && s.peers[u] == InRoom(q) then s.rooms[q] - {u} else s.rooms[q]
  {
    var r := DepartedRoom(s, u);
    var s2 := if r != [] then RoomLeft(s, u, r) else s;
    if Bystanders(s, u) <= s.peers.Keys then s2.(peers := s2.peers - {u}) else s2
  }

  /** The members told that `u` left when it is deregistered from `s`. */
  function Bystanders(s: Relay, u: string): (m: set<string>)
    ensures u !in m
    ensures m != {} ==> u in s.peers && s.peers[u].InRoom? && s.peers[u].room in s.rooms && m == RoomLeft(s, u, s.peers[u].room).rooms[s.peers[u].room]
  {
    var r := DepartedRoom(s, u);
    if r != [] then LeftBehind(s, u, r) else {}
  }

  /** Every member room cleanup will tell about `u` is still registered
      once the session is cleaned up, so `remove_peer` runs to its end. */
  predicate RemovalCompletes(s: Relay, u: string)
  {
    Audience(s, u) <= SessionCleaned(s, u).peers.Keys
  }

  /** The cascade can only stall when `u` is still a registered room
      member after its session is cleaned up: with no room to leave,
      room cleanup looks nobody up. */
  lemma RemovalStallsInRoom(s: Relay, u: string)
    ensures !RemovalCompletes(s, u) ==> u in SessionCleaned(s, u).peers && SessionCleaned(s, u).peers[u].InRoom?
  {
  }

  /** Whatever order room cleanup iterates the room in, the cascade
      completes exactly when every lookup of that loop succeeds. */
  lemma RemovalCompletesIff(s: Relay, u: string, order: seq<string>)
    requires Enumerates(order, Audience(s, u))
    ensures RemovalCompletes(s, u) <==> Reached(order, SessionCleaned(s, u).peers.Keys) == order
  {
    var known := SessionCleaned(s, u).peers.Keys;
    if RemovalCompletes(s, u) {
      ReachedEnumeration(order, Audience(s, u), known);
    } else {
      var p :| p in Audience(s, u) && p !in known;
      assert p in order;
      var i :| 0 <= i < |order| && order[i] == p;
    }
  }

  /** The cleanup cascade: session cleanup, then deregistration. Only
      registrations are dropped, a remaining peer keeps its status, and no
      room entry is created or deleted. `u` is unregistered when the
      cascade completes, and keeps its registration and status when a
      lookup raises. */
  function Removed(s: Relay, u: string): (t: Relay)
    ensures u !in t.sessions
    ensures RemovalCompletes(s, u) ==> u !in t.peers
    ensures !RemovalCompletes(s, u) ==> u in s.peers && u in t.peers && t.peers[u] == s.peers[u]
    ensures t.peers.Keys <= s.peers.Keys && t.sessions.Keys <= s.sessions.Keys
    ensures forall p :: p in t.peers ==> t.peers[p] == s.peers[p]
    ensures t.rooms.Keys == s.rooms.Keys
  {
    Deregistered(SessionCleaned(s, u), u)
  }

  /** The members told that `u` left during its removal. */
  function Audience(s: Relay, u: string): (m: set<string>)
    ensures u !in m
  {
    Bystanders(SessionCleaned(s, u), u)
  }

  /** The state after decision `a` on a frame from `uid`. A crash runs the
      cleanup cascade; so does a join whose notices reach a member that is
      not registered, once the joiner is in the room. */
  function Apply(s: Relay, uid: string, a: Action): (t: Relay)
    ensures a.Forward? || a.Reply? || a.ListPeers? || a.Ignore? ==> t == s
    ensures a.OpenSession? ==>
      && uid in t.peers && t.peers[uid] == InSession
      && uid in t.sessions && t.sessions[uid] == a.callee
      && a.callee in t.sessions && t.sessions[a.callee] == uid
    ensures a.JoinRoom? && Members(s, a.room) - {uid} <= s.peers.Keys ==>
      uid in t.peers && t.peers[uid] == InRoom(a.room) && a.room in t.rooms && uid in t.rooms[a.room]
    ensures a.JoinRoom? && !(Members(s, a.room) - {uid} <= s.peers.Keys) ==> uid !in t.sessions
    ensures a.JoinRoom? && !(Members(s, a.room) - {uid} <= s.peers.Keys) && uid !in s.sessions && a.room != [] ==>
      uid in t.peers && t.peers[uid] == InRoom(a.room) && a.room in t.rooms && uid !in t.rooms[a.room]
    ensures a.Crash? ==> uid !in t.sessions && (RemovalCompletes(s, uid) ==> uid !in t.peers)
  {
    match a
    case OpenSession(callee) => Paired(s, uid, callee)
    case JoinRoom(r) =>
      if Members(s, r) - {uid} <= s.peers.Keys then Joined(s, uid, r) else Removed(Joined(s, uid, r), uid)
    case Crash => Removed(s, uid)
    case _ => s
  }

  /** The state after one dispatched frame. No frame registers anyone; a
      forward, a reply, a listing or an ignored frame changes nothing; a
      crash drops the sender's session entry and, when the cascade
      completes, its registration. */
  function Next(s: Relay, uid: string, msg: string): (t: Relay)
    ensures t.peers.Keys <= s.peers.Keys
    ensures var a := Dispatch(s, uid, msg);
      !(a.OpenSession? || a.JoinRoom? || a.Crash?) ==> t == s
    ensures Dispatch(s, uid, msg).Crash? ==> uid !in t.sessions && (RemovalCompletes(s, uid) ==> uid !in t.peers)
  {
    Apply(s, uid, Dispatch(s, uid, msg))
  }

  /** The frame is not a session request, or its callee is idle: the one
      case in which the code as written and the intended check agree. */
  predicate CalleeIdle(s: Relay, uid: string, msg: string) {
    var a := Dispatch(s, uid, msg);
    a.OpenSession? ==> s.peers[a.callee] == Idle
  }

  /** The decision the relay is meant to take: `Dispatch`, except that a
      session request is answered with `SessionRequest`, which refuses a
      busy callee. */
  function IntendedDispatch(s: Relay, uid: string, msg: string): (a: Action)
    ensures a.OpenSession? ==>
      && uid in s.peers && s.peers[uid] == Idle
      && a.callee in s.peers && s.peers[a.callee] == Idle
    ensures a == Dispatch(s, uid, msg) <==> CalleeIdle(s, uid, msg)
    ensures a != Dispatch(s, uid, msg) ==> a == Reply("ERROR peer " + Dispatch(s, uid, msg).callee + " busy")
  {
    var d := Dispatch(s, uid, msg);
    if d.OpenSession? then SessionRequest(s, d.callee) else d
  }

  /** The state after one frame under the intended check: the same as
      `Next` unless the frame asks for a busy callee, which changes nothing. */
  function IntendedNext(s: Relay, uid: string, msg: string): (t: Relay)
    ensures CalleeIdle(s, uid, msg) ==> t == Next(s, uid, msg)
    ensures !CalleeIdle(s, uid, msg) ==> t == s
  {
    Apply(s, uid, IntendedDispatch(s, uid, msg))
  }

  // ----- Outbound events -------------------------------------------------

  /** No id occurs twice. */
  predicate Distinct(order: seq<string>) {
    forall i, j :: 0 <= i < j < |order| ==> order[i] != order[j]
  }

  /** `order` lists every element of `members` exactly once: one possible
      iteration order of a Python set. */
  ghost predicate Enumerates(order: seq<string>, members: set<string>) {
    Distinct(order) && forall x :: x in order <==> x in members
  }

  /** The same frame sent to each id of `order`, in that order. */
  function Notify(order: seq<string>, text: string): (ev: seq<Event>)
    ensures |ev| == |order|
    ensures forall i :: 0 <= i < |order| ==> ev[i] == Send(order[i], text)
  {
    if order == [] then [] else [Send(order[0], text)] + Notify(order[1..], text)
  }

  /** The longest prefix of `order` whose ids are all in `known`: the ids a
      loop that looks each one up gets through before a lookup raises. */
  function Reached(order: seq<string>, known: set<string>): (p: seq<string>)
    ensures |p| <= |order| && p == order[..|p|]
    ensures forall i :: 0 <= i < |p| ==> p[i] in known
    ensures |p| < |order| ==> order[|p|] !in known
    ensures (forall i :: 0 <= i < |order| ==> order[i] in known) ==> p == order
  {
    if order == [] || order[0] !in known then [] else [order[0]] + Reached(order[1..], known)
  }

  /** Enumerating a set of registered ids, every lookup succeeds. */
  lemma ReachedEnumeration(order: seq<string>, members: set<string>, known: set<string>)
    requires Enumerates(order, members) && members <= known
    ensures Reached(order, known) == order
  {
    forall i | 0 <= i < |order|
      ensures order[i] in known
    {
      assert order[i] in order;
    }
  }

  /** How many frames of `ev` are sent to `p`. */
  function Deliveries(ev: seq<Event>, p: string): nat {
    if ev == [] then 0
    else (if ev[0].Send? && ev[0].to == p then 1 else 0) + Deliveries(ev[1..], p)
  }

  /** The events one dispatched frame produces, given the decision `a`
      taken in state `s`. */
  ghost predicate Emitted(s: Relay, uid: string, a: Action, ev: seq<Event>): (e: bool)
    ensures e && (a.Forward? || a.Reply? || a.ListPeers? || a.OpenSession?) ==> |ev| == 1 && ev[0].Send?
    ensures e && (a.Reply? || a.ListPeers? || a.OpenSession? || a.JoinRoom?) ==> ev != [] && ev[0].Send? && ev[0].to == uid
    ensures e && a.Ignore? ==> ev == []
    ensures e && a.Crash? ==> RemovalEvents(s, uid, ev)
  {
    match a
    case Forward(to, text) => ev == [Send(to, text)]
    case Reply(text) => ev == [Send(uid, text)]
    case ListPeers(r) =>
      exists order :: Enumerates(order, Members(s, r) - {uid})
        && ev == [Send(uid, "ROOM_PEER_LIST " + Join(order))]
    case OpenSession(_) => ev == [Send(uid, "SESSION_OK")]
    case JoinRoom(r) =>
      exists before :: Enumerates(before, Members(s, r))
        && (exists others :: Enumerates(others, Members(s, r) + {uid} - {uid})
              && JoinEvents(s, uid, r, before, others, ev))
    case Ignore => ev == []
    case Crash => RemovalEvents(s, uid, ev)
  }

  /** The events of a join: the roster reply listing `before`, then the
      other members notified in the order `others`. When one of them is not
      registered, its lookup raises: the members before it were told, and
      the joiner's cleanup cascade follows, which cannot complete, so the
      joiner's connection is not closed. */
  ghost predicate JoinEvents(s: Relay, uid: string, r: string, before: seq<string>, others: seq<string>,
                            ev: seq<Event>): (e: bool)
    ensures e ==> |ev| >= 1 && ev[0] == Send(uid, "ROOM_OK " + Join(before))
    ensures e && !(Members(s, r) - {uid} <= s.peers.Keys) && uid !in s.sessions && r != [] ==> Close(uid) !in ev
  {
    JoinRaiseIncomplete(s, uid, r);
    if Members(s, r) - {uid} <= s.peers.Keys then
      ev == [Send(uid, "ROOM_OK " + Join(before))] + Notify(others, "ROOM_PEER_JOINED " + uid)
    else
      exists rest :: RemovalEvents(Joined(s, uid, r), uid, rest)
        && ev == [Send(uid, "ROOM_OK " + Join(before))] + Notify(Reached(others, s.peers.Keys), "ROOM_PEER_JOINED " + uid) + rest
  }

  /** Once the joiner is in the room, a member that is not registered makes
      the joiner's cleanup cascade raise as well. */
  lemma JoinRaiseIncomplete(s: Relay, uid: string, r: string)
    ensures !(Members(s, r) - {uid} <= s.peers.Keys) && uid !in s.sessions && r != [] ==>
      !RemovalCompletes(Joined(s, uid, r), uid)
  {
    if !(Members(s, r) - {uid} <= s.peers.Keys) && uid !in s.sessions && r != [] {
      var t := Joined(s, uid, r);
      var p :| p in Members(s, r) - {uid} && p !in s.peers;
      assert SessionCleaned(t, uid) == t;
      assert DepartedRoom(t, uid) == r;
      assert p in Bystanders(t, uid) && p !in t.peers;
    }
  }

  /** The events of the cleanup cascade for `u`: the partner's connection
      closed, the room told up to the first member that is not registered,
      and `u`'s own connection closed when it was still registered and the
      cascade completed. */
  ghost predicate RemovalEvents(s: Relay, u: string, ev: seq<Event>): (e: bool)
    ensures e ==> forall i :: 0 <= i < |ev| && ev[i].Send? ==>
      ev[i].text == "ROOM_PEER_LEFT " + u && ev[i].to in Audience(s, u)
    ensures e ==> forall i :: 0 <= i < |ev| && ev[i].Close? ==>
      ev[i].peer == u || (u in s.sessions && ev[i].peer == s.sessions[u])
    ensures e && !RemovalCompletes(s, u) ==> Close(u) !in ev
  {
    exists order :: Enumerates(order, Audience(s, u)) && ev == RemovalTrace(s, u, order)
  }

  /** The cleanup cascade's events when the room is iterated in `order`:
      only `ROOM_PEER_LEFT <u>` notices to ids of `order`, and closes of `u`
      or of its partner. */
  function RemovalTrace(s: Relay, u: string, order: seq<string>): (ev: seq<Event>)
    ensures forall i :: 0 <= i < |ev| && ev[i].Send? ==>
      ev[i].text == "ROOM_PEER_LEFT " + u && ev[i].to in order
    ensures forall i :: 0 <= i < |ev| && ev[i].Close? ==>
      ev[i].peer == u || (u in s.sessions && ev[i].peer == s.sessions[u])
    ensures !RemovalCompletes(s, u) ==> Close(u) !in ev
  {
    SessionCloses(s, u)
      + Notify(Reached(order, SessionCleaned(s, u).peers.Keys), "ROOM_PEER_LEFT " + u)
      + (if u in SessionCleaned(s, u).peers && RemovalCompletes(s, u) then [Close(u)] else [])
  }
}
