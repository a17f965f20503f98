# WebRTC signalling relay (`WebRTCSimpleServer`), modelled in Dafny

The relay keeps three tables:

- `peers`: peer id → status. The status is idle, in a session, or a room id.
- `sessions`: peer id → session partner.
- `rooms`: room id → set of member ids.

Each websocket connection first sends `HELLO <uid>`. After that, every text frame is dispatched on the sender's stored status:

- in a session, the frame is forwarded verbatim to the partner;
- in a room, `ROOM_PEER_MSG <to> <text>` and `ROOM_PEER_LIST` are answered;
- idle, `SESSION <callee>` or `ROOM <id>` is handled; anything else is ignored.

When a connection ends, the cleanup cascade runs: `cleanup_session`, then `cleanup_room`, then the peer's entry is deleted.

The project is laid out as follows:

- `text.dfy` (module `Text`) models the parts of Python's `str` the parser relies on:
  - `isspace`;
  - `split()` and `split(maxsplit=k)`, where the last part keeps its trailing whitespace;
  - `startswith`;
  - `" ".join`.

  It proves how a command frame splits, and that splitting a space-joined list of ids gives the ids back.
- `protocol.dfy` (module `Protocol`) holds the state as a value (`Relay`) and the handshake decision (`Hello`).
  - `Dispatch` is the per-frame decision, one `Action` per branch of the loop body. `Crash` stands for an exception escaping the loop: a failed unpack, a missing key, or an empty status. After it, the handler's `finally` runs the cleanup cascade.
  - The state transitions (`Paired`, `Joined`, `SessionCleaned`, `RoomLeft`, `Deregistered`, `Removed`, `Next`) are functions.
  - `Dispatch` and `Next` follow simp.py as written. `IntendedDispatch` and `IntendedNext` are the same step with the session check the relay evidently intends (see Findings).
  - The outbound events a decision implies are `Emitted` and `RemovalEvents`. A Python set's iteration order is unspecified, so each broadcast is stated for *some* enumeration of the set (`Enumerates`).
  - A broadcast looks up each member's connection in `peers`. When a member is not registered, that lookup raises: `Reached` is the part of the enumeration told before the raise. `RemovalCompletes` says that the cleanup cascade gets past room cleanup and deletes the peer's registration. A join whose notices raise ends in the joiner's cleanup cascade.
- `invariants.dfy` (module `Invariants`) defines `Valid`:
  - sessions are symmetric;
  - a peer has a session entry exactly when its status is "session";
  - room membership agrees with status;
  - every id is whitespace-free.

  It proves that every transition preserves `Valid` except a session request to a busy callee (`CalleeIdle`), and that in a consistent state the cleanup cascade completes (`ValidRemovalCompletes`). It also holds the counterexamples of the Findings below.
- `properties.dfy` (module `Properties`) states what each well-formed frame does, in terms of the frame a client actually sends. It also covers what the events promise:
  - every room member gets exactly one join or leave notice;
  - the joiner never sees itself in its roster;
  - a session teardown closes the partner first.
- `server.dfy` (module `Server`) holds class `SimpleServer`, whose three maps are fields updated in place. Every frame sent and every connection closed is appended to the `outbox` field. Each method is proved against the functions of `Protocol`: new state = transition of old state, and new outbox suffix satisfies the event predicate. Loops over room members go through `Roster` and `Broadcast`.

## Model

| member | source | states |
|---|---|---|
| Text.Split | simp.py:144 | `s.split()`: every part is a non-empty run of non-whitespace |
| Text.IsSpace | simp.py:144 | space, tab, line feed and carriage return are whitespace, and no whitespace character lies above U+3000 |
| Text.StartsWith | simp.py:105 | `s.startswith(p)` holds exactly when `s` is `p` followed by something (both directions) |
| Text.Join | simp.py:118 | `" ".join`: the first part comes first, a space follows it when more parts come, and the result is long enough for a separator between each two parts |
| Text.SplitMax | simp.py:167 | `s.split(maxsplit=k)`: at most k+1 parts, each non-empty and not starting with whitespace |
| Text.TokenIffWord | simp.py:171 | `x.split() == [x]` holds exactly when x is non-empty and contains no whitespace (both directions) |
| Text.SplitJoin | simp.py:118-119 | joining whitespace-free ids with single spaces and splitting again gives the same ids back |
| Text.BareCommand | simp.py:128 | a command word alone splits into one part only, so unpacking it into two fails |
| Text.CommandWithArgument | simp.py:128 | `cmd + " " + arg` with `maxsplit=1` unpacks into exactly `[cmd, arg]` |
| Text.CommandWithTwoArguments | simp.py:106 | `cmd + " " + a + " " + rest` with `maxsplit=2` unpacks into `[cmd, a, rest]`, the rest kept verbatim |
| Text.IsToken | simp.py:171 | `x.split() == [x]` holds exactly when x is non-empty and contains no whitespace; simp.py:144 applies the same test to a room id |
| Protocol.ValidRoomId | simp.py:144 | a room id is accepted exactly when it is not "session" and is non-empty and free of whitespace |
| Protocol.Hello | simp.py:163-175 | a welcomed uid is whitespace-free and not yet registered, and came from a frame unpacking to `["HELLO", uid]`; every refusal carries close code 1002; the frame is malformed exactly when it does not unpack into two parts |
| Protocol.SessionRequest | simp.py:127-141 | corrected session request: a session is opened only to a registered, idle callee; every other outcome is an error reply |
| Protocol.SessionRequestAsWritten | simp.py:127-134 | the request as written: it opens a session to any registered callee |
| Protocol.IdleStep | simp.py:127-161 | from an idle peer, only a valid room id is joined and a session is opened only with a registered callee, whatever that callee's status; an idle peer never forwards or lists |
| Protocol.RoomStep | simp.py:104-124 | from a room member, a frame is forwarded only to a peer in the same room, and a roster is listed only for an existing room |
| Protocol.Dispatch | simp.py:96-126 | an unregistered sender crashes the loop; a session opens only from an idle sender to a registered callee; a join needs an idle sender and a valid id; a listing needs a member of an existing room; a forward goes to the session partner with the text verbatim, or to a member of the sender's room; an ignored frame came from an idle peer |
| Protocol.Registered | simp.py:91-93 | a new connection is stored as idle, and no other peer, session or room changes |
| Protocol.Paired | simp.py:135-141 | both peers are marked "session" and each is the other's partner; every other peer keeps its status and partner, and rooms do not change |
| Protocol.Joined | simp.py:147-152 | the joiner's status is the room, the room (created when absent) holds its earlier members plus the joiner, and every other room, status and session is kept |
| Protocol.SessionCleaned | simp.py:52-65 | no-op without an entry; otherwise exactly the entries of `u` and its partner go, at most the partner's registration goes, surviving entries keep their values, and rooms do not change |
| Protocol.SessionCloses | simp.py:52-65 | at most one connection is closed: the partner's, exactly when session cleanup drops the partner's registration |
| Protocol.LeftBehind | simp.py:67-76 | the leaver is never told; anyone told is a remaining member of the room after it was left |
| Protocol.RoomLeft | simp.py:67-76 | only room `r` loses `u`; no peer, session or room entry is created or deleted |
| Protocol.Deregistered | simp.py:81-87 | each room loses `u` exactly when `u`'s stored status is that (non-empty) room id; `u`'s registration goes when every remaining member is registered, and otherwise the member lookup raises and the registration stays; every other table entry is kept |
| Protocol.Bystanders | simp.py:81-84 | the leaver is never told; anyone told is a remaining member of the room named by the leaver's status |
| Protocol.DepartedRoom | simp.py:82-83 | the test `status and status != "session"`: a room is left exactly when `u` is registered with a non-empty room id as status, and then it is that room |
| Protocol.RemovalStallsInRoom | simp.py:72-85 | `RemovalCompletes` (room cleanup's loop gets past every lookup, so that `u`'s registration is deleted) can fail only when `u` is still registered as a room member after session cleanup |
| Protocol.RemovalCompletesIff | simp.py:72-85 | for every iteration order of the room, the cascade completes exactly when every lookup in that order succeeds (both directions) |
| Protocol.Removed | simp.py:78-87 | after the cascade `u` has no session entry; it has no registration when the cascade completes, and keeps its registration and status when a member lookup raises; registrations and sessions only shrink, survivors keep their status, and no room entry is created or deleted |
| Protocol.Reached | simp.py:72-73 | the ids told before a lookup raises: a prefix of the enumeration whose ids are all registered, stopped at the first unregistered id, and the whole enumeration when every id is registered |
| Protocol.ReachedEnumeration | simp.py:72-73 | enumerating a set of registered ids, every lookup succeeds and every id is told |
| Protocol.Apply | simp.py:96-161 | a forward, reply, listing or ignored frame changes nothing; a session pairs both peers in both directions; a join puts the joiner in the room when every member is registered; when one is not (simp.py:156), the joiner's cascade drops its session entry, and an idle joiner stays registered with the room as status but is no longer a member; a crash runs the cleanup cascade of simp.py:186-187 |
| Protocol.Audience | simp.py:78-84 | the leaver is never told of its own departure |
| Protocol.Next | simp.py:96-161 | no frame registers a peer; a forward, a reply, a listing or an ignored frame changes no table; a crash drops the sender's session entry, and its registration when the cascade completes |
| Protocol.IntendedDispatch | simp.py:127-141 | under the intended check a session opens only between two idle peers; the decision differs from `Dispatch` exactly when the callee is busy, and then it is the `busy` reply |
| Protocol.IntendedNext | simp.py:127-141 | the intended step equals `Next` unless the frame asks for a busy callee, in which case nothing changes |
| Protocol.Notify | simp.py:72-76 | one frame per listed id, the i-th sent to the i-th id, all with the same text |
| Protocol.Emitted | simp.py:96-161 | a forward, reply, listing or session acceptance sends exactly one frame; every answer other than a forward goes first to the sender; an ignored frame sends nothing; a crash emits the removal events |
| Protocol.JoinEvents | simp.py:149-159 | the events of a `ROOM` join: the joiner gets `ROOM_OK` with the roster first; when a member lookup raises at simp.py:156 and the joiner holds no session, the joiner's cascade cannot complete and its connection is never closed |
| Protocol.JoinRaiseIncomplete | simp.py:153-156 | once the joiner is in the room, an unregistered member makes the joiner's own cleanup cascade raise too |
| Protocol.RemovalEvents | simp.py:52-87 | during removal the only frames sent are `ROOM_PEER_LEFT <u>` notices to the audience, the only connections closed are `u`'s and its partner's, and `u`'s is not closed when the cascade raises |
| Protocol.RemovalTrace | simp.py:52-87 | for one iteration order of the room, the cascade sends only `ROOM_PEER_LEFT <u>` notices to ids of that order, closes only `u`'s and its partner's connections, and closes `u`'s only when it completes |
| Invariants.EmptyValid | simp.py:17-21 | the empty tables are consistent |
| Invariants.RegisteredPreservesValid | simp.py:91-93 | registering a fresh whitespace-free id as idle keeps the tables consistent |
| Invariants.HelloPreservesValid | simp.py:167-175 | registering any id the handshake welcomes keeps the tables consistent |
| Invariants.PairedPreservesValid | simp.py:135-141 | pairing two idle peers keeps sessions symmetric and in agreement with status |
| Invariants.JoinedPreservesValid | simp.py:147-152 | an idle peer joining a valid room id keeps membership in agreement with status |
| Invariants.SessionCleanedKeepsRooms | simp.py:52-65 | session cleanup leaves rooms untouched and only deletes peers, never changing a remaining peer's status |
| Invariants.SessionCleanedPair | simp.py:52-65 | cleaning up a session-holder drops both session entries and the partner's registration, and leaves `u` with no room to leave |
| Invariants.RemovedFromSession | simp.py:78-87 | removing a peer in a session deletes it and its partner from peers and sessions, and nothing else |
| Invariants.RemovedOutsideSession | simp.py:78-87 | removing a peer outside a session deletes only its registration, and its membership when it is in a room |
| Invariants.DropPairPreservesValid | simp.py:52-65 | dropping both halves of a session keeps the tables consistent |
| Invariants.DropMemberPreservesValid | simp.py:67-87 | dropping a room member's registration and membership keeps the tables consistent |
| Invariants.DropIdlePreservesValid | simp.py:85 | dropping an idle peer keeps the tables consistent |
| Invariants.RoomMembersRegistered | simp.py:72-73 | when membership agrees with status, every member of a room is registered, so the lookup of each member's connection succeeds |
| Invariants.RemovedPreservesValid | simp.py:78-87 | the whole cleanup cascade keeps the tables consistent |
| Invariants.NextPreservesValid | simp.py:95-161 | every dispatched frame, including one that crashes the loop, keeps the tables consistent, unless it is a `SESSION` request to a busy callee |
| Invariants.IntendedNextPreservesValid | simp.py:127-141 | under the intended session check every dispatched frame keeps the tables consistent |
| Invariants.RemovedForgetsPeer | simp.py:78-87 | after removal the peer has no session entry, and it has no registration exactly when the cascade completes (both directions) |
| Invariants.ValidRemovalCompletes | simp.py:72-73 | in a consistent state every member room cleanup looks up is registered, so the cascade completes |
| Invariants.IntendedRemovalCompletes | simp.py:78-87 | under the intended session check, after any frame from a consistent state, the cascade completes and the leaver is unregistered |
| Invariants.RemovedEndsPartner | simp.py:52-65 | removing one side of a session also deregisters the partner and closes its connection; no room is told |
| Invariants.SessionCleanedIdempotent | simp.py:52-65 | session cleanup run twice equals once, and closes nothing the second time |
| Invariants.RoomLeftOnlyRemoves | simp.py:67-76 | room cleanup only removes `u` from room `r`: it is a no-op when the membership is absent, keeps the emptied room, and is idempotent |
| Invariants.RemovedIdempotent | simp.py:78-87 | when the cascade completes, running it twice equals running it once; when a lookup raised, a second run completes and unregisters the peer |
| Invariants.CallerBusyCheckIsDead | simp.py:132-134 | on the path that reaches it, the caller's status is always idle, so the busy test never fires |
| Invariants.BusyCalleeBreaksSymmetry | simp.py:127-141 | from a consistent state, calling a peer that is already in a session is accepted as written and breaks session symmetry; the corrected request answers `busy` |
| Invariants.RoomCalleeBreaksAgreement | simp.py:127-141 | from a consistent state, calling a room member is accepted as written and leaves a member whose status is no longer its room; the corrected request answers `busy` |
| Invariants.RoomCalleeOrphaned | simp.py:56-65 | after an idle caller pairs with a room member and the caller's connection ends, both registrations are gone, yet the callee is still listed in its room |
| Invariants.StrandedLeaverKept | simp.py:70-74 | in `Stranded`, c's removal takes c out of the room, then raises on b: the cascade does not complete, c stays registered, and nothing is sent or closed |
| Properties.HelloFrame | simp.py:167-175 | `HELLO <uid>` is welcomed exactly when uid is whitespace-free and unregistered, and is refused with 1002 "invalid peer uid" otherwise |
| Properties.HelloWrongCommand | simp.py:168-170 | any other first command is refused with 1002 "invalid protocol" |
| Properties.HelloAlone | simp.py:167 | a bare `HELLO` does not unpack |
| Properties.SessionFrame | simp.py:127-141 | as written, `SESSION <callee>` from an idle peer is answered "not found" and changes nothing, or pairs the caller with any registered callee |
| Properties.IntendedSessionFrame | simp.py:127-141 | under the intended check, `SESSION <callee>` is answered "not found", "busy", or opens the session; a refusal changes nothing |
| Properties.SessionToCallingPeer | simp.py:127-141 | from a consistent state, `SESSION b` to a peer already in a session is accepted as written and leaves inconsistent tables; the intended check answers `busy` and changes nothing |
| Properties.SessionToRoomMember | simp.py:138-141 | from a consistent state, `SESSION b` to a room member is accepted as written and leaves inconsistent tables; the intended check answers `busy` and changes nothing |
| Properties.StaleMemberStrandsLeaver | simp.py:72-73 | from a consistent state, `SESSION b` to a room member and then the caller's disconnection leave b listed in the room unregistered; when the other member c disconnects, its removal raises, c stays registered, the tables are inconsistent and no event is emitted |
| Properties.StaleMemberStrandsJoiner | simp.py:153-156 | in the same state, a new peer's `ROOM lobby` is a join whose notice loop raises on b: the joiner ends up registered with status "lobby" but out of the room |
| Properties.BareSessionCrashes | simp.py:128 | a bare `SESSION` raises, and the sender is removed |
| Properties.RoomFrame | simp.py:142-152 | `ROOM <r>` is refused exactly when r is "session" or contains whitespace, and is a join otherwise; a refusal changes nothing |
| Properties.IdleOtherIgnored | simp.py:160-161 | any other frame from an idle peer changes nothing and sends nothing |
| Properties.SessionForwards | simp.py:99-103 | in a consistent state, a session peer's frame goes verbatim to its partner alone, with no state change |
| Properties.RoomMessageFrame | simp.py:105-116 | `ROOM_PEER_MSG <to> <text>` is answered "not found" or "is not in the room", or is sent as `ROOM_PEER_MSG <uid> <text>` to the target; no table changes |
| Properties.RoomListFrame | simp.py:117-121 | `ROOM_PEER_LIST` from a member of an existing room asks for the roster and changes nothing |
| Properties.RoomOtherRejected | simp.py:122-124 | any other frame from a room member gets "ERROR invalid msg, already in room" and changes nothing |
| Properties.NotifyReachesEachOnce | simp.py:153-159 | notifying an enumeration of a set delivers exactly one frame to each member and none to anyone else |
| Properties.RosterReadsBack | simp.py:149-150 | a roster frame splits back into its command followed by exactly the enumerated ids |
| Properties.JoinReply | simp.py:147-150 | the joiner's `ROOM_OK` lists exactly the members present before the join, never the joiner |
| Properties.JoinEmitted | simp.py:147-159 | with every other member registered, the roster reply followed by one notice per other member is what a join emits |
| Properties.JoinNotices | simp.py:151-159 | after the reply, each earlier member gets exactly one `ROOM_PEER_JOINED <uid>` and no one else gets anything |
| Properties.GreetingThenNotices | simp.py:153-159 | after the first frame, each member of the enumerated set gets exactly one `ROOM_PEER_JOINED <uid>`, and every later frame is such a notice |
| Properties.ListAnswer | simp.py:117-121 | `ROOM_PEER_LIST` is answered to the asker alone with the other members of its room |
| Properties.LeaveAnnouncements | simp.py:67-87 | when a room member disconnects, each remaining member gets exactly one frame, the leaver none, every frame before the last is `ROOM_PEER_LEFT <u>`, and the last event closes the leaver's connection |
| Properties.NoticesThenClose | simp.py:72-87 | notices to an enumeration followed by a close deliver one frame to each member, end with the close, and every earlier frame is `ROOM_PEER_LEFT <u>` |
| Properties.LeaveEvents | simp.py:67-87 | a room member's removal events are the leave notices to one enumeration of the rest of the room, then its own close |
| Properties.SessionTeardown | simp.py:52-87 | when a session peer disconnects, the partner's connection is closed, then its own, and nothing else is sent |
| Server.Roster | simp.py:153-155 | iterating a set and skipping some ids lists every remaining id exactly once |
| Server.SimpleServer.constructor | simp.py:17-21 | the relay starts with empty, consistent tables and nothing sent |
| Server.SimpleServer.HealthCheck | simp.py:36-39 | the health path, and no other path, answers 200 with no headers and body `OK\n` |
| Server.SimpleServer.Connect | simp.py:163-175 | the handshake's decision is `Hello` on the current peers; a welcome sends `HELLO` and registers the id as idle (simp.py:91-93); a refusal changes nothing; consistency is kept |
| Server.SimpleServer.Broadcast | simp.py:72-76 | sends the text once to each member outside the skip set, in some iteration order, appending only that |
| Server.SimpleServer.CleanupSession | simp.py:52-65 | the new tables are `SessionCleaned` of the old ones, and the only event is closing the partner when it was still registered |
| Server.SimpleServer.CleanupRoom | simp.py:67-76 | the new tables are `RoomLeft` of the old ones, and each remaining member is told once |
| Server.SimpleServer.Deregister | simp.py:81-87 | room cleanup when the status names a room, then deregistration and close |
| Server.SimpleServer.RemovePeer | simp.py:78-87 | the new tables are `Removed` of the old ones, the appended events satisfy `RemovalEvents`, and consistency is kept |
| Server.SimpleServer.ListRoom | simp.py:117-121 | sends the asker `ROOM_PEER_LIST` with an enumeration of the other members |
| Server.SimpleServer.OpenSessionWith | simp.py:135-141 | sends `SESSION_OK`, then pairs both peers in both tables |
| Server.SimpleServer.JoinRoomAs | simp.py:147-159 | the new tables are `Joined` of the old ones, the appended events are the roster reply followed by one notice per earlier member, and an idle joiner of a valid room id keeps the tables consistent |
| Server.SimpleServer.HandleFrame | simp.py:96-161 | the decision is `Dispatch` on the stored tables, the new tables are `Next` of the old ones, the appended events satisfy `Emitted`, and consistency is kept unless the frame is a `SESSION` request to a busy callee |

## Left out

- `recv_msg_ping` (simp.py:41-50): the keep-alive loop only decides when the next frame arrives. The model takes that frame as the argument of `HandleFrame`.
- Concurrency between `await`s. Each handler step is modelled as atomic, so these interleavings are not captured:
  - another connection registering the same id between `hello_peer` and the registration at simp.py:93;
  - a partner's cleanup running in the middle of a broadcast.
- Websocket, SSL, HTTP server and argument parsing (`handler`'s plumbing, `run_https_server`, `main`). The close code and reason of a refused handshake are returned in `Handshake` rather than sent.
- `handler`'s `finally` (simp.py:186-187) refers to `uid` even when the handshake raised before binding it. The model simply does not register such a connection.
- Logging through `print`.
- Binary frames: every frame is a `string`.
- Server.SimpleServer.Connect, HandleFrame, RemovePeer and JoinRoomAs require the consistency invariant `Valid()`. Connect and RemovePeer keep it. HandleFrame keeps it when the frame is not a `SESSION` request to a busy callee. JoinRoomAs keeps it for an idle joiner and a valid room id, which is how HandleFrame calls it. In a consistent state every room member is registered, so the class never takes the path where a member lookup raises mid-broadcast (simp.py:73, simp.py:156). That path is modelled on values only, by `Protocol.Deregistered`, `Protocol.Apply`, `Protocol.Reached` and the event predicates.
- Server.SimpleServer.CleanupRoom and Deregister require that every member they will notify is registered, for the same reason.
- Server.SimpleServer.HandleFrame keeps `Valid()` only when the frame is not a `SESSION` request to a busy callee (`CalleeIdle`), because it follows simp.py as written. After such a frame the tables are inconsistent (see Findings). HandleFrame requires `Valid()`, so later frames on that relay are not covered by the class.
- Invariants.NextPreservesValid holds only under `CalleeIdle`, for the same reason. `IntendedNextPreservesValid` is the unconditional version, for the intended check.
- Protocol.Emitted: when a member is listed or notified, the sends are stated as one unordered enumeration. Beyond each send's content and recipient, the model does not capture the order among them.

## Findings

| source | as written | input that shows it | evidently intended | confidence | as-written member | corrected member |
|---|---|---|---|---|---|---|
| simp.py:132-134 | the busy test reads the caller's status, which is always idle on this path, so any registered callee is accepted | `InCall`: b and c are in a session and a is idle; a sends `SESSION b`. The result holds c→b beside b→a, so sessions are no longer symmetric | refuse a callee that is not idle with `ERROR peer <id> busy` | not executed | Properties.SessionToCallingPeer | Invariants.IntendedNextPreservesValid |
| simp.py:138-141 | calling a room member marks it "session" while it stays in the room's member set | `InLobby`: b is alone in room lobby and a is idle; a sends `SESSION b`. Then b's status is "session", yet b is still a member of lobby | refuse a callee that is not idle with `ERROR peer <id> busy` | not executed | Properties.SessionToRoomMember | Protocol.IntendedDispatch |
| simp.py:72-73 | the stale member left by the room-callee bug makes a later removal raise and keep the leaver registered | `Crowded`: b and c are in room lobby and a is idle; a sends `SESSION b`, then a disconnects, which drops b's registration but not its membership. When c disconnects, room cleanup raises looking up b, and c stays registered for good | every remaining room member is registered, so removal always completes | not executed | Properties.StaleMemberStrandsLeaver | Invariants.IntendedRemovalCompletes |

The first two counterexamples come from the same line, and the third is a consequence of the second. The first two are stated on the tables by `Invariants.BusyCalleeBreaksSymmetry` and `Invariants.RoomCalleeBreaksAgreement`. The third is stated on the tables by `Invariants.RoomCalleeOrphaned` and `Invariants.StrandedLeaverKept`. All three are also stated on the frames a client sends, by the `Properties` lemmas named in the table. The same stale member also makes a later join raise in the notice loop at simp.py:156 (`Properties.StaleMemberStrandsJoiner`).

`Dispatch`, `Next` and class `SimpleServer` follow simp.py as written, so their consistency guarantee is conditioned on `CalleeIdle`. `IntendedDispatch` and `IntendedNext` apply the evidently intended check, `SessionRequest`: a `SESSION` request for a peer already in a session or a room is answered `busy`. Under that check, consistency is proved for every frame, and from every state a frame leads to the cleanup cascade completes.
