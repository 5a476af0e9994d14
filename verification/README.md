# Verification model of the identity service

The project models the four stateful cores of the identity service and proves what each of them keeps.

**The UDS server's lifecycle** (`ServerLifecycle`, `HandlerFlow`, `Shutdown`, `StopProgress`, `Capacity`). The accept loop, any number of
connection handlers, the idle checker and `Stop` run interleaved. Every access to the connection map, the
connection counter, the wait group, the cancel flag and a connection's close-once is one atomic event, and a run is
any sequence of enabled events. Deadlines are events that may happen at any time.

**The wire** (`Bytes`, `Readers`, `Framing`, `FrameStreams`, `JsonLines`, `Handshake`, `Session`, `Connection`). A
connection delivers its bytes in arbitrary pieces. The readers, `io.ReadFull`, the frame codec, the line scanner, the
handshake and the request loop are imperative methods over buffers and stateful readers, each proved against a
function of the bytes or pieces. `Connection` puts handshake and loop together.

**The user store and its service** (`UserTable`, `UserStore`, `UserHistory`, `UserService`, `UserStoreConcurrent`,
`UserStoreEmails`, `UserStoreDeletion`, `UserStoreSerial`, `UserStoreRefusals`, `UserSharing`). `UserTable` holds the
effect of each operation on the three maps and proves that they behave as one table with linear scans. `UserStore` and
`UserService` are the classes, with user records on the heap; `UserSharing` plays any list of calls on the class.
`UserStoreConcurrent`, `UserStoreEmails` and `UserStoreDeletion` take the same operations apart into their atomic map
steps and interleave any number of calls. `UserStoreSerial` and `UserStoreRefusals` tie the two views together: with
one writer per user at a time the successful calls serialize, and a failing call fits the same order exactly if what
it met belongs to the sequential store. Lookups are not part of that comparison.

**The organization directory** (`OrgLedger`, `OrgHistory`, `OrgStore`, `OrgSharing`, `OrgPaths`, `OrgAncestry`,
`OrgCycles`). `OrgLedger` proves that the two membership indexes are projections of one insertion-ordered list. `OrgStore` is the
class, and `OrgSharing` plays any list of calls on it. `OrgPaths` says what `Path` means, `OrgAncestry` when it tells
ancestors from others, and `OrgCycles` which calls close a cycle of `ParentID`s.

## What the code does that its comments or names do not say

- The connection limit is compared before the handshake and the counter rises after it, so the limit can be exceeded
  by the connections inside that window (`Capacity.BoundAttained`).
- Connection ids come from the clock. Two connections that hold the same id between handshake and removal can leave
  one that `Stop` cannot find (`Shutdown.CollidingIdsStrand`). Not every collision does:
  `Shutdown.ShutdownCompletesIff` says exactly when `Stop` can return. Ids that no two connections hold at the same
  time, from the handshake to the removal from the map, are enough.
- A Protobuf handshake whose length is 123 modulo 256 begins with `{` and is taken for JSON
  (`Handshake.FormatDetection`).
- The frame writer does not check the size limit that the frame reader enforces (`Framing.FrameRoundTrip`).
- JSON mode makes a new scanner for each message and loses what the old one had read ahead
  (`JsonLines.JsonDeliveryIffAligned`).
- `Create` of the user store does not look at the id. A reused id breaks the indexes for good
  (`UserTable.AgreeIffNoReuse`).
- An Update that moves an email can interleave with another writer of the same user so that two active users end with
  the same email (`UserStoreEmails.StaleWriterShares`); writers that move no email may overlap without harm to the
  index (`UserStoreEmails.EmailAgreement`).
- An Update that overlaps with a Delete can bring a deleted user back (`UserStoreDeletion.DeletedUserReturns`); writers
  that agree on whether they delete may overlap (`UserStoreDeletion.DeletedStaysDeleted`).
- The user store is not linearizable: two `Create`s of one username can both fail although nobody has it
  (`UserStoreRefusals.RefusedForNothing`).
- `UpdateUser` leaves `IsOnline` at false, so every profile change takes the user offline
  (`UserService.UpdateUserGoesOffline`).
- `HashPassword` stores the password as it is, although the documentation names bcrypt.
- Neither `Create` nor `Update` of the organization store checks for a cycle. An `Update` can close one, and so can a
  `Create` that brings back a deleted id (`OrgCycles.StepKeepsAcyclicIff`); `Path` is not rebuilt
  (`OrgPaths.ReparentingMakesCycle`).
- An id with a slash, or one created again elsewhere, makes `Path` misleading (`OrgAncestry.SlashFreeIff`,
  `OrgAncestry.RunAncestralIff`).

## Model

| member | source | states |
|---|---|---|
| ServerLifecycle.ConnectionAccounting | internal/uds/server.go:124-198 | in every interleaving from Start on, the counter is the number of handlers between their Add(1) and Add(-1) and never negative; wg.Add never runs with the wait group at zero; once wg.Wait has returned every goroutine is gone and the counter is zero |
| ServerLifecycle.AccountedStep | internal/uds/server.go:133-233 | every atomic step of every actor keeps the counter, wait-group, flag and reference invariant |
| ServerLifecycle.IndexedStep | internal/uds/server.go:188-198 | if a new id differs from those held between handshake and Delete, every step keeps the connection map equal to the handlers between their Store and their Delete, each under its own id |
| ServerLifecycle.CoveredStep | internal/uds/server.go:133-146 | every step keeps the ordering argument of shutdown: a handler past its ctx check has a closed socket or is still on the list the Range must visit |
| ServerLifecycle.MapMatchesCounter | internal/uds/server.go:192-197 | map size and counter differ only by the handlers in the two one-step windows, and the map is empty when Stop returns |
| HandlerFlow.StagesBalance | internal/uds/server.go:175-234 | in every run each place of handleConn is left as often as it is entered, but for the handler that stands there; so every action is followed by the one the code has next |
| HandlerFlow.RequestsAnswered | internal/uds/server.go:213-232 | in every run each request that was read has been handled, except one about to be, and for each handled one the response was written or failed to be, except one about to be |
| HandlerFlow.OneMoreRound | internal/uds/server.go:202-232 | a handler waiting for a request can read, handle and answer it; it then waits for the next one exactly if nobody has cancelled or begun to close its connection |
| HandlerFlow.EveryOutcome | internal/uds/server.go:175-234 | at each place a handler can take exactly the actions that leave it: a read or a write may succeed or fail at any time, and only its own close is waited for |
| HandlerFlow.AcceptRound | internal/uds/server.go:149-172 | below the limit an accepted connection gets a handler of its own, at the limit it gets none, and either way the loop goes back to accepting |
| HandlerFlow.AcceptErrorRound | internal/uds/server.go:152-161 | a failed accept ends the loop exactly if the server has been cancelled |
| Shutdown.NobodyStranded | internal/uds/server.go:133-213 | with distinct ids, once the Range of Stop is over every handler inside a request iteration has a closed connection and every handler at its ctx check can only leave |
| Shutdown.AtMostOneMoreRequest | internal/uds/server.go:202-232 | after cancel each handler reads at most one more request in any continuation, and only one whose read had begun |
| Shutdown.RankStep | internal/uds/server.go:133-233 | after the Range no step raises the rank and every step of a handler, of the accept loop or of Stop lowers it |
| Shutdown.ShutdownWorkBounded | internal/uds/server.go:133-233 | every continuation after the Range holds at most rank many steps of handlers, accept loop and Stop together |
| Shutdown.HandlerNotBlocked | internal/uds/server.go:202-232 | a handler that is not gone has an enabled step of its own that needs nothing from its client if and only if it is not reading from a socket whose close has not begun |
| Shutdown.ShutdownCompletes | internal/uds/server.go:133-146 | with distinct ids, from every reachable state after the Range, server-only steps lead to Stop returning; silent clients cannot hold it up |
| Shutdown.EnlistedStep | internal/uds/server.go:133-198 | colliding ids or not, every step keeps that each map entry leads to a connection with that id, which is closed or still to be closed by the Range if its handler is past its check |
| Shutdown.ShutdownCompletesIff | internal/uds/server.go:133-146 | in every run, colliding ids or not, a waiting Stop can return without help from any client if and only if no handler reads from an open socket that neither the map nor the idle checker knows |
| Shutdown.ForgottenForever | internal/uds/server.go:139-143 | a handler reading from an open socket that the map does not know keeps Stop waiting in every continuation its client does not end |
| Shutdown.CollidingIdsStrand | internal/uds/server.go:188-192 | the failing side is not empty: a run with two equal ids after which no server-only continuation lets Stop return |
| Shutdown.ForgottenMeansCollision | internal/uds/server.go:188-192 | for every limit, run and handler: a forgotten connection means that ids collided |
| StopProgress.OnListStep | internal/uds/server.go:139-142 | every step keeps each entry the Range still has to visit in the map, so the Range never waits for one that is gone |
| StopProgress.StopCompletes | internal/uds/server.go:133-146 | with distinct ids: from every reachable state, whether or not Stop has been called and however far it has come, server-only steps lead to its return |
| StopProgress.VisitCloses | internal/uds/server.go:139-142 | the Range closes any connection in the map it comes upon, goes on only once it is closed, and touches no other |
| StopProgress.SweepCloses | internal/uds/server.go:326-345 | without any cancel, a sweep that finds a connection idle closes exactly it and then waits for the next tick |
| StopProgress.SweepPasses | internal/uds/server.go:326-345 | a sweep that finds a connection in use changes nothing |
| Capacity.ConnectionBound | internal/uds/server.go:163-193 | with at most p connections ever between limit check and increment, the counter never exceeds the configured limit (100 for 0) minus one plus p |
| Capacity.BoundAttained | internal/uds/server.go:163-193 | for every limit that is not negative and every p >= 1 some run within that window reaches that bound |
| Bytes.LittleEndianRoundTrip | internal/uds/codec.go:363-377 | a 32-bit length survives being written and read in little-endian order |
| Bytes.ShiftOrIsLittleEndian | internal/uds/server.go:280-281 | the hand-written shift/or length equals the codec's little-endian decoding on all four-byte inputs |
| Readers.Conn.Read | internal/uds/codec.go:360-368 | one Read of the socket delivers a non-empty part of the next piece into the buffer and takes exactly it off the stream |
| Readers.LengthPrefixedReader.Read | internal/uds/server.go:372-389 | successive reads deliver the length bytes, then the body, then end of stream, whatever the buffer sizes |
| Readers.MultiReader.ReadHead | internal/uds/server.go:356-362 | a one-byte or replaying head delivers its own bytes once and then ends |
| Readers.MultiReader.Read | internal/uds/server.go:289-292 | head then socket: reads deliver the head's bytes first and leave the socket alone until they are used up |
| Readers.ReadFull | internal/uds/codec.go:360-368 | a full read gets exactly the next n bytes or all there is with the right error, independent of how the stream is cut into pieces |
| Readers.FilledErrors | internal/uds/codec.go:360-368 | a short read reports the failing connection's error, a clean end if nothing came before it, and an unexpected end otherwise |
| Framing.ReadLengthPrefixed | internal/uds/codec.go:358-372 | the in-place reader returns what parsing the bytes ahead as one frame gives, all errors included, and takes exactly the bytes that parse uses |
| Framing.WriteLengthPrefixed | internal/uds/codec.go:375-383 | succeeds exactly if the peer takes the whole frame; otherwise a prefix of the frame is on the wire |
| Framing.FrameRoundTrip | internal/uds/codec.go:358-383 | a written frame, followed by anything, is read back exactly if and only if its payload is at most 2^20 bytes |
| Framing.FrameErrors | internal/uds/codec.go:358-372 | exactly when a frame is refused as too large, and which error a stream that ends or fails inside a frame gives |
| FrameStreams.FrameStream | internal/uds/codec.go:358-383 | from the first k bytes of a written stream the reader gets exactly the payloads whose frames lie within those k bytes |
| FrameStreams.FrameStreamRoundTrip | internal/uds/codec.go:358-383 | for every cutting into pieces the whole list of payloads comes back, and from any prefix only a prefix of the list |
| FrameStreams.FramesConsumed | internal/uds/codec.go:358-383 | off a stream that goes on after the written frames, in any pieces, reading as many frames gives the payloads and consumes exactly the written bytes |
| FrameStreams.ReadFramesAppend | internal/uds/codec.go:358-383 | what follows the written frames is read as it would be on its own |
| Framing.FirstByteOfFrame | internal/uds/codec.go:375-378 | a frame begins with `{` exactly if its length is 123 modulo 256 |
| JsonLines.Scan | internal/uds/codec.go:257-284 | the scanner over a growing array returns the token, and leaves the stream, that the step function of the scanner gives |
| JsonLines.ScanOneLine | internal/uds/codec.go:281-298 | one complete line is returned as sent; what follows survives if no piece runs past a newline, otherwise bytes are lost or the misalignment is still ahead |
| JsonLines.ScanAlignedLine | internal/uds/codec.go:281-298 | whatever the size the growing buffer starts from, an aligned line that leaves room for its newline is returned as sent and the rest of the stream is untouched |
| JsonLines.ScanLastLine | internal/uds/codec.go:281-298 | a last line without a newline is returned all the same, and with no bytes left the reader learns how the stream ended |
| JsonLines.NoReturnDropped | internal/uds/codec.go:281-298 | of a line, exactly one trailing carriage return is dropped |
| JsonLines.JsonDeliveryIffAligned | internal/uds/codec.go:281-298 | JSON mode delivers exactly the messages sent if, and for messages leaving a byte of room only if, no piece continues past a newline |
| JsonLines.LockStepDelivery | internal/uds/codec.go:281-298 | a client that sends nothing of message k+1 before the answer to message k is served exactly, whatever the pieces |
| JsonLines.OversizedLine | internal/uds/codec.go:282-292 | a message of 512 KiB or more without a newline is refused, however it arrives |
| Handshake.TakeFrame | internal/uds/server.go:276-288 | the handshake's own reads of three length bytes and a body accept, refuse and consume as one frame read of the untouched stream would |
| Handshake.ReplayFrame | internal/uds/server.go:289-293 | the codec reading through the replaying reader gets the body already taken and leaves the socket alone |
| Handshake.ProtobufBranch | internal/uds/server.go:271-311 | verdict, reply and stream position are those of reading, decoding and validating the frame on the untouched stream |
| Handshake.JsonBranch | internal/uds/server.go:246-270 | verdict, reply and what is left of the stream are those of one scanned line with the first byte put back |
| Handshake.Answer | internal/uds/server.go:258-270 | an undecodable handshake gets no reply and no connection; one without a version or with an unknown format is told which, and gets none; any other is sent status "ok", version "1.0" and the detected format, and gets a connection exactly if the whole reply is written |
| Handshake.PerformHandshake | internal/uds/server.go:236-313 | the whole handshake on every stream and every cutting: format by the first byte, the first line or frame as the message, the reply and connection that message deserves by its version and format, and the exact position it leaves |
| Handshake.FormatDetection | internal/uds/server.go:246-271 | a framed handshake goes to the Protobuf branch if and only if its length is not 123 modulo 256 |
| Handshake.FramedHandshake | internal/uds/server.go:271-311 | in that branch the message is the payload, and the connection stands right after the frame |
| Session.ReadBody | internal/uds/codec.go:281-347 | each call takes the next message of the format off the connection, or reports that there is none |
| Session.Serve | internal/uds/server.go:202-232 | for every outcome of the check at each iteration, the loop writes exactly the answers of the exchanges it completes, in order; each way out says how many those are, what prefix is on the wire, and what has been executed |
| Session.ExchangesInTurn | internal/uds/handler.go:57-63 | the messages run one after the other on the service: a registered action is answered by its handler, applied to the state its predecessor left; any other action is answered "unknown action" and changes nothing; the loop's final state is one of these states |
| Session.ExchangesInOrder | internal/uds/handler.go:57-63 | the i-th answer belongs to the i-th message and carries its request id; every decodable message is answered |
| Session.OneAnswerPerRequest | internal/uds/server.go:202-232 | for every list of well-formed requests, pipelined Protobuf frames in any pieces or lock-step JSON lines lead to one exchange per request, executed in order on the service by its handlers, under the same id |
| Session.ClientReadsAnswers | internal/uds/codec.go:349-383 | a Protobuf client reading the answer stream in any pieces gets the encoded answers one by one, if none exceeds the frame limit |
| Connection.HandleConn | internal/uds/server.go:175-233 | handshake and loop together, on any bytes in any pieces: what is sent is always a beginning of the greeting and the answers, and all of them when the peer takes that much and no check stops the loop; the service is left in the state after the messages executed |
| Connection.FramedConversation | internal/uds/server.go:175-233 | a framed handshake of length not 123 modulo 256 that names a version and a known format, followed by pipelined frames, in any pieces: all that is sent is the welcome with version 1.0 and then one framed answer per request, executed in order by its handlers and under its id, which a client reads back as such |
| Connection.LineConversation | internal/uds/server.go:175-233 | the same for JSON: one handshake line that leaves room for its newline in 64 KiB, then a lock-step client, in any pieces; all that is sent is the welcome and then one line per request |
| UserTable.FailureChangesNothing | internal/user/memory_store.go:24-125 | a failed Create, Update or Delete leaves all three maps as they were, the rolled-back claim included |
| UserTable.StepRefines | internal/user/memory_store.go:24-125 | each operation has the result and the contents that the plain table with linear scans gives, and both indexes stay the inverses of their columns |
| UserTable.CreateSets | internal/user/memory_store.go:35-44 | a successful Create stores the given record under its id, active if no status is given, with both timestamps |
| UserTable.UpdateSets | internal/user/memory_store.go:76-109 | after a successful Update each of email, display name and status is the given one if there is one and the old one otherwise, presence is the given one, and no other field but the time of change is touched |
| UserTable.DeleteSets | internal/user/memory_store.go:111-125 | a successful Delete sets the status and the time of change and nothing else |
| UserTable.RunRefinesTable | internal/user/memory_store.go:24-125 | the same over every run that reuses no id |
| UserTable.AgreeIffNoReuse | internal/user/memory_store.go:24-45 | the indexes agree with the table after a run exactly if no successful Create of it reused a stored id |
| UserTable.OrphanForever | internal/user/memory_store.go:24-45 | once an id has been reused no later run repairs the indexes |
| UserTable.LookupsAreScans | internal/user/memory_store.go:60-74 | lookups by username and email return the one live record a scan would find, or nothing |
| UserTable.DeletedForever | internal/user/memory_store.go:47-125 | after any later run a deleted user cannot be found, and its username and email stay reserved |
| UserStore.MemoryStore.Create | internal/user/memory_store.go:24-45 | the three maps after claim, roll back or publish; the caller's record is stamped but never becomes part of the store |
| UserStore.MemoryStore.GetByID | internal/user/memory_store.go:47-58 | a fresh copy of the live record, or nothing |
| UserStore.MemoryStore.GetByUsername | internal/user/memory_store.go:60-66 | a fresh copy of the live record the index leads to, or nothing |
| UserStore.MemoryStore.GetByEmail | internal/user/memory_store.go:68-74 | a fresh copy of the live record the index leads to, or nothing |
| UserStore.MemoryStore.Update | internal/user/memory_store.go:76-109 | publishes a fresh merged copy and moves the email claim; no published record and no caller's record is written |
| UserStore.MemoryStore.Delete | internal/user/memory_store.go:111-125 | publishes a fresh copy marked deleted, leaving both claims in place |
| UserStore.MemoryStore.LiveClones | internal/user/memory_store.go:127-137 | the Range loop visits each live user exactly once and yields fresh copies |
| UserStore.MemoryStore.List | internal/user/memory_store.go:127-147 | total and page are those of some order of the live users, with fresh copies; for every offset and limit the slice panics exactly on a negative offset, a negative limit or an overflowing sum, and only if the offset is before the end |
| UserSharing.ServeAll | internal/user/memory_store.go:24-147 | over any list of calls the object does what the operations do on the maps, with the same results; no record passed in or returned is ever a record of the store, and no record of the store is written after it was published |
| UserHistory.CreatedIsKept | internal/user/memory_store.go:24-125 | a created account is there for good with the username and password it was created with |
| UserHistory.AccountOrigin | internal/user/memory_store.go:24-125 | every account comes from a successful Create of the run |
| UserHistory.CredentialsFollowHistory | internal/service/user.go:89-101 | after any run, credentials are accepted exactly if a successful Create had them and that user is active now |
| UserHistory.VerifyOutcomes | internal/service/user.go:89-101 | for every username and password: the user of that name that is not deleted is turned away as disabled unless active, then for a wrong password, and otherwise is the one returned; without such a user the credentials are invalid |
| UserHistory.RecordFollowsHistory | internal/user/memory_store.go:24-125 | after any run, every field of a stored user has the value given by the last successful operation that sets this field |
| UserHistory.OnlineFollowsHistory | internal/user/memory_store.go:97-107 | after any run, the users counted as online are the live ones whose last successful Create or Update set them online |
| UserService.UserService.CreateUser | internal/service/user.go:34-51 | short passwords change nothing; a taken username or email is refused; otherwise the store's Create of the active record, the result is a record the store does not share, and with a fresh id the credentials of the request are accepted |
| UserService.CreatedCanLogIn | internal/service/user.go:34-51 | refused exactly if username or email is taken; otherwise, for a fresh id, the stored user has the fields of the request, is accepted with its credentials and is found under its email |
| UserService.UserService.UpdateUser | internal/service/user.go:61-72 | unknown or deleted users and taken emails are refused; otherwise exactly the given fields change and presence goes off; the result is a fresh copy, or not found if the update deleted the user |
| UserService.DisabledByUpdate | internal/service/user.go:61-101 | after an UpdateUser to a status other than active or deleted, the user is turned away as disabled, whatever the password |
| UserService.UserService.VerifyCredentials | internal/service/user.go:89-101 | unknown user, inactive user and wrong password are told apart in this order; success returns a fresh copy |
| UserService.UserService.Login | internal/service/user.go:104-123 | a verified user is added to the online users, and nothing else changes but its time of change, even if the token then fails; it gets exactly the token made for its id and username together with a fresh copy; all others leave the store unchanged |
| UserService.UserService.SetOnline | internal/service/user.go:150-152 | the user joins or leaves the online users as asked, and nothing else changes but its time of change; unknown and deleted users are refused |
| UserService.UserService.Logout | internal/service/user.go:145-147 | the user leaves the online users and nothing else changes but its time of change; unknown and deleted users are refused |
| UserService.UserService.GetOnlineCount | internal/service/user.go:155-167 | exactly the number of live online users while there are at most 10000 live users, never more than it beyond that |
| UserStoreConcurrent.AloneIsSequential | internal/user/memory_store.go:24-125 | a call whose atomic steps run without interruption has exactly the effect and result of the sequential operation |
| UserStoreConcurrent.NamesStep | internal/user/memory_store.go:24-125 | every atomic step of every call keeps the username invariant |
| UserStoreConcurrent.RollBackIsOwn | internal/user/memory_store.go:30-33 | the roll-back removes a claim that is the caller's own, that no record stands on and no other call holds |
| UserStoreConcurrent.UsernameSafety | internal/user/memory_store.go:24-125 | in every interleaving with fresh ids the index leads from each stored username to its record, no two records, live or deleted, share one, and at rest the index is the inverse of the column |
| UserStoreEmails.OwnStep | internal/user/memory_store.go:24-125 | a step of a call keeps its own user's part of the email index consistent and touches nobody else's |
| UserStoreEmails.OnlyOneFor | internal/user/memory_store.go:76-125 | while a call works for a user no other call claims, has dropped or is to move an email of that user, and others hold a copy only if it moves none |
| UserStoreEmails.MailStep | internal/user/memory_store.go:24-125 | every atomic step keeps the email invariant if no writer loads a user while that would overlap with a move of the email |
| UserStoreEmails.EmailAgreement | internal/user/memory_store.go:24-125 | if no move of an email overlaps with another writer of the same user: records outside their claim-to-publish window are found under their email, every entry is a record's or a claim in flight, and at rest the index is the inverse of the column; writers that move no email may overlap |
| UserStoreEmails.SafeAgreesBut | internal/user/memory_store.go:76-125 | as long as moves have not overlapped, the last writer in flight finds the agreement the next row starts from, and its copy is not stale |
| UserStoreEmails.PublishKeepsAgreementIff | internal/user/memory_store.go:107-123 | the publication of the last writer in flight, moving the email or not, brings index and records into full agreement if and only if the email it loaded, or the one it publishes, is the stored one |
| UserStoreEmails.StalePublishOrphans | internal/user/memory_store.go:107-123 | a last publication that fails this condition leaves the stored email in the index for nobody |
| UserStoreEmails.OrphanedForGood | internal/user/memory_store.go:24-125 | such an entry survives every continuation with fresh ids, whatever overlaps, so index and records never agree again |
| UserStoreEmails.StaleWriterShares | internal/user/memory_store.go:76-107 | the failing side is not empty: a move that overlaps with a rename ends at rest with two active users sharing an email |
| UserStoreSerial.ShadowStep | internal/user/memory_store.go:24-125 | every atomic step is matched by at most one operation on a sequential store, which succeeds there and keeps the two in step |
| UserStoreSerial.SuccessesSerialize | internal/user/memory_store.go:24-125 | with fresh ids and at most one Update or Delete per user in flight: at rest the three maps are those of a sequential run of exactly the successful calls, in the order they took effect, each succeeding there too |
| UserStoreRefusals.RefusedAgreesIff | internal/user/memory_store.go:24-118 | under the same condition, a call about to be turned down fails on the sequential store, with the same error, if and only if what it met belongs to that store (or, for a Create turned down over its username, its email is taken there); a missing record always is missing there |
| UserStoreRefusals.ReplaysIff | internal/user/memory_store.go:24-125 | run one after the other in the order they were decided, all calls return what they returned, the failing ones included, if and only if every refusal of the run was of that kind |
| UserStoreRefusals.RefusedForNothing | internal/user/memory_store.go:25-34 | the failing side is not empty: without any Update or Delete, two Creates of one username both fail although nobody has it, and no order of the calls, whatever it is, gives these results |
| UserStoreDeletion.DeletedStaysDeleted | internal/user/memory_store.go:76-125 | in runs where no deleting and no other writer of one user hold copies of it together, a deleted user stays deleted |
| UserStoreDeletion.DeletedRecordFixed | internal/user/memory_store.go:76-125 | with one writer per user at a time, a deleted record never changes again at all |
| UserStoreDeletion.DeletedReturnsIff | internal/user/memory_store.go:76-125 | in every run with fresh ids, whatever overlaps: a step brings a deleted user back if and only if it is the publication of an Update of that user that does not ask for deletion |
| UserStoreDeletion.DeletedUserReturns | internal/user/memory_store.go:76-125 | the failing side is not empty: a rename overlapping with a Delete leaves the user active after the Delete has succeeded |
| OrgLedger.AddRefines | internal/directory/memory_store.go:152-171 | AddMember appends to both lists exactly if the ledger appends; the error cases coincide |
| OrgLedger.RemoveRefines | internal/directory/memory_store.go:173-193 | RemoveMember's two filters are one removal from the ledger |
| OrgLedger.CascadeSoFar | internal/directory/memory_store.go:97-100 | in the half-finished cascade the users already processed have lost the organization and all others still have their whole list |
| OrgLedger.DeleteRefines | internal/directory/memory_store.go:89-104 | Delete with its cascade is one filter of the ledger by organization |
| OrgLedger.RunRefinesLedger | internal/directory/memory_store.go:27-193 | over every run both indexes are, in order, the projections of one list of memberships, with the same results, each pair at most once and none of an absent organization |
| OrgLedger.IndexesAgree | internal/directory/memory_store.go:89-223 | after every run a membership is listed under its organization exactly if it is listed under its user, once on each side and only for existing organizations |
| OrgLedger.RemoveUndoesAdd | internal/directory/memory_store.go:152-193 | removing a member just added succeeds and restores every list |
| OrgHistory.CreateSets | internal/directory/memory_store.go:27-53 | which Creates are refused and with which error; otherwise the stored organization has the given fields, the timestamps and the path below its parent's |
| OrgHistory.UpdateSets | internal/directory/memory_store.go:67-87 | an unknown id is refused; otherwise name and parent are the given ones if there are any, and no other field but the time of change is touched |
| OrgHistory.MembershipErrors | internal/directory/memory_store.go:152-193 | exactly when AddMember and RemoveMember fail, and with which error |
| OrgHistory.CallerSees | internal/directory/memory_store.go:31-48 | what Create writes into the caller's record: nothing for a taken id, the timestamps alone for a missing parent |
| OrgHistory.OrganizationFollowsHistory | internal/directory/memory_store.go:27-104 | after any run, deletions included, every field of a stored organization but its path has the value given by the last successful operation that sets it |
| OrgStore.MemoryOrgStore.Describe | internal/directory/memory_store.go:31-48 | duplicate ids and missing parents are refused; otherwise the caller's record gets its path; the timestamps are written even when the parent is missing |
| OrgStore.MemoryOrgStore.Create | internal/directory/memory_store.go:27-53 | the described record is stored as a fresh clone under its id; the caller's record stays outside |
| OrgStore.MemoryOrgStore.GetByID | internal/directory/memory_store.go:55-65 | a fresh copy of the stored organization, or nothing |
| OrgStore.MemoryOrgStore.Update | internal/directory/memory_store.go:67-87 | name and parent are overwritten where given, Path is kept, and a fresh clone replaces the record; only the record under that id is written |
| OrgStore.MemoryOrgStore.RemoveUserOrgRelation | internal/directory/memory_store.go:106-115 | the filter loop keeps exactly the user's other organizations, in order |
| OrgStore.MemoryOrgStore.Delete | internal/directory/memory_store.go:89-104 | the loop computes the whole cascade over the maps; nothing new enters the store |
| OrgStore.MemoryOrgStore.AddMember | internal/directory/memory_store.go:152-171 | refuses absent organizations and listed members; otherwise one fresh clone is appended to both lists; neither the caller's membership nor a stored one is written |
| OrgStore.MemoryOrgStore.RemoveMember | internal/directory/memory_store.go:173-193 | both lists lose exactly the pair, in order; an unlisted member changes nothing |
| OrgStore.MemoryOrgStore.ListMembers | internal/directory/memory_store.go:195-210 | fresh copies of the organization's list in its order, or not found |
| OrgStore.MemoryOrgStore.GetUserOrgs | internal/directory/memory_store.go:212-223 | fresh copies of the user's list in its order, empty for unknown users |
| OrgSharing.ServeAll | internal/directory/memory_store.go:27-223 | over any list of calls the object does what the operations do on the maps, with the same results; no organization or membership passed in or returned is ever a record of the store, and no stored membership is written |
| OrgPaths.SplitJoin | internal/directory/memory_store.go:39-48 | splitting a path of slash-free ids on the slash gives the chain of ids back |
| OrgPaths.PrefixIffChain | internal/directory/memory_store.go:39-48 | one path and a slash begin another path exactly if the one chain properly begins the other |
| OrgPaths.PathsAlways | internal/directory/memory_store.go:39-103 | over every run, re-parenting and reused ids included, Path spells the chain of ancestors at creation |
| OrgPaths.PathCharacterisesAncestry | internal/directory/memory_store.go:39-103 | with slash-free ids Path splits into the creation-time chain, and Path(a) + "/" begins Path(o) exactly if a's chain properly begins o's; with never-reused ids, exactly if a is a proper ancestor of o at creation |
| OrgPaths.RunLinkedIff | internal/directory/memory_store.go:67-87 | ParentID and Path stay in step throughout a run if and only if no Update of it names another parent than the stored one |
| OrgPaths.ParentsFollowPath | internal/directory/memory_store.go:39-103 | without re-parenting, with slash-free and never-reused ids: the ParentIDs have no cycle, and they lead from o to a stored a exactly if Path(a) + "/" begins Path(o) and nothing in between has been deleted |
| OrgPaths.ReparentingMakesCycle | internal/directory/memory_store.go:79-86 | an Update can make an organization its own parent while its Path stays as it was |
| OrgCycles.StoringKeepsAcyclicIff | internal/directory/memory_store.go:50-86 | storing a record for x keeps the ParentIDs free of cycles if and only if it names no parent, or one from which no walk up the stored ParentIDs leads to x |
| OrgCycles.UpdateKeepsAcyclicIff | internal/directory/memory_store.go:67-87 | an Update that names a parent keeps them free of cycles if and only if that parent does not lead to the organization |
| OrgCycles.CreateKeepsAcyclicIff | internal/directory/memory_store.go:27-53 | a Create keeps them free of cycles if and only if its parent does not lead to the new id over a ParentID left dangling |
| OrgCycles.DeleteKeepsAcyclic | internal/directory/memory_store.go:89-104 | a Delete closes no cycle |
| OrgCycles.StepKeepsAcyclicIff | internal/directory/memory_store.go:27-193 | from a directory without cycles any operation leads to one without cycles if and only if it passes that check |
| OrgCycles.RunAcyclicIff | internal/directory/memory_store.go:27-193 | a run stays free of cycles throughout if and only if each of its operations passes the check |
| OrgCycles.NewStoreAcyclicIff | internal/directory/memory_store.go:20-193 | in particular every run of a new store |
| OrgAncestry.SlashBreaksAncestry | internal/directory/memory_store.go:39-48 | every id with a slash breaks it: the root named by the part before its first slash looks like its ancestor |
| OrgAncestry.SlashFreeIff | internal/directory/memory_store.go:39-48 | an id is safe in every run whose other ids are slash-free and never reused if and only if it holds no slash |
| OrgAncestry.AncestryStepIff | internal/directory/memory_store.go:27-104 | while Path tells ancestors, an operation keeps it doing so if and only if it is no Create of an id that a stored organization has on its chain in another place |
| OrgAncestry.RunAncestralIff | internal/directory/memory_store.go:27-104 | with slash-free ids, Path tells ancestors throughout a run if and only if no Create of it brings an id back elsewhere |
| OrgAncestry.ReuseBreaksAncestry | internal/directory/memory_store.go:39-103 | the failing side is not empty: a deleted id created again below its old descendant misleads Path and closes a cycle, without any re-parenting |

## Left out

- Shutdown.ShutdownCompletes: states that server-only steps can always finish the shutdown and that their number is bounded; that the Go scheduler eventually takes an enabled step is assumed, and the idle checker's ticker rounds are not counted.
- ServerLifecycle.IndexedStep: needs a new id that no handler between handshake and Delete has; the clock behind the ids is not modelled.
- Session.Serve: the outcome of the ctx and close-channel check is any function of the iteration; where cancellation can strike is the subject of the lifecycle modules.
- UserStore.MemoryStore.List: map order is any order, so pages of different calls are not related.
- UserService.UserService.Login: GenerateToken is any function of id and username that may fail.
- UserStoreSerial.SuccessesSerialize: says nothing of the calls that fail, which UserStoreRefusals treats, nor of lookups.
- UserStoreRefusals.ReplaysIff: compares with the order in which the calls were decided; a run that fails this may still fit another order.
- UserSharing.ServeAll: callers do not write their own records between the calls; the calls run one after the other.
- OrgSharing.ServeAll: callers do not write their own records between the calls.
- UserStoreConcurrent.UsernameSafety: records are values there, which is justified by UserStore, where no published record is ever written.
- encoding/json is any pair of functions: decoding may fail on any bytes, encoding of responses may fail on any response.
- Readers.Conn.Read: a piece is never empty, so the scanner's limit of a hundred empty reads does not arise; deadlines are how a stream may end.
- Data races on the directory: its methods hold the store's lock, so they are modelled as running one at a time.
- Starting the listener, the socket file and its permissions, and logging.
- List and ListChildren of the directory: a copy of map values in unspecified order.
- Search of the user store: the same Range loop as List with a substring test.
- MemoryGroupStore: the organization store's membership pattern once more, without paths.
- MemorySyncJobStore: one map without indexes.
- The registered UDS handlers beyond echoing the request id, the REST handlers, the UDP server and the command-line tools: field copying.
- The PostgreSQL store: its meaning lies in the database.
- JWT and UUID generation: library behaviour; ids appear as parameters.
