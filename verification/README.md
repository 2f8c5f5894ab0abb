# wbfuwunel, verified

wbfuwunel is a Matrix homeserver written in Rust. This project models the parts of
it that carry unbounded promises and proves those promises in Dafny.

- **The record format** (`Codec`, `RecordWriter`, `RecordReader`, `CodecLaws`). Every
  typed key and value passes through one separator-driven writer and one cursor
  reader. Reading undoes writing exactly when every present optional can be told
  from an absent one; tuples may grow at the tail without a migration; prefix scans
  return exactly the keys that share the leading elements, in numeric order.
- **Write batches** (`WriteBatch`). A commit re-parses its own bytes to find which
  keys to notify. The byte walk is proved to be the list of queued operations, and
  a batch cut short is found out unless it was cut between two records.
- **Idempotent sends** (`SendProtocol`, `SendAnswers`, `SendLaws`, `TransactionKeys`). Any number of
  sends interleave step by step with other writers of the same tables. A retried
  transaction gets at most one event exactly when it stays in one room and the
  effects behind its commit succeed; what each answer means holds over every run.
- **The space hierarchy** (`Hierarchy`, `HierarchyLevels`, `HierarchyPages`,
  `PaginationToken`, `HierarchyRoute`). A depth-bounded walk over an arbitrary, possibly cyclic room graph, restarted on
  every page. It emits exactly the reachable rooms, once each, and the pages
  concatenate to the unpaged listing.
- **Timeline paging** (`Timeline`, `TimelinePages`). Byte keys, signed counts and page
  tokens, through any filters. Following tokens is faithful exactly on the timelines
  whose counts are safe tokens.
- **Connections** (`Connections`, `Addresses`, `ConnectionTasks`). Counts, live index
  and task set agree with the outstanding guards over every run.
- **Lifecycle and the one-shot restore** (`Lifecycle`, `CommandLine`, `Restore`).
  Racing stop requests, waiters that must not miss the stop, and a destructive option
  that must not survive a reload, a reopened database or a restart.
- **Listeners and event diffs** (`Listeners`, `EventDiff`).

Protocols are state machines: `Next` is one atomic step, `Exec` folds a run of them,
and theorems quantify over all runs. Where a protocol has a simple sequential
meaning, that meaning is written down as one function and a run of one caller alone is
proved to end in it. Code that updates objects in place is a class
whose methods are proved against functions of the old state; those functions then
carry the theorems. Decisions the server takes from data outside the model (whether
a room is visible, an event passes a filter, a bind fails, a line parses as TOML) are
function parameters, so the theorems hold for every such decision.

Where the code and its documentation disagree, the model follows the code:

- The hierarchy route documents a depth-first order. The queue is first-in first-out,
  so the order is breadth-first (`Hierarchy.EmissionNearestFirst`).
- The task set documents at most one stale entry. That holds exactly when tasks leave
  one at a time; `m` tasks leaving together leave `m` (`ConnectionTasks.StaleBoundedIff`,
  `ConnectionTasks.BoundIsReached`).
- A retried send is meant to answer with its first event, and appending is documented
  not to fail. The event is committed before effects that can fail or be cut off, and
  the transaction is recorded only behind them. A message whose `body` is no string, or
  a thread whose root is unknown, is stored, answered with an error and stored again by
  the retry (`SendLaws.FailedSendTwoEvents`, `SendLaws.IdempotentIffRetriable`).
- The server notice endpoint stores event ids under the same transaction keys, so a
  send can be answered with a notice (`SendLaws.NoticeTakesKey`).
- A page token is meant to exclude the event it names and nothing else. Token 1 skips
  all backfilled history going backward, and tokens -1 and 0 return it again going
  forward (`Timeline.ScanExact`, `TimelinePages.FaithfulIffSafe`).

## Model

| member | source | states |
|---|---|---|
| `RecordWriter.Serializer.RecordStart` | src/database/ser.rs:173-178 | A separator is written exactly when one was pending, and one is pending afterwards |
| `RecordWriter.Serializer.SerializeElem` | src/database/ser.rs:292-407 | A value appends its own bytes; integers leave no separator pending, `Interfix` finalizes |
| `RecordWriter.Serializer.TupleElement` | src/database/ser.rs:432-436 | After a tuple element a separator is always pending, whatever the element was |
| `RecordWriter.Serializer.SeqElement` | src/database/ser.rs:420-423 | After a sequence element the separator state is the element's own |
| `RecordWriter.Serializer.SerializeTuple` | src/database/ser.rs:151-159 | The stateful writer appends exactly the encoding of the tuple and restores its depth and separator state |
| `RecordWriter.Serializer.SerializeSeq` | src/database/ser.rs:206-209 | The same for sequences, where integers follow each other unseparated |
| `RecordReader.Deserializer.RecordNext` | src/database/de.rs:126-132 | Takes the bytes up to the next separator and stops in front of it |
| `RecordReader.Deserializer.RecordTrail` | src/database/de.rs:172-176 | Takes everything that is left, separators included |
| `RecordReader.Deserializer.RecordStart` | src/database/de.rs:154-167 | Steps over one separator, or over nothing before the first record and once the input ran out; records whether a debug build would have objected |
| `RecordReader.Deserializer.DeserializeElem` | src/database/de.rs:336-447 | Reads text, raw tail, 64-bit integers and optionals; underflow and unsupported widths are errors that consume nothing |
| `RecordReader.Deserializer.DeserializeTuple` | src/database/de.rs:504-532 | The cursor ends in the state, and with the value or error, of the functional reader on the whole tuple |
| `RecordReader.Deserializer.DeserializeList` | src/database/de.rs:212-218 | The same for a list, which ends when the input is used up and at least one element was read |
| `CodecLaws.FrontFinished` | src/database/de.rs:84-96 | Reading the front of a longer tuple yields that front, and is accepted as finished if and only if nothing more was there or one element that encodes to nothing, as the end marker of a prefix does |
| `CodecLaws.IntNeedsEightBytes` | src/database/de.rs:369-412 | Behind any readable elements, an integer read fails with underflow below eight bytes and is unsupported at other widths; with eight it is the value they encode |
| `CodecLaws.IntactIffSeparated` | src/database/de.rs:154-167 | Behind an integer the layout assertion holds if and only if a separator or nothing follows |
| `CodecLaws.ElemLayout` | src/database/ser.rs:292-407 | Text and raw bytes stand for themselves, an absent optional for nothing, a present one for its value, an integer for its big-endian two's complement |
| `CodecLaws.Layout` | src/database/tests.rs:42-78 | One 0xFF stands between two elements of a tuple or two texts of a list, none behind an integer in a list |
| `CodecLaws.ElemRoundTrip` | src/database/de.rs:336-346 | In front of any rest, an element reads back as itself if and only if no present optional in it encodes to nothing or starts with a separator |
| `CodecLaws.TupleRoundTrip` | src/database/ser.rs:428-439 | Decoding the encoding returns the tuple if and only if all its elements are readable, and then uses up the input without tripping a layout assertion |
| `CodecLaws.AdditiveEvolution` | src/database/de.rs:508-532 | A record of an older shape reads at an extended shape as itself plus empty defaults; a missing integer is an error, never a value |
| `CodecLaws.EvolvedRewrite` | src/database/tests.rs:435-466 | Rewriting it at the extended shape appends one separator per added element and reads the same |
| `CodecLaws.ListRoundTrip` | src/database/tests.rs:739-784 | A list of separated values reads back as itself if and only if it is non-empty and readable; the empty list reads as one empty value |
| `CodecLaws.IntListLayout` | src/database/tests.rs:616-640 | Element `i` of an integer list sits at byte `i` times the width |
| `CodecLaws.RecordsDiffer` | src/database/ser.rs:141-146 | Two separator-terminated records of one type with equal bytes are equal, and so is what follows them |
| `CodecLaws.InterfixPrefix` | src/database/ser.rs:292-304 | An `Interfix` adds exactly the separator behind the prefix |
| `CodecLaws.PrefixScanExact` | src/database/ser.rs:125-131 | A key starts with the `Interfix` prefix of `p` if and only if it is longer than `p` and its leading elements are `p` |
| `CodecLaws.ScanOrder` | src/database/ser.rs:373-407 | Behind equal leading elements, byte order is numeric order of the next integer, for signed ones if and only if both have one sign |
| `WriteBatch.TakeVarint32` | src/database/txn.rs:634-648 | The loop reads at most five bytes and loses what the fifth shifts past 32 bits |
| `WriteBatch.TakeVarstring` | src/database/txn.rs:621-628 | A length and that many bytes, or nothing when fewer are left |
| `WriteBatch.NextRecord` | src/database/txn.rs:595-615 | One record's family and key; unknown tags and short input fail |
| `WriteBatch.VarintRoundTrip` | src/database/txn.rs:634-648 | Every 32-bit number is read back from its varint, wherever in it the read stands |
| `WriteBatch.RecordRoundTrip` | src/database/txn.rs:595-615 | Parsing an encoded operation in front of any bytes returns its family and key and leaves those bytes |
| `WriteBatch.RecordExtends` | src/database/txn.rs:589-615 | A record that parses parses the same with more bytes behind it |
| `WriteBatch.TruncatedRecordFails` | src/database/tests.rs:1169-1176 | A record cut short anywhere does not parse |
| `WriteBatch.VarintBounded` | src/database/txn.rs:634-648 | A parsed varint32 is below 2 to the 32, whatever its fifth byte holds |
| `WriteBatch.OverlongVarintFails` | src/database/txn.rs:634-648 | Five bytes that all continue fail, and are used up |
| `WriteBatch.OnlyQueuedTagsParse` | src/database/txn.rs:46-76 | Only the six record tags a transaction queues parse |
| `WriteBatch.RecordLayout` | src/database/tests.rs:1120-1160 | The bytes of short records, tag by tag, parse to their family and key |
| `WriteBatch.RecordsExact` | src/database/txn.rs:526-541 | Walking an encoded queue yields the family and key of every operation in order and ends on empty input |
| `WriteBatch.TruncatedBatchFails` | src/database/txn.rs:526-541 | A batch cut short walks to its end if and only if it was cut between two records |
| `WriteBatch.NextKeyExact` | src/database/txn.rs:526-541 | On an encoded queue the iterator answers the next key of a catalog map and stops in front of the operation behind it |
| `WriteBatch.NoticesExact` | src/database/txn.rs:422-433 | A key is announced to a map if and only if it was queued for the map's column family |
| `WriteBatch.NoticesConcat` | src/database/txn.rs:422-433 | Keys are announced in the order they were queued |
| `WriteBatch.Keys.constructor` | src/database/txn.rs:446-453 | The walk starts behind the header; a batch shorter than one has no keys |
| `WriteBatch.Keys.Next` | src/database/txn.rs:526-541 | The loop returns, and leaves unread, what the specification of the walk says on any bytes, panics included |
| `WriteBatch.Txn.Queue` | src/database/txn.rs:259-270 | The bytes stay the encoding of the queued operations |
| `WriteBatch.Txn.OnExecute` | src/database/txn.rs:109-112 | Follow-ups run in the order they were registered |
| `WriteBatch.Txn.Clear` | src/database/txn.rs:486-488 | Clearing drops the operations and keeps the follow-ups |
| `WriteBatch.Txn.Notify` | src/database/txn.rs:428-433 | One notification per queued key of a catalog map, in queue order, and never a panic |
| `WriteBatch.Txn.Execute` | src/database/txn.rs:380-420 | Write, flush unless corked, notifications, follow-ups, in this order; after a failed write or flush nothing is notified or run; an empty batch has no effect at all |
| `WriteBatch.SizeHint` | src/database/txn.rs:655-667 | The saturating sum over all pairs, however early it saturates |
| `WriteBatch.CapacitySuffices` | src/database/txn.rs:196-217 | Over any maps, the reservation is never below the encoded batch size, unless it saturated, and never more than 16 bytes per pair above it |
| `SendProtocol.NextInv` | src/api/client/send.rs:263-326 | Every step of every caller, failures and drops included, keeps the lock, the table, the timeline and the answers consistent |
| `SendAnswers.AnswersAreTrue` | src/api/client/send.rs:277-317 | Over every run: changed devices and refusals stored nothing, an error behind the commit left the call's own event, and a `Sent` id is an event of the key or a notice stored under it |
| `SendAnswers.AnswersHaveCause` | src/api/client/send.rs:263-337 | Over every run, an answer came from a step that may give it: drops only from drops, changed devices with the version of that moment and another one expected, `Sent` from the table or from the call's own end |
| `SendAnswers.FinishedIsSent` | src/api/client/send.rs:319-337 | A send that ran to its end is answered `Sent` with its own event, and stays so |
| `SendAnswers.SoloSend` | src/api/client/send.rs:195-326 | From any reachable state, a send left alone ends in the state of the one-step send: known transaction, version, commit, effects, record, lock released |
| `SendAnswers.RetryAnsweredUnlocked` | src/api/client/send.rs:195-200 | A retry is answered from the table at once, also while the room is locked |
| `SendLaws.SendsAreIdempotent` | src/api/client/send.rs:195-200 | Under every interleaving without a drop behind a commit, a key gets at most one event, if its retries share a room and settle |
| `SendLaws.SentAnswersAgree` | src/api/client/send.rs:273-275 | Then all `Sent` answers to a key carry that event's id, unless a notice took the key |
| `SendLaws.IdempotentIffRetriable` | src/service/rooms/timeline/append.rs:237-267 | At most one event per key over all runs without a drop behind a commit, if and only if any two calls of one key share a room and both settle |
| `SendLaws.IdempotentUnderDropsIff` | src/service/rooms/timeline/append.rs:243-267 | With such drops, if and only if no key is used by two calls |
| `SendLaws.FailedSendTwoEvents` | src/service/rooms/timeline/append.rs:355-356 | For any retried call whose effects fail, a run in which the retry commits a second event |
| `SendLaws.LateDropTwoEvents` | src/service/rooms/timeline/build.rs:148-151 | For any two calls of one key, a run in which dropping the first behind its commit gives two events |
| `SendLaws.TwoRoomsTwoEvents` | src/api/client/send.rs:263 | For any two sends of one key to two rooms, a run with two events |
| `SendLaws.NoticeTakesKey` | src/api/client/admin/misc/send_server_notice.rs:83-97 | For any send, a run in which it is answered with a notice and stores nothing |
| `SendLaws.OtherEndpointTakesKey` | src/api/client/to_device.rs:187-190 | For any send, a run in which an empty response stored by another endpoint refuses it |
| `SendLaws.CommitsMatchVersion` | src/api/client/send.rs:277-289 | When a call with an expected version can commit, it has checked the version, and the room still has it unless its devices changed since |
| `SendLaws.DeviceChangeRaces` | docs/design/keys/room-device-version.md:148-152 | For any send with an expected version, a run in which a device change lets it through at another version |
| `TransactionKeys.BuildKey` | src/service/transaction_ids/mod.rs:26-47 | The key built byte by byte for the insertion is the tuple the lookup serializes |
| `TransactionKeys.KeyBytes` | src/service/transaction_ids/mod.rs:34-42 | The key is user, 0xFF, device or nothing, 0xFF, transaction id |
| `TransactionKeys.KeysIdentify` | src/service/transaction_ids/mod.rs:50-60 | Two requests share a key if and only if user, transaction id and device agree, no device counting as an empty one |
| `TransactionKeys.OneEventPerTransaction` | src/api/client/send.rs:301-326 | No two events come from the same user, device and transaction id, if a retried transaction stays in one room and settles and nothing is dropped behind its commit |
| `Hierarchy.SelectExact` | src/service/rooms/spaces/mod.rs:247-259 | The children followed are exactly those of the child events, only suggested ones if asked so, without servers to ask when visibility is bypassed |
| `Hierarchy.Traverse` | src/api/client/space.rs:183-228 | The queue loop terminates and emits what the walk's specification emits |
| `Hierarchy.EmittedOnce` | src/api/client/space.rs:187-191 | No room is emitted twice, whatever cycles and shared children there are |
| `Hierarchy.EmissionIsReach` | src/api/client/space.rs:157-228 | The set of emitted rooms is the depth-bounded closure of the root under accessible edges |
| `Hierarchy.EmittedIffReachable` | src/api/client/space.rs:157-228 | A room is emitted if and only if a path of at most `max_depth` accessible child edges leads to it |
| `Hierarchy.EmissionNearestFirst` | src/api/client/space.rs:181-185 | Rooms are emitted in order of their distance from the root |
| `HierarchyLevels.SelectInOrder` | src/service/rooms/spaces/mod.rs:247-259 | Children are followed in the order of their child events |
| `HierarchyLevels.EmissionIsLevels` | src/api/client/space.rs:157-228 | The queue emits exactly what a level-by-level traversal emits, in its order: parents in order, and each parent's children in order |
| `HierarchyPages.Collect` | src/api/client/space.rs:229-251 | A page is the first `limit` rooms that can be serialized and are not skipped |
| `HierarchyPages.CreateIds` | src/service/rooms/short/mod.rs:335-361 | Rooms without a short id get a fresh one; ids handed out never change |
| `HierarchyPages.GetHierarchy` | src/api/client/space.rs:100-292 | An inaccessible root is refused; otherwise one page and, when it is full, a token |
| `HierarchyPages.PageExact` | src/api/client/space.rs:253-289 | A page is the slice of the listing its token points at, and hands on a strictly longer token if and only if it is full |
| `HierarchyPages.EmptyPage` | src/api/client/space.rs:256-257 | A request for no rooms gets none, no token, and hands out no ids |
| `HierarchyPages.PagesConcatenate` | src/api/client/space.rs:175-179 | Followed to the end with any positive limits, the pages concatenate to the unpaged listing |
| `HierarchyPages.PagesEnd` | src/api/client/space.rs:276-279 | No client follows tokens for more pages than the listing has rooms, plus one |
| `PaginationToken.SplitJoin` | src/service/rooms/spaces/pagination_token.rs:61-70 | Splitting undoes joining for pieces free of the separator |
| `PaginationToken.NumberRoundTrip` | src/service/rooms/spaces/pagination_token.rs:26-36 | Every number below the bound is read back from its decimal form |
| `PaginationToken.NumberExact` | src/service/rooms/spaces/pagination_token.rs:29-36 | Digits with at most one plus sign in front are a number if below the bound; nothing else is |
| `PaginationToken.ParseAllConcat` | src/service/rooms/spaces/pagination_token.rs:29-33 | Ids are read piece by piece in order; a piece that is no number costs only itself |
| `PaginationToken.FromStrExact` | src/service/rooms/spaces/pagination_token.rs:35-50 | Text is a token if and only if it has four fields, two of them numbers and the last `true` or `false` |
| `PaginationToken.TokenText` | src/service/rooms/spaces/tests.rs:124-147 | The text of a token, field by field |
| `PaginationToken.TokenRoundTrip` | src/service/rooms/spaces/pagination_token.rs:26-71 | Every token, also one without rooms, parses back from its text |
| `PaginationToken.AcceptedRoundTrip` | src/service/rooms/spaces/pagination_token.rs:26-58 | Whatever text is accepted, its token reads the same once shown again |
| `HierarchyRoute.Respond` | src/api/client/space.rs:58-97 | A request is refused if and only if its token was given for another depth or filter or the root is inaccessible; otherwise it gets one page and the text of the next token |
| `HierarchyRoute.TokenBinds` | src/api/client/space.rs:76-83 | A reply's token is accepted back if and only if depth and filter are those it was given for |
| `HierarchyRoute.RepliesConcatenate` | src/api/client/space.rs:58-97 | A client that hands back the text of each reply, with any positive limits, is shown the whole listing of its first request in order |
| `HierarchyRoute.ShownIff` | src/api/client/space.rs:58-97 | A client that follows the replies to the end is shown a room, once, if and only if it is serializable and child events that may be followed lead there within the depth of the first request, 3 by default and 10 at most, suggested ones if it asked so |
| `HierarchyRoute.ReplySize` | src/api/client/space.rs:62-65 | A reply holds at most the rooms asked for, 10 by default and 100 at most, and exactly that many when it has a next batch |
| `HierarchyRoute.RepliesEnd` | src/api/client/space.rs:276-289 | It is answered at most once more often than the listing has rooms |
| `Timeline.KeyOrder` | src/core/matrix/pdu/raw_id.rs:134-163 | The byte keys of two events compare as their signed counts do |
| `Timeline.KeyLayout` | src/core/matrix/pdu/raw_id.rs:134-163 | A normal count is eight bytes, a backfilled one eight zero bytes and its two's complement |
| `Timeline.ScanExact` | src/service/rooms/timeline/mod.rs:408-416 | A scan from a token holds an event if and only if the event lies ahead of it, except precisely for the misplaced pairs |
| `Timeline.GetMessages` | src/api/client/message.rs:187-246 | The streaming loop returns the first `limit` events up to `to` that pass, and the token rule's `end` |
| `TimelinePages.ResumeExact` | src/api/client/message.rs:231-232 | Resuming from any returned event yields exactly the ones behind it |
| `TimelinePages.WantedExact` | src/api/client/message.rs:188-194 | An event is wanted from a token on if and only if it is in the room, ahead of the token, passes, and comes before `to` if that lies ahead; in order of travel |
| `TimelinePages.EndExact` | src/api/client/message.rs:231-232 | A page holds as much of what is wanted as its limit allows, and ends on its last event, or on the oldest event there is if it goes backward, is not full and met no stop |
| `TimelinePages.PageExact` | src/api/client/message.rs:231-245 | A page is the front of what is wanted; without `end` it is all of it, with one the rest is wanted from there |
| `TimelinePages.VisitExact` | src/api/client/message.rs:187-246 | The same from a safe token, over the stored keys, and `end` lies strictly ahead |
| `TimelinePages.PagesComplete` | src/api/client/message.rs:187-246 | Followed until a page has no `end`, every wanted event was returned once and in order, however much was filtered away |
| `TimelinePages.ShownExact` | src/api/client/message.rs:187-246 | Which events a client that follows the tokens to the end is shown, and in which order, without mention of pages |
| `TimelinePages.PagesEnd` | src/api/client/message.rs:231-232 | That page comes after at most one request more than there are events |
| `TimelinePages.TokenOneLosesHistory` | src/core/matrix/pdu/count.rs:184-189 | Going backward, token 1 finds nothing of any timeline |
| `TimelinePages.TokenMinusOneRepeats` | src/core/matrix/pdu/count.rs:184-189 | Going forward, token -1 finds the whole timeline again |
| `TimelinePages.FaithfulIffSafe` | src/service/rooms/timeline/mod.rs:408-416 | Over all filters, limits and runs, following tokens is complete and ends if and only if no event's own count misplaces another event |
| `Connections.RegisterKeeps` | src/service/connections.rs:322-339 | Registering keeps the tables accurate if and only if it replaces no handle another guard stands for |
| `Connections.DropRegistrationKeeps` | src/service/connections.rs:240-250 | Dropping a registration keeps the tables accurate if and only if no second guard stands for it |
| `Connections.BookStaysAccurate` | src/service/connections.rs:53-64 | Over every run without double registrations, the count is the outstanding slots, the index maps exactly the registered connections to their handles, and an entry exists exactly while there is either |
| `Connections.SessionsEnded` | src/service/connections.rs:359-376 | Over every such run, ending a device's sessions tells exactly the handles of its outstanding registrations |
| `Connections.LimitHolds` | src/service/connections.rs:288-303 | Over every run, double registrations included, the count is the outstanding slots and never exceeds the limit |
| `Connections.TablesCountGuards` | src/service/connections.rs:288-339 | Over every run the tables give out and take back guards exactly as if they only counted them: a place if fewer than the limit are out, a drop if the guard is held |
| `Connections.DoubleRegistrationLost` | src/service/connections.rs:240-250 | After registering twice and dropping one guard, a served connection is no longer listed |
| `Connections.DeviceTable.constructor` | src/service/connections.rs:269-275 | The tables start empty and accurate |
| `Connections.DeviceTable.TakeSlot` | src/service/connections.rs:288-303 | A place is granted if and only if there is no limit or fewer are outstanding; under a limit it is then outstanding itself |
| `Connections.DeviceTable.DropSlot` | src/service/connections.rs:210-222 | Gives one place back and forgets an entry with nothing left |
| `Connections.DeviceTable.Register` | src/service/connections.rs:322-339 | Lists the connection with its handle without touching the count; accurate if and only if no other handle is registered there |
| `Connections.DeviceTable.DropRegistration` | src/service/connections.rs:240-250 | Takes the connection out; accurate if and only if it was registered once |
| `Connections.DeviceTable.EndDeviceSessions` | src/service/connections.rs:359-382 | Tells exactly the handles of the device's outstanding registrations and returns their connections, each once |
| `Connections.DeviceTable.CountFor` | src/service/connections.rs:450-454 | Reports the outstanding places |
| `Addresses.GroupIdempotent` | src/service/connections.rs:118-128 | A group is its own group |
| `Addresses.SameGroup` | src/service/connections.rs:118-128 | Two addresses share a group if and only if they are one IPv4 address or IPv6 addresses with equal first 64 bits |
| `Addresses.MappedGroupsAsItself` | src/service/connections.rs:112-117 | An IPv4-mapped peer counts as its IPv4 address |
| `Addresses.AddressTable.TakeSlot` | src/service/connections.rs:411-429 | Granted if and only if there is no limit or the group has fewer; no group passes the limit |
| `Addresses.AddressTable.DropSlot` | src/service/connections.rs:178-194 | Counts stay the outstanding slots, with no zero entries |
| `Addresses.AddressTable.CountFor` | src/service/connections.rs:434-442 | Reports the outstanding slots of the address's group |
| `ConnectionTasks.RunningIsTracked` | src/service/connections.rs:529-560 | A running task is in the shared set until shutdown takes it, then in the set shutdown waits on; none runs once shutdown returned |
| `ConnectionTasks.NothingStartsAfterClose` | src/service/connections.rs:465-510 | Once shutdown has begun, no run starts another task |
| `ConnectionTasks.StaleBounded` | src/service/connections.rs:512-522 | If at most `m` tasks leave at a time, at most `m` finished entries are unreaped |
| `ConnectionTasks.StaleBoundedIff` | src/service/connections.rs:484-488 | At most `m` tasks ever leave at a time if and only if, after any moment of the run and whoever then returns, at most `m` finished entries are unreaped |
| `ConnectionTasks.BoundIsReached` | src/service/connections.rs:492-505 | For every `m`, a run of `m` tasks leaving together with `m` unreaped entries |
| `ConnectionTasks.ReapClears` | src/service/connections.rs:153-157 | A spawn or a leaving task clears every ended entry, panicked ones included |
| `ConnectionTasks.SpawnStarts` | src/service/connections.rs:465-510 | A spawned task runs, and is tracked, if and only if shutdown has not begun, and no other task is touched |
| `ConnectionTasks.AbortedOnlyAfterExpiry` | src/service/connections.rs:551-556 | No task is aborted before the wait has expired |
| `ConnectionTasks.ShutdownEnds` | src/service/connections.rs:546-560 | From any moment of a shutdown a run leads to its return, whatever the tasks do |
| `Lifecycle.OneStopSucceeds` | src/core/server.rs:102-147 | Over every interleaving at most one shutdown, restart or reload succeeds |
| `Lifecycle.SomeStopSucceeds` | src/core/server.rs:102-147 | Some request has won if and only if one has come as far as the stop flag |
| `Lifecycle.SoloStop` | src/core/server.rs:102-147 | From any reachable state, a request left alone ends in the state of the one-step request, flags included |
| `Lifecycle.RestartingMeansRestartWon` | src/core/server.rs:125-133 | With no restart under way, the restart flag is set if and only if a restart won the stop |
| `Lifecycle.NoLostWakeup` | src/core/server.rs:160-175 | Once the winner has signalled, every waiter still waiting has a message to receive and leaves at its next check |
| `Lifecycle.ExitedMeansStopped` | src/core/server.rs:170-175 | A waiter has left only if some request has won the stop |
| `Lifecycle.NoSpuriousWakeup` | src/core/server.rs:170-175 | A waiter that subscribed is not woken before anything is signalled |
| `Lifecycle.NoBusyWait` | src/core/server.rs:170-175 | Without another signal a waiter is woken at most twice |
| `CommandLine.StripFlag` | src/main/restart.rs:61-72 | The scan with its carried flag takes out exactly the flag's own tokens |
| `CommandLine.RenderTokens` | src/main/restart.rs:61-72 | Reading a command line into tokens loses nothing |
| `CommandLine.StripExact` | src/main/restart.rs:58-72 | No spelling of the flag is left, the other tokens keep their order and meaning, and stripping again changes nothing |
| `CommandLine.StripDetached` | src/main/restart.rs:62-66 | The first bare flag goes together with the value behind it; everything before stays |
| `CommandLine.StripBare` | src/main/restart.rs:62-66 | At the end of the line or in front of another flag it goes alone |
| `CommandLine.StripInline` | src/main/restart.rs:67-69 | With its value behind an equals sign it goes alone |
| `Restore.StripRestoreBackup` | src/main/restart.rs:61-72 | The arguments of the next image are those of this one without the restore flag and its values |
| `Restore.Update` | src/main/args.rs:325-395 | The step-by-step layering with its early refusals computes the layered configuration |
| `Restore.UpdatedExact` | src/main/args.rs:325-395 | When an update is refused, in both directions; otherwise a key holds its last override, without one what the files say, and only then what the flags ask for |
| `Restore.ListsAppended` | src/main/args.rs:361-365 | In an accepted configuration, commands and tests of the command line come behind those of the files, unless overridden |
| `Restore.OnlyTheFlagSetsRestore` | src/main/args.rs:336-342 | The restore key is in an accepted configuration if and only if the argument was given, with the argument's value |
| `Restore.ReloadHasNoRestore` | src/main/server.rs:91-103 | A reloaded configuration never holds the restore key |
| `Restore.AskedExact` | src/main/args.rs:98-105 | Which backup a command line names: the value behind the flag or its equals sign, or 0 |
| `Restore.StartRestoresIfAsked` | src/main/server.rs:105-112 | A started configuration asks for exactly the backup the command line names |
| `Restore.RestoredAtMostOnce` | src/core/server.rs:149-154 | Over any run of reopened databases, reloads and restarts, nothing is restored but the backup the first command line names, and that at most once |
| `Restore.RestoredOnFirstOpen` | src/database/engine/open.rs:28-35 | If the database is opened first, that backup is restored, and once |
| `Restore.NothingAskedAgain` | src/main/server.rs:91-103 | After an accepted reload, and after a restart, nothing asks for a restore |
| `Listeners.BindAddrs` | src/router/serve.rs:244-278 | The loop binds what the fold over the sorted addresses binds, or fails where it fails |
| `Listeners.FamilyExact` | src/router/serve.rs:251-255 | Sorting by family is a permutation |
| `Listeners.ConfiguredAddressesAnswered` | src/router/serve.rs:244-278 | When binding configured addresses succeeds, an address is answered for if and only if its port is not left to the system |
| `Listeners.CoversExact` | src/router/serve.rs:192-198 | One address covers another if and only if a socket on it accepts every connection one on the other would |
| `Listeners.DestinationsServed` | src/router/serve.rs:238-278 | Every connection a configured address stands for is accepted by a passed or newly bound listener |
| `Listeners.BindOutcome` | src/router/serve.rs:263-270 | Binding is refused only for a configured address that cannot be bound; default ones are passed over; only asked-for addresses are bound |
| `Listeners.NeverBindsCovered` | src/router/serve.rs:257-261 | Nothing is bound that a passed or earlier listener already answers for |
| `Listeners.DualStackSuppressesV4` | src/router/serve.rs:179-190 | Beside a bound dual-stack IPv6 wildcard no IPv4 address is bound on its port |
| `EventDiff.SortedDifference` | src/admin/query/feds.rs:238-271 | The two-cursor walk counts exactly the two set differences, and answers "same" if and only if the lists are equal |

## Left out

- UTF-8 validation, JSON and CBOR payloads: text is any byte sequence without the separator byte.
- The `Ignore`, `IgnoreAll` and `Separator` markers of the record format, and nested sequences, which it does not support.
- Decoding integer lists, which the reader does not support; only their layout is stated.
- RocksDB itself: the batch header is twelve opaque bytes, and the record encoding is a specification written from its tag table.
- Map ownership checks, and serializing keys and values before they are queued.
- WriteBatch.Txn.Queue: requires what the 32-bit fields of the format can carry, because larger keys are refused by the engine.
- Event authorization, visibility, room summaries and federation: parameters of the models.
- The remaining checks of a send (reactions, call invites, threads, suspended users): one refusing step that may be taken at any time before the commit.
- What the effects behind a commit do: whether they succeed is a property of each call.
- How the server notice endpoint sends: its storing of an event id under a key is one step that may be taken at any time.
- Attachment declarations and the legacy notice after a send.
- How room device versions are computed and cached; a version is any number, changed by member events under the lock and device changes outside it.
- Parsing the text of timeline tokens, lazy loading and aggregation in message pages.
- Changes of the room graph or the timeline between two pages: both paging theorems are about data that stays as it is.
- Listeners.ConfiguredAddressesAnswered: takes for granted that the system assigns non-zero ports and that passed listeners have one.
- Unix sockets and passed file descriptors.
- Weak memory order, lock poisoning and real time: each atomic operation and each locked section is one step, and a timeout may expire at any step.
- Resetting the stop flag after a hot reload, and the reload flag after a rejected reload, which the code leaves set.
- Full command line semantics: arguments beyond the restore flag; a failing check of a reloaded configuration is a reload that does not happen.
- Restore.UpdatedExact: keys are literal paths; an override of a dotted path does not show under the table it belongs to.
- The console switch of the command line.
- Admin commands, HTML pages, the OIDC provider, media, presence, push and other services.
