# x9p in Dafny

x9p is a C++ implementation of the 9P2000 file protocol (Plan 9 Programmer's
Manual, section 5): a client, a server, an in-memory filesystem, a filesystem
built over an API of nodes, and a library of length-prefixed strings. This
project models these parts and proves what they keep over whole runs. Check it
with `dafny verify dfyconfig.toml`.

Each part has a specification made of datatypes and functions, lemmas about it,
and, where the source updates objects or buffers in place, a class or a method
over arrays whose contract says that it computes exactly that specification.

| file | what it is about |
|---|---|
| `X9PProtocol.dfy` | message vocabulary, sizes, open-mode bits, packed strings |
| `X9PClient.dfy` | the client object: request queue, outstanding tags, fid table |
| `Session.dfy`, `SessionTags.dfy`, `SessionFids.dfy`, `SessionFlush.dfy`, `SessionLead.dfy`, `SessionVersion.dfy` | client, two channels and a server connection as a state machine; conservation of tags and callbacks; agreement of the two fid tables, and the sends that break it; sessions that reach the failing cases |
| `ClientCalls.dfy` | messages carry the calls made, responses answer them, over whole sessions |
| `ResponseCallbacks.dfy` | how often the handlers of responses call back |
| `Framing.dfy` | cutting messages out of a byte stream in the receive buffer |
| `XIO.dfy`, `XFile.dfy` | the counters of outstanding operations and the loop that waits on them |
| `DirectoryRead.dfy`, `FileStat.dfy` | a directory read as a resumable stream of stat records, and those records' bytes |
| `VirtualFile.dfy` | byte contents of an in-memory file |
| `VirtualFs.dfy`, `VirtualFsTree.dfy`, `VirtualFsWalk.dfy`, `VirtualFsEffects.dfy`, `VirtualFsListing.dfy`, `VirtualFsRuns.dfy`, `VirtualFsVersions.dfy`, `XVirtualFileSystem.dfy` | the in-memory filesystem as a state machine, and as objects on the heap |
| `XApiFileSystem.dfy`, `XApiAnswers.dfy`, `XApiRuns.dfy`, `XApiQuiet.dfy` | the API filesystem: per-user handle tables over nodes all users share, what the nodes are asked and the user told, runs of requests by all of them, and when they cannot notice each other |
| `Server.dfy`, `ServerAnswers.dfy`, `ServerRuns.dfy`, `ServerHandles.dfy`, `ServerWalks.dfy`, `ServerListing.dfy`, `X9PServer.dfy` | the server's dispatch over the in-memory filesystem, as a state machine, what each message is answered with, over whole runs, and as objects |
| `Composition.dfy` | a client and the real server, other clients included, as one machine |
| `XStringNumbers.dfy`, `XStringWalk.dfy`, `XStringHash.dfy`, `WalkMessage.dfy` | number conversion, path splitting, hashing, and the bytes of a Twalk from the path typed to the names looked up |
| `PathToObject.dfy` | from the path typed to the object reached |

The state machines compose. `Composition.RunIsSession` shows every run of a
client with the server, whatever other clients do meanwhile, to be a run of the
session, so tags and fids are as the session has them
(`Composition.TagsAtServer`, `Composition.FidsAtServer`). `ServerRuns.LogIsRun`
shows every run of the server to be a run of the filesystem whose modes the
server has masked. `Session.FlushRefines` ties the client object's flush to the
session's; `XIO` runs on top of the session; and `FileStat.ListingIsTheChildren`
puts the directory loop and the record layout together. What passes between the
parts is said in the messages' own terms: `ClientCalls.AnsweredAsCalled` that a
callback is handed what the server gave to its own call, `ServerAnswers.dfy` what
the server gives to each, `XApiAnswers.dfy` what the nodes are asked and answer.

Files, directories, handles and callbacks have no addresses here. A pointer that
the source uses as an identity (the qid path, a callback, a handle object) is the
position of the object in the order of allocation. The iteration order of an
unordered map, the result of a send or a receive, what an API node answers, and
the floating-point estimate of a digit count are parameters.

## Where the code does something else than it seems to

* A response whose tag is not outstanding would insert an entry and erase tag 0
  (`src/X9PClient.cpp:177-201`; `SessionVersion.UnknownTag`). The tag invariant
  shows it never happens in a session (`SessionTags.ResponseFindsRequest`).
* A send that fails keeps its message while later ones go out
  (`src/X9PClient.cpp:219-249`). The order of requests survives a flush if and
  only if the failures are a suffix (`SessionFids.FlushOrder`), and in the states
  sessions reach that is also exactly when the fid tables stay in agreement
  (`SessionFlush.AgreementNeedsSuffix`). Otherwise a fid reused after a clunk can
  be refused; `SessionFlush.ReuseRefused` is a session in which it is.
* A second Tversion while one is under way shares its tag; queueing it is the one
  call that breaks the tag invariant (`SessionTags.VersionAlone`). In
  `SessionVersion.SecondVersionLost` its answer finds no entry, inserts a null one
  that stays, and its callback never runs.
* The handler of Rread goes on after a response too small for its own header and
  calls back twice (`src/X9PClient.cpp:826-831`). That is the only way a callback
  is called twice (`ResponseCallbacks.CalledOnce`); the server modelled here never
  gives occasion for it (`ResponseCallbacks.ServerCallsOnce`), another may
  (`ResponseCallbacks.CalledTwice`).
* A walk message of exactly the maximal size passes the size check of Twalk and
  fails the assertion of `QueueRequest` (`src/X9PClient.cpp:366`), which wants it
  smaller; and XFile::Walk asserts fewer than 16 names (`src/XIO.cpp:46`) where
  Twalk admits 16. `WalkMessage.SendWalk` and `WalkMessage.PathToServer` report
  both as outcomes.
* `RecvResponse` takes a message longer than the bytes received for complete
  (`src/X9PClient.cpp:317-328`). `Framing.RightIffInTime` says exactly for which
  cuttings of the stream that matters, `Framing.TornMessage` shows one. The offset
  left behind when it blocks right after moving the rest to the front is harmless,
  because the next call starts below a header's length again; the invariant of
  `Framing.Receiver` covers it.
* Renaming the root adds the root under itself
  (`src/XVirtualFileSystem.cpp:746-791`): `VirtualFsTree.RenameRootCycle`. It is
  the only request that breaks the invariant (`VirtualFsTree.StepKeepsInv`).
* `RemoveChild` destroys an entry other handles may still point to.
  `VirtualFsTree.StaleIsErased` says exactly when a handle goes stale.
* The search for a free handle id could not end once entered
  (`src/XBaseFileSystem.h:53-57`); the invariant keeps it from being entered.
* `curmode & MASK == X` compares before it masks, so only the "not opened" bit of
  a handle is enforced; the model does the same
  (`VirtualFsRuns.OnlyNotOpenedCounts`; over runs `ServerRuns.InForce`).
* A walk none of whose names resolves gets no error, as walk(5) has it, but an
  answer of no qids: the source is compiled with `X9P_V9FS_COMPAT`
  (`src/X9PProtocol.h:7`). An error comes if and only if there are too many names,
  no known handle to start from, or a handle to go to that is in use
  (`VirtualFsWalk.UnresolvableWalk`, `XApiRuns.UnresolvableWalk`; for a client of
  the server `ServerWalks.UnresolvableTwalk`). The handle walked to stands where
  the walk began; walking in place takes away the open in force and nothing else.
  `ServerWalks.WalkToNowhere` is a run in which it does.
* The size field of a stat counts all of the record, where the comment beside it
  (`src/X9PProtocol.h:222`) and stat(5) leave out the field itself, and it is cut
  to 16 bits (`FileStat.DeclaredSize`, `FileStat.StreamRoundTrip`).
* Attaching with a fid in use leaves a handle object nobody can name
  (`src/X9PServer.cpp:200-204`), and nothing else does: over every run the objects
  no fid is bound to are exactly those such attaches made
  (`ServerHandles.OrphansAreReattached`), and every object can be named if and
  only if there was no such attach (`ServerHandles.AllBoundOverRuns`). They keep
  their place in the handle table (`ServerHandles.LeftForGood`);
  `ServerHandles.AttachedTwice` is a run.
* A remove on the API filesystem reports an error always
  (`XApiRuns.RemoveReportsError`). Users who share nodes
  notice each other through them, though they have handle tables of their own:
  `XApiRuns.RemovalIsNoticed` is a run in which one user's clunk changes the answer
  to another's walk. `XApiQuiet.NoticedIfHarmful` says which requests can be
  noticed on some nodes, `XApiQuiet.ApartWhenSparing` when none is on the nodes
  there are.
* In radix 1 only positive numbers survive printing and parsing
  (`XStringNumbers.TallyRoundTrip`).

## Model

| member | source | states |
|---|---|---|
| `ClientProtocol.TagAvailable` | src/X9PClient.cpp:383-395 | the tag search ends at an unused tag no larger than the number of tags in use, so never at NOTAG with fewer than 65535 in use |
| `ClientProtocol.LeastFreeIsLeast` | src/X9PClient.cpp:383-395 | every smaller candidate is in use |
| `ClientProtocol.FidAvailable` | src/X9PClient.cpp:397-407 | the fid search ends at a fresh fid at most twice the table size |
| `ClientProtocol.X9PClient.FindTag` | src/X9PClient.cpp:375-395 | the search loop over queue and table returns the least free tag and changes neither |
| `ClientProtocol.X9PClient.AllocateFid` | src/X9PClient.cpp:397-407 | returns a fresh fid and enters exactly it |
| `ClientProtocol.X9PClient.Tversion` | src/X9PClient.cpp:437-458 | queues one NOTAG request, whatever is under way already, or reports an error at once when it exceeds the message size, leaving the client as it was |
| `ClientProtocol.X9PClient.Tattach` | src/X9PClient.cpp:461-489 | queues one request under a fresh tag, giving the handle a fresh fid only if it had none; on rejection nothing changes |
| `ClientProtocol.X9PClient.Twalk` | src/X9PClient.cpp:491-550 | the same, with the source's order of checks: unset handle, more than 16 names, size |
| `ClientProtocol.X9PClient.SendFid` | src/X9PClient.cpp:552-667 | one request under a fresh tag; clunk and remove drop their fid at once; only a write can be too large |
| `ClientProtocol.X9PClient.FlushRequests` | src/X9PClient.cpp:219-249 | for any pattern of send failures: what failed stays queued in order, what was sent is on the wire in order with its table entry made |
| `ClientProtocol.X9PClient.BeginDispatch` | src/X9PClient.cpp:177-180 | the lookup that inserts a default entry for an unknown tag |
| `ClientProtocol.X9PClient.EndDispatch` | src/X9PClient.cpp:201-201 | the entry's own tag leaves the table |
| `ClientCalls.ComposedCarries` | src/X9PClient.cpp:437-667 | the message a call becomes carries the call: the names of a walk in order, user and tree of an attach, size and version of a version request, the others as they are; a fid the client picks is one it had not in use |
| `ClientCalls.RejectedIff` | src/X9PClient.cpp:437-667 | a call becomes no message if and only if it is too large in bytes, walks from an unset handle, or by more than 16 names |
| `ClientCalls.WireSizes` | src/X9PClient.cpp:437-667 | the sizes compared are the bytes of the fields and strings of each message |
| `ClientCalls.WireTypes` | src/X9PProtocol.h:168-186 | the type codes of 9P2000, and that a callback of one kind is handed exactly the responses of its kind, or an error |
| `ClientCalls.SentAsCalled` | src/X9PClient.cpp:147-249 | over every session: each message queued or on its way to the server carries the call its callback was given to |
| `ClientCalls.AnsweredAsCalled` | src/X9PClient.cpp:147-249 | over every session: each response a callback runs with was given by the server to a request carrying that callback's call |
| `Session.FlushRefines` | src/X9PClient.cpp:219-249 | the client's flush is the session's: same client afterwards, and its messages are what joined the uplink |
| `SessionTags.TagConservation` | src/X9PClient.cpp:147-249 | in every reachable state, however sends fail on either side: the outstanding tags are exactly those in flight, each once, none of them queued; message kinds match their entries; callbacks are conserved |
| `SessionTags.StepInv` | src/X9PClient.cpp:147-249 | every single step of client, channels and server keeps these |
| `SessionTags.VersionAlone` | src/X9PClient.cpp:437-458 | queueing a call keeps the tags conserved if and only if it is not a version request beside one under way |
| `SessionTags.ResponseFindsRequest` | src/X9PClient.cpp:177-201 | the oldest response finds an entry of its own tag, holding a callback of the response's kind; no entry is inserted by default |
| `SessionTags.CallbacksRunOnce` | src/X9PClient.cpp:180-201 | no callback is handed two responses, or a response after a rejection, and with nothing queued or outstanding each has been handed exactly one |
| `ResponseCallbacks.Rread` | src/X9PClient.cpp:812-832 | the calls made for what is in the receive buffer: two exactly for a response that is no error and declares less than its header, and data only from within the declared size |
| `ResponseCallbacks.CalledOnce` | src/X9PClient.cpp:718-922 | in every run, whatever sizes responses arrive with: a callback is called once for each response or rejection, and once more for an Rread shorter than its header; so none is called twice if and only if none such is delivered |
| `ResponseCallbacks.ServerCallsOnce` | src/X9PServer.cpp:363-384 | with responses of the sizes the server gives them no callback is called twice |
| `ResponseCallbacks.CalledTwice` | src/X9PClient.cpp:826-831 | a session in which one is |
| `SessionVersion.UnknownTag` | src/X9PClient.cpp:177-201 | what a response with a tag that is not outstanding would do: a null entry under its tag, the entry of tag 0 gone, no callback run |
| `SessionVersion.SecondVersionLost` | src/X9PClient.cpp:177-249 | a session in which a second version request is queued beside the first: tags are conserved no longer, the second answer inserts a null entry, and the second callback never runs |
| `SessionTags.DeliverInv` | src/X9PClient.cpp:147-206 | dispatching one response, with the calls its callback makes before its tag is erased, keeps the invariant and runs exactly that callback |
| `SessionFids.IssueAgrees` | src/X9PClient.cpp:461-667 | queueing a call keeps the fid tables in agreement if and only if the call is balanced |
| `SessionFids.FlushOrder` | src/X9PClient.cpp:219-249 | a flush keeps the order of pending requests if and only if its failures form a suffix |
| `SessionFids.ServeAgrees` | src/X9PServer.cpp:188-301 | handling one request keeps agreement and reaches the verdict the client's table gave |
| `SessionFids.FidAgreement` | src/X9PServer.cpp:188-431 | in every orderly run the pending requests turn the server's fid table into the client's, and each verdict is the one foreseen when the request was made |
| `SessionFids.LiveCallsAccepted` | src/X9PClient.cpp:461-667 | calls through live fids, walking in place or to a fid the client picks, are balanced and accepted |
| `SessionFids.NeverRefused` | src/X9PServer.cpp:188-431 | in orderly runs the server has refused no fid, neither as unknown nor as in use, if and only if the client's own table accepted those requests when they were made |
| `SessionFids.HeldBackClunk` | src/X9PClient.cpp:224-247 | a clunk held back while the walk reusing its fid goes out is met with "fid in use" |
| `SessionFlush.AgreementNeedsSuffix` | src/X9PClient.cpp:219-249 | a pattern of send failures keeps the fid tables in agreement, in every state an orderly session reaches, if and only if it is a suffix of the queue, or longer than any queue can be |
| `SessionFlush.ReuseRefused` | src/X9PClient.cpp:219-249 | a session, all its calls accepted by the client's own table, at whose end the server refuses a fid after one flush whose failure is no suffix |
| `SessionFlush.QueueFills` | src/X9PClient.cpp:354-395 | a session can have any number of requests queued up to the number of tags, with a clunk and the walk that reuses its fid at any two places |
| `SessionFlush.FlushSplits` | src/X9PClient.cpp:219-249 | what a flush sends and keeps, each in order |
| `SessionFids.CallbackOrder` | src/X9PClient.cpp:147-249 | callbacks run in the order their requests went out while the server's flushes fail only from some response on |
| `Framing.Receiver.RecvResponse` | src/X9PClient.cpp:251-331 | the in-place buffer does what the stream function says: same outcome, message, and remaining bytes at offset and size |
| `Framing.Receiver.Pull` | src/X9PClient.cpp:251-299 | moving the rest to the front and receiving behind it leaves the pending bytes followed by those received |
| `Framing.Receiver.Cut` | src/X9PClient.cpp:305-331 | the message is cut off the front, the rest stays in place |
| `Framing.HandsOverWholeMessage` | src/X9PClient.cpp:305-331 | with the front of a message present, exactly that message is handed over if and only if all of it has arrived |
| `Framing.OutcomeMeans` | src/X9PClient.cpp:251-331 | which outcome a receive has when, in terms of the first four bytes and the bytes there are |
| `Framing.MessagesInOrder` | src/X9PClient.cpp:251-331 | when each receive delivers whole messages, however many at a time, the calls hand over exactly those sent, in order, once each |
| `Framing.RightIffInTime` | src/X9PClient.cpp:251-331 | for every cutting of the stream into receives: the messages come out right if and only if each had arrived whole when its turn came |
| `Framing.TornMessage` | src/X9PClient.cpp:317-328 | eight bytes of a nine-byte message are taken for all of it |
| `XIO.OutstandingIsUnreturned` | src/XIO.cpp:24-147 | in every run, between operations, a file's counter is the number of its operations whose callback has not run, whether callbacks run inside the call or on a later dispatch, and whatever they call in turn |
| `XIO.AwaitEnds` | src/XIO.cpp:164-169 | the counter is never negative, and the loop of Await stops exactly when all the file's operations have been called back |
| `XIO.AwaitCanEnd` | src/XIO.cpp:164-169 | from every reachable state the network can go on, with no further operations, to a state where every counter is zero |
| `XIO.DeliveryIsStep` | src/X9PClient.cpp:147-206 | a delivery with everything user code does in it is a delivery of the session |
| `XIO.Issues` | src/XIO.cpp:24-147 | what nested operations do to the connection is issue their calls in order |
| `XFileModel.XFiles.Operation` | src/XIO.cpp:74-117 | one operation raises the file's counter by one, or leaves it when the request is rejected and calls back first |
| `XFileModel.XFiles.Dispatch` | src/X9PClient.cpp:177-201 | one response lowers the counter of the file its callback captured; then the callback's own operations, then the tag is erased |
| `XFileModel.XFiles.ProcessPackets` | src/X9PClient.cpp:147-206 | one flush, then all responses received, in order, until a receive would block or fails |
| `XFileModel.XFiles.Await` | src/XIO.cpp:164-169 | stops after the first pass that leaves the file nothing outstanding, and not before |
| `XFileModel.OperationsAreEvents` | src/XIO.cpp:74-117 | the object's operations are the enter and leave events of the run model |
| `XFileModel.DispatchIsDelivery` | src/X9PClient.cpp:177-201 | the object's dispatch, with all its callback does, is the delivery of the run model |
| `XFileModel.PassIsRun` | src/X9PClient.cpp:147-206 | a pass of the object over the responses that have arrived is a run of the model, one flush and the deliveries in order, so what holds over the model's runs holds of the object's counters |
| `DirectoryRead.Tread` | src/XApiFileSystem.cpp:488-580 | the seek, size and write passes: the assertion holds exactly at record boundaries, and the reply is then the greedy run of whole records, in a buffer filled exactly |
| `DirectoryRead.Seek` | src/XApiFileSystem.cpp:495-516 | stops at the record the offset falls in, counting only children that could be got |
| `DirectoryRead.Measure` | src/XApiFileSystem.cpp:525-540 | adds records while the total stays within the count |
| `DirectoryRead.Fill` | src/XApiFileSystem.cpp:543-571 | writes exactly the records measured, to the last byte |
| `DirectoryRead.TreadOne` | src/XVirtualFileSystem.cpp:560-592 | the one-entry loop: same boundary condition, one whole record |
| `DirectoryRead.BoundaryAfter` | src/XApiFileSystem.cpp:488-580 | continuing where a read ended is again at a boundary, at the next record |
| `DirectoryRead.ReadsFollowTheStream` | src/XApiFileSystem.cpp:488-580 | any sequence of counts from any boundary returns, unsplit and in order, the records between it and the boundary reached, at least one per read until the end |
| `DirectoryRead.WholeDirectory` | src/XApiFileSystem.cpp:488-580 | from offset 0, as many reads as children return every record once and in order, then nothing |
| `DirectoryRead.BatchStartsWithOne` | src/XApiFileSystem.cpp:526-571 | a batch starts with what the one-entry loop returns, exceeds the count only by that entry alone, and stops only where the next would not fit |
| `DirectoryRead.SameStream` | src/XVirtualFileSystem.cpp:560-592 | iterating either loop gives the same bytes |
| `FileStat.FsApiStat` | src/XApiFileSystem.cpp:18-57 | without a buffer the size of the record; with one, exactly those bytes written in place, each name where the accessors find it, nothing before or behind touched |
| `FileStat.StatRoundTrip` | src/X9PProtocol.h:220-243 | a record read through the accessors of stat_t is the stat written |
| `FileStat.DeclaredSize` | src/XApiFileSystem.cpp:32-38 | the size field is the whole record's length modulo 65536, equal to the length if and only if that fits 16 bits |
| `FileStat.RecordLayout` | src/XApiFileSystem.cpp:32-54 | where a record has its kind, its mode (permission bits 0x1FF and the type on top), its unused bytes, and name, owner, group and last modifier, in this order |
| `FileStat.StreamRoundTrip` | src/XApiFileSystem.cpp:18-57 | a stream cut by size fields yields the stats written if and only if every record fits its size field |
| `FileStat.LongName` | src/XApiFileSystem.cpp:32-38 | a stat with the longest name an xstr can hold is one that does not |
| `FileStat.ListingIsTheChildren` | src/XApiFileSystem.cpp:488-580 | reading a whole directory with any counts and cutting the bytes by size fields gives the children's stats, all and in order, under the same condition |
| `VirtualFile.XVFSFile.Read` | src/XVirtualFileSystem.cpp:106-126 | the size offered is min(offset + count, length) - offset, nothing past the end, and a copy yields exactly that slice |
| `VirtualFile.XVFSFile.Write` | src/XVirtualFileSystem.cpp:128-153 | an announced write changes nothing; a committed one overlays the data on the zero-extended content and bumps the version modulo 2^32 |
| `VirtualFile.ContentIsLastWritten` | src/XVirtualFileSystem.cpp:128-153 | after any writes each byte is the last one written at its position, or zero, and the length is the farthest end |
| `VirtualFile.ReadBack` | src/XVirtualFileSystem.cpp:106-153 | what was written is read back |
| `VirtualFile.WriteInPieces` | src/XVirtualFileSystem.cpp:128-153 | consecutive pieces of a write leave the same file as the whole |
| `VirtualFile.ReadInPieces` | src/XVirtualFileSystem.cpp:106-126 | consecutive reads return the same bytes as one |
| `VirtualFile.WhatIsRead` | src/XVirtualFileSystem.cpp:106-126 | for every content, offset and count: the bytes read number min(count, size - offset), none from the end on, and each is the content's at its place |
| `VirtualFile.WholeFile` | src/XVirtualFileSystem.cpp:106-126 | reads with positive counts, each going on where the last one ended, as many as there are bytes left, give exactly the rest of the content, and from the end on every read is empty |
| `VirtualFile.DisjointWritesCommute` | src/XVirtualFileSystem.cpp:128-153 | writes to disjoint ranges commute |
| `XVirtualFileSystemModel.XVFSDirectory.AddChild` | src/XVirtualFileSystem.cpp:169-188 | adds exactly one name, or changes nothing if it is taken |
| `XVirtualFileSystemModel.XVFSDirectory.RemoveChild` | src/XVirtualFileSystem.cpp:189-201 | removes exactly that name, or changes nothing if it is absent |
| `XVirtualFileSystemModel.XVFSDirectory.FindChild` | src/XVirtualFileSystem.cpp:202-226 | the entry under a name, if any |
| `XVirtualFileSystemModel.XVirtualFileSystem.Tattach` | src/XVirtualFileSystem.cpp:290-303 | the objects on the heap change as the state machine says; the handle gets the next id, at the root |
| `XVirtualFileSystemModel.XVirtualFileSystem.Twalk` | src/XVirtualFileSystem.cpp:305-430 | the same for a walk, in place or to a new handle, in all error cases |
| `XVirtualFileSystemModel.XVirtualFileSystem.Topen` | src/XVirtualFileSystem.cpp:434-470 | the same for open |
| `XVirtualFileSystemModel.XVirtualFileSystem.Tcreate` | src/XVirtualFileSystem.cpp:473-538 | the same for create: one new object under one new name, the handle moved to it |
| `XVirtualFileSystemModel.XVirtualFileSystem.Tread` | src/XVirtualFileSystem.cpp:540-611 | the same for read of files and directories |
| `XVirtualFileSystemModel.XVirtualFileSystem.Twrite` | src/XVirtualFileSystem.cpp:614-661 | the same for write, probe and commit |
| `XVirtualFileSystemModel.XVirtualFileSystem.Tremove` | src/XVirtualFileSystem.cpp:664-692 | the same for remove |
| `XVirtualFileSystemModel.XVirtualFileSystem.Twstat` | src/XVirtualFileSystem.cpp:746-791 | the same for a rename |
| `XVirtualFileSystemModel.XVirtualFileSystem.Tclunk` | src/XVirtualFileSystem.cpp:820-840 | the same for clunk, removing on close |
| `XVirtualFileSystemModel.XVirtualFileSystem.TagHND` | src/XBaseFileSystem.h:48-69 | the handle takes the counter as id, the counter moves past it |
| `VirtualFsTree.StepKeepsInv` | src/XVirtualFileSystem.cpp:290-840 | a request keeps the tree, the entries' names and parents, one entry per object, and the counter above every handle id, if and only if it does not rename the root |
| `VirtualFsTree.RenameRootCycle` | src/XVirtualFileSystem.cpp:756-787 | renaming the root puts the root under itself |
| `VirtualFsTree.StaleIsErased` | src/XVirtualFileSystem.cpp:189-201 | an entry stays live through a request if and only if the request does not erase that very entry; it never comes back |
| `VirtualFsEffects.CreateThenRemove` | src/XVirtualFileSystem.cpp:473-692 | removing what was created restores every name |
| `VirtualFsEffects.CreatedIsFound` | src/XVirtualFileSystem.cpp:347-538 | walking to a created name finds the object and the qid the create reported |
| `VirtualFsEffects.RenamedIsFound` | src/XVirtualFileSystem.cpp:746-791 | after a rename the new name leads to the same object and qid path, the old one nowhere |
| `VirtualFsEffects.WrittenIsRead` | src/XVirtualFileSystem.cpp:593-661 | what one handle wrote, any readable handle on the same file reads |
| `VirtualFsWalk.WalkIsLongestPrefix` | src/XVirtualFileSystem.cpp:347-400 | a walk follows a path in the tree, one qid per entry passed, and stops only where the next name has no entry |
| `VirtualFsWalk.WalkConcat` | src/XVirtualFileSystem.cpp:347-400 | a walk of two lists is the first, then the second only if the first resolved |
| `VirtualFsWalk.WalkTwice` | src/XVirtualFileSystem.cpp:305-430 | two Twalk requests, the second in place, leave the state and give the qids of one |
| `VirtualFsWalk.UnresolvableWalk` | src/XVirtualFileSystem.cpp:305-430 | when a walk is answered with an error, and what one does that resolves nothing: never an error, the handle walked to at the same place and not open, all else as it was |
| `VirtualFsWalk.UniquePath` | src/XVirtualFileSystem.cpp:169-201 | an object has at most one path from the root |
| `VirtualFsWalk.PathsGoDown` | src/XVirtualFileSystem.cpp:169-201 | there are no cycles |
| `VirtualFsRuns.RunKeepsInv` | src/XVirtualFileSystem.cpp:290-840 | the whole invariant over every run |
| `VirtualFsRuns.RunContent` | src/XVirtualFileSystem.cpp:614-661 | over every run a file's content is its first content overlaid with exactly the writes through handles on it |
| `VirtualFsRuns.RunLastByte` | src/XVirtualFileSystem.cpp:614-661 | so each byte is the last one written there, or zero |
| `VirtualFsRuns.OnlyNotOpenedCounts` | src/XVirtualFileSystem.cpp:551-551 | of an open's mode only the not-opened bit is enforced |
| `VirtualFsVersions.RunVersion` | src/XVirtualFileSystem.cpp:128-201 | over every run the version of a file or directory is what it was plus the number of its changes (a write carried out, a name added, a name taken out), modulo 2^32, and an object not changed is as it was |
| `VirtualFsVersions.VersionTells` | src/XVirtualFileSystem.cpp:128-201 | so a version met again fewer than 2^32 changes later means that nothing has changed |
| `VirtualFsListing.EveryChildIsRead` | src/XVirtualFileSystem.cpp:560-592 | in whatever order the children are enumerated, reads continuing where the last ended return each child's stat exactly once, from offsets the assertion accepts, and then nothing |
| `XApiFileSystemModel.XApiFileSystem.TagHnd` | src/XApiFileSystem.cpp:125-150 | the search loop runs once; the user's next serial becomes the id |
| `XApiFileSystemModel.XApiFileSystem.GetHnd` | src/XApiFileSystem.cpp:104-123 | an id resolves in the asking user's table only |
| `XApiFileSystemModel.XApiFileSystem.Tattach` | src/XApiFileSystem.cpp:193-224 | makes the user's table on first use and a handle at the root, or refuses a handle that has an id |
| `XApiFileSystemModel.XApiFileSystem.Twalk` | src/XApiFileSystem.cpp:227-349 | answers as the pure walk does in all cases; other users' tables stay as they are |
| `XApiFileSystemModel.XApiFileSystem.Topen` | src/XApiFileSystem.cpp:353-408 | the checks in the source's order, then the hook, which can refuse and act on the nodes, then the node's own open |
| `XApiFileSystemModel.XApiFileSystem.Tcreate` | src/XApiFileSystem.cpp:412-464 | creates through the directory, moves the handle to what was made and opens |
| `XApiFileSystemModel.XApiFileSystem.Twrite` | src/XApiFileSystem.cpp:608-645 | reaches the node only through an open handle on a file |
| `XApiFileSystemModel.XApiFileSystem.Tclunk` | src/XApiFileSystem.cpp:711-740 | tells the node, removes through the directory on close, drops the handle and forgets its id |
| `XApiFileSystemModel.XApiFileSystem.Disconnect` | src/XApiFileSystem.cpp:176-189 | the user's handles go, nodes and other users' handles stay |
| `XApiFileSystemModel.XApiFileSystem.Tremove` | src/XApiFileSystem.cpp:649-680 | removes through the directory if that permits writing, drops the handle, reports an error always |
| `XApiRuns.WalkInTwo` | src/XApiFileSystem.cpp:270-315 | a walk of two lists is the first, then the second only if the first resolved, whatever the nodes answer |
| `XApiRuns.UnresolvableWalk` | src/XApiFileSystem.cpp:227-349 | when a walk is answered with an error; never for a name that leads nowhere |
| `XApiAnswers.WalkGoesOn` | src/XApiFileSystem.cpp:262-315 | a walk is a sequence of places from the handle's, each step through a directory: "." stays, any other name is looked up in the place reached, one qid for each place entered; it stops only at a node that is no directory or has no such child |
| `XApiAnswers.NestedWalk` | src/XApiFileSystem.cpp:262-315 | on a root with a directory holding a file the walk of both names gives both qids, and the file's name at the root none |
| `XApiAnswers.NodesAreAsked` | src/XApiFileSystem.cpp:193-740 | what each request does to the nodes: which node is told what, with the offset, data, name and mode of the request, in which order |
| `XApiAnswers.UserIsTold` | src/XApiFileSystem.cpp:193-740 | and what its user is told of it |
| `XApiAnswers.HandlesStand` | src/XApiFileSystem.cpp:193-349 | where handles stand after an attach or a walk, with the others left as they are |
| `XApiRuns.SerialsStayAbove` | src/XApiFileSystem.cpp:125-150 | over every run each user's ids stay below that user's serial |
| `XApiRuns.OpenOnce` | src/XApiFileSystem.cpp:353-480 | over every run: while an open is in force on a handle a second is refused and reads reach the node, and only an attach or a walk onto it ends that; without one reads and writes are refused |
| `XApiRuns.IdsAreApart` | src/XApiFileSystem.cpp:104-168 | over every run and for all nodes, however they change: the ids a user is given, and the refusals for the handles named, are those the user would have met alone |
| `XApiRuns.UsersAreApart` | src/XApiFileSystem.cpp:104-740 | users notice each other through the nodes only: over every run a user is answered as if alone whenever the nodes say the same in the course of the user's own requests |
| `XApiRuns.RemoveReportsError` | src/XApiFileSystem.cpp:649-680 | a remove is answered with an error always, even where it has removed the node |
| `XApiQuiet.NoticedIfHarmful` | src/XApiFileSystem.cpp:193-740 | a request can go unnoticed by all other users, on all nodes in every state, if and only if it is an attach, a walk, or refused by the handle table, the open in force or for being the root |
| `XApiQuiet.ApartWhenQuiet` | src/XApiFileSystem.cpp:193-740 | over every run in which the others leave the nodes alone a user is answered, and the nodes fare, as if the others had never asked for anything |
| `XApiQuiet.ApartWhenSparing` | src/XApiFileSystem.cpp:193-740 | they do if each of their requests is such a one, is refused for permission or for the kind of node, or is a clunk or remove without effect |
| `XApiRuns.RemovalIsNoticed` | src/XApiFileSystem.cpp:711-740 | they need not: one user's removing clunk changes the answer to another's walk |
| `Server.DispatchKeepsInv` | src/X9PServer.cpp:89-496 | every request of every connection keeps the tree and the one-to-one match of handle objects with handle-table keys, fids bound to distinct objects |
| `Server.RunKeepsInv` | src/X9PServer.cpp:69-496 | the same over every run of accepted connections, requests and flushes of all connections together |
| `Server.DispatchRefinesSession` | src/X9PServer.cpp:89-496 | each request gets exactly one response, with its tag and of its kind or an error; the fid table refuses and changes as the session says; other connections are untouched |
| `Server.DispatchIsServeStep` | src/X9PServer.cpp:89-496 | so a dispatch is a serve step of the session of its connection |
| `Server.BeginInv` | src/X9PServer.cpp:9-26 | a server that has just begun satisfies the invariant |
| `ServerHandles.OnlyReattachOrphans` | src/X9PServer.cpp:200-204 | with every handle object bound to a fid a request leaves every one bound if and only if it is no attach with a fid in use |
| `ServerHandles.OrphansAreReattached` | src/X9PServer.cpp:188-301 | over every run of the server the handle objects no client can name are exactly those made by attaches with a fid in use, one each |
| `ServerHandles.AllBoundOverRuns` | src/X9PServer.cpp:188-301 | so every object can be named if and only if nobody ever attached with a fid in use |
| `ServerHandles.LeftForGood` | src/X9PServer.cpp:188-301 | and one left behind keeps its entry in the filesystem's handle table for the rest of the run |
| `ServerHandles.AttachedTwice` | src/X9PServer.cpp:200-204 | a run of two attaches that leaves one behind |
| `ServerWalks.UnresolvableTwalk` | src/X9PServer.cpp:248-301 | a Twalk whose first name has no entry is answered with an error if and only if it has too many names, an unknown fid or a new fid in use; otherwise the new fid stands where the fid did, not open, and nothing else changes |
| `ServerWalks.WalkToNowhere` | src/XVirtualFileSystem.cpp:402-430 | a run in which an open fid walked in place to a missing name gets no error and is open no longer |
| `ServerListing.EveryChildIsListed` | src/X9PServer.cpp:363-384 | over every run of the server: reading on through a fid at a directory that stays as it is, with any other requests between, as many Treads as it has children collect the stat of each exactly once |
| `ServerListing.CollectedSoFar` | src/X9PServer.cpp:363-384 | after m Treads a client has the first m records, or all of them |
| `Composition.RunIsSession` | src/X9PServer.cpp:89-496 | every run of a client with this server, other connections included, is a run of the session, orderly if the client is |
| `Composition.TagsAtServer` | src/X9PClient.cpp:147-249 | so tags, kinds and callbacks are conserved on the connection |
| `Composition.FidsAtServer` | src/X9PServer.cpp:188-431 | and what is pending turns the fids of the real connection into the client's |
| `Composition.FreshConnection` | src/X9PServer.cpp:69-84 | a connection just accepted, whatever the server's state, is one a session can start on |
| `Composition.FromAcceptance` | src/X9PServer.cpp:69-496 | so both hold of every connection from the moment it is accepted |
| `ServerRuns.LogIsRun` | src/X9PServer.cpp:302-361 | a run of the server is a run of the filesystem all of whose modes are masked |
| `ServerRuns.InForce` | src/X9PServer.cpp:302-361 | over every run of the server from its beginning: the handle behind a fid may be read and written if and only if an open through that fid, or the creation of a file, came after its attach or last walk; no mode a client sends sets the not-opened bit |
| `ServerRuns.ReadNeedsOpen` | src/X9PServer.cpp:363-384 | a Tread through a known fid is answered with data if and only if such an open is in force |
| `ServerRuns.WriteNeedsOpen` | src/X9PServer.cpp:385-403 | a Twrite to a file is carried out if and only if such an open is in force |
| `ServerRuns.ClunkRemoves` | src/X9PServer.cpp:223-247 | a Tclunk takes an entry away if and only if such an open carried the close bit and the entry is there |
| `ServerRuns.ContentIsWritten` | src/X9PServer.cpp:385-403 | over every run of the server, with any clients, a file's content is what it was overlaid with exactly the Twrites answered through fids standing at it |
| `ServerRuns.ByteIsLastWritten` | src/X9PServer.cpp:385-403 | so each byte of a file that was empty is the last one a client wrote there, or zero |
| `ServerAnswers.ReadsTheFile` | src/X9PServer.cpp:363-384 | over every run of the server: a Tread through a fid that stands at a file is answered, if an open through it is in force, with min(count, size - offset) bytes, none from the end on, each the byte of the file at its place; else with an error |
| `ServerAnswers.ReadsWhatWasWritten` | src/X9PServer.cpp:363-403 | so in a file that was empty a client reads, up to the end of the farthest write, byte by byte what clients last wrote there, or zero |
| `ServerAnswers.ReadAnswer` | src/X9PServer.cpp:363-384 | what one Tread of a file is answered with, and that nothing else changes |
| `ServerAnswers.WriteAnswer` | src/X9PServer.cpp:385-403 | a Twrite past the checks leaves its data at its offset, zeros in a gap before it, the rest as it was; it reports the number of bytes and changes no other object |
| `ServerAnswers.OpenAnswer` | src/X9PServer.cpp:302-325 | an open reports kind, version and number of the object the fid stands at and leaves the handle there with the mode masked |
| `ServerAnswers.CreateAnswer` | src/X9PServer.cpp:326-361 | a create is refused in a file, for a name that is taken and for "." and ".."; otherwise an empty object of the kind asked for stands under the name asked for in the directory of the fid, its qid is reported, and the fid stands at it |
| `ServerAnswers.RenameAnswer` | src/XVirtualFileSystem.cpp:746-791 | an empty name asks for nothing and a taken one is refused; otherwise the object goes from its old name to the new one in the same directory, and the fid with it |
| `ServerAnswers.ReleaseAnswer` | src/X9PServer.cpp:223-247 | a Tremove, or a Tclunk of a fid opened to be removed on close, takes the name out of its directory if it is there; other clunks change no directory; fid and handle go in all cases |
| `ServerAnswers.AttachAnswer` | src/X9PServer.cpp:188-217 | an attach reports the root; a fid that was free stands there, not open |
| `ServerAnswers.WalkAnswer` | src/X9PServer.cpp:248-301 | a Twalk past the checks is answered with the qids of the objects along the longest prefix of its names that resolves, in order, and the new fid stands at the last of them, not open |
| `ServerAnswers.VersionAnswer` | src/X9PServer.cpp:135-160 | the size answered to a Tversion is one of the two sides' and exceeds neither |
| `ServerAnswers.RefusalAnswer` | src/X9PServer.cpp:248-301 | which error the server answers by itself when several apply: too many names before an unknown fid before a new fid in use; nothing changes then |
| `ServerAnswers.NoHandleAnswer` | src/XVirtualFileSystem.cpp:290-840 | a request through a fid whose handle the filesystem has not is refused, and the filesystem stays as it is |
| `X9PServerModel.X9PServer.AcceptConnection` | src/X9PServer.cpp:69-84 | one more connection, without fids or responses; the invariant is kept |
| `X9PServerModel.X9PServer.FlushResponses` | src/X9PClient.cpp:336-361 | the responses the socket does not take stay queued, in order |
| `X9PServerModel.X9PServer.Process` | src/X9PServer.cpp:89-496 | the server's objects change as the dispatch says, and the whole invariant holds again |
| `X9PServerModel.X9PServer.GetXHND` | src/X9PServer.cpp:56-67 | the handle of a fid, or exactly one error response |
| `X9PServerModel.X9PServer.OnAttach` | src/X9PServer.cpp:188-217 | attach: a new handle object, bound only if the fid was free |
| `X9PServerModel.X9PServer.OnWalk` | src/X9PServer.cpp:248-301 | walk in place or to a new fid, with the source's order of refusals |
| `X9PServerModel.X9PServer.OnRelease` | src/X9PServer.cpp:223-247 | clunk and remove: fid and handle object go, whatever the filesystem answers |
| `X9PServerModel.X9PServer.OnOther` | src/X9PServer.cpp:302-403 | open, create, read, write: fid table untouched, modes masked, "." and ".." refused as names |
| `XStringNumbers.XstrToD` | src/xstring.cpp:352-428 | the parse loop accepts and returns exactly what the digits mean |
| `XStringNumbers.XstrFromD` | src/xstring.cpp:275-299 | length field, sign and digits, in a buffer of exactly that size |
| `XStringNumbers.XstrNFromD` | src/xstring.cpp:302-348 | whatever the buffer, the size an ample one needs; the buffer holds what fits and is untouched behind it |
| `XStringNumbers.WhatIsWritten` | src/xstring.cpp:302-348 | what the buffer holds afterwards: the length of the text or of the room there is, the sign, and as many of the low digits as fit behind it; all else is as it was |
| `XStringNumbers.DigitsParse` | src/xstring.cpp:252-273 | k digits of n parse to n modulo the k-th power of the radix |
| `XStringNumbers.RoundTrip` | src/xstring.cpp:237-299 | for every radix from 2 to 36, every int but the most negative and every sufficient digit count, parsing the printed number gives it back |
| `XStringNumbers.PrintedFits` | src/xstring.cpp:376-428 | no step of that parse leaves 32 bits, however many digits were printed |
| `XStringNumbers.AcceptedIff` | src/xstring.cpp:352-428 | a string is a number if and only if it has digits, each below the radix, in either case, behind an optional sign |
| `XStringNumbers.DigitsAreThese` | src/xstring.cpp:376-428 | a character has the value of the digit it is, in either case, in radixes above that value, and none otherwise |
| `XStringNumbers.PaletteIsDigits` | src/xstring.cpp:252-273 | each digit printed is the character of its value, letters in upper case |
| `XStringNumbers.TruncatedValue` | src/xstring.cpp:302-348 | a string cut short keeps the sign and the magnitude modulo the power that fits |
| `XStringNumbers.TallyRoundTrip` | src/xstring.cpp:368-375 | in radix 1 the round trip holds if and only if the number is positive |
| `XStringNumbers.ParseIgnoresCase` | src/xstring.cpp:376-428 | lower-casing any string leaves its value, or its rejection, unchanged |
| `XStringWalk.XstrWalkFromPath` | src/xstring.cpp:590-648 | never writes past the room its first pass computes, and yields the path's components, packed |
| `XStringWalk.PiecesOfGlue` | src/xstring.cpp:590-648 | pieces glued with separators split into those pieces |
| `XStringWalk.PathIsGlued` | src/xstring.cpp:590-648 | every path is its pieces glued with its separators, so the splitting is the only one |
| `XStringWalk.ComponentsArePieces` | src/xstring.cpp:590-648 | the components of any path, whatever separates its pieces: each piece cut to its length modulo 65536, in order, but for those of which nothing or "." is left |
| `XStringWalk.ComponentsOfGlue` | src/xstring.cpp:590-648 | names neither empty nor ".", without separators and no longer than 65535, glued with any separators are that path's components |
| `XStringWalk.NothingBetween` | src/xstring.cpp:621-631 | empty and "." pieces put in anywhere change nothing |
| `WalkMessage.ComposeWalk` | src/X9PClient.cpp:508-545 | more than 16 names or too many bytes are refused; otherwise the buffer holds exactly the message |
| `WalkMessage.ReadNames` | src/X9PServer.cpp:248-288 | the server's traversal returns the strings in the message and where they end |
| `WalkMessage.WalkRoundTrip` | src/X9PServer.cpp:287-287 | a composed message read the server's way gives the names packed, ending exactly at the declared size, whatever follows |
| `WalkMessage.WalkLayout` | src/X9PClient.cpp:508-545 | byte by byte: size, type, tag, fid, newfid, number of names, then the names |
| `WalkMessage.StrsRecovered` | src/xstring.cpp:486-489 | packed strings are recovered by stepping over them, wherever they lie |
| `WalkMessage.SendWalk` | src/X9PClient.cpp:498-549 | a walk is queued if and only if it has at most 16 names and its message is smaller than the maximum; exactly the maximum fails an assertion |
| `WalkMessage.PathToServer` | src/XIO.cpp:39-60 | from the path typed to the names looked up: exactly the path's components, if and only if they number at most 15 and their message is smaller than the maximum; which of the other outcomes occurs when |
| `PathToObject.WalkPath` | src/XIO.cpp:39-60 | a path typed whose walk is queued meets the assertion on "." and ends at the longest prefix of its components that resolves |
| `PathToObject.CallWalk` | src/X9PClient.cpp:491-550 | the client object queues a walk of the names passed, in order, from the fid of the handle, whose bytes in the send buffer are that message's; or reports why not |
| `PathToObject.TypeWalk` | src/XIO.cpp:39-60 | from a path typed, through the client object and the bytes sent, to the names the server looks up: they are the path's components |
| `PathToObject.SameObjectSameComponents` | src/xstring.cpp:590-648 | two paths typed lead from the root to one object if and only if they have the same components |
| `XStringHash.XstrHash` | src/xstring.cpp:515-550 | the hash loop with or without length limit and case folding is the hash of the prefix, folded or not |
| `XStringHash.MixInjective` | src/xstring.cpp:541-541 | one hashing step loses nothing |
| `XStringHash.OneCharacterApart` | src/xstring.cpp:515-550 | strings of equal length that differ in exactly one character have different hashes |
| `XStringHash.KnownHashes` | src/xstring.cpp:504-550 | the hashes of the empty string and of "a" are the published FNV-1a ones |
| `XStringHash.SignedCharacter` | src/xstring.cpp:541-541 | in one step the low eight bits of the hash meet the character and the bits above stay, or are flipped if the character is negative as a signed number |
| `XStringHash.CaseInvariant` | src/xstring.cpp:515-550 | strings equal up to ASCII case have equal case-insensitive hashes |
| `XStringHash.FoldsToCapitals` | src/xstring.cpp:533-541 | folding leaves no lower-case letter and changes nothing but case |

## Left out

- Sockets, accepting and dropping connections, logging: foreign calls; channels are sequences, results of sends and receives are parameters.
- Version negotiation after the first exchange and the reallocation of buffers it causes: the message size is fixed.
- Tauth, Tflush, hooks and the server's own Twrite messages: stubbed, or sent by no code in the repository.
- Tstat and Twstat of the client carry the type of Tremove (src/X9PClient.cpp:674, 688); they are not part of sessions. The server's handling of a rename is.
- The stat bytes of the in-memory filesystem, whose copies are clipped to what the buffer held before (src/XVirtualFileSystem.cpp:74-77): a record there is any non-empty byte string. The strings of Tversion and Tattach are clipped the same way and are not followed into bytes.
- A nested call of the client's dispatch loop from inside a callback: callbacks here issue requests but do not receive.
- Permissions, owners, access and modification times, and fields of a wstat other than the name: no behaviour is attached to them, or the checks are stubs.
- Typed files over structures (XVFSFunctionFile, XVFSTypePointerFile): they would add only clamping facts.
- xstrsplit, xstrcmp, xstrdup and the pointer flavours of the string functions: easy members. The 32-bit constants of the hash likewise.
- Counters of 64 bits (handle serials) and the int counter of XFile do not wrap; a request past the end of the handle serials is outside the demands `VirtualFs.Safe` makes.
- Allocation failure and the reuse of an address: identities are positions in allocation order.
- `XStringNumbers.XstrToD`: requires that no prefix of the digits exceed an int, since overflow is undefined in the source.
- `XStringNumbers.RoundTrip`: leaves out the most negative int, which the source negates; the digit count is a parameter instead of a quotient of logarithms.
- `VirtualFsTree.StepKeepsInv`: asks that the handle's entry not be stale and that no "." be walked, which the source dereferences and asserts respectively.
- `XVirtualFileSystemModel.XVirtualFileSystem.Tread`: takes the directory listing as a parameter, any enumeration of serialised children.
- `XFileModel.XFiles.ProcessPackets`: leaves out the hook messages (src/X9PClient.cpp:159-173), which no server in the repository sends.
- `SessionFlush.AgreementNeedsSuffix`: is about maximal message sizes of 20 bytes or more, below which no attach can be sent and there are no fids to agree on; the source starts at 32.
- `XApiRuns.UsersAreApart`: look-ups (type, child, qid, permission) are taken to leave the nodes as they are; reads of directories are what the node answers here, the loop itself being in `DirectoryRead`.
- `X9PServerModel.X9PServer.Process`: handles the requests named in `X9PProtocol.Body`; Tstat, whose bytes are not modelled, and the requests answered by a fixed error (Tauth, Tflush, unknown types) are not among them, nor is the dropping of a connection.
- `XFileModel.XFiles.Operation`: the bodies exclude Stat and WStat, which the client stamps wrongly; operations performed inside the callback of a request rejected at once are in `XIO`, not in the object.
