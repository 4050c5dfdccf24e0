# Verified model of the Ceph kernel client core

This project models the parts of the Ceph kernel client (CephFS and RBD) whose correctness
depends on state carried across many steps, and proves properties of every run, every input or
every reachable state of the model.

- **RBD image requests** (`RbdImage`, `RbdWrite`, `RbdBio`, `RbdCompletion`): splitting an image
  range into object requests, reading a clone through its parents, layered writes (direct, after a
  stat, by copyup) in any interleaving, cloning bio chains, ending object requests in order.
- **Capabilities of an inode** (`InodeState`, `InodeOps`, `InodeLists`, `FlushHistory`,
  `InodeEffects`, `CapMessages`, `InodeCode`): grants, revocations, references, `ceph_check_caps`, flushes and acks
  with 16-bit tids, dirty and flushing lists, inode holds. `InodeState` holds one function per critical
  section; `InodeCode` is the code that changes the fields, tied method by method to it.
- **Snapshots and writeback** (`SnapRealms`, `SnapWriteback`, `WritebackCode`): cached snap
  contexts against their recursive definition, page counts per context, submission in snapshot order.
  `PendingSnap` follows a cap_snap that waits for a writer, `StaleContext` and `SnapCounts` runs in
  which page counts go wrong.
- **Session bookkeeping** (`SessionCaps`, `CapReleases`, `CapPool`): walking a session's caps while
  they are removed, preallocated release slots, the pool of preallocated caps.
- **Directory frag tree** (`Frag`, `FragTree`), **xattrs** (`XattrIndex`, `XattrState`,
  `XattrRace`, `XattrCode`), **key armor** (`Armor`).

Where a lock is dropped inside a function, the steps on either side are separate events of a state
machine, or the code takes a list of what others do in each gap; the theorems hold for all of them.
Time, sequence comparisons, allocation success and the choices of other threads are parameters.
`dafny verify dfyconfig.toml` checks the project.

Assumptions made of the outside, stated as preconditions: the realm hierarchy is acyclic, a changed
or reparented realm carries a sequence number larger than any before, and a trace runs upward; the
copyup method creates an object only if it is absent; xattr names hold no NUL, the MDS sends
well-formed xattr blobs, and one set or remove of xattrs runs at a time; acks answer messages that were sent.

Where the code does not meet a property for all inputs, the model keeps the code, a lemma gives an
input, and another states exactly when the property holds:

- the last write reference finishes the *first* cap_snap although the pending one is the *last*, after
  which no write reference can be taken on the inode again (`PendingSnap.PendingSnapFinished`,
  `PendingSnap.SecondSnapSticks`, `PendingSnap.StuckForever`);
- `ceph_set_page_dirty` reads the realm's context before it takes the lock, and counts the page under
  the head's whatever that is: the page may be counted under another context than it carries, and
  newer pages then go out before it (`StaleContext.StaleRead`, `SnapCounts.MiscountedPage`,
  `SnapWriteback.DirtyExact`, `SnapWriteback.StepExact`);
- a cap_snap queued without a head context, or with the realm's, shares its context with the head
  (`SnapCounts.DoubledContext`, `SnapWriteback.QueueExact`);
- after a session teardown with pages in flight an inode hold can be put that is not there, or never
  be put (`InodeLists.TeardownTwice`, `InodeLists.HoldLeaks`, `InodeLists.StepExact`);
- a flush ack 2^16 tids late cleans a re-dirtied bit (`FlushHistory.LateAckCollides`, `FlushHistory.AckExact`);
- the "unchanged" test of `build_snap_context` misses a parent change whose sequence number is below
  the child's (`SnapRealms.SmallSeqMissed`, `SnapRealms.TestExact`);
- a failed allocation in `ceph_reserve_caps` leaves a reservation that is not backed
  (`CapPool.FailedAllocation`, `CapPool.BackedExactly`);
- a reader's `__build_xattrs` that dropped the lock undoes an xattr stored meanwhile
  (`XattrRace.LostUpdate`, `XattrRace.LateLoad`, `XattrIndex.LoadExact`);
- a malformed xattr blob leaves sizes that are not exact, reported as success once an attribute was
  read (`XattrState.ShortBlobMiscounts`, `XattrState.BuildAnyExact`);
- the two name comparisons in `xattr.c` differ on names with a NUL (`XattrIndex.NulDiffers`, `XattrIndex.ComparesAgree`).

That the inode mutex lets one setter of xattrs in at a time is needed: without it two setters trip the
size check (`XattrRace.TwoSetters`), and `XattrRace.AllocExact` says exactly when.

## Model

| member | source | states |
|---|---|---|
| `RbdImage.SegmentIsDivMod` | drivers/block/rbd.c:1180-1185 | object number and offset are quotient and remainder by the object size |
| `RbdImage.ImgRequestFill` | drivers/block/rbd.c:2442-2534 | the loop produces the split of the range, which tiles it |
| `RbdImage.SplitTiles` | drivers/block/rbd.c:1187-1200 | the pieces are consecutive, start and end with the range, each inside one object, each on the next object |
| `RbdImage.SplitCoversOnce` | drivers/block/rbd.c:2471-2534 | every byte of the range is in exactly one object request, every other byte in none |
| `RbdImage.ReadObject` | drivers/block/rbd.c:1731-1803 | one object read, with hole fill, short-read fill and parent read, yields the image's view of the extent |
| `RbdImage.ReadImage` | drivers/block/rbd.c:2988-3090 | a read of a clone of any depth returns, byte by byte, the object's data, else the parent's view below the overlap, else zero |
| `RbdWrite.RoundUpIsObjStart` | drivers/block/rbd.c:1499-1505 | comparing with the rounded-up overlap asks whether the object starts below the overlap |
| `RbdWrite.DirectBase` | drivers/block/rbd.c:2899-2943 | a write sent directly lands on an object that already shows what the image shows |
| `RbdWrite.CopyupBase` | drivers/block/rbd.c:2584-2773 | the parent data read for a copyup is what the image shows of the object |
| `RbdWrite.CommitView` | drivers/block/rbd.c:2584-2680 | committing on such a base changes exactly the written range of the view |
| `RbdWrite.StepView` | drivers/block/rbd.c:2775-2840 | every step leaves the view alone, or is one request's write changing exactly its range |
| `RbdWrite.StepInv` | drivers/block/rbd.c:2775-2840 | what a request learned of its object stays true under any other request's steps |
| `RbdWrite.RunView` | drivers/block/rbd.c:2945-2969 | in every interleaving the view is the initial one with the committed writes applied in commit order |
| `RbdWrite.ImageWrite` | drivers/block/rbd.c:2899-2969 | once all pieces of an image write are done, in any order and by any path, the view is the old one with exactly that write |
| `RbdBio.BioCloneRange` | drivers/block/rbd.c:1288-1358 | succeeds exactly for a nonempty range within the bio, and covers exactly those source bytes |
| `RbdBio.TrimmedMany` | drivers/block/rbd.c:1325-1349 | trimming the first and last segment leaves exactly the bytes between the two cut points |
| `RbdBio.BioChainCloneRange` | drivers/block/rbd.c:1379-1426 | the clones are the next bytes of the chain and the cursor is at the first byte not cloned |
| `RbdBio.FillBios` | drivers/block/rbd.c:2471-2534 | over all object requests the cloned chains fit their requests and concatenate to the source bytes |
| `RbdCompletion.StepInv` | drivers/block/rbd.c:2334-2371 | a reply or callback keeps: ended is 0..next in order, a done request at next has its callback pending, completion only at the end |
| `RbdCompletion.EveryRun` | drivers/block/rbd.c:2323-2371 | for every interleaving: each request ended once in order, no stall, completion exactly once; the result is 0 if and only if every reply brought 0, else that of the first request whose reply did not |
| `RbdCompletion.RepliesRecorded` | drivers/block/rbd.c:2334-2371 | in every run a request is done exactly if its reply came, and keeps the result that reply brought |
| `RbdCompletion.ImgRequest.EndRequests` | drivers/block/rbd.c:2283-2332 | the loop ends exactly the done requests from next on, up to the first that is not done; an earlier error stays, else the result is the first nonzero one of those ended, or 0 if there is none |
| `RbdCompletion.ImgRequest.ObjCallback` | drivers/block/rbd.c:2334-2371 | the callback is the model's step and keeps the invariant |
| `InodeOps.CheckCapBacked` | fs/ceph/caps.c:1597-1712 | a `ceph_check_caps` pass keeps every referenced bit in some cap, even when a non-auth cap gives it up |
| `InodeOps.FlushCapsBacked` | fs/ceph/caps.c:1739-1785 | flushing and kicking flushes does too |
| `InodeOps.TakeBacked` | fs/ceph/caps.c:2057-2134 | references are taken only on bits some cap implements |
| `InodeOps.TrimBacked` | fs/ceph/mds_client.c:1321-1362 | trimming removes a cap only if what is in use is issued elsewhere |
| `InodeOps.ReleaseBacked` | fs/ceph/caps.c:3217-3262 | an embedded release gives up no bit in use |
| `InodeOps.StepBacked` | fs/ceph/caps.c:2530-2566 | every operation keeps issued inside implemented and referenced bits backed |
| `InodeOps.RunBacked` | fs/ceph/caps.c:1128-1166 | so does every run on a live inode |
| `InodeOps.TakeUses` | fs/ceph/caps.c:828-842 | taking references makes exactly the counted bits among them used, besides those in use before |
| `InodeOps.PutUndoesTake` | fs/ceph/caps.c:2031-2048 | a put of what was taken restores counters and holds, and everything else unless a first writer came and went |
| `InodeOps.PinSent` | fs/ceph/caps.c:1128-1137 | the BUG_ON in __send_cap fires for a check exactly if Pin is being revoked, for a flush exactly if it is not issued |
| `InodeOps.PinRun` | fs/ceph/caps.c:1128-1137 | in every run in which the MDS issues Pin every cap keeps it |
| `InodeEffects.GrantEffect` | fs/ceph/caps.c:2530-2566 | a grant or revocation issues exactly the message's bits (besides the old ones for an old message), gives up nothing implemented, makes the cap valid, and leaves every other cap and all else alone |
| `InodeEffects.AddEffect` | fs/ceph/caps.c:509-628 | an added cap has exactly the message's bits, besides its own if the message is old; which cap is the auth cap and what is wanted follow flags and sequence numbers |
| `InodeEffects.ReleaseEffect` | fs/ceph/caps.c:3217-3262 | a release goes out if and only if an idle bit asked for is issued and no excluded one is; it gives up exactly the bits asked for that are neither in use nor dirty nor flushing |
| `InodeEffects.TrimEffect` | fs/ceph/mds_client.c:1321-1362 | a cap is trimmed if and only if it is not an auth cap with dirty state or wanted write bits, each wanted bit it has is issued elsewhere, and something is |
| `InodeEffects.CanTakeIs` | fs/ceph/caps.c:2057-2134 | references are given out if and only if a file is open for a needed bit, each needed bit is there, no other wanted bit is on its way out, and a write is within limits with no snapshot waiting |
| `InodeEffects.FlushEffect` | fs/ceph/caps.c:1739-1786 | a flush keeps every issued bit, forgets revoked ones not in use, and records the next tid for exactly the bits flushed |
| `InodeEffects.AckEffect` | fs/ceph/caps.c:2612-2675 | an ack cleans exactly the bits whose recorded tid it carries; list, hold and head context follow with the last one |
| `InodeEffects.FlushingEffect` | fs/ceph/caps.c:1414-1450 | no bit is lost between the dirty and flushing masks, and no hold moves |
| `InodeEffects.TakeEffect` | fs/ceph/caps.c:2031-2048 | taking references adds one to the count of each bit and to no other, accounts for its hold and touches no cap, mask or page count |
| `InodeEffects.PutEffect` | fs/ceph/caps.c:2210-2262 | a put takes one off the count of each bit and of no other, ends the use only of bits put, and with the last write reference ends the writing of the first cap_snap |
| `InodeEffects.MarkDirtyEffect` | fs/ceph/caps.c:1372-1406 | the bits are dirty, a head context exists, the realm's if there was none, and a hold is taken exactly if nothing was dirty or flushing |
| `InodeEffects.PageEffect` | fs/ceph/addr.c:93-111 | one page more is counted, under the head context and nowhere else, with a hold for the first |
| `InodeEffects.QueueEffect` | fs/ceph/snap.c:438-533 | a cap_snap is queued if and only if none waits for a writer and dirty state or a write must be kept; it takes over the head's context, pages and dirty bits, and waits exactly if there is a writer |
| `InodeEffects.QueueKeeps` | fs/ceph/snap.c:438-533 | no page is lost between counters and every hold is accounted for |
| `InodeEffects.PutPagesEffect` | fs/ceph/caps.c:2271-2340 | pages come off the head if it has their context, else off the first cap_snap that has; either goes with its last page unless dirty state needs it |
| `InodeEffects.SnapAckEffect` | fs/ceph/caps.c:2683-2720 | an ack removes the first cap_snap following the snapshot, with its hold, if the tid matches, and changes nothing otherwise |
| `InodeEffects.SessionCapEffect` | fs/ceph/mds_client.c:1077-1122 | a session's end takes exactly its cap; the last cap takes all dirty state with it |
| `CapMessages.DueIs` | fs/ceph/caps.c:1597-1670 | the tests on masks ask for a message exactly if one is due: a finished revocation to acknowledge, dirty bits to flush, a wanted bit the MDS does not know of, a size to report, or bits and wishes to tidy that may not wait |
| `CapMessages.MessageEffect` | fs/ceph/caps.c:1670-1700 | bit by bit, what the message leaves issued, implemented, wanted, dirty and flushing, under which tid |
| `CapMessages.MessageSettles` | fs/ceph/caps.c:1487-1712 | one message is enough: the MDS is then owed no flush, acknowledgement or wish, and nothing to tidy unless bits may be held |
| `InodeLists.StepExact` | fs/ceph/caps.c:1372-1450 | every step, teardown and any put included, keeps lists and head context; it accounts for its holds if and only if it is not one of two: a put of more pages than are counted, a teardown with the count below zero |
| `InodeLists.RunShape` | fs/ceph/caps.c:2637-2674 | in every run whatsoever the inode is on cap_dirty iff bits are dirty, on a flushing list iff bits are flushing, has a head context when one is needed, and none of the related BUG_ONs fires |
| `InodeLists.RunInv` | fs/ceph/caps.c:2695-2720 | in every run without those two steps inode holds equal [dirty or flushing] + [wrbuffer_ref > 0] + [wb_ref > 0] + number of cap_snaps |
| `InodeLists.LiveRunCounted` | fs/ceph/caps.c:2285-2340 | on an inode whose sessions live and whose pages are put while counted, the two steps do not come up |
| `InodeLists.PutExact` | fs/ceph/caps.c:2281-2340 | a put accounts for its hold if and only if it does not take the count past zero |
| `InodeLists.TeardownExact` | fs/ceph/mds_client.c:1077-1120 | session teardown accounts for its holds if and only if it does not drop dirty state with a page count below zero |
| `InodeLists.TeardownTwice` | fs/ceph/mds_client.c:1109-1115 | a run from a new inode in which a second teardown puts a hold that is not there |
| `InodeLists.HoldLeaks` | fs/ceph/mds_client.c:1109-1115 | a run from a new inode in which a put after a teardown never releases its hold |
| `InodeLists.DeltaIsMembership` | fs/ceph/caps.c:1431-1446 | the code adds to num_cap_flushing exactly the change in list membership |
| `InodeLists.ClientStepInv` | fs/ceph/caps.c:2640-2652 | num_cap_flushing counts the inodes on flushing lists, whatever any inode does |
| `InodeLists.ClientRunInv` | fs/ceph/caps.c:2640-2652 | in every run of any number of inodes num_cap_flushing counts those on a flushing list |
| `FlushHistory.AckExact` | fs/ceph/caps.c:2626-2629 | an ack cleans a bit exactly for its latest flush if and only if no reflush lies a multiple of 2^16 tids later |
| `FlushHistory.RunInv` | fs/ceph/caps.c:1168-1182 | in every run the recorded tids, the versions sent and the masks stay consistent |
| `FlushHistory.CleanMeansCommitted` | fs/ceph/caps.c:1414-1450 | a bit neither dirty nor flushing has its newest version acknowledged |
| `FlushHistory.OnlyLatestAckCleans` | fs/ceph/caps.c:2626-2640 | in every reachable state only the ack of the latest flush of a bit stops it flushing |
| `FlushHistory.LateAckCollides` | fs/ceph/super.h:275-275 | a run from a new inode, 2^16 tids long, after which the ack of its first flush stops a newer, unacknowledged version flushing |
| `InodeCode.CephInode.GetIssued` | fs/ceph/caps.c:666-694 | the loop over the caps computes the union, less what the auth cap is revoking |
| `InodeCode.CephInode.GetOldest` | fs/ceph/addr.c:390-415 | the scan returns the context of the first cap_snap with dirty pages, else the head's |
| `InodeCode.CephInode.SendCap` | fs/ceph/caps.c:1104-1184 | the new cap bits, and the same new tid recorded for every flushed bit and no other |
| `InodeCode.CephInode.NextToSend` | fs/ceph/caps.c:1590-1680 | the scan picks the lowest-numbered cap behind the cursor that is due a message, in terms of bits, references and flags; if it finds none, none is due |
| `InodeCode.CephInode.NeedsMessage` | fs/ceph/caps.c:1600-1670 | the tests in the order of the code pass exactly if a message is due |
| `InodeCode.CephInode.CheckCaps` | fs/ceph/caps.c:1487-1712 | with any operations of others, and anything reread, before and after each message, the call is a legal run in which every message goes to the lowest-numbered cap due behind the last; when it returns, no cap behind the last one sent, unless excluded, has a finished revocation, dirty bits under flush, an unknown wish, a size to report, or anything to tidy without delay |
| `InodeCode.CephInode.CheckCapsBacked` | fs/ceph/caps.c:1597-1712 | such a call keeps every referenced bit backed |
| `InodeCode.CephInode.TrimCapsCb` | fs/ceph/mds_client.c:1321-1362 | the cap goes if and only if it is no auth cap with dirty state or wanted write bits, each wanted bit it has is issued elsewhere, and something is; otherwise nothing changes |
| `InodeCode.CephInode.TryGetCapRefs` | fs/ceph/caps.c:2057-2134 | succeeds if and only if a file is open for a needed bit, each is there, no other wanted bit is on its way out and a write may start; then takes one reference to each needed bit and each wanted one that is there |
| `InodeCode.CephInode.EncodeInodeRelease` | fs/ceph/caps.c:3217-3262 | gives up exactly the idle bits asked for, if one is issued and no excluded bit is; otherwise nothing |
| `InodeCode.CephInode.QueueSnap` | fs/ceph/snap.c:438-533 | queues a cap_snap that takes over the head if and only if one is needed |
| `InodeCode.CephInode.AckFlush` | fs/ceph/caps.c:2612-2675 | exactly the bits whose recorded tid matches become clean, with list, hold and head context following |
| `InodeCode.CephInode.PutWrbufferCapRefs` | fs/ceph/caps.c:2271-2340 | takes pages off the head or the cap_snap with their context, dropping that when it is done |
| `InodeCode.CephInode.FlushSnaps` | fs/ceph/caps.c:1240-1357 | with any operations of others between its messages, the call is a legal run that sends, oldest first, only cap_snaps without pages or writer, and ends when every cap_snap behind the last one sent is sent or has a busy one before it |
| `InodeCode.CephInode.AckFlushSnap` | fs/ceph/caps.c:2683-2720 | removes the first cap_snap with that follows, with its hold, if its tid matches, and changes nothing otherwise |
| `SnapWriteback.StepExact` | fs/ceph/addr.c:93-117 | reading the realm's context, counting, tagging, clearing the tag and the put being separate events, every one keeps counts exact, cap_snaps in order and each thread's oldest context no newer than any page counted, if and only if it is not a page counted with a context read too early, nor a cap_snap queued while the head context is not one the realm has replaced |
| `SnapWriteback.RunInv` | fs/ceph/caps.c:2281-2328 | in every run without those two each counter is the number of pages tagged with its context plus those between tag and counter, the total is head plus cap_snaps, and the lookup in put never misses |
| `SnapWriteback.UsualCount` | fs/ceph/addr.c:93-99 | a context that the head still has, or the realm still has while there is no head, is not read too early |
| `SnapWriteback.OldestIsOldest` | fs/ceph/addr.c:390-415 | no outstanding page has a context older than the one get_oldest_context returns |
| `SnapWriteback.SnapOrder` | fs/ceph/addr.c:692-804 | in every such run a page that passes the test, even against a context read earlier, is no newer than any page dirty or in flight |
| `SnapWriteback.DirtyExact` | fs/ceph/addr.c:93-117 | counting a page whose context was read before the lock keeps counts exact and contexts distinct if and only if the head has that context, or there is no head and no cap_snap has it |
| `SnapWriteback.QueueExact` | fs/ceph/snap.c:482-516 | queueing a cap_snap keeps counts exact and contexts distinct if and only if there is a head context and the realm's is not in use |
| `StaleContext.StaleRead` | fs/ceph/addr.c:89-117 | a run from a new inode in which a context read before a snapshot is used after it: a newer page may go out while an older one is dirty, and a put takes a counter below zero |
| `SnapCounts.MiscountedPage` | fs/ceph/addr.c:93-117 | a run from a new inode in which a page is counted under an older context than it carries, and its put finds no counter |
| `SnapCounts.DoubledContext` | fs/ceph/snap.c:482-516 | a run from a new inode in which a cap_snap queued without a head context leads to two with one context, and a put is taken from the wrong one |
| `PendingSnap.PendingSnapFinished` | fs/ceph/caps.c:2233-2247 | the last write reference finishes the pending cap_snap if and only if it is the only one |
| `PendingSnap.SecondSnapSticks` | fs/ceph/caps.c:2233-2247 | a run from a new inode that leaves the last cap_snap waiting with no writer left |
| `PendingSnap.StuckForever` | fs/ceph/caps.c:2085-2110 | in every run from such a state no write reference can be taken again |
| `WritebackCode.Mapping.ConsiderPage` | fs/ceph/addr.c:795-804 | a page is sent exactly if it passes the test, and then has the very context read, with nothing older outstanding |
| `WritebackCode.Mapping.WritepagesPass` | fs/ceph/addr.c:692-804 | the oldest context is read once; whatever others do between the pages, only pages of that context are sent, and every page in order that may be sent at its turn is |
| `WritebackCode.Mapping.Writepage` | fs/ceph/addr.c:445-461 | a tagged page always has an oldest context to compare with, and is sent only if nothing older is outstanding |
| `WritebackCode.Mapping.WritepagesFinish` | fs/ceph/addr.c:587-617 | tags go first and the put comes later; whatever others do in between, the counter that holds the pages is found |
| `WritebackCode.Mapping.SetPageDirty` | fs/ceph/addr.c:89-117 | with others between the read, the lock and the tag: the page is tagged with the context read, and the invariant survives if and only if that context counts right when the lock is taken |
| `SnapRealms.DefIs` | fs/ceph/snap.c:340-362 | a context is descending, holds exactly the parent's snaps since parent_since, own and prior snaps, and the larger sequence number |
| `SnapRealms.SinceIs` | fs/ceph/snap.c:340-352 | the filter keeps exactly the snaps not older than parent_since |
| `SnapRealms.DefStaysOrFresh` | fs/ceph/snap.c:313-331 | after updates with fresh sequence numbers a realm's context stays, or its number is new |
| `SnapRealms.UpdateSound` | fs/ceph/snap.c:313-331 | so the early return is sound at every realm |
| `SnapRealms.OutsideStays` | fs/ceph/snap.c:690-702 | a realm not below the trace's last realm keeps its context |
| `SnapRealms.UpdateAllStores` | fs/ceph/snap.c:644-690 | a trace stores, for each of its realms, the parent always and the other parameters exactly if its sequence number is larger; realms without an entry keep theirs and no other realm appears |
| `SnapRealms.RealmTable.BuildSnapContext` | fs/ceph/snap.c:294-387 | leaves the realm with the context defined from scratch, replacing others only by right ones |
| `SnapRealms.RealmTable.RebuildSnapRealms` | fs/ceph/snap.c:390-399 | afterwards every realm below has its defined context |
| `SnapRealms.RealmTable.UpdateSnapTrace` | fs/ceph/snap.c:621-712 | after every trace each realm of it has the entry's parent, and the entry's sequence number, parent_since, snaps and prior snaps exactly if the number is larger; other realms keep their parameters; each realm's cached context is the one defined from scratch |
| `SnapRealms.UpdateTraces` | fs/ceph/snap.c:621-712 | after every list of traces from the empty table, each stored in turn with numbers never seen, every cached context is the one defined from scratch on what they stored |
| `SnapRealms.SmallSeqMissed` | fs/ceph/snap.c:313-331 | a change with too small a sequence number leaves a stale context |
| `SnapRealms.TestExact` | fs/ceph/snap.c:313-331 | for a realm whose own parameters stay, the early return is unsound exactly if neither the old nor the new parent number exceeds its own while the parent's snaps since parent_since changed |
| `SnapRealms.AnyTestExact` | fs/ceph/snap.c:313-331 | for any realm, exactly if the numbers match while the snaps do not |
| `SessionCaps.StepInv` | fs/ceph/caps.c:904-946 | every add, removal, touch and walk step keeps the count, the walk's position and the balance of removals and puts |
| `SessionCaps.EveryRun` | fs/ceph/caps.c:914-946 | s_nr_caps is the list length, and each removed cap is put exactly once, now or deferred |
| `SessionCaps.WalkVisitsEach` | fs/ceph/mds_client.c:1015-1075 | a walk that ends has visited every cap on the list exactly once unless its inode could not be grabbed |
| `SessionCaps.NeverTwice` | fs/ceph/mds_client.c:1028-1063 | at no point has a cap been visited twice |
| `SessionCaps.TouchMustWait` | fs/ceph/caps.c:720-734 | moving a cap to the tail during a walk would make the walk miss another |
| `SessionCaps.RemoveEffect` | fs/ceph/caps.c:904-946 | a removed cap leaves the list and is put at once with the others in order, unless the walk is at it: then it is the one put still owed |
| `SessionCaps.TouchEffect` | fs/ceph/caps.c:720-734 | touching loses no cap, changes nothing during a walk, and otherwise moves the cap to the tail with the others in order |
| `SessionCaps.NotGrabbedIs` | fs/ceph/mds_client.c:1026-1034 | the caps skipped are exactly those before the first whose inode can be grabbed |
| `SessionCaps.SessionList.IterateSessionCaps` | fs/ceph/mds_client.c:1015-1075 | arbitrary additions, removals and touches in each callback: each cap at the end was visited once or could not be grabbed, every removal was put once, and the walk ends early only if a callback says so |
| `CapReleases.StepInv` | fs/ceph/caps.c:1032-1068 | every step keeps the counter within the free slots, room in each message, and the partial message accounted for |
| `CapReleases.EveryRun` | fs/ceph/caps.c:1032-1068 | in every run a release with a nonzero counter fits its page |
| `CapReleases.EveryRelease` | fs/ceph/caps.c:1032-1068 | in every run each release is in a message, sent or discarded, counted exactly; the counter follows the free slots but for the unfilled part of handed-over messages that a reconnect puts back |
| `CapReleases.DiscardInv` | fs/ceph/mds_client.c:1529-1566 | discarding on reconnect keeps that and loses no slot |
| `CapReleases.AddEnough` | fs/ceph/mds_client.c:1398-1454 | a successful call ends with a slot per cap plus the margin, whatever was released while it allocated |
| `CapReleases.ReleaseList.QueueCapRelease` | fs/ceph/caps.c:1032-1068 | one release more is held and one slot fewer free; only the first message changes, and it becomes the last of the finished ones exactly if it is now full |
| `CapReleases.ReleaseList.DiscardCapReleases` | fs/ceph/mds_client.c:1529-1566 | the finished messages are back in front, last first and empty, then the message in progress, empty; the counter grows by exactly what they held |
| `CapReleases.ReleaseList.SendCapReleases` | fs/ceph/mds_client.c:1509-1526 | with releases queued between the messages, sends the finished ones, oldest first, until none is left; no release is lost |
| `CapReleases.ReleaseList.AddCapReleases` | fs/ceph/mds_client.c:1398-1454 | with releases queued in each gap, a call that succeeds reaches its margin and hands over the partial message; one that fails has used every allocation and is short of its target; no release is lost and each allocation adds one message |
| `CapPool.StepSafe` | fs/ceph/caps.c:150-250 | contexts claim what is reserved plus what failed allocations lost; with nothing lost no check fires |
| `CapPool.RunBalanced` | fs/ceph/caps.c:150-284 | in every run total = used + reserved + available and the free list has reserved + available caps |
| `CapPool.RunSafe` | fs/ceph/caps.c:150-284 | with no failed allocation the contexts sum to the reserved count and no BUG_ON fires |
| `CapPool.GetFinds` | fs/ceph/caps.c:240-253 | a get from a nonempty reservation then finds a cap |
| `CapPool.BackedExactly` | fs/ceph/caps.c:175-196 | a reservation is backed if and only if none of its allocations failed |
| `CapPool.FailedAllocation` | fs/ceph/caps.c:175-196 | one failed allocation and the next get finds nothing |
| `CapPool.CapsList.Allocate` | fs/ceph/caps.c:174-180 | the loop allocates up to the first failure |
| `CapPool.CapsList.SetAside` | fs/ceph/caps.c:150-171 | sets aside what is needed, or all that is available if that is less |
| `CapPool.CapsList.GetCap` | fs/ceph/caps.c:222-259 | takes one cap off the list, never from an empty one |
| `CapPool.CapsList.PutCap` | fs/ceph/caps.c:261-284 | the cap returns to the list exactly if fewer are available than reserved plus the minimum, else it is freed; all else stays |
| `Frag.ChildContains` | include/linux/ceph/ceph_frag.h:83-88 | exactly the child numbered by the next bits of a value contains it |
| `Frag.ContainsRange` | include/linux/ceph/ceph_frag.h:43-46 | a frag's values are one interval of numbers |
| `Frag.MakeIs` | include/linux/ceph/ceph_frag.h:21-25 | ceph_frag_make keeps exactly the prefix |
| `Frag.NextStartsAtEnd` | include/linux/ceph/ceph_frag.h:93-101 | the next of a frag that is not rightmost starts exactly where it ends |
| `FragTree.CompareOrder` | fs/ceph/ceph_frag.c:7-22 | the comparison is a total order with ties only on equal frags |
| `FragTree.CompareRanges` | fs/ceph/ceph_frag.c:7-22 | a frag precedes exactly those that begin later, and those that begin with it and end sooner |
| `FragTree.LeavesPartition` | fs/ceph/inode.c:179-219 | every value is in exactly one leaf, the one the descent reaches |
| `FragTree.Tree.FindFrag` | fs/ceph/inode.c:156-172 | for any tree shape, finds the node or the place where it would go |
| `FragTree.Tree.ChooseChild` | fs/ceph/inode.c:200-213 | the loop over the children ends at the one that contains the value |
| `FragTree.Tree.ChooseFrag` | fs/ceph/inode.c:179-219 | the descent terminates at the unique leaf that contains the value |
| `FragTree.Tree.GetOrCreateFrag` | fs/ceph/inode.c:112-151 | a new node keeps the tree sorted and adds exactly its key before the walk's cursor |
| `FragTree.Tree.Replace` | fs/ceph/inode.c:331-363 | the merge-walk leaves exactly the reported splits, for any prior tree and any order of ids |
| `FragTree.Tree.FillFragtree` | fs/ceph/inode.c:299-367 | exactly when the tree is updated, and that it is otherwise untouched |
| `FragTree.SplitMapLast` | fs/ceph/inode.c:334-356 | the last reported split_by of an id wins |
| `XattrIndex.SetIsLex` | fs/ceph/xattr.c:336-353 | the comparison in __set_xattr is lexicographic order on names without NUL |
| `XattrIndex.GetIsLex` | fs/ceph/xattr.c:430-441 | so is the one in __get_xattr |
| `XattrIndex.ComparesAgree` | fs/ceph/xattr.c:430-441 | for a name without NUL the two differ exactly on nodes that continue it with a NUL |
| `XattrIndex.NulDiffers` | fs/ceph/xattr.c:336-353 | a name and a node on which the two comparisons differ |
| `XattrIndex.PutMap` | fs/ceph/xattr.c:375-410 | insert or replace keeps the index sorted and updates the map at that name |
| `XattrIndex.PutSizes` | fs/ceph/xattr.c:375-400 | and changes count and sizes by exactly the difference |
| `XattrIndex.DelMap` | fs/ceph/xattr.c:464-483 | removal takes exactly that name out |
| `XattrIndex.EncodeSize` | fs/ceph/xattr.c:637-655 | the encoding is exactly as long as the required size |
| `XattrIndex.EncodeLayout` | fs/ceph/xattr.c:661-684 | the blob is the little-endian count, then for each attribute name length, name, value length and value, at the offset that is the size of those before |
| `XattrIndex.RoundTrip` | fs/ceph/xattr.c:549-623 | parsing the encoding of an index rebuilds it |
| `XattrIndex.LoadExact` | fs/ceph/xattr.c:571-618 | loading into a nonempty index gives the blob's attributes if and only if every leftover name is in the blob |
| `XattrState.StoreAllExact` | fs/ceph/xattr.c:604-618 | loading keeps count and sizes exact |
| `XattrState.ChangeExact` | fs/ceph/xattr.c:354-400 | a set or remove keeps them exact, changes the map as asked or refused, and needs no more than was computed |
| `XattrState.FlushKeeps` | fs/ceph/xattr.c:661-701 | encoding leaves the attributes a reader sees unchanged; what is not in the blob yet is marked dirty |
| `XattrState.BuildAnyExact` | fs/ceph/xattr.c:549-634 | after any blob the index counts as loaded exactly if the parse reached its end, and the counters are exact exactly if it did or the blob yields no name |
| `XattrState.ShortBlobMiscounts` | fs/ceph/xattr.c:604-634 | a blob that ends early is reported as success and leaves names_size wrong |
| `XattrState.DoRefines` | fs/ceph/xattr.c:926-959 | every operation does to the attributes what it does to a map; an MDS update is taken exactly if it is newer and the client has none yet, or neither holds nor has dirty the exclusive bit |
| `XattrState.RunRefines` | fs/ceph/xattr.c:926-959 | so does every sequence of set, replace, remove, lookup, encoding and MDS updates |
| `XattrRace.StepInv` | fs/ceph/xattr.c:926-959 | with other calls in every unlocked gap, a dirty index fits the preallocated blob and the blob being allocated |
| `XattrRace.EveryRun` | fs/ceph/xattr.c:1025-1056 | in every run with one setter at a time the size check does not fire and the counters are exact |
| `XattrRace.TwoSetters` | fs/ceph/xattr.c:932-947 | without the mutex, two setters can trip it |
| `XattrRace.AllocExact` | fs/ceph/xattr.c:934-952 | with any number of setters, installing a blob keeps the dirty index within it if and only if nothing is dirty, it is large enough, or the index is about to be reloaded |
| `XattrRace.AnyRun` | fs/ceph/xattr.c:926-959 | in every run with any number of setters that meets that condition the size check does not fire |
| `XattrRace.LateLoad` | fs/ceph/xattr.c:580-622 | a load that resumes after another one leaves the state alone if and only if nothing is dirty and the index still has the blob's values |
| `XattrRace.LostUpdate` | fs/ceph/xattr.c:580-622 | a run in which a successful store is undone |
| `XattrCode.XattrsInfo.FindToSet` | fs/ceph/xattr.c:336-353 | for any tree shape, finds the name or its place |
| `XattrCode.XattrsInfo.GetXattr` | fs/ceph/xattr.c:420-449 | finds the name exactly if it is in the map, with its value |
| `XattrCode.XattrsInfo.SetXattr` | fs/ceph/xattr.c:324-418 | EEXIST if and only if an exclusive create finds the name, ENODATA if and only if a replace does not, else success; a failure changes nothing, a success exactly that name |
| `XattrCode.XattrsInfo.RemoveByName` | fs/ceph/xattr.c:464-498 | ENODATA if and only if the name is absent; otherwise exactly that name goes |
| `XattrCode.XattrsInfo.ParseBlob` | fs/ceph/xattr.c:571-634 | what a good, malformed or overlong blob leaves behind, and that the error is lost after the first attribute |
| `XattrCode.XattrsInfo.BuildXattrs` | fs/ceph/xattr.c:549-634 | rebuilds an outdated index from any blob, from a good one without changing the attributes, and exactly when it reports an I/O error |
| `XattrCode.XattrsInfo.ChangeXattr` | fs/ceph/xattr.c:926-959 | the whole local path: EEXIST if and only if an exclusive create finds the name in what a reader sees, ENODATA if and only if a replace or removal does not; a success changes exactly that name, is marked dirty and leaves a blob large enough |
| `XattrCode.XattrsInfo.BuildXattrsBlob` | fs/ceph/xattr.c:661-701 | writes stay inside the buffer and fill exactly the required size with the encoding |
| `Armor.DecodeEncoded` | net/ceph/armor.c:14-35 | each digit's character decodes to it and is neither pad nor newline |
| `Armor.EncodeIsTable` | net/ceph/armor.c:11-17 | each six bits are written as their character of the alphabet |
| `Armor.DecodeIs` | net/ceph/armor.c:19-35 | a character is accepted exactly if it is in the alphabet or the pad, and as the bits it stands for |
| `Armor.ArmoredLength` | net/ceph/armor.c:37-71 | 4 characters per 3 bytes rounded up, and one newline per 64 characters |
| `Armor.NewlinesAt` | net/ceph/armor.c:63-68 | every 65th character of the armor is a newline and no other |
| `Armor.RoundTrip` | net/ceph/armor.c:37-105 | unarmor of armor returns the original bytes, for every input |
| `Armor.UnarmorExact` | net/ceph/armor.c:73-105 | a text is accepted if and only if it is newlines and groups of four characters of the alphabet or pads, up to a group that ends in a pad; its bytes are those of each group's 24-bit number |
| `Armor.EncodeArmor` | net/ceph/armor.c:37-71 | the loop writes exactly the armored text |
| `Armor.DecodeArmor` | net/ceph/crypto.c:56-65 | for any text, no more than three quarters of its length is written, and the result is the decoded text or an error |

## Left out

- Messenger, OSD client, monitor client and page cache: environment steps with simple contracts only.
- RBD discard, image probe and refresh, parent reference counting, I/O errors other than "no such object", and allocation-failure unwinding of image requests; parent_overlap is fixed during a request.
- Cap export and import; session teardown is in the list and hold proof but not in the backing, flush-history and page-count proofs, since it drops caps and counters on the MDS's word.
- Cap generations, sequence comparisons, timers and delays are Boolean parameters; cap bits other than the reference-counted ones have no meaning beyond membership in the masks.
- Waiting, wakeups, fsync, writeback throttling and the merging of pages into requests.
- Red-black trees are their in-order sequences; a search may visit any node still in range, which stands for every shape. The kernel's sort() is a function that returns the descending permutation.
- The realm tree is a map from inode number to parameters with parent numbers, beside the map of cached contexts; child lists, reference counts and realm destruction are not modelled.
- Sizes and counts are unbounded integers; only flush tids (16 bits), frags (24 bits), wire lengths (32 bits) and release pages are of fixed width.
- `InodeCode.CephInode`: related fields are grouped in four records; the inode's other attributes, and the requests for a larger max_size, are not modelled.
- A page counts as tagged as long as writeback can find it: one being invalidated, which is locked, counts as untagged from the start, although its tag is cleared last.
- `SnapWriteback.RunInv`: covers runs of orderly steps; a step that is not orderly breaks the invariant, by StepExact, and what follows it is not described.
- `XattrCode.XattrsInfo.ChangeXattr`: the gaps in which the lock is dropped are in XattrRace, not in this method; virtual xattrs and requests passed on to the MDS are not modelled.
- `CapReleases.EveryRun`: messages carry only the number of releases in them, not the releases.
- Authentication beyond the key armor, mount options, sysfs, debugfs, ioctls, NFS export, file locks.
