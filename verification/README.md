# Verified models of the stateful parts of sctp4nat

sctp4nat is a Java wrapper around a userspace SCTP stack. This project models the parts of the two
that keep state under concurrency or over long runs, and proves what they promise:

- `Callout.dfy` - the timer queue of `sctp_callout.c`. Callbacks and other threads may start and stop
  any timer while the tick loop has dropped its lock. The loop with its shared cursor is proved equal
  to a reference without a cursor, and the guarantees are proved of the reference.
- `ClosableSocket.dfy` - `lockPtr`, `unlockPtr` and `closeNative` of `SctpSocket.java` as an interleaved
  system with any number of readers and closers. The unsynchronized write of `closed` may be seen
  late, as the Java memory model permits; sequential consistency is a special case.
- `Mbuf.dfy`, `MbufPool.dfy` - mbuf chains of `user_mbuf.c` over an explicit heap with shared,
  reference-counted clusters; any allocation may fail.
- `Keys.dfy`, `ChunkList.dfy`, `SharedKeys.dfy`, `Hmac.dfy`, `Association.dfy` - SCTP-AUTH
  (RFC 4895) in `sctp_auth.c`: key order, chunk lists, the shared-key list, HMAC over segments, and
  signing and verifying with cached keys. The hash functions are parameters.
- `AcceptQueue.dfy` - the accept queues of `user_socket.c`, for any number of listeners.
- `DataChannel.dfy` - the channel and stream tables of `rtcweb.c`.

`dafny verify dfyconfig.toml` checks everything.

Most files have the same shape: a value-level specification with runs as sequences of operations,
theorems about it, and a class whose methods follow the source statement by statement and are proved
to refine the specification. What the single operations come to is stated a second time without their
definitions: by what was asked for over a run (`Callout.FiresAsPromised`, `SharedKeys.RunTells`,
`AcceptQueue.RunIsFifo`), by streams instead of tables (`DataChannel.OpenedByStream` and its like), or
in the words of a standard (`Hmac.MacIsHmac`, `Association.AuthenticExactly`). Two fields are history only:
the sockets handed out so far (`taken`) and the resets asked for and not yet reported (`asked`).

## Where the code differs from what it says

- `m_split` says a failure restores the chain. When the second of two allocations fails, the length
  in the packet header stays changed (`MbufPool.FailureRestoresExactly`,
  `MbufPool.FailureLeavesTrace`).
- `m_clget` without memory marks the mbuf as having a cluster, and on an mbuf that has one it loses
  it (`MbufPool.Pool.AttachCluster`, `Mbuf.AttachExactly`).
- A key that is replaced while it is acquired is freed, although listed, when it is released
  (`SharedKeys.SafeExactly`, `SharedKeys.ReplacedKeyIsFreed`).
- `usrsctp_accept` takes the socket out of its queue before `soaccept` can fail, and then returns
  nothing: that connection is lost (`AcceptQueue.Stack.UserAccept`).
- `usrsctp_close` empties the queue of completed connections only. A connection that is still
  incomplete keeps a pointer to the freed listener (`AcceptQueue.CloseExactly`).
- `find_free_o_stream` returns stream 1, free or not, when the association has no outgoing stream
  (`DataChannel.NoOutgoingStreamBreaks`); open requests and responses on inbound stream 0 or beyond
  99, and responses for channels the peer opened, break the tables or leave them
  (`DataChannel.StepExactly`, `DataChannel.StepSane`).
- SCTP_SUPPORT_HMAC_SHA256 is tested in `sctp_auth.c` and defined nowhere: the repository builds with
  SHA-1 alone, and there the caches are always right. With the switch on, a receive key of more than
  a block that one algorithm has overwritten with its hash is wrong for the other
  (`Association.AgreeableExactly`, `Association.TwoAlgorithms`).
- Without a receive key `sctp_handle_auth` compares the digest with an uninitialised buffer
  (`Association.DecidedExactly`, `Association.AcceptedWithoutKey`).
- `sctp_zero_m` writes past the end of its first mbuf when the range starts inside an mbuf and goes
  beyond it (`Association.ZeroExactly`, `Association.ZeroEscapes`).
- The test of `ptr` in `lockPtr` matters only to a reader that misses the unsynchronized write
  (`ClosableSocket.FreshLockFindsPointer`, `ClosableSocket.StaleLockNeedsPointerTest`).

## Model

| member | source | states |
|---|---|---|
| Callout.TimerWheel.StartTimer | src/main/native/modified_sctp4natlibs/sctp/usrsctp/usrsctplib/netinet/sctp_callout.c:86-122 | the wheel after a start: a pending timer is requeued at the tail and the cursor moves off it, it is due after the delay, a delay below 1 becomes 1, a null timer or function changes nothing |
| Callout.TimerWheel.StopTimer | src/main/native/modified_sctp4natlibs/sctp/usrsctp/usrsctplib/netinet/sctp_callout.c:124-143 | the wheel after a stop, and 1 exactly if the timer was pending |
| Callout.TimerWheel.HandleTick | src/main/native/modified_sctp4natlibs/sctp/usrsctp/usrsctplib/netinet/sctp_callout.c:145-173 | the loop with the shared cursor terminates, for every behaviour of callbacks and other threads, and does exactly what a cursor-free reference does that works off the list of due timers; nothing queued is due afterwards |
| Callout.TickLeavesNothingDue | src/main/native/modified_sctp4natlibs/sctp/usrsctp/usrsctplib/netinet/sctp_callout.c:152-173 | after a tick no queued timer is due, queue and flags agree, the cursor is null |
| Callout.TickFires | src/main/native/modified_sctp4natlibs/sctp/usrsctp/usrsctplib/netinet/sctp_callout.c:145-173 | a timer due at the start fires, once, exactly unless it is started or stopped during the callback of a fired timer that is due before it; nothing else fires; firing follows queue order, with the function and argument of the latest start |
| Callout.FiresUnlessTouched | src/main/native/modified_sctp4natlibs/sctp/usrsctp/usrsctplib/netinet/sctp_callout.c:152-169 | the same from any point of the tick on: a timer of the agenda fires exactly unless it is touched at the turn of a fired timer that precedes it, and what fires was not touched before |
| Callout.FiredInOrder | src/main/native/modified_sctp4natlibs/sctp/usrsctp/usrsctplib/netinet/sctp_callout.c:152-169 | the timers fired are a subsequence of the due ones, without repetition |
| Callout.RunKeeps | src/main/native/modified_sctp4natlibs/sctp/usrsctp/usrsctplib/netinet/sctp_callout.c:86-173 | over every run of starts, stops and ticks, flags and queue agree and the queue is ordered by latest start |
| Callout.FiresInStartOrder | src/main/native/modified_sctp4natlibs/sctp/usrsctp/usrsctplib/netinet/sctp_callout.c:86-173 | in every run, each tick fires in the order of latest start |
| Callout.StartWaits | src/main/native/modified_sctp4natlibs/sctp/usrsctp/usrsctplib/netinet/sctp_callout.c:86-173 | one start, on any wheel, and any quiet events after it: no firing before the delay, of one tick at least, is over; the first tick by which it is calls that function with that argument, exactly unless the callback of a timer started earlier restarts or stops it |
| Callout.FiresAsPromised | src/main/native/modified_sctp4natlibs/sctp/usrsctp/usrsctplib/netinet/sctp_callout.c:86-173 | over every run, with starts in callbacks too: a tick calls a timer exactly if its last start, with no stop or firing since, promised a call by then and no timer started earlier forestalls it; with the function and argument of that start |
| Callout.SkipResumes | src/main/native/modified_sctp4natlibs/sctp/usrsctp/usrsctplib/netinet/sctp_callout.c:165-167 | a timer not due is passed over without changing what the rest of the tick does |
| Callout.FireResumes | src/main/native/modified_sctp4natlibs/sctp/usrsctp/usrsctplib/netinet/sctp_callout.c:153-164 | firing one timer and then any starts and stops leaves the cursor loop and the reference in step, with fewer due timers pending |
| ClosableSocket.Socket.LockPtr | src/main/java/net/sctp4nat/origin/SctpSocket.java:410-428 | one synchronized block: refuse when closed or when the pointer is gone, else count one more reader |
| ClosableSocket.Socket.UnlockPtr | src/main/java/net/sctp4nat/origin/SctpSocket.java:673-696 | one synchronized block: the last reader of a closed socket takes the pointer |
| ClosableSocket.Socket.TakeForClosing | src/main/java/net/sctp4nat/origin/SctpSocket.java:339-348 | one synchronized block: the closer takes the pointer unless there are readers |
| ClosableSocket.Socket.Create | src/main/java/net/sctp4nat/origin/SctpSocket.java:263-268 | a null pointer is refused |
| ClosableSocket.NextKeepsInv | src/main/java/net/sctp4nat/origin/SctpSocket.java:327-351 | every step keeps the pointer in exactly one place: the field, one local variable, or the one call of closeSocket |
| ClosableSocket.RunKeepsInv | src/main/java/net/sctp4nat/origin/SctpSocket.java:327-351 | so does every interleaving of any number of readers and closers |
| ClosableSocket.ReachableIsSafe | src/main/java/net/sctp4nat/origin/SctpSocket.java:673-696 | after every interleaving closeSocket has been called at most once, on the right pointer, not while a reader holds it; the count is the number of readers; "Unbalanced" is unreachable |
| ClosableSocket.NativeCallsAreLive | src/main/java/net/sctp4nat/origin/SctpSocket.java:410-428 | a native call starts only on the live pointer, before anybody took it |
| ClosableSocket.QuiescentIsClosed | src/main/java/net/sctp4nat/origin/SctpSocket.java:327-351 | when all invocations are over and one was closeNative, closeSocket ran exactly once |
| ClosableSocket.LastReaderCloses | src/main/java/net/sctp4nat/origin/SctpSocket.java:673-696 | a run in which the closer finds a reader and that reader closes: the theorems on finished runs speak about something |
| ClosableSocket.FreshLockFindsPointer | src/main/java/net/sctp4nat/origin/SctpSocket.java:414-425 | a reader that sees the latest `closed` is never refused by the test of the pointer |
| ClosableSocket.StaleLockNeedsPointerTest | src/main/java/net/sctp4nat/origin/SctpSocket.java:414-425 | a reader that missed the unsynchronized write is stopped by that test only: a concrete run |
| Mbuf.LiveExactlyWhileUsed | src/main/native/modified_sctp4natlibs/sctp/usrsctp/usrsctplib/user_mbuf.c:614-675 | a cluster is live exactly while some live mbuf uses it, and its count is their number |
| Mbuf.GoodDetermined | src/main/native/modified_sctp4natlibs/sctp/usrsctp/usrsctplib/user_mbuf.c:614-675 | mbufs and cluster bytes determine the reference counts |
| Mbuf.FreeGood | src/main/native/modified_sctp4natlibs/sctp/usrsctp/usrsctplib/user_mbuf.c:188-205 | freeing any mbuf keeps the counts exact |
| Mbuf.ShareGood | src/main/native/modified_sctp4natlibs/sctp/usrsctp/usrsctplib/user_mbuf.c:951-970 | sharing a cluster keeps the counts exact |
| Mbuf.AttachExactly | src/main/native/modified_sctp4natlibs/sctp/usrsctp/usrsctplib/user_mbuf.c:207-260 | a new cluster is counted once, and all counts are exact afterwards exactly if the mbuf had no cluster |
| MbufPool.FreedCluster | src/main/native/modified_sctp4natlibs/sctp/usrsctp/usrsctplib/user_mbuf.c:614-650 | freeing an mbuf frees a cluster exactly if the mbuf was its last user |
| MbufPool.Pool.GetMbuf | src/main/native/modified_sctp4natlibs/sctp/usrsctp/usrsctplib/user_mbuf.c:109-185 | a new empty mbuf exactly if there is memory, else no effect |
| MbufPool.Pool.AttachCluster | src/main/native/modified_sctp4natlibs/sctp/usrsctp/usrsctplib/user_mbuf.c:207-287 | the mbuf has a new cluster, counted once, its data pointer at the start; without memory it is marked as having one that is not there: the heap is in order exactly if there was memory and the mbuf had no cluster |
| MbufPool.Pool.FreeMbuf | src/main/native/modified_sctp4natlibs/sctp/usrsctp/usrsctplib/user_mbuf.c:188-205 | the mbuf is gone, its cluster with its last user; the next mbuf is returned |
| MbufPool.Pool.FreeChain | src/main/native/modified_sctp4natlibs/sctp/usrsctp/usrsctplib/user_mbuf.c:602-607 | exactly the mbufs of the chain are gone |
| MbufPool.Pool.ShareCluster | src/main/native/modified_sctp4natlibs/sctp/usrsctp/usrsctplib/user_mbuf.c:951-970 | one more user of the cluster, counted |
| MbufPool.Pool.Cat | src/main/native/modified_sctp4natlibs/sctp/usrsctp/usrsctplib/user_mbuf.c:1243-1260 | the chain has the bytes of the first chain followed by those of the second; absorbed mbufs are freed; nothing else changes |
| MbufPool.Pool.PullUp | src/main/native/modified_sctp4natlibs/sctp/usrsctp/usrsctplib/user_mbuf.c:702-754 | terminates; bytes unchanged, at least `len` of them in the first mbuf, header kept; null exactly for a short chain, or a needed mbuf with `len > MHLEN` or no memory, and then the chain is freed |
| MbufPool.Pool.Fill | src/main/native/modified_sctp4natlibs/sctp/usrsctp/usrsctplib/user_mbuf.c:731-743 | the copying loop: the space left never falls below the bytes still wanted, bytes are conserved |
| MbufPool.Pool.Split | src/main/native/modified_sctp4natlibs/sctp/usrsctp/usrsctplib/user_mbuf.c:1350-1406 | the chain keeps its first `len0` bytes, the rest is returned, header lengths add up, every mbuf of the chain is on one side and every new one in the rest; a chain that is too short is unchanged; it fails exactly if an allocation that the cut needs fails, and what the heap is then |
| MbufPool.FailureRestoresExactly | src/main/native/modified_sctp4natlibs/sctp/usrsctp/usrsctplib/user_mbuf.c:1340-1382 | whichever allocation fails, the heap is as it was, exactly unless a packet is cut in an mbuf without cluster with more than MHLEN bytes behind the cut (and its recorded length changes) |
| MbufPool.FailureLeavesTrace | src/main/native/modified_sctp4natlibs/sctp/usrsctp/usrsctplib/user_mbuf.c:1371-1377 | a packet of two mbufs for which the second allocation fails after the header was changed |
| MbufPool.Pool.SplitDeep | src/main/native/modified_sctp4natlibs/sctp/usrsctp/usrsctplib/user_mbuf.c:1371-1382 | the recursive case: an empty header mbuf in front of the split of the remaining chain |
| MbufPool.Pool.SplitPacket | src/main/native/modified_sctp4natlibs/sctp/usrsctp/usrsctplib/user_mbuf.c:1362-1383 | the case with a packet header: exactly which allocations make it fail, and that only the second one leaves the header changed |
| MbufPool.Pool.SplitPlain | src/main/native/modified_sctp4natlibs/sctp/usrsctp/usrsctplib/user_mbuf.c:1384-1405 | the case without one, null standing for an empty rest |
| MbufPool.Pool.Cut | src/main/native/modified_sctp4natlibs/sctp/usrsctp/usrsctplib/user_mbuf.c:1394-1405 | sharing or copying the bytes behind the cut |
| MbufPool.Pool.SplitThenCat | src/main/native/modified_sctp4natlibs/sctp/usrsctp/usrsctplib/user_mbuf.c:1243-1260 | `m_cat` after `m_split` restores the original bytes in every case |
| MbufPool.Pool.CopyM | src/main/native/modified_sctp4natlibs/sctp/usrsctp/usrsctplib/user_mbuf.c:980-1043 | a new chain with exactly the bytes asked for, one mbuf for each mbuf of the original that holds some of them; it fails exactly if one of these allocations fails, and leaves the heap as it was; the original is untouched |
| MbufPool.Pool.CopyPiece | src/main/native/modified_sctp4natlibs/sctp/usrsctp/usrsctplib/user_mbuf.c:1007-1028 | one mbuf of the copy, exactly if there is memory: a shared cluster or copied bytes |
| Keys.CompareKey | src/main/native/modified_sctp4natlibs/sctp/usrsctp/usrsctplib/netinet/sctp_auth.c:353-398 | the left-padding loop answers -1, 0 or 1 exactly for the smaller number, the same key, or the larger one, length deciding between equal numbers |
| Keys.KeyOrderIsTotal | src/main/native/modified_sctp4natlibs/sctp/usrsctp/usrsctplib/netinet/sctp_auth.c:347-398 | a total order on byte strings of any lengths, 0 only for identical keys |
| Keys.ComputeHashKey | src/main/native/modified_sctp4natlibs/sctp/usrsctp/usrsctplib/netinet/sctp_auth.c:404-457 | shared key, smaller vector, larger vector; none exactly when all are empty or memory is short |
| Keys.HashKeySymmetric | src/main/native/modified_sctp4natlibs/sctp/usrsctp/usrsctplib/netinet/sctp_auth.c:404-457 | both peers derive one key |
| Keys.HashKeyShape | src/main/native/modified_sctp4natlibs/sctp/usrsctp/usrsctplib/netinet/sctp_auth.c:433-455 | the derived key, and no other, is the shared key followed by the vectors, the smaller one first; no byte is lost or invented |
| ChunkList.List.AddChunk | src/main/native/modified_sctp4natlibs/sctp/usrsctp/usrsctplib/netinet/sctp_auth.c:106-127 | types 1, 2, 14 and 15 are refused, any other is flagged and counted once, and no other flag changes |
| ChunkList.List.DeleteChunk | src/main/native/modified_sctp4natlibs/sctp/usrsctp/usrsctplib/netinet/sctp_auth.c:132-146 | the flag and its count go, and no other flag changes |
| ChunkList.RunCounts | src/main/native/modified_sctp4natlibs/sctp/usrsctp/usrsctplib/netinet/sctp_auth.c:106-146 | in every run the `uint8_t` counter is the number of flags, at most 252 |
| ChunkList.List.Pack | src/main/native/modified_sctp4natlibs/sctp/usrsctp/usrsctplib/netinet/sctp_auth.c:178-208 | byte list up to 32 types, else bits or-ed into the buffer; nothing behind is touched |
| ChunkList.List.Unpack | src/main/native/modified_sctp4natlibs/sctp/usrsctp/usrsctplib/netinet/sctp_auth.c:210-240 | the types that the buffer asks for, restricted ones excepted, join the list |
| ChunkList.RoundTrip | src/main/native/modified_sctp4natlibs/sctp/usrsctp/usrsctplib/netinet/sctp_auth.c:178-240 | packing into zeroed memory and unpacking into a cleared list gives the same list, in both forms |
| ChunkList.WithBits | src/main/native/modified_sctp4natlibs/sctp/usrsctp/usrsctplib/netinet/sctp_auth.c:196-202 | setting one bit changes no other |
| SharedKeys.KeyStore.Find | src/main/native/modified_sctp4natlibs/sctp/usrsctp/usrsctplib/netinet/sctp_auth.c:491-501 | finds the key exactly if the map has it |
| SharedKeys.KeyStore.InsertSharedKey | src/main/native/modified_sctp4natlibs/sctp/usrsctp/usrsctplib/netinet/sctp_auth.c:503-548 | the new key is on the list instead of the one with its id, and all others stay; EBUSY exactly if that one is deactivated and in use, and then nothing changes; the list stays ascending; the final return is for a null key only |
| SharedKeys.KeyStore.DeleteSharedKey | src/main/native/modified_sctp4natlibs/sctp/usrsctp/usrsctplib/netinet/sctp_auth.c:1253-1281 | refused for the active, a missing or a referenced key, else it goes and the others stay |
| SharedKeys.KeyStore.SetActiveKey | src/main/native/modified_sctp4natlibs/sctp/usrsctp/usrsctplib/netinet/sctp_auth.c:1319-1341 | refused for a missing or a deactivated key in use, else the key is active and not deactivated |
| SharedKeys.KeyStore.DeactivateKey | src/main/native/modified_sctp4natlibs/sctp/usrsctp/usrsctplib/netinet/sctp_auth.c:1366-1394 | refused for the active or a missing key, else it is deactivated |
| SharedKeys.KeyStore.AcquireKey | src/main/native/modified_sctp4natlibs/sctp/usrsctp/usrsctplib/netinet/sctp_auth.c:550-565 | one more reference on that key, if it is listed, and nothing else |
| SharedKeys.KeyStore.ReleaseKey | src/main/native/modified_sctp4natlibs/sctp/usrsctp/usrsctplib/netinet/sctp_auth.c:567-596 | one reference fewer; exactly at one reference the key is freed and stays on the list |
| SharedKeys.RunTells | src/main/native/modified_sctp4natlibs/sctp/usrsctp/usrsctplib/netinet/sctp_auth.c:503-596 | over every run, calls and answers alone tell which ids are listed, the key each stands for (that of its last accepted insertion), which are deactivated, and which is active |
| SharedKeys.ActiveStaysUsable | src/main/native/modified_sctp4natlibs/sctp/usrsctp/usrsctplib/netinet/sctp_auth.c:1253-1394 | a run leaves a state exactly if no release in it frees a listed key, and then the active key is present and not deactivated |
| SharedKeys.SafeExactly | src/main/native/modified_sctp4natlibs/sctp/usrsctp/usrsctplib/netinet/sctp_auth.c:478-596 | over every run: something is freed while listed exactly when a release finds one reference |
| SharedKeys.ReplacedKeyIsFreed | src/main/native/modified_sctp4natlibs/sctp/usrsctp/usrsctplib/netinet/sctp_auth.c:503-596 | acquire, replace, release frees the new key while it is listed |
| SharedKeys.BalancedIsSafe | src/main/native/modified_sctp4natlibs/sctp/usrsctp/usrsctplib/netinet/sctp_auth.c:550-596 | callers that release what they acquired, with no acquired key replaced, never do that: a count is one more than its users. `SafeExactly` names the release that frees; this names the callers that never get there |
| SharedKeys.DeletedStaysAway | src/main/native/modified_sctp4natlibs/sctp/usrsctp/usrsctplib/netinet/sctp_auth.c:1253-1281 | a key id that is absent stays absent until it is inserted |
| SharedKeys.KeysKeepTheirBytes | src/main/native/modified_sctp4natlibs/sctp/usrsctp/usrsctplib/netinet/sctp_auth.c:503-596 | only inserting a key id changes the key it stands for, in every run in which no listed key is freed |
| Hmac.HmacFlat | src/main/native/modified_sctp4natlibs/sctp/usrsctp/usrsctplib/netinet/sctp_auth.c:947-1004 | a digest exactly if neither key nor text is empty and the algorithm is known; it is H(o + H(i + text)) for the 64-byte blocks i and o that are the key, bit for bit, flipped by 0x36 and 0x5c |
| Hmac.HmacChain | src/main/native/modified_sctp4natlibs/sctp/usrsctp/usrsctplib/netinet/sctp_auth.c:1007-1083 | the same for the concatenated bytes from the offset to the trailer, for every segmentation; memory behind is read exactly if the trailer does not fit the last segment |
| Hmac.MacIsHmac | src/main/native/modified_sctp4natlibs/sctp/usrsctp/usrsctplib/netinet/sctp_auth.c:974-1004 | there is exactly one digest that section 2 of RFC 2104 allows, and it is the one computed |
| Hmac.FeedChain | src/main/native/modified_sctp4natlibs/sctp/usrsctp/usrsctplib/netinet/sctp_auth.c:1052-1073 | the segments feed the hash with the text, nothing skipped or repeated, or the trailer does not fit |
| Hmac.ChainRefinesFlat | src/main/native/modified_sctp4natlibs/sctp/usrsctp/usrsctplib/netinet/sctp_auth.c:947-1083 | the two forms agree exactly when there is a text (or nothing to compute) |
| Hmac.SegmentationIrrelevant | src/main/native/modified_sctp4natlibs/sctp/usrsctp/usrsctplib/netinet/sctp_auth.c:1052-1073 | equal bytes, equal digests |
| Hmac.ComputeHmacChain | src/main/native/modified_sctp4natlibs/sctp/usrsctp/usrsctplib/netinet/sctp_auth.c:1158-1188 | the digest, and the key structure afterwards |
| Hmac.HarmlessExactly | src/main/native/modified_sctp4natlibs/sctp/usrsctp/usrsctplib/netinet/sctp_auth.c:1175-1186 | overwriting a key with its hash changes no later digest, whatever the hash functions, exactly for one algorithm or a key of at most a block; always, in a build with SHA-1 alone |
| Hmac.MixedDigestsDiffer | src/main/native/modified_sctp4natlibs/sctp/usrsctp/usrsctplib/netinet/sctp_auth.c:1175-1186 | in a build with two algorithms, hash functions for which every digest under the second one is wrong, for every over-long key and every text |
| Association.NegotiateHmacId | src/main/native/modified_sctp4natlibs/sctp/usrsctp/usrsctplib/netinet/sctp_auth.c:740-761 | the first of the peer's algorithms that is supported, 0 if there is none |
| Association.IsSupportedHmac | src/main/native/modified_sctp4natlibs/sctp/usrsctp/usrsctplib/netinet/sctp_auth.c:1190-1205 | listed and not the reserved id |
| Association.Tcb.ClearCachedKeys | src/main/native/modified_sctp4natlibs/sctp/usrsctp/usrsctplib/netinet/sctp_auth.c:1212-1226 | the caches for that id are empty, others stay |
| Association.Tcb.SetKey | src/main/native/modified_sctp4natlibs/sctp/usrsctp/usrsctplib/netinet/sctp_usrreq.c:5083-5111 | an accepted key is the one found afterwards; caches stay right, also when there is no memory for it |
| Association.Tcb.DeleteKey | src/main/native/modified_sctp4natlibs/sctp/usrsctp/usrsctplib/netinet/sctp_auth.c:1253-1281 | caches stay right when a key is deleted |
| Association.Tcb.ActivateOrDeactivate | src/main/native/modified_sctp4natlibs/sctp/usrsctp/usrsctplib/netinet/sctp_auth.c:1319-1394 | caches stay right when a key is made active or deactivated |
| Association.Tcb.AcquireOrRelease | src/main/native/modified_sctp4natlibs/sctp/usrsctp/usrsctplib/netinet/sctp_auth.c:550-596 | caches stay right when a key is acquired or released, even when that frees a listed key |
| Association.Tcb.FillHmacDigest | src/main/native/modified_sctp4natlibs/sctp/usrsctp/usrsctplib/netinet/sctp_auth.c:1566-1614 | the packet is what signing with a freshly concatenated key makes of it, cached or not |
| Association.Packet.Zero | src/main/native/modified_sctp4natlibs/sctp/usrsctp/usrsctplib/netinet/sctp_auth.c:1617-1647 | the chain that the two loops leave, or that they wrote past the end of an mbuf |
| Association.ZeroExactly | src/main/native/modified_sctp4natlibs/sctp/usrsctp/usrsctplib/netinet/sctp_auth.c:1617-1647 | for a range inside the chain: nothing is written out of bounds exactly if the range starts an mbuf or ends in the one where it starts, and then exactly the range is zeroed |
| Association.ZeroEscapes | src/main/native/modified_sctp4natlibs/sctp/usrsctp/usrsctplib/netinet/sctp_auth.c:1634-1640 | two mbufs of two bytes, zeroing two bytes from the second on: the write leaves the first mbuf |
| Association.Tcb.HandleAuth | src/main/native/modified_sctp4natlibs/sctp/usrsctp/usrsctplib/netinet/sctp_auth.c:1655-1770 | 0 for exactly the packets that the key at hand accepts, and for exactly the authentic ones whenever the cached key has been used by the same algorithm only, is at most a block long, or the build has SHA-1 alone; every refusal, and exactly when the digest is zeroed out of bounds |
| Association.AuthenticExactly | src/main/native/modified_sctp4natlibs/sctp/usrsctp/usrsctplib/netinet/sctp_auth.c:1655-1770 | authentic packets byte by byte: big-endian fields, a listed id and algorithm, and as digest the HMAC of the chunk with zeros for the digest, under the key of section 6.1 of RFC 4895 |
| Hmac.TellingExactly | src/main/native/modified_sctp4natlibs/sctp/usrsctp/usrsctplib/netinet/sctp_auth.c:1175-1186 | there are such hash functions exactly for two algorithms and a key of more than a block |
| Association.AgreeableExactly | src/main/native/modified_sctp4natlibs/sctp/usrsctp/usrsctplib/netinet/sctp_auth.c:1711-1760 | that condition is exact: it holds iff no digest differs, whatever the hash functions |
| Association.DecidedExactly | src/main/native/modified_sctp4natlibs/sctp/usrsctp/usrsctplib/netinet/sctp_auth.c:1711-1769 | for a packet that gets as far as its digest: the verdict does not depend on what the stack holds exactly if there is a key (or no digest to compare) |
| Association.AcceptedWithoutKey | src/main/native/modified_sctp4natlibs/sctp/usrsctp/usrsctplib/netinet/sctp_auth.c:1711-1769 | every presentable packet that is not authentic is accepted, when there is no memory for a key and the stack holds its digest |
| Association.VerdictIsAuthentic | src/main/native/modified_sctp4natlibs/sctp/usrsctp/usrsctplib/netinet/sctp_auth.c:1711-1769 | under it the verdict with the cached key is the verdict with a fresh one |
| Association.SecondAlgorithmRefused | src/main/native/modified_sctp4natlibs/sctp/usrsctp/usrsctplib/netinet/sctp_auth.c:1711-1769 | without it every authentic packet is refused, for hash functions that tell the two keys apart |
| Association.TwoAlgorithms | src/main/native/modified_sctp4natlibs/sctp/usrsctp/usrsctplib/netinet/sctp_auth.c:1655-1770 | two packets in a row that show it |
| Association.SignThenVerify | src/main/native/modified_sctp4natlibs/sctp/usrsctp/usrsctplib/netinet/sctp_auth.c:1566-1770 | mirrored ends with the same key for the id: whatever one signs, the other finds authentic |
| Association.Exchange | src/main/native/modified_sctp4natlibs/sctp/usrsctp/usrsctplib/netinet/sctp_auth.c:740-1770 | negotiation, signing, other segments on the way, and the other end accepts |
| Association.SignedFields | src/main/native/modified_sctp4natlibs/sctp/usrsctp/usrsctplib/netinet/sctp_output.c:14874-14883 | the signed chunk carries key id, HMAC id and its own digest, and no other byte changes |
| Association.UnsignedFields | src/main/native/modified_sctp4natlibs/sctp/usrsctp/usrsctplib/netinet/sctp_auth.c:1566-1614 | without a key it carries key id and zeros |
| Association.DeletedKeyVerifiesNothing | src/main/native/modified_sctp4natlibs/sctp/usrsctp/usrsctplib/netinet/sctp_auth.c:1253-1281 | after a deletion no packet with that key id is authentic, in any run, until the id is inserted |
| AcceptQueue.Stack.SoCreate | src/main/native/modified_sctp4natlibs/sctp/usrsctp/usrsctplib/user_socket.c:1255-1316 | a new socket of its own, with one reference |
| AcceptQueue.Stack.SoListen | src/main/native/modified_sctp4natlibs/sctp/usrsctp/usrsctplib/user_socket.c:1691-1703 | the backlog, or 128 for one out of range |
| AcceptQueue.Stack.SoNewConn | src/main/native/modified_sctp4natlibs/sctp/usrsctp/usrsctplib/user_socket.c:454-557 | refused over 3q/2, else queued; the eviction loop makes room first |
| AcceptQueue.Stack.SoIsConnected | src/main/native/modified_sctp4natlibs/sctp/usrsctp/usrsctplib/user_socket.c:421-443 | an incomplete socket moves to the end of the completed ones |
| AcceptQueue.Stack.UserAccept | src/main/native/modified_sctp4natlibs/sctp/usrsctp/usrsctplib/user_socket.c:1750-1816 | hands out the first completed socket exactly if the socket listens, there is one, and no error comes in between; a pending error changes no queue; after an error of `soaccept` the socket has left its queue and nobody has it |
| AcceptQueue.Stack.PeelOffAssoc | src/main/native/modified_sctp4natlibs/sctp/usrsctp/usrsctplib/user_socket.c:1951-1978 | the new socket passes through the queue and leaves it as it was |
| AcceptQueue.Stack.SoFree | src/main/native/modified_sctp4natlibs/sctp/usrsctp/usrsctplib/user_socket.c:243-302 | only an unreferenced incomplete socket goes, and leaves its queue |
| AcceptQueue.Stack.UsrClose | src/main/native/modified_sctp4natlibs/sctp/usrsctp/usrsctplib/user_socket.c:2160-2182 | drains the completed queue; all is consistent afterwards exactly if no connection was incomplete |
| AcceptQueue.NewConnectionExactly | src/main/native/modified_sctp4natlibs/sctp/usrsctp/usrsctplib/user_socket.c:454-557 | refused exactly if twice the completed ones exceed three times the limit, or for want of resources; else the new socket is the last of its queue, the oldest incomplete ones beyond the limit are freed, and all others are as they were |
| AcceptQueue.ConnectedExactly | src/main/native/modified_sctp4natlibs/sctp/usrsctp/usrsctplib/user_socket.c:421-443 | an incomplete socket becomes the last completed one, any other stays what it is |
| AcceptQueue.AcceptedExactly | src/main/native/modified_sctp4natlibs/sctp/usrsctp/usrsctplib/user_socket.c:1796-1814 | the first completed socket, if there is one, is taken out, referenced and nobody else changed |
| AcceptQueue.ReleasedExactly | src/main/native/modified_sctp4natlibs/sctp/usrsctp/usrsctplib/user_socket.c:243-302 | exactly incomplete sockets are freed, and leave their queue |
| AcceptQueue.ClosedExactly | src/main/native/modified_sctp4natlibs/sctp/usrsctp/usrsctplib/user_socket.c:2160-2182 | the completed sockets of a listener are freed, the socket goes with its last reference, all others stay |
| AcceptQueue.TrimmedKeeps | src/main/native/modified_sctp4natlibs/sctp/usrsctp/usrsctplib/user_socket.c:535-545 | the eviction loop keeps the newest `so_qlimit` sockets |
| AcceptQueue.CloseExactly | src/main/native/modified_sctp4natlibs/sctp/usrsctp/usrsctplib/user_socket.c:2160-2182 | closing leaves no pointer to the freed listener exactly when its incomplete queue is empty |
| AcceptQueue.CloseLeavesDangling | src/main/native/modified_sctp4natlibs/sctp/usrsctp/usrsctplib/user_socket.c:2160-2182 | a run of four calls that leaves such a pointer |
| AcceptQueue.StepKeepsGood | src/main/native/modified_sctp4natlibs/sctp/usrsctp/usrsctplib/user_socket.c:421-557 | each call keeps counters, queues, flags and `so_head` consistent, exactly if it is not such a close |
| AcceptQueue.RunKeepsGood | src/main/native/modified_sctp4natlibs/sctp/usrsctp/usrsctplib/user_socket.c:243-557 | so does every run |
| AcceptQueue.RunIsFifo | src/main/native/modified_sctp4natlibs/sctp/usrsctp/usrsctplib/user_socket.c:1796-1814 | over every run, the line of a listener grows by exactly the sockets that complete, in that order; what was handed out is its beginning, none twice |
| AcceptQueue.RunServes | src/main/native/modified_sctp4natlibs/sctp/usrsctp/usrsctplib/user_socket.c:1796-1814 | over every run, of the sockets in line at the start as many as there are accepts, or all, are handed out, and never more than accepts |
| AcceptQueue.RunBounded | src/main/native/modified_sctp4natlibs/sctp/usrsctp/usrsctplib/user_socket.c:460-549 | over every run with a fixed backlog q the queues hold at most 3q/2 + q + 2 sockets |
| AcceptQueue.BoundIsTight | src/main/native/modified_sctp4natlibs/sctp/usrsctp/usrsctplib/user_socket.c:460-549 | a run that reaches the bound, for every backlog |
| DataChannel.PeerConnection.constructor | src/main/native/modified_sctp4natlibs/sctp/usrsctp/programs/rtcweb.c:148-175 | all channels closed, all tables empty |
| DataChannel.PeerConnection.FindFreeChannel | src/main/native/modified_sctp4natlibs/sctp/usrsctp/programs/rtcweb.c:219-234 | the first closed channel |
| DataChannel.PeerConnection.FindFreeOStream | src/main/native/modified_sctp4natlibs/sctp/usrsctp/programs/rtcweb.c:236-264 | the first free outgoing stream, 0 if none, 1 if there are no streams |
| DataChannel.PeerConnection.OpenChannel | src/main/native/modified_sctp4natlibs/sctp/usrsctp/programs/rtcweb.c:439-487 | `open_channel`, for every outcome of the send (what that is: `OpenedByStream`) |
| DataChannel.PeerConnection.HandleOpenRequest | src/main/native/modified_sctp4natlibs/sctp/usrsctp/programs/rtcweb.c:593-675 | the peer after an open request; the table is written out of bounds exactly for an id of 100 or more that is acted on |
| DataChannel.PeerConnection.HandleOpenResponse | src/main/native/modified_sctp4natlibs/sctp/usrsctp/programs/rtcweb.c:677-711 | the peer after an open response; out of bounds likewise |
| DataChannel.PeerConnection.HandleAckOrData | src/main/native/modified_sctp4natlibs/sctp/usrsctp/programs/rtcweb.c:713-769 | the peer after an ack or data |
| DataChannel.PeerConnection.ResetOutgoingStream | src/main/native/modified_sctp4natlibs/sctp/usrsctp/programs/rtcweb.c:531-543 | the write is inside the buffer; no stream is entered twice |
| DataChannel.PeerConnection.SendOutgoingStreamReset | src/main/native/modified_sctp4natlibs/sctp/usrsctp/programs/rtcweb.c:545-576 | the request lists every pending stream; the buffer is emptied exactly if it could be made |
| DataChannel.PeerConnection.SendDeferredMessages | src/main/native/modified_sctp4natlibs/sctp/usrsctp/programs/rtcweb.c:400-437 | each deferred message that could be sent is deferred no more, and nothing else changes |
| DataChannel.PeerConnection.CloseChannel | src/main/native/modified_sctp4natlibs/sctp/usrsctp/programs/rtcweb.c:578-591 | `close_channel` (what that is: `ClosedByStream`) |
| DataChannel.PeerConnection.HandleStreamReset | src/main/native/modified_sctp4natlibs/sctp/usrsctp/programs/rtcweb.c:964-1030 | the peer after resets of any list of streams |
| DataChannel.PeerConnection.HandleStreamChange | src/main/native/modified_sctp4natlibs/sctp/usrsctp/programs/rtcweb.c:1032-1076 | the peer after streams were added or refused, with the number of streams that each waiting channel finds (what that is: `ChangedByStream`) |
| DataChannel.FreeOutByStream | src/main/native/modified_sctp4natlibs/sctp/usrsctp/programs/rtcweb.c:236-264 | the new stream is the lowest one below the number of streams that no channel has; none exactly if all are taken or the number is not known; 1 if there are none |
| DataChannel.OpenedByStream | src/main/native/modified_sctp4natlibs/sctp/usrsctp/programs/rtcweb.c:439-487 | the first closed channel connects on that stream with the parameters given, the request deferred if it could not be sent yet; after another error all is as before; no other channel changes |
| DataChannel.RequestedByStream | src/main/native/modified_sctp4natlibs/sctp/usrsctp/programs/rtcweb.c:593-675 | an open request connects the first closed channel unless a channel has its stream; likewise |
| DataChannel.RespondedByStream | src/main/native/modified_sctp4natlibs/sctp/usrsctp/programs/rtcweb.c:677-711 | a response opens exactly the connecting channel with the stream it names, if its own stream is new |
| DataChannel.AcknowledgedByStream | src/main/native/modified_sctp4natlibs/sctp/usrsctp/programs/rtcweb.c:713-769 | an ack or data opens exactly the connecting channel with its stream |
| DataChannel.ResetInByStream | src/main/native/modified_sctp4natlibs/sctp/usrsctp/programs/rtcweb.c:986-1009 | exactly the channel with the stream loses it: closed if it has no other, closing with its outgoing stream pending if it was open |
| DataChannel.ResetOutByStream | src/main/native/modified_sctp4natlibs/sctp/usrsctp/programs/rtcweb.c:1011-1025 | exactly the channel with the stream loses it, and is closed if it has no other |
| DataChannel.ClosedByStream | src/main/native/modified_sctp4natlibs/sctp/usrsctp/programs/rtcweb.c:578-591 | an open channel is closing, nothing else changes, and its stream is pending, or in the request that was made |
| DataChannel.ChangedByStream | src/main/native/modified_sctp4natlibs/sctp/usrsctp/programs/rtcweb.c:1032-1076 | waiting channels are all closed, or get streams one after another until there are no more |
| DataChannel.RunOwes | src/main/native/modified_sctp4natlibs/sctp/usrsctp/programs/rtcweb.c:531-591 | over every proper run, the outgoing stream of every closing channel is pending, or its reset was asked for and has not been reported |
| DataChannel.PendingFits | src/main/native/modified_sctp4natlibs/sctp/usrsctp/programs/rtcweb.c:531-543 | by the pigeonhole principle the write index is below 100 |
| DataChannel.StepSane | src/main/native/modified_sctp4natlibs/sctp/usrsctp/programs/rtcweb.c:593-711 | a handler writes outside its arrays exactly when an open request or response is acted on for an inbound id of 100 or more |
| DataChannel.RunStaysInBounds | src/main/native/modified_sctp4natlibs/sctp/usrsctp/programs/rtcweb.c:531-591 | over every run with inbound ids below 100 nothing is written out of bounds and pending resets are distinct, even if sending them keeps failing |
| DataChannel.StepExactly | src/main/native/modified_sctp4natlibs/sctp/usrsctp/programs/rtcweb.c:439-1076 | each event keeps the tables inverse exactly when it meets the stated condition |
| DataChannel.OpenedExactly | src/main/native/modified_sctp4natlibs/sctp/usrsctp/programs/rtcweb.c:439-487 | for `open_channel`: exactly unless stream 1 is given away |
| DataChannel.RequestedExactly | src/main/native/modified_sctp4natlibs/sctp/usrsctp/programs/rtcweb.c:593-675 | for open requests: exactly unless the id is 0 or stream 1 is given away |
| DataChannel.RespondedExactly | src/main/native/modified_sctp4natlibs/sctp/usrsctp/programs/rtcweb.c:677-711 | for open responses: exactly for ids other than 0 and channels without an incoming stream |
| DataChannel.ChangedExactly | src/main/native/modified_sctp4natlibs/sctp/usrsctp/programs/rtcweb.c:1032-1076 | for added streams: exactly unless a waiting channel that gets its turn finds no stream at all while stream 1 is taken |
| DataChannel.RunStaysInverse | src/main/native/modified_sctp4natlibs/sctp/usrsctp/programs/rtcweb.c:439-1076 | over every run of events that meet those conditions the tables are inverse and closed channels own nothing |
| DataChannel.RunInverseExactly | src/main/native/modified_sctp4natlibs/sctp/usrsctp/programs/rtcweb.c:439-1076 | the tables are inverse after every event of a run exactly if each event meets its condition when it comes |
| DataChannel.PoliteIsProper | src/main/native/modified_sctp4natlibs/sctp/usrsctp/programs/rtcweb.c:439-1076 | so it is with inbound ids 1 to 99, outgoing streams, and responses for channels without an incoming stream |
| DataChannel.NoGiftWithoutStreams | src/main/native/modified_sctp4natlibs/sctp/usrsctp/programs/rtcweb.c:248-263 | if no channel finds a stream, the condition is that at most one waits, and none when stream 1 is taken |
| DataChannel.NoSharing | src/main/native/modified_sctp4natlibs/sctp/usrsctp/programs/rtcweb.c:439-1076 | no two channels share a stream |
| DataChannel.StreamZeroBreaks | src/main/native/modified_sctp4natlibs/sctp/usrsctp/programs/rtcweb.c:649-652 | an open request on stream 0 breaks the tables |
| DataChannel.StreamHundredEscapes | src/main/native/modified_sctp4natlibs/sctp/usrsctp/programs/rtcweb.c:652 | an open request on stream 100 writes behind the table |
| DataChannel.NoOutgoingStreamBreaks | src/main/native/modified_sctp4natlibs/sctp/usrsctp/programs/rtcweb.c:248-263 | with no outgoing streams, stream 1 is given to two channels |
| DataChannel.StrayResponseBreaks | src/main/native/modified_sctp4natlibs/sctp/usrsctp/programs/rtcweb.c:697-704 | a response for a channel the peer opened leaves a stale entry |

## Left out

- Callout.TimerWheel.HandleTick: does not model the wrap-around of the `int` tick count; `sctp_os_timer_init` on a pending timer is not modelled.
- ClosableSocket: reuse of a native address after close; every socket has a pointer of its own.
- MbufPool.Pool.CopyM: lengths are at most M_COPYALL and the offset is inside the chain, as its assertions demand; `MbufPool.Pool.Split` has no negative lengths.
- MbufPool.Pool.AttachCluster: the sizes MLEN 216 and MHLEN 176 are those of a 64-bit target.
- `m_pulldown`, `m_dup1`, `m_adj`, `m_copyback`, `m_copydata`, packet tags and M_NOFREE: unfinished paths, or operations that would only add easier members.
- SharedKeys.KeyStore.ReleaseKey: what happens after a listed key was freed is not modelled; neither are the notifications to the upper layer.
- ChunkList.List.AddChunk: null lists, and the plain serializer, are not modelled.
- Association.Tcb.HandleAuth: the caller has seen the whole chunk; what happens after a write out of bounds, the error chunk and the notifications are not modelled.
- Association.Tcb: `random` and `peer_random` are fixed; reading AUTH parameters out of cookies is not modelled.
- Hmac.HmacChain: what is read behind the last segment is not modelled; lengths do not wrap around otherwise.
- AcceptQueue.Stack.UserAccept: waiting is not modelled, and what errors there are comes from outside; each call is one atomic step.
- AcceptQueue.Stack.SoFree: the test of SS_PROTOREF is not modelled; nothing in the repository sets that flag.
- AcceptQueue.RunBounded: a backlog that is lowered later is excluded.
- DataChannel.PeerConnection.HandleOpenRequest: what a write out of bounds destroys is not modelled, here and for responses.
- DataChannel.PeerConnection.HandleStreamChange: `request_more_o_streams` has no effect on the state modelled.
- Real SHA-1, SHA-256 and CRC32c, clocks, condition variables, receive threads, sysctl accessors, Windows and BSD variants.
- The SCTP engine itself, the JNI glue, UDP links, samples, thread pools, `SctpMapper`, `SctpPorts`, `SctpUtils` and `SctpChannelBuilder`.
