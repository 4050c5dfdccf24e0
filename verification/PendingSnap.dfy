/** The cap_snap that waits for a writer: which one the last writer finishes, and what becomes of
    the inode when it is another. */
module PendingSnap {
  import opened Common
  import opened InodeState
  import opened InodeOps

  /** The last FileWr reference finishes the cap_snap that waits for the write if and only if that
      cap_snap is the only one: the code looks at the first, the pending one is the last. */
  lemma PendingSnapFinished(i: Inode, had: Bits)
    requires HoldsRefs(i.r, had) && FileWr in had && i.r.wrRef == 1 && HavePendingCapSnap(i)
    ensures !HavePendingCapSnap(PutRefs(i, had)) <==> |i.d.capSnaps| == 1
  {
  }

  /** No writer is left, yet the last cap_snap waits for one. */
  predicate Stuck(i: Inode)
  {
    i.r.wrRef == 0 && HavePendingCapSnap(i) &&
    var last := i.d.capSnaps[|i.d.capSnaps| - 1]; last.dirty != {} && !last.flushed
  }

  /** Nobody can get write caps then, and the cap_snap cannot be sent. */
  lemma StuckBlocks(i: Inode, need: Bits, want: Bits, sizeOk: bool)
    requires Stuck(i)
    ensures FileWr in need ==> !CanTake(i, need, want, sizeOk)
    ensures !CanFlushSnap(i, |i.d.capSnaps| - 1)
    ensures !WillQueueSnap(i)
  {
  }

  /** A FLUSHSNAP ack answers a flush that was sent, and callers ask for FileWr as a need, never only
      as a wish. */
  predicate Usual(i: Inode, op: Op)
  {
    && (op.OpFlushSnapAck? ==>
          var k := FindFollows(i.d.capSnaps, op.follows);
          k < |i.d.capSnaps| && i.d.capSnaps[k].flushTid == op.tid ==> i.d.capSnaps[k].flushed)
    && (op.OpTryGetRefs? ==> FileWr in op.want ==> FileWr in op.need)
  }

  lemma StuckPut(i: Inode, nr: nat, snapc: Ctx)
    requires Stuck(i)
    ensures Stuck(PutWrbuffer(i, nr, snapc))
  {
  }

  lemma StuckAck(i: Inode, follows: nat, tid: nat)
    requires Stuck(i) && Usual(i, OpFlushSnapAck(follows, tid))
    ensures Stuck(FlushSnapAck(i, follows, tid))
  {
  }

  lemma StuckRefs(i: Inode, op: Op)
    requires Stuck(i) && Enabled(i, op) && Usual(i, op) && (op.OpTryGetRefs? || op.OpGetRefs? || op.OpPutRefs?)
    ensures Stuck(Apply(i, op))
  {
    match op
    case OpTryGetRefs(need, want, sizeOk) => StuckBlocks(i, need, want, sizeOk);
    case OpGetRefs(_) =>
    case OpPutRefs(_) =>
  }

  /** Operations that leave the cap_snaps and the writers alone. */
  predicate Quiet(op: Op)
  {
    op.OpCheckCap? || op.OpFlushCaps? || op.OpMarkDirty? || op.OpFlushAck? || op.OpPageDirtied? || op.OpAddCap?
        || op.OpGrant?
    || op.OpStale? || op.OpEncodeRelease? || op.OpTrimCap? || op.OpFileModes? || op.OpCachedPages?
        || op.OpRemoveSessionCap?
  }

  lemma QuietKeeps(i: Inode, op: Op)
    requires Enabled(i, op) && Quiet(op)
    ensures Apply(i, op).d.capSnaps == i.d.capSnaps && Apply(i, op).r.wrRef == i.r.wrRef
  {
    match op
    case OpCheckCap(_, _) =>
    case OpFlushCaps(_, _) =>
    case OpMarkDirty(_, _) =>
    case OpFlushAck(_, _) =>
    case OpPageDirtied(_) =>
    case OpAddCap(_, _, _, _, _, _, _) =>
    case OpGrant(_, _, _) =>
    case OpStale(_) =>
    case OpEncodeRelease(_, _, _, _) =>
    case OpTrimCap(_) =>
    case OpFileModes(_) =>
    case OpCachedPages(_) =>
    case OpRemoveSessionCap(_) =>
  }

  lemma StuckStep(i: Inode, op: Op)
    requires Stuck(i) && Enabled(i, op) && Usual(i, op)
    ensures Stuck(Apply(i, op))
  {
    if Quiet(op) {
      QuietKeeps(i, op);
    } else if op.OpPutWrbuffer? {
      StuckPut(i, op.nr, op.snapc);
    } else if op.OpFlushSnapAck? {
      StuckAck(i, op.follows, op.tid);
    } else if op.OpTryGetRefs? || op.OpGetRefs? || op.OpPutRefs? {
      StuckRefs(i, op);
    } else {
      StuckBlocks(i, {}, {}, true);
    }
  }

  ghost predicate AllUsual(i: Inode, ops: seq<Op>)
    requires Legal(i, ops)
    decreases |ops|
  {
    ops == [] || (Usual(i, ops[0]) && AllUsual(Apply(i, ops[0]), ops[1..]))
  }

  /** And it stays so in every run: no write reference can ever be taken on the inode again. */
  lemma {:induction false} StuckForever(i: Inode, ops: seq<Op>, need: Bits, want: Bits, sizeOk: bool)
    requires Stuck(i) && Legal(i, ops) && AllUsual(i, ops) && FileWr in need
    ensures Stuck(Exec(i, ops)) && !CanTake(Exec(i, ops), need, want, sizeOk)
    decreases |ops|
  {
    if ops == [] {
      StuckBlocks(i, need, want, sizeOk);
    } else {
      StuckStep(i, ops[0]);
      StuckForever(Apply(i, ops[0]), ops[1..], need, want, sizeOk);
    }
  }

  /** A new inode gets a cap and an open file; xattrs are changed under context a; a snapshot moves
      the realm to b and queues a cap_snap for them; a write starts; another snapshot moves the
      realm to c and queues a cap_snap that waits for the write; the write ends. */
  function TwoSnaps(a: Ctx, b: Ctx, c: Ctx): (ops: seq<Op>)
  {
    [OpAddCap(0, {Pin, FileWr, XattrExcl}, {}, false, true, true, true)] +
      ([OpFileModes({FileWr})] + ([OpMarkDirty({XattrExcl}, a)] + ([OpQueueCapSnap(b)] + Write(c))))
  }

  function Write(c: Ctx): (ops: seq<Op>)
  {
    [OpTryGetRefs({FileWr}, {}, true)] + ([OpQueueCapSnap(c)] + ([OpPutRefs({FileWr})] + []))
  }

  /** One cap_snap is queued and nothing waits; the auth cap allows writing. */
  predicate Ready(i: Inode)
  {
    && i.r == Refs(0, 0, 0, 0, 0, {FileWr}, false)
    && i.c.auth == Some(0) && 0 in i.c.caps && i.c.caps[0].valid && FileWr in i.c.caps[0].issued
    && |i.d.capSnaps| == 1 && !i.d.capSnaps[0].writing && XattrExcl in i.m.dirty
  }

  lemma MayWrite(i: Inode)
    requires Ready(i)
    ensures CanTake(i, {FileWr}, {}, true) && FileWr in CapsIssued(i)
  {
    assert FileWr in IssuedUnion(i.c.caps);
    assert FileWr in i.r.fileWanted * {FileWr};
  }

  /** A snapshot while the write is on. */
  lemma QueueWaits(i: Inode, c: Ctx)
    requires |i.d.capSnaps| == 1 && !i.d.capSnaps[0].writing && i.r.wrRef == 1
    ensures WillQueueSnap(i)
    ensures var j := QueueCapSnap(i, c);
      && |j.d.capSnaps| == 2 && HavePendingCapSnap(j) && j.r == i.r
      && j.d.capSnaps[1].dirty != {} && !j.d.capSnaps[1].flushed
  {
    assert FileWr in SnapDirty(i) * SNAP_DIRTY;
  }

  lemma WriteSticks(i: Inode, c: Ctx)
    requires Ready(i)
    ensures Legal(i, Write(c)) && Stuck(Exec(i, Write(c)))
  {
    MayWrite(i);
    var i1 := Apply(i, OpTryGetRefs({FileWr}, {}, true));
    QueueWaits(i1, c);
    var i2 := Apply(i1, OpQueueCapSnap(c));
    PendingSnapFinished(i2, {FileWr});
    RunFirst(i2, OpPutRefs({FileWr}), []);
    RunFirst(i1, OpQueueCapSnap(c), [OpPutRefs({FileWr})] + []);
    RunFirst(i, OpTryGetRefs({FileWr}, {}, true), [OpQueueCapSnap(c)] + ([OpPutRefs({FileWr})] + []));
  }

  /** A run from a new inode that leaves it stuck. */
  lemma SecondSnapSticks(a: Ctx, b: Ctx, c: Ctx)
    ensures Legal(Fresh(), TwoSnaps(a, b, c)) && Stuck(Exec(Fresh(), TwoSnaps(a, b, c)))
  {
    var i1 := Apply(Fresh(), OpAddCap(0, {Pin, FileWr, XattrExcl}, {}, false, true, true, true));
    var i2 := Apply(i1, OpFileModes({FileWr}));
    var i3 := Apply(i2, OpMarkDirty({XattrExcl}, a));
    var i4 := Apply(i3, OpQueueCapSnap(b));
    assert XattrExcl in SnapDirty(i3) * SNAP_DIRTY;
    assert Ready(i4);
    WriteSticks(i4, c);
    RunFirst(i3, OpQueueCapSnap(b), Write(c));
    RunFirst(i2, OpMarkDirty({XattrExcl}, a), [OpQueueCapSnap(b)] + Write(c));
    RunFirst(i1, OpFileModes({FileWr}), [OpMarkDirty({XattrExcl}, a)] + ([OpQueueCapSnap(b)] + Write(c)));
    RunFirst(Fresh(), OpAddCap(0, {Pin, FileWr, XattrExcl}, {}, false, true, true, true),
             [OpFileModes({FileWr})] + ([OpMarkDirty({XattrExcl}, a)] + ([OpQueueCapSnap(b)] + Write(c))));
  }
}
