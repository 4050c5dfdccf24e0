/** Flushing dirty metadata with 16-bit tids: no late ack cleans a newer change.
    The inode runs beside a history it does not have, kept here for one arbitrary
    capability bit: full tid numbers, which flush messages carried the bit and in
    which version, and which version the MDS has acknowledged. */
module FlushHistory {
  import opened Common
  import opened InodeState
  import opened InodeOps

  /** `tids` counts the tids issued; sent[t] is the version of the bit that flush t carried;
      `version` counts how often the bit was dirtied, `acked` is the newest version acknowledged. */
  datatype History = History(ino: Inode, tids: nat, sent: map<nat, nat>, latest: Option<nat>, version: nat, acked: nat)

  /** The bits a step flushes. */
  function FlushBits(i: Inode, op: Op): (bits: Bits)
    requires Enabled(i, op)
  {
    match op
    case OpCheckCap(mds, args) => if CheckSends(i, mds, args) && i.c.auth == Some(mds) then i.m.dirty else {}
    case OpFlushCaps(resend, _) =>
      if i.c.auth.None? || i.c.auth.value !in i.c.caps then {} else if resend then i.m.flushing else i.m.dirty
    case _ => {}
  }

  /** An ack that names the bit answers a flush that carried it, with fewer than 2^16 tids issued since. */
  predicate EnabledH(h: History, b: Bit, op: Op)
  {
    && Enabled(h.ino, op) && !op.OpRemoveSessionCap?
    && (op.OpFlushAck? && b in op.mask ==> op.tid in h.sent && h.tids - op.tid < TID_MOD)
  }

  /** A flush message carrying `bits` goes out. */
  function Record(h: History, b: Bit, bits: Bits, i': Inode): (h': History)
  {
    var t := h.tids + 1;
    if b in bits then History(i', t, h.sent[t := h.version], Some(t), h.version, h.acked) else h.(ino := i', tids := t)
  }

  /** The history when a step that flushes `bits` leaves the inode as i'. */
  function Next(h: History, b: Bit, op: Op, bits: Bits, i': Inode): (h': History)
    requires op.OpFlushAck? && b in op.mask ==> op.tid in h.sent
  {
    if bits != {} then Record(h, b, bits, i')
    else
      var h1 := h.(ino := i');
      if op.OpFlushSnap? then h1.(tids := h.tids + 1)
      else if op.OpMarkDirty? && b in op.mask then h1.(version := h.version + 1)
      else if op.OpFlushAck? && b in op.mask && h.sent[op.tid] > h.acked then h1.(acked := h.sent[op.tid])
      else h1
  }

  function ApplyH(h: History, b: Bit, op: Op): (h': History)
    requires EnabledH(h, b, op)
  {
    Next(h, b, op, FlushBits(h.ino, op), Apply(h.ino, op))
  }

  /** The 16-bit tids in the inode are the low halves of the full ones. */
  ghost predicate TidsOk(h: History, b: Bit)
  {
    && h.ino.m.lastTid == h.tids % TID_MOD
    && (b in h.ino.m.flushTid <==> h.latest.Some?)
    && (h.latest.Some? ==> h.ino.m.flushTid[b] == h.latest.value % TID_MOD)
  }

  /** `latest` is the newest message that carried the bit. */
  ghost predicate SentOk(h: History)
  {
    && (h.latest.Some? ==> h.latest.value in h.sent && h.latest.value <= h.tids)
    && forall t :: t in h.sent ==> h.latest.Some? && t <= h.latest.value && h.sent[t] <= h.version
  }

  /** Dirty, or the current version is in the latest flush; clean only once that version is acknowledged. */
  ghost predicate BitOk(h: History, b: Bit)
    requires SentOk(h)
  {
    && h.acked <= h.version
    && (b in h.ino.m.flushing ==> h.latest.Some?)
    && (b !in h.ino.m.dirty ==> h.version == if h.latest.Some? then h.sent[h.latest.value] else 0)
    && (b !in h.ino.m.dirty && b !in h.ino.m.flushing ==> h.acked == h.version)
  }

  ghost predicate Inv(h: History, b: Bit)
  {
    TidsOk(h, b) && SentOk(h) && BitOk(h, b)
  }

  // ----- acks --------------------------------------------------------------

  /** An ack of flush t cleans the bit exactly when the latest flush of the bit is a multiple of 2^16 after t. */
  lemma CleanedIs(h: History, b: Bit, t: nat, mask: Bits)
    requires TidsOk(h, b) && SentOk(h) && t in h.sent
    ensures b in Cleaned(h.ino, t, mask) <==> b in mask && (h.latest.value - t) % TID_MOD == 0
  {
    var a := h.latest.value;
    assert a % TID_MOD == t % TID_MOD <==> (a - t) % TID_MOD == 0;
  }

  /** So an ack is exact, cleaning the bit only if it answers the bit's latest flush, if and only if
      the bit has not been reflushed a nonzero multiple of 2^16 tids later; inside the window it is. */
  lemma AckExact(h: History, b: Bit, t: nat, mask: Bits)
    requires TidsOk(h, b) && SentOk(h) && t in h.sent && b in mask
    ensures (b in Cleaned(h.ino, t, mask) <==> h.latest.value == t)
       <==> !(h.latest.value > t && (h.latest.value - t) % TID_MOD == 0)
    ensures h.tids - t < TID_MOD ==> (b in Cleaned(h.ino, t, mask) <==> h.latest.value == t)
  {
    CleanedIs(h, b, t, mask);
  }

  // ----- every step --------------------------------------------------------

  /** The masks and tids after flushing `bits`, seen from bit b. */
  ghost predicate Flushed(m: Meta, m': Meta, bits: Bits, b: Bit)
  {
    && m'.lastTid == (m.lastTid + 1) % TID_MOD && m'.flushTid == RecordTid(m.flushTid, bits, m'.lastTid)
    && (b in m'.flushing <==> b in m.flushing || b in bits)
    && (b in m'.dirty ==> b in m.dirty) && (b in m.dirty && b !in m'.dirty ==> b in bits)
  }

  /** The last step of a flush, on masks that already moved. */
  lemma SendFlushed(m: Meta, i: Inode, bits: Bits, b: Bit)
    requires bits != {} && i.m.lastTid == m.lastTid && i.m.flushTid == m.flushTid
    requires i.m.flushing == m.flushing + bits && i.m.dirty == m.dirty - bits
    ensures Flushed(m, SendFlush(i, bits).m, bits, b)
  {
  }

  lemma CheckFlushed(i: Inode, mds: int, a: CheckArgs, b: Bit)
    requires mds in i.c.caps && CheckSends(i, mds, a) && i.c.auth == Some(mds) && i.m.dirty != {}
    ensures Flushed(i.m, CheckCap(i, mds, a).m, i.m.dirty, b)
  {
    var cap := SendCapBits(i.c.caps[mds], CapUsed(i, mds), i.r.fileWanted + Used(i), CheckRetain(i, a), a.holdMin);
    var i1 := SetCap(MarkFlushing(i, mds), mds, cap);
    assert i1.m.flushing == i.m.flushing + i.m.dirty && i1.m.dirty == i.m.dirty - i.m.dirty;
    SendFlushed(i.m, i1, i.m.dirty, b);
  }

  lemma FlushCapsFlushed(i: Inode, resend: bool, holdMin: bool, b: Bit)
    requires i.c.auth.Some? && i.c.auth.value in i.c.caps && (if resend then i.m.flushing != {} else i.m.dirty != {})
    ensures Flushed(i.m, FlushCaps(i, resend, holdMin).m, if resend then i.m.flushing else i.m.dirty, b)
  {
    var m' := FlushCaps(i, resend, holdMin).m;
    assert m'.flushing == if resend then i.m.flushing else i.m.flushing + i.m.dirty;
  }

  lemma FlushEffect(i: Inode, op: Op, b: Bit)
    requires Enabled(i, op) && FlushBits(i, op) != {}
    ensures Flushed(i.m, Apply(i, op).m, FlushBits(i, op), b)
  {
    if op.OpCheckCap? {
      CheckFlushed(i, op.mds, op.args, b);
    } else {
      FlushCapsFlushed(i, op.resend, op.holdMin, b);
    }
  }

  lemma QuietOps(i: Inode, op: Op)
    requires Enabled(i, op) && FlushBits(i, op) == {}
    requires !op.OpFlushSnap? && !op.OpMarkDirty? && !op.OpFlushAck? && !op.OpRemoveSessionCap?
    ensures var m' := Apply(i, op).m;
      m'.lastTid == i.m.lastTid && m'.flushTid == i.m.flushTid && m'.dirty == i.m.dirty && m'.flushing == i.m.flushing
  {
    match op
    case OpCheckCap(_, _) =>
    case OpFlushCaps(_, _) =>
    case OpPageDirtied(_) =>
    case OpPutWrbuffer(_, _) =>
    case OpQueueCapSnap(_) =>
    case OpFlushSnapAck(_, _) =>
    case OpTryGetRefs(_, _, _) =>
    case OpGetRefs(_) =>
    case OpPutRefs(_) =>
    case OpAddCap(_, _, _, _, _, _, _) =>
    case OpGrant(_, _, _) =>
    case OpStale(_) =>
    case OpEncodeRelease(_, _, _, _) =>
    case OpTrimCap(_) =>
    case OpFileModes(_) =>
    case OpCachedPages(_) =>
  }

  lemma NextTid(tids: nat)
    ensures (tids % TID_MOD + 1) % TID_MOD == (tids + 1) % TID_MOD
  {
  }

  lemma FlushKeeps(h: History, b: Bit, i': Inode, bits: Bits)
    requires Inv(h, b) && Flushed(h.ino.m, i'.m, bits, b)
    ensures Inv(Record(h, b, bits, i'), b)
  {
    NextTid(h.tids);
  }

  lemma FlushStep(h: History, b: Bit, op: Op)
    requires Inv(h, b) && EnabledH(h, b, op) && FlushBits(h.ino, op) != {}
    ensures Inv(ApplyH(h, b, op), b)
  {
    FlushEffect(h.ino, op, b);
    FlushKeeps(h, b, Apply(h.ino, op), FlushBits(h.ino, op));
    assert ApplyH(h, b, op) == Record(h, b, FlushBits(h.ino, op), Apply(h.ino, op));
  }

  lemma DirtyStep(h: History, b: Bit, op: Op)
    requires Inv(h, b) && EnabledH(h, b, op) && op.OpMarkDirty?
    ensures Inv(ApplyH(h, b, op), b)
  {
  }

  lemma AckMasks(i: Inode, tid: nat, mask: Bits, b: Bit)
    ensures var m' := FlushAck(i, tid, mask).m;
      && m'.lastTid == i.m.lastTid && m'.flushTid == i.m.flushTid && m'.dirty == i.m.dirty
      && (b in m'.flushing <==> b in i.m.flushing && b !in Cleaned(i, tid, mask))
  {
    assert b in i.m.flushing * Cleaned(i, tid, mask) <==> b in i.m.flushing && b in Cleaned(i, tid, mask);
    assert b in i.m.flushing - Cleaned(i, tid, mask) <==> b in i.m.flushing && b !in Cleaned(i, tid, mask);
  }

  lemma AckStep(h: History, b: Bit, op: Op)
    requires Inv(h, b) && EnabledH(h, b, op) && op.OpFlushAck?
    ensures Inv(ApplyH(h, b, op), b)
  {
    AckMasks(h.ino, op.tid, op.mask, b);
    if b in op.mask {
      AckExact(h, b, op.tid, op.mask);
    }
  }

  lemma SnapStep(h: History, b: Bit, op: Op)
    requires Inv(h, b) && EnabledH(h, b, op) && op.OpFlushSnap?
    ensures Inv(ApplyH(h, b, op), b)
  {
    NextTid(h.tids);
  }

  lemma StepInv(h: History, b: Bit, op: Op)
    requires Inv(h, b) && EnabledH(h, b, op)
    ensures Inv(ApplyH(h, b, op), b)
  {
    if FlushBits(h.ino, op) != {} {
      FlushStep(h, b, op);
    } else if op.OpMarkDirty? {
      DirtyStep(h, b, op);
    } else if op.OpFlushAck? {
      AckStep(h, b, op);
    } else if op.OpFlushSnap? {
      SnapStep(h, b, op);
    } else {
      QuietOps(h.ino, op);
    }
  }

  // ----- every run ---------------------------------------------------------

  predicate LegalH(h: History, b: Bit, ops: seq<Op>)
    decreases |ops|
  {
    ops == [] || (EnabledH(h, b, ops[0]) && LegalH(ApplyH(h, b, ops[0]), b, ops[1..]))
  }

  function ExecH(h: History, b: Bit, ops: seq<Op>): (h': History)
    requires LegalH(h, b, ops)
    decreases |ops|
  {
    if ops == [] then h else ExecH(ApplyH(h, b, ops[0]), b, ops[1..])
  }

  /** The history of a new inode. */
  ghost predicate IsNew(h: History)
  {
    && h.ino == Fresh()
    && h.tids == 0 && |h.sent| == 0 && h.latest.None? && h.version == 0 && h.acked == 0
  }

  lemma {:induction false} RunInv(h: History, b: Bit, ops: seq<Op>)
    requires Inv(h, b) && LegalH(h, b, ops)
    ensures Inv(ExecH(h, b, ops), b)
    decreases |ops|
  {
    if ops != [] {
      StepInv(h, b, ops[0]);
      RunInv(ApplyH(h, b, ops[0]), b, ops[1..]);
    }
  }

  lemma NewInv(h: History, b: Bit)
    requires IsNew(h)
    ensures Inv(h, b)
  {
    assert h.sent == map[];
  }

  /** In every run from a new inode, a bit that is neither dirty nor flushing has its newest version acknowledged. */
  lemma CleanMeansCommitted(start: History, b: Bit, ops: seq<Op>)
    requires IsNew(start) && LegalH(start, b, ops)
    ensures var h := ExecH(start, b, ops);
      b !in h.ino.m.dirty && b !in h.ino.m.flushing ==> h.acked == h.version
  {
    NewInv(start, b);
    RunInv(start, b, ops);
  }

  /** What stops a bit flushing, in any state of a run. */
  lemma OnlyLatestAck(h: History, b: Bit, op: Op)
    requires Inv(h, b) && EnabledH(h, b, op)
    requires b in h.ino.m.flushing && b !in Apply(h.ino, op).m.flushing
    ensures op.OpFlushAck? && b in op.mask && h.latest == Some(op.tid)
  {
    if FlushBits(h.ino, op) != {} {
      FlushEffect(h.ino, op, b);
    } else if op.OpFlushAck? {
      AckMasks(h.ino, op.tid, op.mask, b);
      AckExact(h, b, op.tid, op.mask);
    } else if !op.OpMarkDirty? && !op.OpFlushSnap? {
      QuietOps(h.ino, op);
    }
  }

  /** In every reachable state, the only step that stops a bit flushing is the ack of the latest flush that
      carried it. */
  lemma OnlyLatestAckCleans(start: History, b: Bit, ops: seq<Op>, op: Op)
    requires IsNew(start) && LegalH(start, b, ops) && EnabledH(ExecH(start, b, ops), b, op)
    requires b in ExecH(start, b, ops).ino.m.flushing && b !in Apply(ExecH(start, b, ops).ino, op).m.flushing
    ensures op.OpFlushAck? && b in op.mask && ExecH(start, b, ops).latest == Some(op.tid)
  {
    NewInv(start, b);
    RunInv(start, b, ops);
    OnlyLatestAck(ExecH(start, b, ops), b, op);
  }

  // ----- outside the window ------------------------------------------------

  /** The states a run goes through, one more than its operations. */
  ghost predicate Path(hs: seq<History>, b: Bit, ops: seq<Op>)
  {
    |hs| == |ops| + 1 && forall k :: 0 <= k < |ops| ==>
        EnabledH(hs[k], b, ops[k]) && hs[k + 1] == ApplyH(hs[k], b, ops[k])
  }

  lemma PathTail(hs: seq<History>, b: Bit, ops: seq<Op>)
    requires Path(hs, b, ops) && ops != []
    ensures Path(hs[1..], b, ops[1..]) && EnabledH(hs[0], b, ops[0]) && hs[1] == ApplyH(hs[0], b, ops[0])
  {
    forall k | 0 <= k < |ops[1..]|
      ensures EnabledH(hs[1..][k], b, ops[1..][k]) && hs[1..][k + 1] == ApplyH(hs[1..][k], b, ops[1..][k])
    {
      assert hs[1..][k] == hs[k + 1] && ops[1..][k] == ops[k + 1];
    }
  }

  lemma LegalStep(h: History, b: Bit, ops: seq<Op>, h': History)
    requires ops != [] && EnabledH(h, b, ops[0]) && h' == ApplyH(h, b, ops[0]) && LegalH(h', b, ops[1..])
    ensures LegalH(h, b, ops) && ExecH(h, b, ops) == ExecH(h', b, ops[1..])
  {
  }

  lemma {:induction false} PathRun(hs: seq<History>, b: Bit, ops: seq<Op>)
    requires Path(hs, b, ops)
    ensures LegalH(hs[0], b, ops) && ExecH(hs[0], b, ops) == hs[|ops|]
    decreases |ops|
  {
    if ops != [] {
      PathTail(hs, b, ops);
      PathRun(hs[1..], b, ops[1..]);
      LegalStep(hs[0], b, ops, hs[1]);
    }
  }

  lemma PathMore(hs: seq<History>, b: Bit, ops: seq<Op>, op: Op, h: History)
    requires Path(hs, b, ops) && EnabledH(hs[|ops|], b, op) && h == ApplyH(hs[|ops|], b, op)
    ensures Path(hs + [h], b, ops + [op])
  {
  }

  /** The auth cap is there; these bits are dirty and flushing, and no version is acknowledged. */
  predicate Only(h: History, dirty: Bits, flushing: Bits)
  {
    && h.ino.c.auth.Some? && h.ino.c.auth.value in h.ino.c.caps
    && h.ino.m.dirty == dirty && h.ino.m.flushing == flushing && h.acked == 0
  }

  function Dirty(c: Ctx): (op: Op)
  {
    OpMarkDirty({FileWr}, c)
  }

  function Flush(resend: bool): (op: Op)
  {
    OpFlushCaps(resend, false)
  }

  lemma DirtyOnce(h: History, c: Ctx)
    requires Only(h, {}, h.ino.m.flushing)
    ensures EnabledH(h, FileWr, Dirty(c))
    ensures var h' := ApplyH(h, FileWr, Dirty(c));
      Only(h', {FileWr}, h.ino.m.flushing) && h' == h.(ino := h'.ino, version := h.version + 1)
  {
  }

  lemma FlushMasks(i: Inode, resend: bool)
    requires i.c.auth.Some? && i.c.auth.value in i.c.caps
    requires if resend then i.m.dirty == {} && i.m.flushing == {FileWr}
        else i.m.dirty == {FileWr} && i.m.flushing <= {FileWr}
    ensures var j := FlushCaps(i, resend, false);
      j.c.auth == i.c.auth && j.c.caps.Keys == i.c.caps.Keys && j.m.dirty == {} && j.m.flushing == {FileWr}
  {
  }

  lemma FlushCarries(i: Inode, resend: bool)
    requires i.c.auth.Some? && i.c.auth.value in i.c.caps && FileWr in (if resend then i.m.flushing else i.m.dirty)
    ensures Enabled(i, Flush(resend)) && FileWr in FlushBits(i, Flush(resend))
    ensures Apply(i, Flush(resend)) == FlushCaps(i, resend, false)
  {
  }

  lemma NextRecorded(h: History, b: Bit, op: Op, bits: Bits, i': Inode)
    requires b in bits && op.OpFlushCaps?
    ensures Next(h, b, op, bits, i') == History(i', h.tids + 1, h.sent[h.tids + 1 := h.version],
        Some(h.tids + 1), h.version, h.acked)
  {
  }

  /** A first flush, or one more of the same. */
  lemma FlushOnce(h: History, resend: bool) returns (h': History)
    requires if resend then Only(h, {}, {FileWr})
        else Only(h, {FileWr}, h.ino.m.flushing) && h.ino.m.flushing <= {FileWr}
    ensures EnabledH(h, FileWr, Flush(resend)) && h' == ApplyH(h, FileWr, Flush(resend))
    ensures Only(h', {}, {FileWr})
    ensures h' == History(h'.ino, h.tids + 1, h.sent[h.tids + 1 := h.version], Some(h.tids + 1), h.version, 0)
  {
    FlushMasks(h.ino, resend);
    FlushCarries(h.ino, resend);
    NextRecorded(h, FileWr, Flush(resend), FlushBits(h.ino, Flush(resend)), FlushCaps(h.ino, resend, false));
    h' := ApplyH(h, FileWr, Flush(resend));
  }

  /** The flush is repeated n times, as when sessions reconnect. */
  function Resends(n: nat): (ops: seq<Op>)
  {
    if n == 0 then [] else Resends(n - 1) + [Flush(true)]
  }

  /** Flush 1 carried version 1; the newest flush is number tids, of the given version. */
  predicate Sent(h: History, tids: nat, version: nat)
  {
    Only(h, {}, {FileWr}) && h.tids == tids && h.latest == Some(tids) && h.version == version && 1 in h.sent
        && h.sent[1] == 1
  }

  lemma OneResend(hs: seq<History>, ops: seq<Op>, tids: nat) returns (hs': seq<History>)
    requires Path(hs, FileWr, ops) && Sent(hs[|ops|], tids, 1) && tids > 0
    ensures Path(hs', FileWr, ops + [Flush(true)]) && hs'[0] == hs[0] && Sent(hs'[|hs'| - 1], tids + 1, 1)
  {
    var h' := FlushOnce(hs[|ops|], true);
    PathMore(hs, FileWr, ops, Flush(true), h');
    hs' := hs + [h'];
  }

  lemma ResendsMore(ops: seq<Op>, n: nat)
    requires n > 0
    ensures ops + Resends(n - 1) + [Flush(true)] == ops + Resends(n)
  {
    assert Resends(n) == Resends(n - 1) + [Flush(true)];
  }

  lemma {:induction false} AfterResends(hs: seq<History>, ops: seq<Op>, n: nat,
      all: seq<Op>) returns (hs': seq<History>)
    requires Path(hs, FileWr, ops) && Sent(hs[|ops|], 1, 1) && all == ops + Resends(n)
    ensures Path(hs', FileWr, all) && hs'[0] == hs[0] && Sent(hs'[|hs'| - 1], 1 + n, 1)
    decreases n
  {
    if n == 0 {
      assert all == ops;
      return hs;
    }
    var most := ops + Resends(n - 1);
    var mid := AfterResends(hs, ops, n - 1, most);
    ResendsMore(ops, n);
    hs' := OneResend(mid, most, n);
  }

  function FirstFlush(c: Ctx): (ops: seq<Op>)
  {
    [OpAddCap(0, {Pin, FileWr}, {}, false, true, true, true)] + [Dirty(c)] + [Flush(false)]
  }

  /** A flush, n resends of it, then a new change and its flush. */
  function Wrapped(c: Ctx, n: nat): (ops: seq<Op>)
  {
    FirstFlush(c) + Resends(n) + [Dirty(c)] + [Flush(false)]
  }

  lemma AddFirst(h: History) returns (h': History)
    requires IsNew(h)
    ensures var add := OpAddCap(0, {Pin, FileWr}, {}, false, true, true, true);
      EnabledH(h, FileWr, add) && h' == ApplyH(h, FileWr, add) && Only(h', {},
          {}) && h'.tids == 0 && h'.version == 0 && h'.sent == map[]
  {
    h' := ApplyH(h, FileWr, OpAddCap(0, {Pin, FileWr}, {}, false, true, true, true));
    assert h.sent == map[];
  }

  lemma AfterFirst(h: History, c: Ctx) returns (hs: seq<History>)
    requires IsNew(h)
    ensures Path(hs, FileWr, FirstFlush(c)) && hs[0] == h && Sent(hs[3], 1, 1)
  {
    var add := OpAddCap(0, {Pin, FileWr}, {}, false, true, true, true);
    var h1 := AddFirst(h);
    DirtyOnce(h1, c);
    var h2 := ApplyH(h1, FileWr, Dirty(c));
    var h3 := FlushOnce(h2, false);
    assert Path([h], FileWr, []);
    PathMore([h], FileWr, [], add, h1);
    assert [] + [add] == [add];
    PathMore([h] + [h1], FileWr, [add], Dirty(c), h2);
    PathMore([h] + [h1] + [h2], FileWr, [add] + [Dirty(c)], Flush(false), h3);
    hs := [h] + [h1] + [h2] + [h3];
  }

  lemma AfterWrapped(start: History, c: Ctx, n: nat) returns (hs: seq<History>)
    requires IsNew(start)
    ensures Path(hs, FileWr, Wrapped(c, n)) && hs[0] == start && Sent(hs[|hs| - 1], 2 + n, 2)
  {
    var first := AfterFirst(start, c);
    var ops := FirstFlush(c) + Resends(n);
    var mid := AfterResends(first, FirstFlush(c), n, ops);
    var h := mid[|ops|];
    DirtyOnce(h, c);
    var h1 := ApplyH(h, FileWr, Dirty(c));
    PathMore(mid, FileWr, ops, Dirty(c), h1);
    var h2 := FlushOnce(h1, false);
    PathMore(mid + [h1], FileWr, ops + [Dirty(c)], Flush(false), h2);
    hs := mid + [h1] + [h2];
  }

  /** Outside the window the 16 bits do collide, in a run from a new inode: the bit was last flushed
      as number 1 + 2^16, in a version never acknowledged, and the ack of flush 1, which carried the
      version before, stops it flushing. */
  lemma LateAckCollides(start: History, c: Ctx, n: nat)
    requires IsNew(start) && n == TID_MOD - 1
    ensures LegalH(start, FileWr, Wrapped(c, n))
    ensures var h := ExecH(start, FileWr, Wrapped(c, n));
      && FileWr in h.ino.m.flushing && FileWr !in h.ino.m.dirty
      && 1 in h.sent && h.sent[1] < h.version && h.acked < h.version && h.latest == Some(1 + TID_MOD)
      && FileWr !in FlushAck(h.ino, 1, {FileWr}).m.flushing
  {
    NewInv(start, FileWr);
    var hs := AfterWrapped(start, c, n);
    PathRun(hs, FileWr, Wrapped(c, n));
    RunInv(start, FileWr, Wrapped(c, n));
    var h := hs[|hs| - 1];
    CleanedIs(h, FileWr, 1, {FileWr});
    AckMasks(h.ino, 1, {FileWr}, FileWr);
  }
}
