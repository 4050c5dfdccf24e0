/** Runs of the inode operations in any order, and what every run keeps:
    used bits stay backed by a cap; list membership, inode holds and the head
    snap context follow the masks and counters. */
module InodeOps {
  import opened Common
  import opened InodeState

  datatype Op =
    | OpAddCap(mds: int, issued: Bits, wanted: Bits, seqOld: bool, authFlag: bool, authOlder: bool, mseqNewer: bool)
    | OpGrant(mds: int, newcaps: Bits, seqOld: bool)
    | OpStale(mds: int)                                  // the session generation moved on
    | OpCheckCap(mds: int, args: CheckArgs)
    | OpFlushCaps(resend: bool, holdMin: bool)
    | OpEncodeRelease(mds: int, drop: Bits, unless: Bits, nodelay: bool)
    | OpTrimCap(mds: int)
    | OpTryGetRefs(need: Bits, want: Bits, sizeOk: bool)
    | OpGetRefs(bits: Bits)
    | OpPutRefs(had: Bits)
    | OpFileModes(wanted: Bits)                          // files opened or closed
    | OpCachedPages(any: bool)                           // page cache filled or invalidated
    | OpMarkDirty(mask: Bits, realm: Ctx)
    | OpFlushAck(tid: nat, mask: Bits)
    | OpPageDirtied(snapc: Ctx)
    | OpPutWrbuffer(nr: nat, snapc: Ctx)
    | OpQueueCapSnap(realm: Ctx)
    | OpFlushSnap(k: nat)
    | OpFlushSnapAck(follows: nat, tid: nat)
    | OpRemoveSessionCap(mds: int)

  /** What the callers of each operation guarantee. */
  predicate Enabled(i: Inode, op: Op)
  {
    match op
    case OpGrant(mds, _, _) => mds in i.c.caps
    case OpStale(mds) => mds in i.c.caps
    case OpCheckCap(mds, _) => mds in i.c.caps
    case OpTrimCap(mds) => mds in i.c.caps
    case OpGetRefs(bits) => HoldsFileRefs(i.r, bits)
    case OpPutRefs(had) => HoldsRefs(i.r, had)
    case OpMarkDirty(mask, _) => mask != {}
    case OpPutWrbuffer(nr, _) => nr > 0
    case OpFlushSnap(k) => CanFlushSnap(i, k)
    case OpRemoveSessionCap(mds) => mds in i.c.caps
    case _ => true
  }

  function Apply(i: Inode, op: Op): (i': Inode)
    requires Enabled(i, op)
  {
    match op
    case OpAddCap(mds, issued, wanted, seqOld, authFlag, authOlder, mseqNewer) =>
      AddCap(i, mds, issued, wanted, seqOld, authFlag, authOlder, mseqNewer)
    case OpGrant(mds, newcaps, seqOld) => Grant(i, mds, newcaps, seqOld)
    case OpStale(mds) => SetCap(i, mds, i.c.caps[mds].(valid := false))
    case OpCheckCap(mds, args) => CheckCap(i, mds, args)
    case OpFlushCaps(resend, holdMin) => FlushCaps(i, resend, holdMin)
    case OpEncodeRelease(mds, drop, unless, nodelay) => EncodeRelease(i, mds, drop, unless, nodelay)
    case OpTrimCap(mds) => TrimCap(i, mds)
    case OpTryGetRefs(need, want, sizeOk) => TryGetRefs(i, need, want, sizeOk)
    case OpGetRefs(bits) => TakeRefs(i, bits)
    case OpPutRefs(had) => PutRefs(i, had)
    case OpFileModes(wanted) => i.(r := i.r.(fileWanted := wanted))
    case OpCachedPages(any) => i.(r := i.r.(cachedPages := any))
    case OpMarkDirty(mask, realm) => MarkDirty(i, mask, realm)
    case OpFlushAck(tid, mask) => FlushAck(i, tid, mask)
    case OpPageDirtied(snapc) => PageDirtied(i, snapc)
    case OpPutWrbuffer(nr, snapc) => PutWrbuffer(i, nr, snapc)
    case OpQueueCapSnap(realm) => QueueCapSnap(i, realm)
    case OpFlushSnap(k) => FlushSnap(i, k)
    case OpFlushSnapAck(follows, tid) => FlushSnapAck(i, follows, tid)
    case OpRemoveSessionCap(mds) => RemoveSessionCap(i, mds)
  }

  /** A new inode. */
  function Fresh(): (i: Inode)
  {
    Inode(Caps(map[], None), Refs(0, 0, 0, 0, 0, {}, false), Meta({}, {}, 0, map[], false, None),
          Data(None, 0, 0, []), 0, false, false)
  }

  predicate Legal(i: Inode, ops: seq<Op>)
    decreases |ops|
  {
    ops == [] || (Enabled(i, ops[0]) && Legal(Apply(i, ops[0]), ops[1..]))
  }

  function Exec(i: Inode, ops: seq<Op>): (i': Inode)
    requires Legal(i, ops)
    decreases |ops|
  {
    if ops == [] then i else Exec(Apply(i, ops[0]), ops[1..])
  }

  lemma RunFirst(i: Inode, op: Op, ops: seq<Op>)
    requires Enabled(i, op) && Legal(Apply(i, op), ops)
    ensures Legal(i, [op] + ops) && Exec(i, [op] + ops) == Exec(Apply(i, op), ops)
  {
    assert ([op] + ops)[1..] == ops;
  }

  lemma {:induction false} RunBoth(i: Inode, a: seq<Op>, b: seq<Op>)
    requires Legal(i, a) && Legal(Exec(i, a), b)
    ensures Legal(i, a + b) && Exec(i, a + b) == Exec(Exec(i, a), b)
    decreases |a|
  {
    if a == [] {
      assert a + b == b;
    } else {
      assert (a + b)[1..] == a[1..] + b;
      RunBoth(Apply(i, a[0]), a[1..], b);
    }
  }

  lemma {:induction false} ExecAppend(i: Inode, ops: seq<Op>, op: Op)
    requires Legal(i, ops) && Enabled(Exec(i, ops), op)
    ensures Legal(i, ops + [op]) && Exec(i, ops + [op]) == Apply(Exec(i, ops), op)
    decreases |ops|
  {
    if ops == [] {
      assert (ops + [op])[1..] == [];
    } else {
      assert (ops + [op])[1..] == ops[1..] + [op];
      ExecAppend(Apply(i, ops[0]), ops[1..], op);
    }
  }

  // ----- bits in use stay backed -------------------------------------------

  /** Each cap has issued inside implemented; the auth cap is one of the caps. */
  ghost predicate CapsOk(i: Inode)
  {
    && (forall m :: m in i.c.caps ==> i.c.caps[m].issued <= i.c.caps[m].implemented)
    && (i.c.auth.Some? ==> i.c.auth.value in i.c.caps)
  }

  ghost predicate BackedBy(caps: map<int, Cap>, b: Bit)
  {
    exists m :: m in caps && b in caps[m].implemented
  }

  /** Every bit with an explicit reference is implemented by at least one cap. */
  ghost predicate Backed(i: Inode)
  {
    forall b :: Referenced(i.r, b) ==> BackedBy(i.c.caps, b)
  }

  /** A bit backed before is backed after, unless it is not referenced any more. */
  lemma SendKeepsBacked(i: Inode, mds: int, used: Bits, want: Bits, retain: Bits, delay: bool, b: Bit)
    requires CapsOk(i) && mds in i.c.caps && BackedBy(i.c.caps, b)
    requires b in used || (i.c.auth.Some? && i.c.auth.value != mds && b in i.c.caps[i.c.auth.value].issued)
    ensures BackedBy(i.c.caps[mds := SendCapBits(i.c.caps[mds], used, want, retain, delay)], b)
  {
    var caps := i.c.caps[mds := SendCapBits(i.c.caps[mds], used, want, retain, delay)];
    var m :| m in i.c.caps && b in i.c.caps[m].implemented;
    if m != mds || b in used {
      assert b in caps[m].implemented;
    } else {
      assert b in caps[i.c.auth.value].implemented;
    }
  }

  /** What one pass over a cap leaves: the others, the auth cap and the references as they were. */
  lemma CheckCapShape(i: Inode, mds: int, a: CheckArgs)
    requires mds in i.c.caps && CheckSends(i, mds, a)
    ensures var cap := SendCapBits(i.c.caps[mds], CapUsed(i, mds), i.r.fileWanted + Used(i), CheckRetain(i, a),
        a.holdMin);
      CheckCap(i, mds, a).c == i.c.(caps := i.c.caps[mds := cap]) && CheckCap(i, mds, a).r == i.r
  {
  }

  /** A bit in use is in what the cap keeps, unless the auth cap has it. */
  lemma UsedKept(i: Inode, mds: int, b: Bit)
    requires CapsOk(i) && mds in i.c.caps && Referenced(i.r, b)
    ensures b in CapUsed(i, mds) || (i.c.auth.Some? && i.c.auth.value != mds && b in i.c.caps[i.c.auth.value].issued)
  {
  }

  lemma CheckCapBacked(i: Inode, mds: int, a: CheckArgs)
    requires CapsOk(i) && Backed(i) && mds in i.c.caps
    ensures CapsOk(CheckCap(i, mds, a)) && Backed(CheckCap(i, mds, a))
  {
    if CheckSends(i, mds, a) {
      CheckCapShape(i, mds, a);
      var used, want, retain := CapUsed(i, mds), i.r.fileWanted + Used(i), CheckRetain(i, a);
      var caps := i.c.caps[mds := SendCapBits(i.c.caps[mds], used, want, retain, a.holdMin)];
      forall b | Referenced(i.r, b)
        ensures BackedBy(caps, b)
      {
        UsedKept(i, mds, b);
        SendKeepsBacked(i, mds, used, want, retain, a.holdMin, b);
      }
    }
  }

  lemma FlushCapsBacked(i: Inode, resend: bool, holdMin: bool)
    requires CapsOk(i) && Backed(i)
    ensures CapsOk(FlushCaps(i, resend, holdMin)) && Backed(FlushCaps(i, resend, holdMin))
  {
    var i' := FlushCaps(i, resend, holdMin);
    if i'.c.caps != i.c.caps {
      var mds := i.c.auth.value;
      var cap := i.c.caps[mds];
      forall b | Referenced(i'.r, b)
        ensures BackedBy(i'.c.caps, b)
      {
        SendKeepsBacked(i, mds, Used(i), CapsWanted(i), cap.issued + cap.implemented, holdMin, b);
      }
    }
  }

  lemma TakeBacked(i: Inode, need: Bits, want: Bits, sizeOk: bool)
    requires CapsOk(i) && Backed(i)
    ensures Backed(TryGetRefs(i, need, want, sizeOk))
  {
    forall b | b in CapsIssued(i)
      ensures BackedBy(i.c.caps, b)
    {
      var m :| m in i.c.caps && i.c.caps[m].valid && b in i.c.caps[m].issued;
    }
  }

  lemma TrimBacked(i: Inode, mds: int)
    requires CapsOk(i) && Backed(i) && mds in i.c.caps
    ensures CapsOk(TrimCap(i, mds)) && Backed(TrimCap(i, mds))
  {
    var i' := TrimCap(i, mds);
    if i' != i {
      forall b | Referenced(i'.r, b)
        ensures BackedBy(i'.c.caps, b)
      {
        assert Referenced(i.r, b) && BackedBy(i.c.caps, b);
        var m :| m in i.c.caps && b in i.c.caps[m].implemented;
        if m == mds {
          assert b in IssuedOther(i, mds);
          var o :| o in i.c.caps - {mds} && i.c.caps[o].valid && b in i.c.caps[o].issued;
          assert b in i'.c.caps[o].implemented;
        } else {
          assert b in i'.c.caps[m].implemented;
        }
      }
    }
  }

  /** Adding bits to one cap's implemented set unbacks nothing. */
  lemma GrowBacked(i: Inode, i': Inode, mds: int)
    requires CapsOk(i) && Backed(i) && mds in i'.c.caps
    requires i'.c.caps == i.c.caps[mds := i'.c.caps[mds]] && i'.r == i.r
    requires i'.c.auth == i.c.auth || i'.c.auth == Some(mds)
    requires i'.c.caps[mds].issued <= i'.c.caps[mds].implemented
    requires mds in i.c.caps ==> i.c.caps[mds].implemented <= i'.c.caps[mds].implemented
    ensures CapsOk(i') && Backed(i')
  {
    forall b | Referenced(i'.r, b)
      ensures BackedBy(i'.c.caps, b)
    {
      assert Referenced(i.r, b) && BackedBy(i.c.caps, b);
      var m :| m in i.c.caps && b in i.c.caps[m].implemented;
      assert b in i'.c.caps[m].implemented;
    }
  }

  lemma ReleaseBacked(i: Inode, mds: int, drop: Bits, unless: Bits, nodelay: bool)
    requires CapsOk(i) && Backed(i)
    ensures CapsOk(EncodeRelease(i, mds, drop, unless, nodelay)) && Backed(EncodeRelease(i, mds, drop, unless, nodelay))
  {
    var i' := EncodeRelease(i, mds, drop, unless, nodelay);
    forall b | Referenced(i'.r, b)
      ensures BackedBy(i'.c.caps, b)
    {
      assert Referenced(i.r, b) && BackedBy(i.c.caps, b);
      var m :| m in i.c.caps && b in i.c.caps[m].implemented;
      assert b in i'.c.caps[m].implemented;
    }
  }

  predicate TouchesCaps(op: Op)
  {
    op.OpAddCap? || op.OpGrant? || op.OpStale? || op.OpCheckCap? || op.OpFlushCaps? || op.OpEncodeRelease?
        || op.OpTrimCap?
    || op.OpRemoveSessionCap?
  }

  /** The caps are the same and no bit became referenced. */
  ghost predicate NoNewRefs(i: Inode, i': Inode)
  {
    i'.c == i.c && forall b :: Referenced(i'.r, b) ==> Referenced(i.r, b)
  }

  /** The other operations leave the caps alone; only try_get_cap_refs adds referenced bits. */
  lemma OtherOps(i: Inode, op: Op)
    requires Enabled(i, op) && !TouchesCaps(op) && !op.OpTryGetRefs?
    ensures NoNewRefs(i, Apply(i, op))
  {
    match op
    case OpGetRefs(bits) =>
    case OpPutRefs(had) =>
    case OpFileModes(wanted) =>
    case OpCachedPages(any) =>
    case OpMarkDirty(mask, realm) =>
    case OpFlushAck(tid, mask) =>
    case OpPageDirtied(snapc) =>
    case OpPutWrbuffer(nr, snapc) =>
    case OpQueueCapSnap(realm) =>
    case OpFlushSnap(k) =>
    case OpFlushSnapAck(follows, tid) =>
  }

  lemma StepBacked(i: Inode, op: Op)
    requires CapsOk(i) && Backed(i) && Enabled(i, op) && !op.OpRemoveSessionCap?
    ensures CapsOk(Apply(i, op)) && Backed(Apply(i, op))
  {
    match op
    case OpAddCap(mds, _, _, _, _, _, _) => GrowBacked(i, Apply(i, op), mds);
    case OpGrant(mds, _, _) => GrowBacked(i, Apply(i, op), mds);
    case OpStale(mds) => GrowBacked(i, Apply(i, op), mds);
    case OpCheckCap(mds, args) => CheckCapBacked(i, mds, args);
    case OpFlushCaps(resend, holdMin) => FlushCapsBacked(i, resend, holdMin);
    case OpEncodeRelease(mds, drop, unless, nodelay) => ReleaseBacked(i, mds, drop, unless, nodelay);
    case OpTrimCap(mds) => TrimBacked(i, mds);
    case OpTryGetRefs(need, want, sizeOk) => TakeBacked(i, need, want, sizeOk);
    case _ => OtherOps(i, op);
  }

  /** In every run without a session teardown, each cap keeps issued inside
      implemented and every referenced bit stays backed. */
  lemma {:induction false} RunBacked(i: Inode, ops: seq<Op>)
    requires CapsOk(i) && Backed(i) && Legal(i, ops)
    requires forall k :: 0 <= k < |ops| ==> !ops[k].OpRemoveSessionCap?
    ensures CapsOk(Exec(i, ops)) && Backed(Exec(i, ops))
    decreases |ops|
  {
    if ops != [] {
      StepBacked(i, ops[0]);
      RunBacked(Apply(i, ops[0]), ops[1..]);
    }
  }

  // ----- references come and go --------------------------------------------

  /** The bits __ceph_caps_used can report. */
  const COUNTED: Bits := {Pin, FileRd, FileCache, FileWr, FileBuffer}

  /** Taking references makes exactly the counted bits among them used, besides those in use before. */
  lemma TakeUses(i: Inode, got: Bits)
    ensures Used(TakeRefs(i, got)) == Used(i) + got * COUNTED
    ensures HoldsRefs(TakeRefs(i, got).r, got)
  {
    forall b: Bit ensures b in Used(TakeRefs(i, got)) <==> b in Used(i) || (b in got && b in COUNTED) {
    }
  }

  /** A put undoes a take: counters and inode holds are back, and nothing else moved except that the
      last writer may have finished the first cap_snap. */
  lemma PutUndoesTake(i: Inode, got: Bits)
    ensures HoldsRefs(TakeRefs(i, got).r, got)
    ensures var j := PutRefs(TakeRefs(i, got), got);
      && j.r == i.r && j.holds == i.holds && j.c == i.c && j.m == i.m && j.bug == i.bug && j.missed == i.missed
      && (FileWr !in got || i.r.wrRef > 0 ==> j == i)
      && j.d == i.d.(capSnaps := j.d.capSnaps) && |j.d.capSnaps| == |i.d.capSnaps|
      && forall k :: 0 < k < |i.d.capSnaps| ==> j.d.capSnaps[k] == i.d.capSnaps[k]
  {
  }

  // ----- Pin is retained ---------------------------------------------------

  ghost predicate PinIssued(i: Inode)
  {
    forall m :: m in i.c.caps ==> Pin in i.c.caps[m].issued
  }

  /** The MDS issues Pin with every grant, and no request drops it. */
  predicate PinGranted(op: Op)
  {
    && (op.OpAddCap? ==> Pin in op.issued) && (op.OpGrant? ==> Pin in op.newcaps)
    && (op.OpEncodeRelease? ==> Pin !in op.drop)
  }

  /** The test of the BUG_ON in __send_cap. */
  predicate PinRetained(cap: Cap, retain: Bits)
  {
    Pin in retain - (cap.implemented - cap.issued)
  }

  /** The BUG_ON in __send_cap fires for ceph_check_caps exactly when Pin is being revoked, and for a
      flush exactly when Pin is not issued. */
  lemma PinSent(i: Inode, mds: int, a: CheckArgs)
    requires mds in i.c.caps
    ensures var cap := i.c.caps[mds];
      && (PinRetained(cap, CheckRetain(i, a)) <==> !(Pin in cap.implemented && Pin !in cap.issued))
      && (PinRetained(cap, cap.issued + cap.implemented) <==> Pin in cap.issued)
  {
  }

  lemma PinFlush(i: Inode, resend: bool, holdMin: bool)
    requires PinIssued(i)
    ensures PinIssued(FlushCaps(i, resend, holdMin))
  {
  }

  lemma PinCheck(i: Inode, mds: int, a: CheckArgs)
    requires PinIssued(i) && mds in i.c.caps
    ensures PinIssued(CheckCap(i, mds, a))
  {
    if CheckSends(i, mds, a) { CheckCapShape(i, mds, a); }
  }

  lemma PinStep(i: Inode, op: Op)
    requires PinIssued(i) && Enabled(i, op) && PinGranted(op)
    ensures PinIssued(Apply(i, op))
  {
    match op
    case OpAddCap(_, _, _, _, _, _, _) =>
    case OpGrant(_, _, _) =>
    case OpStale(_) =>
    case OpCheckCap(mds, args) => PinCheck(i, mds, args);
    case OpFlushCaps(resend, holdMin) => PinFlush(i, resend, holdMin);
    case OpEncodeRelease(_, _, _, _) =>
    case OpTrimCap(_) =>
    case OpRemoveSessionCap(_) =>
    case OpTryGetRefs(_, _, _) =>
    case _ => OtherOps(i, op);
  }

  /** So in every run in which the MDS issues Pin it does not fire. */
  lemma {:induction false} PinRun(i: Inode, ops: seq<Op>)
    requires PinIssued(i) && Legal(i, ops) && forall k :: 0 <= k < |ops| ==> PinGranted(ops[k])
    ensures PinIssued(Exec(i, ops))
    decreases |ops|
  {
    if ops != [] {
      PinStep(i, ops[0]);
      PinRun(Apply(i, ops[0]), ops[1..]);
    }
  }
}
