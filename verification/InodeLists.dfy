/** List membership, inode holds and the head snap context of one inode, in every
    run including session teardown; and the client-wide count of flushing inodes. */
module InodeLists {
  import opened Common
  import opened InodeState
  import opened InodeOps

  function One(b: bool): (n: int)
  {
    if b then 1 else 0
  }

  /** The inode is on cap_dirty iff bits are dirty, and on a session's flushing list iff bits are flushing. */
  ghost predicate ListsOk(m: Meta)
  {
    (m.onDirtyList <==> m.dirty != {}) && (m.flushingOn.Some? <==> m.flushing != {})
  }

  /** i_head_snapc is set whenever head pages, dirty bits or flushing bits exist. */
  ghost predicate HeadOk(m: Meta, d: Data)
  {
    d.headRef != 0 || m.dirty != {} || m.flushing != {} ==> d.head.Some?
  }

  /** Every reference the state takes on the inode, counted. */
  function HoldCount(i: Inode): (n: int)
  {
    One(i.m.dirty != {} || i.m.flushing != {}) + One(i.d.wrbufferRef > 0) + One(i.r.wbRef > 0) + |i.d.capSnaps|
  }

  ghost predicate SnapsDirty(snaps: seq<CapSnap>)
  {
    forall k :: 0 <= k < |snaps| ==> snaps[k].dirty != {}
  }

  /** Lists match masks, the head context is there when needed, no related BUG_ON has fired. */
  ghost predicate Shape(i: Inode)
  {
    ListsOk(i.m) && HeadOk(i.m, i.d) && SnapsDirty(i.d.capSnaps) && !i.bug
  }

  /** Holds nobody accounts for. */
  function Slack(i: Inode): (n: int)
  {
    i.holds - HoldCount(i)
  }

  /** And every hold is accounted for. */
  ghost predicate Books(i: Inode)
  {
    Shape(i) && Slack(i) == 0
  }

  /** A step that keeps the shape and accounts for every hold it takes or puts. */
  ghost predicate Keeps(i: Inode, i': Inode)
  {
    Shape(i') && Slack(i') == Slack(i)
  }

  /** Only the caps and what files want differ. */
  ghost predicate SameBooks(i: Inode, i': Inode)
  {
    i'.m == i.m && i'.d == i.d && i'.holds == i.holds && i'.bug == i.bug && i'.r.wbRef == i.r.wbRef
  }

  lemma CapOpsKeepBooks(i: Inode, op: Op)
    requires Enabled(i, op)
    requires op.OpAddCap? || op.OpGrant? || op.OpStale? || op.OpEncodeRelease? || op.OpTrimCap?
        || op.OpFileModes? || op.OpCachedPages?
    ensures SameBooks(i, Apply(i, op))
  {
    match op
    case OpAddCap(_, _, _, _, _, _, _) =>
    case OpGrant(_, _, _) =>
    case OpStale(_) =>
    case OpEncodeRelease(_, _, _, _) =>
    case OpTrimCap(_) =>
    case OpFileModes(_) =>
    case OpCachedPages(_) =>
  }

  lemma CheckCapBooks(i: Inode, mds: int, a: CheckArgs)
    requires Shape(i) && mds in i.c.caps
    ensures Keeps(i, CheckCap(i, mds, a))
  {
  }

  lemma FlushCapsBooks(i: Inode, resend: bool, holdMin: bool)
    requires Shape(i)
    ensures Keeps(i, FlushCaps(i, resend, holdMin))
  {
  }

  lemma FlushOps(i: Inode, op: Op)
    requires Shape(i) && Enabled(i, op) && (op.OpCheckCap? || op.OpFlushCaps? || op.OpMarkDirty? || op.OpFlushAck?)
    ensures Keeps(i, Apply(i, op))
  {
    match op
    case OpCheckCap(mds, args) => CheckCapBooks(i, mds, args);
    case OpFlushCaps(resend, holdMin) => FlushCapsBooks(i, resend, holdMin);
    case OpMarkDirty(_, _) =>
    case OpFlushAck(_, _) =>
  }

  /** A put keeps the books exactly unless it takes more pages than are left to count: then the
      count passes zero without releasing its hold. */
  lemma PutExact(i: Inode, nr: nat, snapc: Ctx)
    requires Shape(i) && nr > 0
    ensures Shape(PutWrbuffer(i, nr, snapc))
    ensures Slack(PutWrbuffer(i, nr, snapc)) == Slack(i) <==> !(0 < i.d.wrbufferRef < nr)
  {
  }

  lemma PageOps(i: Inode, op: Op)
    requires Shape(i) && Enabled(i, op)
    requires op.OpPageDirtied? || op.OpQueueCapSnap? || op.OpFlushSnap? || op.OpFlushSnapAck?
    ensures Keeps(i, Apply(i, op))
  {
    match op
    case OpPageDirtied(_) =>
    case OpQueueCapSnap(_) =>
    case OpFlushSnap(_) =>
    case OpFlushSnapAck(_, _) =>
  }

  lemma RefOps(i: Inode, op: Op)
    requires Shape(i) && Enabled(i, op) && (op.OpTryGetRefs? || op.OpGetRefs? || op.OpPutRefs?)
    ensures Keeps(i, Apply(i, op))
  {
    match op
    case OpTryGetRefs(_, _, _) =>
    case OpGetRefs(_) =>
    case OpPutRefs(_) =>
  }

  lemma OnlyKey<T>(m: map<int, T>, k: int)
    requires k in m
    ensures m - {k} == map[] <==> m.Keys == {k}
  {
    assert (m - {k}).Keys == m.Keys - {k};
    if m - {k} == map[] {
      assert forall x :: x in m.Keys ==> x == k || x in (m - {k}).Keys;
    }
  }

  /** Session teardown keeps the books exactly unless it is about to drop dirty data of
      a counter that is already below zero: then it puts a hold that was never taken. */
  lemma TeardownExact(i: Inode, mds: int)
    requires Shape(i) && mds in i.c.caps
    ensures Shape(RemoveSessionCap(i, mds))
    ensures Slack(RemoveSessionCap(i, mds)) == Slack(i)
       <==> !(i.d.wrbufferRef < 0 && i.c.caps.Keys == {mds} && (i.m.dirty != {} || i.m.flushing != {}))
  {
    OnlyKey(i.c.caps, mds);
  }

  /** The two steps that lose count of a hold. */
  predicate Miscounts(i: Inode, op: Op)
  {
    match op
    case OpPutWrbuffer(nr, _) => 0 < i.d.wrbufferRef < nr
    case OpRemoveSessionCap(mds) =>
      i.d.wrbufferRef < 0 && i.c.caps.Keys == {mds} && (i.m.dirty != {} || i.m.flushing != {})
    case _ => false
  }

  /** Every step keeps lists and head context; every step but these two accounts for the holds it
      takes and puts, and these two never do, whatever the sign of the page count. */
  lemma StepExact(i: Inode, op: Op)
    requires Shape(i) && Enabled(i, op)
    ensures Shape(Apply(i, op))
    ensures Slack(Apply(i, op)) == Slack(i) <==> !Miscounts(i, op)
  {
    if op.OpCheckCap? || op.OpFlushCaps? || op.OpMarkDirty? || op.OpFlushAck? {
      FlushOps(i, op);
    } else if op.OpPutWrbuffer? {
      PutExact(i, op.nr, op.snapc);
    } else if op.OpPageDirtied? || op.OpQueueCapSnap? || op.OpFlushSnap? || op.OpFlushSnapAck? {
      PageOps(i, op);
    } else if op.OpTryGetRefs? || op.OpGetRefs? || op.OpPutRefs? {
      RefOps(i, op);
    } else if op.OpRemoveSessionCap? {
      TeardownExact(i, op.mds);
    } else {
      CapOpsKeepBooks(i, op);
    }
  }

  /** In every run, with any puts and teardowns: on cap_dirty iff bits are dirty, on a flushing list
      iff bits are flushing, a head context whenever one is needed, and no related BUG_ON fires. */
  lemma {:induction false} RunShape(i: Inode, ops: seq<Op>)
    requires Shape(i) && Legal(i, ops)
    ensures Shape(Exec(i, ops))
    decreases |ops|
  {
    if ops != [] {
      StepExact(i, ops[0]);
      RunShape(Apply(i, ops[0]), ops[1..]);
    }
  }

  /** No step of the run is one of the two. */
  ghost predicate Counted(i: Inode, ops: seq<Op>)
    requires Legal(i, ops)
    decreases |ops|
  {
    ops == [] || (!Miscounts(i, ops[0]) && Counted(Apply(i, ops[0]), ops[1..]))
  }

  /** In every run without those two steps, teardown included: lists match masks, the head context
      is there when needed, every hold is accounted for, and none of those BUG_ONs fires. */
  lemma {:induction false} RunInv(i: Inode, ops: seq<Op>)
    requires Books(i) && Legal(i, ops) && Counted(i, ops)
    ensures Books(Exec(i, ops))
    decreases |ops|
  {
    if ops != [] {
      StepExact(i, ops[0]);
      RunInv(Apply(i, ops[0]), ops[1..]);
    }
  }

  /** A page is put only while it is counted, and no session is torn down. */
  predicate Orderly(i: Inode, op: Op)
  {
    !op.OpRemoveSessionCap? && (op.OpPutWrbuffer? ==> op.nr <= i.d.wrbufferRef)
  }

  ghost predicate AllOrderly(i: Inode, ops: seq<Op>)
    requires Legal(i, ops)
    decreases |ops|
  {
    ops == [] || (Orderly(i, ops[0]) && AllOrderly(Apply(i, ops[0]), ops[1..]))
  }

  lemma CountStays(i: Inode, op: Op)
    requires Enabled(i, op) && Orderly(i, op) && i.d.wrbufferRef >= 0
    ensures Apply(i, op).d.wrbufferRef >= 0 && !Miscounts(i, op)
  {
    match op
    case OpCheckCap(_, _) =>
    case OpFlushCaps(_, _) =>
    case OpMarkDirty(_, _) =>
    case OpFlushAck(_, _) =>
    case OpPageDirtied(_) =>
    case OpPutWrbuffer(_, _) =>
    case OpQueueCapSnap(_) =>
    case OpFlushSnap(_) =>
    case OpFlushSnapAck(_, _) =>
    case OpTryGetRefs(_, _, _) =>
    case OpGetRefs(_) =>
    case OpPutRefs(_) =>
    case _ => CapOpsKeepBooks(i, op);
  }

  /** On an inode whose sessions live, the two steps cannot come up. */
  lemma {:induction false} LiveRunCounted(i: Inode, ops: seq<Op>)
    requires Legal(i, ops) && AllOrderly(i, ops) && i.d.wrbufferRef >= 0
    ensures Counted(i, ops)
    decreases |ops|
  {
    if ops != [] {
      CountStays(i, ops[0]);
      LiveRunCounted(Apply(i, ops[0]), ops[1..]);
    }
  }

  lemma FreshInv(i: Inode)
    requires i == Fresh()
    ensures Books(i) && CapsOk(i) && Backed(i)
  {
    assert |i.d.capSnaps| == 0;
  }

  // ----- both steps occur --------------------------------------------------

  function Attach(): (op: Op)
  {
    OpAddCap(0, {FileWr}, {}, false, true, true, true)
  }

  function Detach(): (op: Op)
  {
    OpRemoveSessionCap(0)
  }

  /** Teardown of an inode with one cap, dirty bits and dirty pages. */
  lemma DetachDrops(i: Inode)
    requires i.c.caps.Keys == {0} && i.m.onDirtyList && i.d.wrbufferRef != 0
    ensures var j := RemoveSessionCap(i, 0);
      j.d.wrbufferRef == 0 && j.d.headRef == 0 && j.d.head == i.d.head && j.holds == i.holds - 2 &&
      j.m.dirty == {} && !j.m.onDirtyList && j.c.caps == map[] && j.d.capSnaps == i.d.capSnaps && j.r == i.r
  {
    OnlyKey(i.c.caps, 0);
  }

  /** Two pages dirtied on a new inode under a cap, dirty bits too, then the session goes. */
  function TornDown(c: Ctx): (ops: seq<Op>)
  {
    [Attach()] + ([OpPageDirtied(c)] + ([OpPageDirtied(c)] + ([OpMarkDirty({FileWr}, c)] + ([Detach()] + []))))
  }

  /** After it the two pages under writeback are no longer counted, and the books are right. */
  lemma TornDownState(c: Ctx)
    ensures Legal(Fresh(), TornDown(c))
    ensures var i := Exec(Fresh(), TornDown(c));
      && Books(i) && i.d == Data(Some(c), 0, 0, []) && i.holds == 0
      && i.m.dirty == {} && i.m.flushing == {} && i.c == Caps(map[], None) && i.r.wbRef == 0
  {
    var i1 := Apply(Fresh(), Attach());
    var i2 := Apply(i1, OpPageDirtied(c));
    var i3 := Apply(i2, OpPageDirtied(c));
    var i4 := Apply(i3, OpMarkDirty({FileWr}, c));
    DetachDrops(i4);
    var off := [Detach()] + [];
    var dirty := [OpMarkDirty({FileWr}, c)] + off;
    RunFirst(i4, Detach(), []);
    RunFirst(i3, OpMarkDirty({FileWr}, c), off);
    RunFirst(i2, OpPageDirtied(c), dirty);
    RunFirst(i1, OpPageDirtied(c), [OpPageDirtied(c)] + dirty);
    RunFirst(Fresh(), Attach(), [OpPageDirtied(c)] + ([OpPageDirtied(c)] + dirty));
  }

  /** The puts of those pages, once done, leave the count below zero; then a new session is torn
      down with dirty bits. */
  function Again(c: Ctx): (ops: seq<Op>)
  {
    [OpPutWrbuffer(2, c)] + ([Attach()] + ([OpMarkDirty({FileWr}, c)] + ([Detach()] + [])))
  }

  /** A run from a new inode in which a teardown puts a hold that was not there. */
  lemma TeardownTwice(c: Ctx)
    ensures Legal(Fresh(), TornDown(c) + Again(c))
    ensures var i := Exec(Fresh(), TornDown(c) + Again(c)); i.holds == -1 && HoldCount(i) == 0
  {
    TornDownState(c);
    SecondTeardown(Exec(Fresh(), TornDown(c)), c);
    RunBoth(Fresh(), TornDown(c), Again(c));
  }

  lemma SecondTeardown(i: Inode, c: Ctx)
    requires i.d == Data(Some(c), 0, 0, []) && i.holds == 0 && i.r.wbRef == 0
    requires i.m.dirty == {} && i.m.flushing == {} && !i.m.onDirtyList && i.m.flushingOn.None?
    requires i.c == Caps(map[], None)
    ensures Legal(i, Again(c))
    ensures Exec(i, Again(c)).holds == -1 && HoldCount(Exec(i, Again(c))) == 0
  {
    var i1 := Apply(i, OpPutWrbuffer(2, c));
    var i2 := Apply(i1, Attach());
    assert i2.c.caps.Keys == {0};
    var i3 := Apply(i2, OpMarkDirty({FileWr}, c));
    DetachDrops(i3);
    RunFirst(i3, Detach(), []);
    RunFirst(i2, OpMarkDirty({FileWr}, c), [Detach()] + []);
    RunFirst(i1, Attach(), [OpMarkDirty({FileWr}, c)] + ([Detach()] + []));
    RunFirst(i, OpPutWrbuffer(2, c), [Attach()] + ([OpMarkDirty({FileWr}, c)] + ([Detach()] + [])));
  }

  /** One more page dirtied before the two puts arrive together. */
  function Late(c: Ctx): (ops: seq<Op>)
  {
    [OpPageDirtied(c)] + ([OpPutWrbuffer(2, c)] + [])
  }

  /** A run from a new inode in which a put passes zero and its hold is never released. */
  lemma HoldLeaks(c: Ctx)
    ensures Legal(Fresh(), TornDown(c) + Late(c))
    ensures var i := Exec(Fresh(), TornDown(c) + Late(c)); i.holds == 1 && HoldCount(i) == 0
  {
    TornDownState(c);
    var i0 := Exec(Fresh(), TornDown(c));
    var i1 := Apply(i0, OpPageDirtied(c));
    RunFirst(i1, OpPutWrbuffer(2, c), []);
    RunFirst(i0, OpPageDirtied(c), [OpPutWrbuffer(2, c)] + []);
    RunBoth(Fresh(), TornDown(c), Late(c));
  }

  // ----- the client-wide flushing count ------------------------------------

  /** What the code adds to mdsc->num_cap_flushing. */
  function CountDelta(i: Inode, op: Op): (n: int)
    requires Enabled(i, op)
  {
    match op
    case OpCheckCap(mds, args) =>
      if CheckSends(i, mds, args) && i.c.auth == Some(mds) && i.m.dirty != {} && i.m.flushingOn.None? then 1 else 0
    case OpFlushCaps(resend, _) =>
      if !resend && i.c.auth.Some? && i.c.auth.value in i.c.caps && i.m.dirty != {} && i.m.flushingOn.None?
          then 1 else 0
    case OpFlushAck(tid, mask) =>
      var cleaned := Cleaned(i, tid, mask);
      if i.m.flushing * cleaned != {} && i.m.flushing - cleaned == {} then -1 else 0
    case OpRemoveSessionCap(mds) =>
      if i.c.caps - {mds} == map[] && i.m.flushingOn.Some? then -1 else 0
    case _ => 0
  }

  lemma DeltaIsMembership(i: Inode, op: Op)
    requires Shape(i) && Enabled(i, op)
    ensures CountDelta(i, op) == One(Apply(i, op).m.flushingOn.Some?) - One(i.m.flushingOn.Some?)
  {
    match op
    case OpCheckCap(_, _) =>
    case OpFlushCaps(_, _) =>
    case OpMarkDirty(_, _) =>
    case OpFlushAck(_, _) =>
    case OpPageDirtied(_) =>
    case OpPutWrbuffer(_, _) =>
    case OpQueueCapSnap(_) =>
    case OpFlushSnap(_) =>
    case OpFlushSnapAck(_, _) =>
    case OpTryGetRefs(_, _, _) =>
    case OpGetRefs(_) =>
    case OpPutRefs(_) =>
    case OpRemoveSessionCap(_) =>
    case _ => CapOpsKeepBooks(i, op);
  }

  /** All inodes of a mount, and the shared counter. */
  datatype Client = Client(inodes: map<nat, Inode>, numFlushing: int)

  ghost function FlushingInodes(inodes: map<nat, Inode>): (xs: set<nat>)
  {
    set x | x in inodes && inodes[x].m.flushingOn.Some?
  }

  ghost predicate ClientInv(c: Client)
  {
    && (forall x :: x in c.inodes ==> Shape(c.inodes[x]))
    && c.numFlushing == |FlushingInodes(c.inodes)|
  }

  function ClientStep(c: Client, x: nat, op: Op): (c': Client)
    requires x in c.inodes && Enabled(c.inodes[x], op)
  {
    Client(c.inodes[x := Apply(c.inodes[x], op)], c.numFlushing + CountDelta(c.inodes[x], op))
  }

  /** num_cap_flushing is the number of inodes on some session's flushing list, whatever any inode does. */
  lemma ClientStepInv(c: Client, x: nat, op: Op)
    requires ClientInv(c) && x in c.inodes && Enabled(c.inodes[x], op)
    ensures ClientInv(ClientStep(c, x, op))
  {
    StepExact(c.inodes[x], op);
    DeltaIsMembership(c.inodes[x], op);
    CountOne(c.inodes, x, Apply(c.inodes[x], op));
  }

  lemma CountOne(inodes: map<nat, Inode>, x: nat, i': Inode)
    requires x in inodes
    ensures |FlushingInodes(inodes[x := i'])|
         == |FlushingInodes(inodes)| + One(i'.m.flushingOn.Some?) - One(inodes[x].m.flushingOn.Some?)
  {
    var rest := FlushingInodes(inodes) - {x};
    assert FlushingInodes(inodes) == if inodes[x].m.flushingOn.Some? then rest + {x} else rest;
    assert FlushingInodes(inodes[x := i']) == if i'.m.flushingOn.Some? then rest + {x} else rest;
  }

  /** A run of the whole client: which inode does what. */
  ghost predicate ClientCan(c: Client, steps: seq<(nat, Op)>)
    decreases |steps|
  {
    steps == [] || (steps[0].0 in c.inodes && Enabled(c.inodes[steps[0].0], steps[0].1)
                    && ClientCan(ClientStep(c, steps[0].0, steps[0].1), steps[1..]))
  }

  ghost function ClientRun(c: Client, steps: seq<(nat, Op)>): (c': Client)
    requires ClientCan(c, steps)
    decreases |steps|
  {
    if steps == [] then c else ClientRun(ClientStep(c, steps[0].0, steps[0].1), steps[1..])
  }

  /** In every run of any number of inodes, num_cap_flushing counts those on a flushing list. */
  lemma {:induction false} ClientRunInv(c: Client, steps: seq<(nat, Op)>)
    requires ClientInv(c) && ClientCan(c, steps)
    ensures ClientInv(ClientRun(c, steps))
    decreases |steps|
  {
    if steps != [] {
      ClientStepInv(c, steps[0].0, steps[0].1);
      ClientRunInv(ClientStep(c, steps[0].0, steps[0].1), steps[1..]);
    }
  }
}
