/** Runs from a new inode in which the page counts per snap context go wrong: a cap_snap queued while
    there is no head context, and a page dirtied after the realm moved on with nothing to snapshot. */
module SnapCounts {
  import opened Common
  import opened InodeState
  import opened InodeOps

  function Attach(): (op: Op)
  {
    OpAddCap(0, {Pin, FileWr}, {}, false, true, true, true)
  }

  // ----- two cap_snaps with one context ------------------------------------

  /** A write on an inode without head context, a snapshot that moves the realm to b during it, its end. */
  function Write(b: Ctx): (ops: seq<Op>)
  {
    [OpTryGetRefs({FileWr}, {}, true)] + ([OpQueueCapSnap(b)] + ([OpPutRefs({FileWr})] + []))
  }

  /** Then a page is dirtied under b, another snapshot moves the realm to c, and the page is written. */
  function Dirty(b: Ctx, c: Ctx): (ops: seq<Op>)
  {
    [OpPageDirtied(b)] + ([OpMarkDirty({FileWr}, b)] + ([OpQueueCapSnap(c)] + ([OpPutWrbuffer(1, b)] + [])))
  }

  function Twice(b: Ctx, c: Ctx): (ops: seq<Op>)
  {
    ([Attach()] + ([OpFileModes({FileWr})] + [])) + (Write(b) + Dirty(b, c))
  }

  predicate Idle(i: Inode)
  {
    i.r == Refs(0, 0, 0, 0, 0, {FileWr}, false) && i.m.dirty == {} && i.m.flushing == {}
  }

  predicate MayWrite(i: Inode)
  {
    i.c.auth == Some(0) && 0 in i.c.caps && i.c.caps[0].valid && FileWr in i.c.caps[0].issued
  }

  lemma Opened()
    ensures Legal(Fresh(), [Attach()] + ([OpFileModes({FileWr})] + []))
    ensures var i := Exec(Fresh(), [Attach()] + ([OpFileModes({FileWr})] + []));
      Idle(i) && MayWrite(i) && i.d == Data(None, 0, 0, [])
  {
    var i1 := Apply(Fresh(), Attach());
    RunFirst(i1, OpFileModes({FileWr}), []);
    RunFirst(Fresh(), Attach(), [OpFileModes({FileWr})] + []);
  }

  lemma Begin(i: Inode)
    requires Idle(i) && MayWrite(i) && i.d.capSnaps == [] && i.d.wrbufferRef == 0
    ensures CanTake(i, {FileWr}, {}, true)
    ensures var j := TryGetRefs(i, {FileWr}, {}, true);
      j.r == i.r.(wrRef := 1) && j.d == i.d && j.m == i.m && Used(j) == {FileWr}
  {
    assert FileWr in IssuedUnion(i.c.caps);
    assert FileWr in i.r.fileWanted * {FileWr};
    assert {FileWr} + CapsIssued(i) * {} == {FileWr};
  }

  lemma Written(i: Inode, b: Ctx)
    requires Idle(i) && MayWrite(i) && i.d == Data(None, 0, 0, [])
    ensures Legal(i, Write(b))
    ensures var j := Exec(i, Write(b));
      Idle(j) && j.d == Data(Some(b), 0, 0, [CapSnap(b, 0, {FileWr}, false, b.seqno, 0, false)])
  {
    Begin(i);
    var i1 := Apply(i, OpTryGetRefs({FileWr}, {}, true));
    assert SnapDirty(i1) == {FileWr} && FileWr in SnapDirty(i1) * SNAP_DIRTY;
    var i2 := Apply(i1, OpQueueCapSnap(b));
    assert i2.d == Data(Some(b), 0, 0, [CapSnap(b, 0, {FileWr}, true, b.seqno, 0, false)]);
    RunFirst(i2, OpPutRefs({FileWr}), []);
    RunFirst(i1, OpQueueCapSnap(b), [OpPutRefs({FileWr})] + []);
    RunFirst(i, OpTryGetRefs({FileWr}, {}, true), [OpQueueCapSnap(b)] + ([OpPutRefs({FileWr})] + []));
  }

  lemma QueuedAgain(i: Inode, b: Ctx, c: Ctx)
    requires i.r == Refs(0, 0, 0, 0, 0, {FileWr}, false) && i.m.dirty == {FileWr} && i.m.flushing == {} && b != c
    requires i.d == Data(Some(b), 1, 1, [CapSnap(b, 0, {FileWr}, false, b.seqno, 0, false)])
    ensures Legal(i, [OpQueueCapSnap(c)] + ([OpPutWrbuffer(1, b)] + []))
    ensures var d := Exec(i, [OpQueueCapSnap(c)] + ([OpPutWrbuffer(1, b)] + [])).d;
      |d.capSnaps| == 2 && d.capSnaps[0].context == b && d.capSnaps[1].context == b
      && d.capSnaps[0].dirtyPages == -1 && d.capSnaps[1].dirtyPages == 1
  {
    assert SnapDirty(i) == {FileWr} && FileWr in SnapDirty(i) * SNAP_DIRTY;
    var i1 := Apply(i, OpQueueCapSnap(c));
    assert FindSnap(i1.d.capSnaps, b) == 0;
    RunFirst(i1, OpPutWrbuffer(1, b), []);
    RunFirst(i, OpQueueCapSnap(c), [OpPutWrbuffer(1, b)] + []);
  }

  lemma Dirtied(i: Inode, b: Ctx, c: Ctx)
    requires Idle(i) && i.d == Data(Some(b), 0, 0, [CapSnap(b, 0, {FileWr}, false, b.seqno, 0, false)]) && b != c
    ensures Legal(i, Dirty(b, c))
    ensures var d := Exec(i, Dirty(b, c)).d;
      |d.capSnaps| == 2 && d.capSnaps[0].context == b && d.capSnaps[1].context == b
      && d.capSnaps[0].dirtyPages == -1 && d.capSnaps[1].dirtyPages == 1
  {
    var rest := [OpQueueCapSnap(c)] + ([OpPutWrbuffer(1, b)] + []);
    var i1 := Apply(i, OpPageDirtied(b));
    var i2 := Apply(i1, OpMarkDirty({FileWr}, b));
    QueuedAgain(i2, b, c);
    RunFirst(i1, OpMarkDirty({FileWr}, b), rest);
    RunFirst(i, OpPageDirtied(b), [OpMarkDirty({FileWr}, b)] + rest);
  }

  /** A cap_snap queued with no head context takes the realm's, which the head then gets as well; the
      next cap_snap has it again, and the put of its page is taken from the first. */
  lemma DoubledContext(b: Ctx, c: Ctx)
    requires b != c
    ensures Legal(Fresh(), Twice(b, c))
    ensures var d := Exec(Fresh(), Twice(b, c)).d;
      |d.capSnaps| == 2 && d.capSnaps[0].context == d.capSnaps[1].context
      && d.capSnaps[0].dirtyPages == -1 && d.capSnaps[1].dirtyPages == 1
  {
    var open := [Attach()] + ([OpFileModes({FileWr})] + []);
    Opened();
    var i := Exec(Fresh(), open);
    Written(i, b);
    Dirtied(Exec(i, Write(b)), b, c);
    RunBoth(i, Write(b), Dirty(b, c));
    RunBoth(Fresh(), open, Write(b) + Dirty(b, c));
  }

  // ----- a page counted under the wrong context ----------------------------

  /** A page is dirtied and the bits flushed and acknowledged under a. */
  function Flushed(a: Ctx): (ops: seq<Op>)
  {
    [Attach()] + ([OpPageDirtied(a)] + ([OpMarkDirty({FileWr}, a)] +
      ([OpFlushCaps(false, false)] + ([OpFlushAck(1, {FileWr})] + []))))
  }

  /** The realm moves to b with nothing to put in a cap_snap; another page is dirtied and written. */
  function Moved(b: Ctx): (ops: seq<Op>)
  {
    [OpQueueCapSnap(b)] + ([OpPageDirtied(b)] + ([OpPutWrbuffer(1, b)] + []))
  }

  lemma FlushOne(i: Inode)
    requires i.c.auth == Some(0) && 0 in i.c.caps && i.m.dirty == {FileWr} && i.m.flushing == {} && i.m.lastTid == 0
    ensures var j := FlushCaps(i, false, false);
      j.d == i.d && j.r == i.r && j.m.dirty == {} && j.m.flushing == {FileWr} && FileWr in j.m.flushTid
          && j.m.flushTid[FileWr] == 1
  {
  }

  lemma AckOne(i: Inode)
    requires i.m.dirty == {} && i.m.flushing == {FileWr} && FileWr in i.m.flushTid && i.m.flushTid[FileWr] == 1
    requires i.d.headRef == 1
    ensures var j := FlushAck(i, 1, {FileWr}); j.d == i.d && j.r == i.r && j.m.dirty == {} && j.m.flushing == {}
  {
    assert Cleaned(i, 1, {FileWr}) == {FileWr};
  }

  lemma AfterFlushed(a: Ctx)
    ensures Legal(Fresh(), Flushed(a))
    ensures var i := Exec(Fresh(), Flushed(a));
      i.d == Data(Some(a), 1, 1, []) && i.r == Fresh().r && i.m.dirty == {} && i.m.flushing == {}
  {
    var i1 := Apply(Fresh(), Attach());
    var i2 := Apply(i1, OpPageDirtied(a));
    var i3 := Apply(i2, OpMarkDirty({FileWr}, a));
    FlushOne(i3);
    var i4 := Apply(i3, OpFlushCaps(false, false));
    AckOne(i4);
    var ack := [OpFlushAck(1, {FileWr})] + [];
    var flush := [OpFlushCaps(false, false)] + ack;
    var dirty := [OpMarkDirty({FileWr}, a)] + flush;
    RunFirst(i4, OpFlushAck(1, {FileWr}), []);
    RunFirst(i3, OpFlushCaps(false, false), ack);
    RunFirst(i2, OpMarkDirty({FileWr}, a), flush);
    RunFirst(i1, OpPageDirtied(a), dirty);
    RunFirst(Fresh(), Attach(), [OpPageDirtied(a)] + dirty);
  }

  lemma AfterMoved(i: Inode, a: Ctx, b: Ctx)
    requires i.d == Data(Some(a), 1, 1, []) && i.r == Fresh().r && i.m.dirty == {} && i.m.flushing == {} && a != b
    ensures Legal(i, Moved(b))
    ensures Exec(i, Moved(b)).missed && Exec(i, Moved(b)).d == Data(Some(a), 2, 1, [])
  {
    assert !WillQueueSnap(i);
    var i1 := Apply(i, OpQueueCapSnap(b));
    var i2 := Apply(i1, OpPageDirtied(b));
    RunFirst(i2, OpPutWrbuffer(1, b), []);
    RunFirst(i1, OpPageDirtied(b), [OpPutWrbuffer(1, b)] + []);
    RunFirst(i, OpQueueCapSnap(b), [OpPageDirtied(b)] + ([OpPutWrbuffer(1, b)] + []));
  }

  /** The page tagged b was counted under a, and its put finds no counter for b. */
  lemma MiscountedPage(a: Ctx, b: Ctx)
    requires a != b
    ensures Legal(Fresh(), Flushed(a) + Moved(b))
    ensures Exec(Fresh(), Flushed(a) + Moved(b)).missed
  {
    AfterFlushed(a);
    AfterMoved(Exec(Fresh(), Flushed(a)), a, b);
    RunBoth(Fresh(), Flushed(a), Moved(b));
  }
}
