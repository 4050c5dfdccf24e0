/** What a caller of the small inode operations can rely on: which bits and counters move, what is
    conserved, and that the invariants of InodeOps and InodeLists survive. */
module InodeEffects {
  import opened Common
  import opened InodeState
  import opened InodeOps
  import opened InodeLists
  import opened CapMessages
  import SnapWriteback

  lemma Meets(s: Bits, t: Bits)
    ensures s * t != {} <==> exists b :: b in s && b in t
  {
    if s * t != {} {
      var b :| b in s * t;
      assert b in s && b in t;
    }
    if b :| b in s && b in t {
      assert b in s * t;
    }
  }

  /** Everything but one cap is as it was. */
  ghost predicate OnlyCap(i: Inode, i': Inode, mds: int)
  {
    && i'.r == i.r && i'.m == i.m && i'.d == i.d && i'.holds == i.holds && i'.bug == i.bug && i'.missed == i.missed
    && i'.c.auth == i.c.auth && i'.c.caps.Keys == i.c.caps.Keys
    && forall n :: n in i.c.caps && n != mds ==> i'.c.caps[n] == i.c.caps[n]
  }

  /** A grant or revocation: the cap has exactly the bits of the message (or, for an old message, no
      fewer than before) issued, and gives up nothing it implements; nothing else changes. */
  lemma GrantEffect(i: Inode, mds: int, newcaps: Bits, seqOld: bool)
    requires CapsOk(i) && Backed(i) && mds in i.c.caps
    ensures var i' := Grant(i, mds, newcaps, seqOld);
      && OnlyCap(i, i', mds) && CapsOk(i') && Backed(i')
      && newcaps <= i'.c.caps[mds].issued
      && (seqOld ==> i.c.caps[mds].issued <= i'.c.caps[mds].issued)
      && (!seqOld ==> i'.c.caps[mds].issued == newcaps)
      && (forall b :: b in i'.c.caps[mds].implemented <==> b in i.c.caps[mds].implemented || b in newcaps)
      && i'.c.caps[mds].mdsWanted == i.c.caps[mds].mdsWanted && i'.c.caps[mds].valid
  {
    GrowBacked(i, Grant(i, mds, newcaps, seqOld), mds);
  }

  /** A cap added, or told of again. stale: the message is no newer than the cap, whose bits then stay.
      Only this cap changes; it becomes the auth cap if the message says so, or is stale, and there is
      none or an older one. */
  lemma AddEffect(i: Inode, mds: int, issued: Bits, wanted: Bits, seqOld: bool, authFlag: bool, authOlder: bool,
      mseqNewer: bool)
    ensures var i' := AddCap(i, mds, issued, wanted, seqOld, authFlag, authOlder, mseqNewer);
      var known := mds in i.c.caps;
      var was := if known then i.c.caps[mds] else Cap({}, {}, {}, true);
      var auth := (authFlag || (known && seqOld)) && (i.c.auth.None? || authOlder);
      && i' == i.(c := i'.c) && i'.c.caps.Keys == i.c.caps.Keys + {mds}
      && (forall n :: n in i.c.caps && n != mds ==> i'.c.caps[n] == i.c.caps[n])
      && i'.c.auth == (if auth then Some(mds) else i.c.auth)
      && CapAdded(was, issued, wanted, known && seqOld, auth || (mseqNewer && !(known && seqOld)), i'.c.caps[mds])
  {
  }

  ghost predicate CapAdded(was: Cap, issued: Bits, wanted: Bits, stale: bool, anew: bool, now: Cap)
  {
    && now.valid
    && (forall b :: b in now.issued <==> b in issued || (stale && b in was.issued))
    && (forall b :: b in now.implemented <==> b in was.implemented || b in now.issued)
    && (forall b :: b in now.mdsWanted <==> b in wanted || (!anew && b in was.mdsWanted))
  }

  /** A bit asked for that nobody uses and that carries no dirty state. */
  predicate Idle(i: Inode, b: Bit)
  {
    !InUse(i, b) && b !in i.m.dirty && b !in i.m.flushing
  }

  /** A release goes out: the cap has an idle bit that is asked for, and no bit that forbids it. */
  ghost predicate Releases(i: Inode, mds: int, drop: Bits, unless: Bits)
  {
    && mds in i.c.caps && i.c.caps[mds].valid
    && (exists b :: b in i.c.caps[mds].issued && b in drop && Idle(i, b))
    && forall b :: b in i.c.caps[mds].issued ==> b !in unless
  }

  /** The cap after it: exactly the idle bits asked for are given up, and the MDS knows what is wanted,
      besides what it knew unless told at once. */
  ghost predicate CapReleased(i: Inode, mds: int, drop: Bits, nodelay: bool, now: Cap)
    requires mds in i.c.caps
  {
    var cap := i.c.caps[mds];
    && now.valid == cap.valid
    && (forall b :: b in now.issued <==> b in cap.issued && !(b in drop && Idle(i, b)))
    && (forall b :: b in now.implemented <==> b in cap.implemented && !(b in drop && Idle(i, b)))
    && (forall b :: b in now.mdsWanted <==>
          Wanted(i, b) || (b == FileExcl && Wanted(i, FileBuffer)) || (!nodelay && b in cap.mdsWanted))
  }

  lemma CapsWantedIs(i: Inode)
    ensures forall b :: b in CapsWanted(i) <==> Wanted(i, b) || (b == FileExcl && Wanted(i, FileBuffer))
  {
    WantIs(i);
  }

  /** An embedded release happens, and gives up exactly the bits asked for that are neither in use nor
      dirty nor flushing, if there is such a bit issued and no excluded one; else nothing changes. */
  lemma ReleaseEffect(i: Inode, mds: int, drop: Bits, unless: Bits, nodelay: bool)
    ensures var i' := EncodeRelease(i, mds, drop, unless, nodelay);
      && OnlyCap(i, i', mds)
      && (Releases(i, mds, drop, unless) ==> CapReleased(i, mds, drop, nodelay, i'.c.caps[mds]))
      && (!Releases(i, mds, drop, unless) ==> i' == i)
  {
    CapsWantedIs(i);
    var given := drop - (Used(i) + i.m.dirty + i.m.flushing);
    GivenIs(i, drop);
    if mds in i.c.caps {
      Meets(i.c.caps[mds].issued, given);
      Meets(i.c.caps[mds].issued, unless);
    }
  }

  lemma GivenIs(i: Inode, drop: Bits)
    ensures forall b :: b in drop - (Used(i) + i.m.dirty + i.m.flushing) <==> b in drop && Idle(i, b)
  {
    UsedIs(i);
  }

  /** The bit is issued by another cap that is not stale. */
  ghost predicate IssuedElsewhere(i: Inode, mds: int, b: Bit)
  {
    exists n :: n in i.c.caps && n != mds && i.c.caps[n].valid && b in i.c.caps[n].issued
  }

  /** The auth cap must stay: it has dirty state to flush, or some write bit is wanted. */
  ghost predicate AuthNeeded(i: Inode, mds: int)
  {
    i.c.auth == Some(mds) && (i.m.dirty != {} || i.m.flushing != {} || exists b :: Wanted(i, b) && b in ANY_WR)
  }

  /** Some wanted bit is on no other cap. */
  ghost predicate OnlyHere(i: Inode, mds: int)
    requires mds in i.c.caps
  {
    exists b :: Wanted(i, b) && (b in i.c.caps[mds].issued || b in i.c.caps[mds].implemented)
                && !IssuedElsewhere(i, mds, b)
  }

  lemma OtherIs(i: Inode, mds: int)
    ensures forall b :: b in IssuedOther(i, mds) <==> IssuedElsewhere(i, mds, b)
  {
    var rest := i.c.caps - {mds};
    forall b | IssuedElsewhere(i, mds, b) ensures b in IssuedOther(i, mds) {
      var n :| n in i.c.caps && n != mds && i.c.caps[n].valid && b in i.c.caps[n].issued;
      assert n in rest && rest[n].valid && b in rest[n].issued;
    }
  }

  lemma NeedIs(i: Inode, mds: int)
    requires mds in i.c.caps
    ensures var need := Used(i) + i.r.fileWanted; var cap := i.c.caps[mds];
      && (AuthNeeded(i, mds) <==> i.c.auth == Some(mds) && (i.m.dirty + i.m.flushing != {} || need * ANY_WR != {}))
      && (OnlyHere(i, mds) <==> (need - IssuedOther(i, mds)) * (cap.issued + cap.implemented) != {})
  {
    WantIs(i);
    OtherIs(i, mds);
    var need := Used(i) + i.r.fileWanted;
    var cap := i.c.caps[mds];
    assert forall b :: b in need <==> Wanted(i, b);
    Meets(need, ANY_WR);
    Meets(need - IssuedOther(i, mds), cap.issued + cap.implemented);
  }

  /** Trimming removes the cap, and nothing else, exactly if it is not an auth cap that must stay, each
      wanted bit it has is on another cap too, and there is another cap with something issued. */
  lemma TrimEffect(i: Inode, mds: int)
    requires mds in i.c.caps
    ensures var i' := TrimCap(i, mds);
      if !AuthNeeded(i, mds) && !OnlyHere(i, mds) && exists b :: IssuedElsewhere(i, mds, b) then
        && i' == i.(c := i'.c) && i'.c.caps == i.c.caps - {mds}
        && i'.c.auth == if i.c.auth == Some(mds) then None else i.c.auth
      else i' == i
  {
    NeedIs(i, mds);
    OtherIs(i, mds);
    if IssuedOther(i, mds) != {} {
      var b :| b in IssuedOther(i, mds);
      assert IssuedElsewhere(i, mds, b);
    }
  }

  // ----- references --------------------------------------------------------

  /** Some cap that is not stale has the bit issued, and the auth cap is not losing it. */
  ghost predicate Have(i: Inode, b: Bit)
  {
    && (exists n :: n in i.c.caps && i.c.caps[n].valid && b in i.c.caps[n].issued)
    && !(i.c.auth.Some? && i.c.auth.value in i.c.caps && Revoked(i.c.caps[i.c.auth.value], b))
  }

  /** Some cap that is not stale still implements the bit, but it is on its way out. */
  ghost predicate GoingAway(i: Inode, b: Bit)
  {
    (exists n :: n in i.c.caps && i.c.caps[n].valid && b in i.c.caps[n].implemented) && !Have(i, b)
  }

  lemma HaveIs(i: Inode)
    ensures forall b :: b in CapsIssued(i) <==> Have(i, b)
    ensures forall b :: b in ImplementedUnion(i.c.caps) - CapsIssued(i) <==> GoingAway(i, b)
  {
  }

  /** References are given out exactly if a file is open for a needed bit, every needed bit is there, no
      wanted bit besides is on its way out, and a write is within the limits with no snapshot waiting
      for a writer to finish. */
  ghost predicate Grantable(i: Inode, need: Bits, want: Bits, sizeOk: bool)
  {
    && (exists b :: b in need && b in i.r.fileWanted)
    && (forall b :: b in need ==> Have(i, b))
    && (forall b :: b in want && b !in need ==> !GoingAway(i, b))
    && (FileWr in need ==> sizeOk && (i.d.capSnaps != [] ==> !i.d.capSnaps[|i.d.capSnaps| - 1].writing))
  }

  lemma CanTakeIs(i: Inode, need: Bits, want: Bits, sizeOk: bool)
    ensures CanTake(i, need, want, sizeOk) <==> Grantable(i, need, want, sizeOk)
  {
    HaveIs(i);
    var have := CapsIssued(i);
    var gone := ImplementedUnion(i.c.caps) - have;
    Meets(i.r.fileWanted, need);
    Meets(gone, want - need);
  }

  /** There is something to flush, or with resend still in flight, and an auth cap to flush it on. */
  predicate FlushWorks(i: Inode, resend: bool)
  {
    i.c.auth.Some? && i.c.auth.value in i.c.caps && if resend then i.m.flushing != {} else i.m.dirty != {}
  }

  /** A flush on its own keeps every issued bit, and forgets the revoked bits that are not in use. */
  ghost predicate CapFlushed(i: Inode, cap: Cap, holdMin: bool, now: Cap)
  {
    && now.issued == cap.issued && now.valid == cap.valid
    && (forall b :: b in now.implemented <==> b in cap.implemented && (b in cap.issued || InUse(i, b)))
    && (forall b :: b in now.mdsWanted <==>
          Wanted(i, b) || (b == FileExcl && Wanted(i, FileBuffer)) || (holdMin && b in cap.mdsWanted))
  }

  /** A flush sent again: the same bits under the next tid. */
  ghost predicate MasksResent(m: Meta, mds: int, now: Meta)
  {
    && now == m.(lastTid := (m.lastTid + 1) % TID_MOD, flushTid := now.flushTid, flushingOn := Some(mds))
    && (forall b :: b in now.flushTid <==> b in m.flushTid || b in m.flushing)
    && (forall b :: b in now.flushTid ==> now.flushTid[b] == if b in m.flushing then now.lastTid else m.flushTid[b])
  }

  lemma FlushBitsAre(i: Inode, cap: Cap, holdMin: bool)
    ensures CapFlushed(i, cap, holdMin,
      SendCapBits(cap, Used(i), CapsWanted(i), cap.issued + cap.implemented, holdMin))
  {
    UsedIs(i);
    CapsWantedIs(i);
    var now := SendCapBits(cap, Used(i), CapsWanted(i), cap.issued + cap.implemented, holdMin);
    assert now.issued == cap.issued;
  }

  /** try_flush_caps and the kick functions: which bits are flushed, under which tid. */
  lemma FlushEffect(i: Inode, resend: bool, holdMin: bool)
    ensures var i' := FlushCaps(i, resend, holdMin);
      && (!FlushWorks(i, resend) ==> i' == i)
      && (FlushWorks(i, resend) ==>
            var mds := i.c.auth.value;
            && i'.r == i.r && i'.d == i.d && i'.c.auth == i.c.auth && i'.c.caps.Keys == i.c.caps.Keys
            && (forall n :: n in i.c.caps && n != mds ==> i'.c.caps[n] == i.c.caps[n])
            && CapFlushed(i, i.c.caps[mds], holdMin, i'.c.caps[mds])
            && if resend then MasksResent(i.m, mds, i'.m) else MasksSent(i, mds, i'.m))
  {
    if FlushWorks(i, resend) {
      FlushBitsAre(i, i.c.caps[i.c.auth.value], holdMin);
    }
  }

  /** The ack is for the flush last sent of this bit, as far as 16 bits tell. */
  predicate AckFor(m: Meta, tid: nat, mask: Bits, b: Bit)
  {
    b in mask && b in m.flushTid && m.flushTid[b] == tid % TID_MOD
  }

  /** A flush ack cleans exactly the bits it is for; with the last one the inode leaves the flushing
      list, and unless something is dirty again its hold goes, and the head context if no page needs it. */
  lemma AckEffect(i: Inode, tid: nat, mask: Bits)
    requires Shape(i)
    ensures var i' := FlushAck(i, tid, mask);
      var clean := i.m.flushing != {} && i'.m.flushing == {};
      && (forall b :: b in i'.m.flushing <==> b in i.m.flushing && !AckFor(i.m, tid, mask, b))
      && i'.m == i.m.(flushing := i'.m.flushing, flushingOn := if clean then None else i.m.flushingOn)
      && i'.c == i.c && i'.r == i.r && i'.holds == i.holds - One(clean && i.m.dirty == {})
      && i'.d == i.d.(head := if clean && i.m.dirty == {} && i.d.headRef == 0 then None else i.d.head)
  {
    assert forall b :: b in Cleaned(i, tid, mask) <==> AckFor(i.m, tid, mask, b);
    var i' := FlushAck(i, tid, mask);
    if i.m.flushing * Cleaned(i, tid, mask) == {} {
      assert forall b :: b in i.m.flushing && AckFor(i.m, tid, mask, b) ==> b in i.m.flushing * Cleaned(i, tid, mask);
    } else {
      assert i'.m.flushing == i.m.flushing - Cleaned(i, tid, mask);
    }
  }

  /** Starting a flush: no bit is lost between the masks, the inode changes lists, and no hold moves. */
  lemma FlushingEffect(i: Inode, session: int)
    requires Shape(i) && i.m.dirty != {}
    ensures var i' := MarkFlushing(i, session);
      && Keeps(i, i') && i'.m.dirty + i'.m.flushing == i.m.dirty + i.m.flushing && i'.m.dirty == {}
      && !i'.m.onDirtyList && i'.m.flushingOn == Some(session)
  {
  }

  /** The number of references to a bit that is counted. */
  function Count(r: Refs, b: Bit): (n: nat)
  {
    match b
    case Pin => r.pinRef
    case FileRd => r.rdRef
    case FileCache => r.rdcacheRef
    case FileWr => r.wrRef
    case FileBuffer => r.wbRef
    case _ => 0
  }

  /** Each counted bit given moves by one reference, no other count moves, and neither do the wishes of
      open files nor the cached pages. */
  ghost predicate CountersMove(r: Refs, r': Refs, bits: Bits, step: int)
  {
    && r'.fileWanted == r.fileWanted && r'.cachedPages == r.cachedPages
    && forall b :: Count(r', b) == Count(r, b) + if b in bits * COUNTED then step else 0
  }

  lemma TakeCounts(i: Inode, got: Bits)
    ensures CountersMove(i.r, TakeRefs(i, got).r, got, 1)
  {
  }

  lemma PutCounts(i: Inode, had: Bits)
    requires HoldsRefs(i.r, had)
    ensures CountersMove(i.r, PutRefs(i, had).r, had, -1)
  {
  }

  /** Taking references: the counted bits among them are in use afterwards, besides those before, and
      every hold is accounted for. */
  lemma TakeEffect(i: Inode, got: Bits)
    requires Shape(i)
    ensures var i' := TakeRefs(i, got);
      && Keeps(i, i') && Used(i') == Used(i) + got * COUNTED && HoldsRefs(i'.r, got)
      && i'.c == i.c && i'.m == i.m && i'.d == i.d && CountersMove(i.r, i'.r, got, 1)
  {
    TakeCounts(i, got);
    TakeUses(i, got);
  }

  /** Putting references: no bit becomes used or referenced, every bit not put stays as it was, every
      hold is accounted for, and with the last write reference the first cap_snap's writer is done. */
  lemma PutEffect(i: Inode, had: Bits)
    requires Shape(i) && HoldsRefs(i.r, had)
    ensures var i' := PutRefs(i, had);
      && Keeps(i, i') && Used(i') <= Used(i) && Used(i) - Used(i') <= had && i'.c == i.c && i'.m == i.m
      && CountersMove(i.r, i'.r, had, -1)
      && (Backed(i) ==> Backed(i'))
      && i'.d == i.d.(capSnaps := i'.d.capSnaps) && |i'.d.capSnaps| == |i.d.capSnaps|
      && (forall k :: 0 < k < |i.d.capSnaps| ==> i'.d.capSnaps[k] == i.d.capSnaps[k])
      && (i.d.capSnaps != [] ==>
            var cs, ended := i.d.capSnaps[0], FileWr in had && i'.r.wrRef == 0;
            i'.d.capSnaps[0] == cs.(writing := cs.writing && !ended))
  {
    PutCounts(i, had);
    OtherOps(i, OpPutRefs(had));
    forall b | b in Used(i) && b !in Used(PutRefs(i, had)) ensures b in had {
    }
  }

  /** Marking dirty: the bits are added, the inode is on the dirty list and has a head context, old or
      the realm's, and a hold is taken exactly if nothing was dirty or flushing. */
  lemma MarkDirtyEffect(i: Inode, mask: Bits, realm: Ctx)
    requires Shape(i) && mask != {}
    ensures var i' := MarkDirty(i, mask, realm);
      && Keeps(i, i') && i'.m.dirty == i.m.dirty + mask && i'.m.flushing == i.m.flushing && i'.m.onDirtyList
      && i'.d == i.d.(head := if i.d.head.Some? then i.d.head else i'.d.head)
      && i'.d.head.Some? && (i.d.head.None? && i.m.dirty == {} ==> i'.d.head == Some(realm))
      && i'.c == i.c && i'.r == i.r
      && i'.holds == i.holds + One(i.m.dirty == {} && i.m.flushing == {})
  {
  }

  /** Counting a dirty page: it goes to the head context, which exists afterwards; the cap_snaps and
      what they count stay; a hold is taken exactly with the first page. */
  lemma PageEffect(i: Inode, snapc: Ctx)
    requires Shape(i)
    ensures var i' := PageDirtied(i, snapc);
      && Keeps(i, i') && i'.d.head == (if i.d.head.Some? then i.d.head else Some(snapc))
      && i'.d.capSnaps == i.d.capSnaps
      && i'.d.headRef == i.d.headRef + 1 && i'.d.wrbufferRef == i.d.wrbufferRef + 1
      && i'.c == i.c && i'.r == i.r && i'.m == i.m
      && i'.holds == i.holds + One(i.d.wrbufferRef == 0)
  {
  }

  /** Dirty state that a snapshot must keep: metadata, or a write in progress. */
  predicate SnapKeeps(i: Inode, b: Bit)
  {
    b in i.m.dirty || b in i.m.flushing || (b == FileWr && i.r.wrRef > 0)
  }

  /** A cap_snap is needed: there is such state of a kind that counts, and no earlier cap_snap waits. */
  ghost predicate SnapNeeded(i: Inode)
  {
    && (i.d.capSnaps != [] ==> !i.d.capSnaps[|i.d.capSnaps| - 1].writing)
    && exists b :: b in SNAP_DIRTY && SnapKeeps(i, b)
  }

  lemma SnapNeededIs(i: Inode)
    ensures WillQueueSnap(i) <==> SnapNeeded(i)
    ensures forall b :: b in SnapDirty(i) <==> SnapKeeps(i, b)
  {
    UsedIs(i);
    assert forall b :: b in SnapDirty(i) <==> SnapKeeps(i, b);
    Meets(SnapDirty(i), SNAP_DIRTY);
    assert SnapDirty(i) * SNAP_DIRTY != {} <==> exists b :: b in SNAP_DIRTY && SnapKeeps(i, b);
  }

  /** The cap_snap takes over the head: its context (or the realm's), pages and dirty state. */
  ghost predicate TakesHead(i: Inode, realm: Ctx, cs: CapSnap)
  {
    && cs.context == (if i.d.head.Some? then i.d.head.value else realm) && cs.follows == cs.context.seqno
    && cs.dirtyPages == i.d.headRef && (forall b :: b in cs.dirty <==> SnapKeeps(i, b))
    && (cs.writing <==> i.r.wrRef > 0) && !cs.flushed
  }

  /** Queueing a cap_snap: nothing happens unless one is needed; the new one takes over the head, the
      head starts over under the realm's context, and no other cap_snap changes. */
  lemma QueueEffect(i: Inode, realm: Ctx)
    ensures var i' := QueueCapSnap(i, realm);
      && (!SnapNeeded(i) ==> i' == i)
      && (SnapNeeded(i) ==>
            && |i'.d.capSnaps| == |i.d.capSnaps| + 1 && i'.d.capSnaps[..|i.d.capSnaps|] == i.d.capSnaps
            && TakesHead(i, realm, i'.d.capSnaps[|i.d.capSnaps|])
            && i'.d.head == Some(realm) && i'.d.headRef == 0 && i'.d.wrbufferRef == i.d.wrbufferRef
            && i'.c == i.c && i'.r == i.r && i'.m == i.m)
  {
    SnapNeededIs(i);
    UsedIs(i);
  }

  /** Every hold is accounted for, and no page is lost between counters. */
  lemma QueueKeeps(i: Inode, realm: Ctx)
    requires Shape(i)
    ensures var i' := QueueCapSnap(i, realm);
      && Keeps(i, i')
      && i'.d.headRef + SnapWriteback.SumDirty(i'.d.capSnaps) == i.d.headRef + SnapWriteback.SumDirty(i.d.capSnaps)
  {
    if WillQueueSnap(i) {
      var cs := QueueCapSnap(i, realm).d.capSnaps[|i.d.capSnaps|];
      assert QueueCapSnap(i, realm).d.capSnaps == i.d.capSnaps + [cs];
      SnapWriteback.SumAppend(i.d.capSnaps, cs);
    }
  }

  /** k is the first cap_snap under the context. */
  ghost predicate FirstUnder(snaps: seq<CapSnap>, snapc: Ctx, k: int)
  {
    0 <= k < |snaps| && snaps[k].context == snapc && forall j :: 0 <= j < k ==> snaps[j].context != snapc
  }

  /** Putting pages written under a context: they come off the head if it is the head's, which goes with
      the last page unless metadata needs it; else off the first cap_snap under it, which goes with the
      last page unless it has dirty state to flush. With neither, the lookup fails. */
  lemma PutPagesEffect(i: Inode, nr: nat, snapc: Ctx)
    ensures var i' := PutWrbuffer(i, nr, snapc);
      && i'.c == i.c && i'.r == i.r && i'.m == i.m && i'.d.wrbufferRef == i.d.wrbufferRef - nr
      && (i.d.head == Some(snapc) ==> i'.d.capSnaps == i.d.capSnaps && i'.missed == i.missed && HeadPut(i, nr, i'.d))
      && (i.d.head != Some(snapc) ==>
            && i'.d.head == i.d.head && i'.d.headRef == i.d.headRef
            && (forall k :: FirstUnder(i.d.capSnaps, snapc, k) ==>
                  i'.missed == i.missed && SnapPut(i.d.capSnaps, nr, k, i'.d.capSnaps))
            && ((forall k :: !FirstUnder(i.d.capSnaps, snapc, k)) ==> i'.missed && i'.d.capSnaps == i.d.capSnaps))
  {
    var n := FindSnap(i.d.capSnaps, snapc);
    assert n < |i.d.capSnaps| ==> FirstUnder(i.d.capSnaps, snapc, n);
    assert forall k :: FirstUnder(i.d.capSnaps, snapc, k) ==> k == n;
  }

  ghost predicate HeadPut(i: Inode, nr: nat, d: Data)
  {
    && d.headRef == i.d.headRef - nr
    && d.head == if d.headRef == 0 && i.m.dirty == {} && i.m.flushing == {} then None else i.d.head
  }

  ghost predicate SnapPut(snaps: seq<CapSnap>, nr: nat, k: int, now: seq<CapSnap>)
    requires 0 <= k < |snaps|
  {
    if snaps[k].dirtyPages == nr && snaps[k].dirty == {} then now == snaps[..k] + snaps[k+1..]
    else now == snaps[k := snaps[k].(dirtyPages := snaps[k].dirtyPages - nr)]
  }

  /** A session's end takes its cap; the last cap takes all dirty state with it. */
  lemma SessionCapEffect(i: Inode, mds: int)
    requires Shape(i)
    ensures var i' := RemoveSessionCap(i, mds);
      && i'.r == i.r && i'.c.caps == i.c.caps - {mds}
      && i'.c.auth == (if i.c.auth == Some(mds) then None else i.c.auth)
      && (i'.c.caps != map[] ==> i' == i.(c := i'.c))
      && (i'.c.caps == map[] ==> i'.m.dirty == {} && i'.m.flushing == {} && i'.d.capSnaps == i.d.capSnaps)
      && (i'.c.caps == map[] && (i.m.dirty != {} || i.m.flushing != {}) ==> i'.d.wrbufferRef == 0)
  {
  }

  // ----- cap_snaps ---------------------------------------------------------

  /** k is the first cap_snap that follows the given snapshot. */
  ghost predicate FirstFollowing(snaps: seq<CapSnap>, follows: nat, k: int)
  {
    0 <= k < |snaps| && snaps[k].follows == follows && forall j :: 0 <= j < k ==> snaps[j].follows != follows
  }

  /** An ack with the tid last used for the first cap_snap following the snapshot removes that one, with
      its hold; any other ack changes nothing. */
  lemma SnapAckEffect(i: Inode, follows: nat, tid: nat)
    ensures var i' := FlushSnapAck(i, follows, tid);
      && (forall k :: FirstFollowing(i.d.capSnaps, follows, k) && i.d.capSnaps[k].flushTid == tid ==>
            && i'.d.capSnaps == i.d.capSnaps[..k] + i.d.capSnaps[k+1..]
            && i' == i.(d := i.d.(capSnaps := i'.d.capSnaps), holds := i.holds - 1))
      && ((forall k :: FirstFollowing(i.d.capSnaps, follows, k) ==> i.d.capSnaps[k].flushTid != tid) ==> i' == i)
  {
    var n := FindFollows(i.d.capSnaps, follows);
    FindFollowsFirst(i.d.capSnaps, follows);
    assert n < |i.d.capSnaps| ==> FirstFollowing(i.d.capSnaps, follows, n);
    assert forall k :: FirstFollowing(i.d.capSnaps, follows, k) ==> k == n;
  }

  lemma {:induction false} FindFollowsFirst(snaps: seq<CapSnap>, follows: nat)
    ensures forall j :: 0 <= j < FindFollows(snaps, follows) ==> snaps[j].follows != follows
  {
    if snaps != [] && snaps[0].follows != follows {
      FindFollowsFirst(snaps[1..], follows);
      assert forall j :: 0 < j < |snaps| ==> snaps[j] == snaps[1..][j-1];
    }
  }
}
