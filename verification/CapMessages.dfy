/** When ceph_check_caps owes an MDS a message, said bit by bit, and what the message achieves. */
module CapMessages {
  import opened Common
  import opened InodeState

  // ----- bits --------------------------------------------------------------

  /** Something holds the bit: a reference, cached pages or dirty pages. */
  predicate InUse(i: Inode, b: Bit)
  {
    match b
    case Pin => i.r.pinRef > 0
    case FileRd => i.r.rdRef > 0
    case FileCache => i.r.rdcacheRef > 0 || i.r.cachedPages
    case FileWr => i.r.wrRef > 0
    case FileBuffer => i.r.wbRef > 0 || i.d.wrbufferRef != 0
    case _ => false
  }

  /** An open file wants the bit, or it is in use. */
  predicate Wanted(i: Inode, b: Bit)
  {
    b in i.r.fileWanted || InUse(i, b)
  }

  /** The auth cap, if this is another one, has the bit. */
  predicate LeftToAuth(i: Inode, mds: int, b: Bit)
  {
    i.c.auth.Some? && i.c.auth.value != mds && i.c.auth.value in i.c.caps && b in i.c.caps[i.c.auth.value].issued
  }

  predicate Revoked(cap: Cap, b: Bit)
  {
    b in cap.implemented && b !in cap.issued
  }

  /** A cap may keep the bit: it is wanted, or the inode lives on and it is cheap to keep. */
  ghost predicate Keepable(i: Inode, a: CheckArgs, b: Bit)
  {
    || Wanted(i, b) || b == Pin
    || (!a.stopping && !a.unlinked &&
        if exists w :: Wanted(i, w) then b in ANY else b in ANY_SHARED || (a.maxSizeZero && b in ANY_RD))
  }

  // ----- reasons for a message ---------------------------------------------

  /** The file may need a larger max_size. */
  predicate SizeDue(i: Inode, mds: int, a: CheckArgs)
    requires mds in i.c.caps
  {
    i.c.auth == Some(mds) && FileWr in i.c.caps[mds].issued && a.sizeReport
  }

  predicate FlushDue(i: Inode, mds: int, a: CheckArgs)
  {
    i.c.auth == Some(mds) && a.flush && i.m.dirty != {}
  }

  /** The MDS has revoked bits, and none of them is in use, but for those left to the auth cap. */
  ghost predicate RevocationOver(i: Inode, mds: int)
    requires mds in i.c.caps
  {
    && (exists b :: Revoked(i.c.caps[mds], b))
    && forall b :: Revoked(i.c.caps[mds], b) && InUse(i, b) ==> LeftToAuth(i, mds, b)
  }

  /** Some wanted bit is neither issued nor asked for. */
  ghost predicate WantsMore(i: Inode, mds: int)
    requires mds in i.c.caps
  {
    exists b :: Wanted(i, b) && b !in i.c.caps[mds].mdsWanted && b !in i.c.caps[mds].issued
  }

  /** The cap holds bits it need not keep, or the MDS has been told of other wishes. */
  ghost predicate Untidy(i: Inode, mds: int, a: CheckArgs)
    requires mds in i.c.caps
  {
    || (exists b :: b in i.c.caps[mds].issued && !Keepable(i, a, b))
    || (exists b :: b in i.c.caps[mds].mdsWanted <==> !Wanted(i, b))
  }

  predicate MayDelay(a: CheckArgs)
  {
    a.holdMax && !a.nodelay && !a.stopping
  }

  /** No message may go out on this cap now. */
  predicate Excluded(i: Inode, mds: int, a: CheckArgs)
  {
    a.noflush || (a.authOnly && i.c.auth != Some(mds))
  }

  ghost predicate Due(i: Inode, mds: int, a: CheckArgs)
    requires mds in i.c.caps
  {
    && !Excluded(i, mds, a)
    && (|| SizeDue(i, mds, a) || FlushDue(i, mds, a) || RevocationOver(i, mds) || WantsMore(i, mds)
        || (Untidy(i, mds, a) && !MayDelay(a)))
  }

  // ----- the code's tests on masks -----------------------------------------

  lemma UsedIs(i: Inode)
    ensures forall b :: b in Used(i) <==> InUse(i, b)
  {
  }

  lemma CapUsedIs(i: Inode, mds: int)
    ensures forall b :: b in CapUsed(i, mds) <==> InUse(i, b) && !LeftToAuth(i, mds, b)
  {
    UsedIs(i);
  }

  lemma WantIs(i: Inode)
    ensures forall b :: b in i.r.fileWanted + Used(i) <==> Wanted(i, b)
    ensures i.r.fileWanted + Used(i) != {} <==> exists b :: Wanted(i, b)
  {
    UsedIs(i);
    var want := i.r.fileWanted + Used(i);
    if want != {} {
      var b :| b in want;
      assert Wanted(i, b);
    }
  }

  lemma RetainIs(i: Inode, a: CheckArgs)
    ensures forall b :: b in CheckRetain(i, a) <==> Keepable(i, a, b)
  {
    WantIs(i);
  }

  lemma RevocationIs(i: Inode, mds: int)
    requires mds in i.c.caps
    ensures var revoking := i.c.caps[mds].implemented - i.c.caps[mds].issued;
      RevocationOver(i, mds) <==> revoking != {} && revoking * CapUsed(i, mds) == {}
  {
    var cap := i.c.caps[mds];
    var revoking := cap.implemented - cap.issued;
    CapUsedIs(i, mds);
    assert forall b :: b in revoking <==> Revoked(cap, b);
    if revoking != {} {
      var b :| b in revoking;
      assert Revoked(cap, b);
    }
    assert forall b :: b in revoking * CapUsed(i, mds) <==> Revoked(cap, b) && InUse(i, b) && !LeftToAuth(i, mds, b);
  }

  lemma WantsMoreIs(i: Inode, mds: int)
    requires mds in i.c.caps
    ensures WantsMore(i, mds) <==> !(i.r.fileWanted + Used(i) <= i.c.caps[mds].mdsWanted + i.c.caps[mds].issued)
  {
    WantIs(i);
  }

  lemma UntidyIs(i: Inode, mds: int, a: CheckArgs)
    requires mds in i.c.caps
    ensures var cap := i.c.caps[mds];
      Untidy(i, mds, a) <==> !(cap.issued <= CheckRetain(i, a) && cap.mdsWanted == i.r.fileWanted + Used(i))
  {
    WantIs(i);
    RetainIs(i, a);
  }

  /** The code's tests ask for a message exactly if one is due. */
  lemma DueIs(i: Inode, mds: int, a: CheckArgs)
    requires mds in i.c.caps
    ensures CheckSends(i, mds, a) <==> Due(i, mds, a)
  {
    RevocationIs(i, mds);
    WantsMoreIs(i, mds);
    UntidyIs(i, mds, a);
  }

  // ----- what a message achieves -------------------------------------------

  /** The cap after a message: it keeps the keepable bits, or all while bits may be held; forgets the
      revoked bits that are not in use; and the MDS knows what is wanted, besides what it knew while
      bits may be held. */
  ghost predicate CapSent(i: Inode, mds: int, a: CheckArgs, now: Cap)
    requires mds in i.c.caps
  {
    var cap := i.c.caps[mds];
    && now.valid == cap.valid
    && (forall b :: b in now.issued <==> b in cap.issued && (a.holdMin || Keepable(i, a, b)))
    && (forall b :: b in now.implemented <==>
          b in cap.implemented && (b in now.issued || (InUse(i, b) && !LeftToAuth(i, mds, b))))
    && (forall b :: b in now.mdsWanted <==> Wanted(i, b) || (a.holdMin && b in cap.mdsWanted))
  }

  /** The masks after it: a message on the auth cap starts flushing all that is dirty, under the next
      tid; any other leaves them alone. */
  ghost predicate MasksSent(i: Inode, mds: int, now: Meta)
  {
    var m := i.m;
    if i.c.auth == Some(mds) && m.dirty != {} then
      && now.dirty == {} && (forall b :: b in now.flushing <==> b in m.flushing || b in m.dirty)
      && now.lastTid == (m.lastTid + 1) % TID_MOD && !now.onDirtyList && now.flushingOn == Some(mds)
      && (forall b :: b in now.flushTid <==> b in m.flushTid || b in m.dirty)
      && (forall b :: b in now.flushTid ==>
            now.flushTid[b] == if b in m.dirty then now.lastTid else m.flushTid[b])
    else now == m
  }

  lemma SendBitsAre(i: Inode, mds: int, a: CheckArgs)
    requires mds in i.c.caps
    ensures CapSent(i, mds, a,
      SendCapBits(i.c.caps[mds], CapUsed(i, mds), i.r.fileWanted + Used(i), CheckRetain(i, a), a.holdMin))
  {
    CapUsedIs(i, mds);
    WantIs(i);
    RetainIs(i, a);
  }

  lemma MessageCaps(i: Inode, mds: int, a: CheckArgs)
    requires mds in i.c.caps && CheckSends(i, mds, a)
    ensures var i' := CheckCap(i, mds, a);
      && i'.r == i.r && i'.d == i.d
      && i'.c == i.c.(caps := i.c.caps[mds :=
           SendCapBits(i.c.caps[mds], CapUsed(i, mds), i.r.fileWanted + Used(i), CheckRetain(i, a), a.holdMin)])
  {
  }

  lemma MessageMasks(i: Inode, mds: int, a: CheckArgs)
    requires mds in i.c.caps && CheckSends(i, mds, a)
    ensures MasksSent(i, mds, CheckCap(i, mds, a).m)
  {
  }

  /** What the message does to the inode: nothing beyond that. */
  ghost predicate MessageSent(i: Inode, mds: int, a: CheckArgs, i': Inode)
    requires mds in i.c.caps
  {
    && i'.c.caps.Keys == i.c.caps.Keys && i'.c.auth == i.c.auth && i'.r == i.r && i'.d == i.d
    && (forall n :: n in i.c.caps && n != mds ==> i'.c.caps[n] == i.c.caps[n])
    && CapSent(i, mds, a, i'.c.caps[mds]) && MasksSent(i, mds, i'.m)
  }

  /** What ceph_check_caps does about a cap that is due a message. */
  lemma MessageEffect(i: Inode, mds: int, a: CheckArgs)
    requires mds in i.c.caps && Due(i, mds, a)
    ensures MessageSent(i, mds, a, CheckCap(i, mds, a))
  {
    DueIs(i, mds, a);
    SendBitsAre(i, mds, a);
    MessageCaps(i, mds, a);
    MessageMasks(i, mds, a);
  }

  /** One message is enough: afterwards the MDS is owed no flush, no end of a revocation and no wish, and
      nothing to tidy unless bits may be held. */
  lemma MessageSettles(i: Inode, mds: int, a: CheckArgs)
    requires mds in i.c.caps && Due(i, mds, a)
    ensures var i' := CheckCap(i, mds, a);
      && mds in i'.c.caps
      && !FlushDue(i', mds, a) && !RevocationOver(i', mds) && !WantsMore(i', mds)
      && (!a.holdMin ==> !Untidy(i', mds, a))
      && (!a.holdMin && Due(i', mds, a) ==> SizeDue(i', mds, a))
  {
    MessageEffect(i, mds, a);
    RevocationSettled(i, mds, a, CheckCap(i, mds, a));
    WishesSettled(i, mds, a, CheckCap(i, mds, a));
  }

  lemma RevocationSettled(i: Inode, mds: int, a: CheckArgs, i': Inode)
    requires mds in i.c.caps && MessageSent(i, mds, a, i')
    ensures !FlushDue(i', mds, a) && !RevocationOver(i', mds)
  {
    SameUse(i, i', a);
    forall b | Revoked(i'.c.caps[mds], b) ensures InUse(i', b) && !LeftToAuth(i', mds, b) {
      assert b in i'.c.caps[mds].implemented;
      assert LeftToAuth(i', mds, b) <==> LeftToAuth(i, mds, b);
    }
  }

  lemma WishesSettled(i: Inode, mds: int, a: CheckArgs, i': Inode)
    requires mds in i.c.caps && MessageSent(i, mds, a, i')
    ensures !WantsMore(i', mds) && (!a.holdMin ==> !Untidy(i', mds, a))
  {
    SameUse(i, i', a);
  }

  lemma SameUse(i: Inode, i': Inode, a: CheckArgs)
    requires i'.r == i.r && i'.d == i.d
    ensures forall b :: InUse(i', b) <==> InUse(i, b)
    ensures forall b :: Wanted(i', b) <==> Wanted(i, b)
    ensures forall b :: Keepable(i', a, b) <==> Keepable(i, a, b)
  {
    assert (exists w :: Wanted(i', w)) <==> (exists w :: Wanted(i, w)) by {
      if w :| Wanted(i', w) { assert Wanted(i, w); }
      if w :| Wanted(i, w) { assert Wanted(i', w); }
    }
  }
}
