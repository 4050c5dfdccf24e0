/** The capability and snapshot state of one CephFS inode, and the operations on it.
    Each function is what one critical section under i_ceph_lock does. Time and
    sequence-number comparisons are parameters. A BUG_ON on the lists, masks or head
    context that would fire, or a NULL i_head_snapc that would be dereferenced, sets `bug`;
    the one in ceph_put_wrbuffer_cap_refs, when no cap_snap has the given context, sets
    `missed`; the one in __send_cap that Pin is retained is the subject of InodeOps.PinSent. */
module InodeState {
  import opened Common

  // ----- capability bits ---------------------------------------------------

  datatype Bit =
    | Pin | AuthShared | AuthExcl | LinkShared | LinkExcl | XattrShared | XattrExcl
    | FileShared | FileExcl | FileCache | FileRd | FileWr | FileBuffer | FileWrExtend | FileLazyIo
    | FlockShared | FlockExcl

  type Bits = set<Bit>

  const ANY_SHARED: Bits := {AuthShared, LinkShared, XattrShared, FileShared}
  const ANY_RD: Bits := ANY_SHARED + {FileRd, FileCache}
  const ANY_EXCL: Bits := {AuthExcl, LinkExcl, XattrExcl, FileExcl}
  const ANY_FILE_WR: Bits := {FileWr, FileBuffer, FileExcl}
  const ANY_WR: Bits := ANY_EXCL + ANY_FILE_WR
  const ANY: Bits := ANY_RD + ANY_EXCL + ANY_FILE_WR + {FileLazyIo, Pin}

  // ----- state -------------------------------------------------------------

  /** A snap context: `id` is the object's identity. */
  datatype Ctx = Ctx(id: nat, seqno: nat)

  /** The cap held from one MDS. `valid` says it is not stale. */
  datatype Cap = Cap(issued: Bits, implemented: Bits, mdsWanted: Bits, valid: bool)

  datatype CapSnap = CapSnap(
    context: Ctx, dirtyPages: int, dirty: Bits, writing: bool, follows: nat, flushTid: nat, flushed: bool)

  /** i_caps and i_auth_cap */
  datatype Caps = Caps(caps: map<int, Cap>, auth: Option<int>)

  /** Reference counts, the bits open files want, and whether pages are cached. */
  datatype Refs = Refs(pinRef: nat, rdRef: nat, rdcacheRef: nat, wrRef: nat, wbRef: nat, fileWanted: Bits,
      cachedPages: bool)

  /** Dirty and flushing masks, 16-bit flush tids, and the lists the inode is on. */
  datatype Meta = Meta(dirty: Bits, flushing: Bits, lastTid: nat, flushTid: map<Bit, nat>, onDirtyList: bool,
      flushingOn: Option<int>)

  /** The head snap context, dirty page counts, and cap_snaps oldest first. */
  datatype Data = Data(head: Option<Ctx>, headRef: int, wrbufferRef: int, capSnaps: seq<CapSnap>)

  datatype Inode = Inode(c: Caps, r: Refs, m: Meta, d: Data, holds: int, bug: bool, missed: bool)

  const TID_MOD: nat := 0x1_0000   // flush tids are 16 bits wide

  // ----- queries -----------------------------------------------------------

  /** __ceph_caps_used */
  function Used(i: Inode): (u: Bits)
  {
      (if i.r.pinRef > 0 then {Pin} else {})
    + (if i.r.rdRef > 0 then {FileRd} else {})
    + (if i.r.rdcacheRef > 0 || i.r.cachedPages then {FileCache} else {})
    + (if i.r.wrRef > 0 then {FileWr} else {})
    + (if i.r.wbRef > 0 || i.d.wrbufferRef != 0 then {FileBuffer} else {})
  }

  /** Is the bit held by an explicit reference count? */
  predicate Referenced(r: Refs, b: Bit)
  {
    match b
    case FileRd => r.rdRef > 0
    case FileCache => r.rdcacheRef > 0
    case FileWr => r.wrRef > 0
    case FileBuffer => r.wbRef > 0
    case _ => false
  }

  function IssuedUnion(caps: map<int, Cap>): (bits: Bits)
  {
    set m, b | m in caps && caps[m].valid && b in caps[m].issued :: b
  }

  function ImplementedUnion(caps: map<int, Cap>): (bits: Bits)
  {
    set m, b | m in caps && caps[m].valid && b in caps[m].implemented :: b
  }

  /** __ceph_caps_issued: bits issued by some valid cap, less those the auth MDS is revoking. */
  function CapsIssued(i: Inode): (have: Bits)
  {
    var all := IssuedUnion(i.c.caps);
    if i.c.auth.Some? && i.c.auth.value in i.c.caps
    then all - (i.c.caps[i.c.auth.value].implemented - i.c.caps[i.c.auth.value].issued)
    else all
  }

  function HavePendingCapSnap(i: Inode): (p: bool)
  {
    i.d.capSnaps != [] && i.d.capSnaps[|i.d.capSnaps| - 1].writing
  }

  function CapsWanted(i: Inode): (w: Bits)
  {
    var w := i.r.fileWanted + Used(i);
    if FileBuffer in w then w + {FileExcl} else w
  }

  // ----- caps --------------------------------------------------------------

  /** ceph_add_cap. seqOld: the message is no newer than the cap; authOlder: the auth cap's migrate
      sequence is older than the message's; mseqNewer: so is this cap's. */
  function AddCap(i: Inode, mds: int, issued: Bits, wanted: Bits, seqOld: bool, authFlag: bool,
      authOlder: bool, mseqNewer: bool): (i': Inode)
  {
    var cap := if mds in i.c.caps then i.c.caps[mds] else Cap({}, {}, {}, true);
    var stale := mds in i.c.caps && seqOld;
    var bits := if stale then issued + cap.issued else issued;
    var newAuth := (authFlag || stale) && (i.c.auth.None? || authOlder);
    var want := if newAuth || (mseqNewer && !stale) then wanted else cap.mdsWanted + wanted;
    i.(c := Caps(i.c.caps[mds := Cap(bits, cap.implemented + bits, want, true)], if newAuth then Some(mds)
        else i.c.auth))
  }

  function SetCap(i: Inode, mds: int, cap: Cap): (i': Inode)
  {
    i.(c := i.c.(caps := i.c.caps[mds := cap]))
  }

  /** handle_cap_grant: a grant, a revocation, or a no-op. */
  function Grant(i: Inode, mds: int, caps: Bits, seqOld: bool): (i': Inode)
    requires mds in i.c.caps
  {
    var cap := i.c.caps[mds];
    var newcaps := if seqOld then caps + cap.issued else caps;
    if cap.issued == newcaps then SetCap(i, mds, cap.(valid := true))
    else SetCap(i, mds, cap.(issued := newcaps, implemented := cap.implemented + newcaps, valid := true))
  }

  /** __ceph_remove_cap */
  function RemoveCap(i: Inode, mds: int): (i': Inode)
  {
    i.(c := Caps(i.c.caps - {mds}, if i.c.auth == Some(mds) then None else i.c.auth))
  }

  /** The cap half of __send_cap: drop what is not retained, forget revoked bits not in use. */
  function SendCapBits(cap: Cap, used: Bits, want: Bits, retain: Bits, delay: bool): (c: Cap)
  {
    var revoking := cap.implemented - cap.issued;
    var retain' := (retain - revoking) + if delay then cap.issued else {};
    var issued := cap.issued * retain';
    cap.(issued := issued, implemented := cap.implemented * (issued + used),
         mdsWanted := want + if delay then cap.mdsWanted else {})
  }

  function RecordTid(tids: map<Bit, nat>, bits: Bits, tid: nat): (r: map<Bit, nat>)
    ensures r.Keys == tids.Keys + bits
    ensures forall b :: b in r ==> r[b] == if b in bits then tid else tids[b]
  {
    map b | b in tids.Keys + bits :: if b in bits then tid else tids[b]
  }

  /** The flush half of __send_cap: a new tid, recorded for every bit flushed. */
  function SendFlush(i: Inode, flushing: Bits): (i': Inode)
  {
    if flushing == {} then i
    else
      var tid := (i.m.lastTid + 1) % TID_MOD;
      i.(m := i.m.(lastTid := tid, flushTid := RecordTid(i.m.flushTid, flushing, tid)), bug := i.bug || i.d.head.None?)
  }

  /** __mark_caps_flushing */
  function MarkFlushing(i: Inode, session: int): (i': Inode)
  {
    i.(m := i.m.(flushing := i.m.flushing + i.m.dirty, dirty := {}, onDirtyList := false, flushingOn := Some(session)),
       bug := i.bug || i.m.dirty == {} || !i.m.onDirtyList)
  }

  /** What one pass of ceph_check_caps depends on besides the inode. */
  datatype CheckArgs = CheckArgs(
    stopping: bool, unlinked: bool, maxSizeZero: bool, nodelay: bool, authOnly: bool, flush: bool, noflush: bool,
    sizeReport: bool, holdMax: bool, holdMin: bool)

  function CheckRetain(i: Inode, a: CheckArgs): (r: Bits)
  {
    var want := i.r.fileWanted + Used(i);
    want + {Pin}
      + if a.stopping || a.unlinked then {}
        else if want != {} then ANY
        else ANY_SHARED + if a.maxSizeZero then ANY_RD else {}
  }

  /** Bits in use that this cap must keep: a non-auth cap leaves those the auth cap has issued to it. */
  function CapUsed(i: Inode, mds: int): (u: Bits)
  {
    if i.c.auth.Some? && i.c.auth.value in i.c.caps && mds != i.c.auth.value
    then Used(i) - i.c.caps[i.c.auth.value].issued else Used(i)
  }

  /** ceph_check_caps: does this cap need a message now? */
  predicate CheckSends(i: Inode, mds: int, a: CheckArgs)
    requires mds in i.c.caps
  {
    var cap := i.c.caps[mds];
    var isAuth := i.c.auth == Some(mds);
    var want := i.r.fileWanted + Used(i);
    var revoking := cap.implemented - cap.issued;
    && !(a.authOnly && !isAuth) && !a.noflush
    && ( || (isAuth && FileWr in cap.issued && a.sizeReport)
         || (isAuth && a.flush && i.m.dirty != {})
         || (revoking != {} && revoking * CapUsed(i, mds) == {})
         || !(want <= cap.mdsWanted + cap.issued)
         || (!(cap.issued <= CheckRetain(i, a) && cap.mdsWanted == want) && (a.nodelay || a.stopping || !a.holdMax)))
  }

  /** ceph_check_caps, one cap: nothing, or flush (auth cap) and send. */
  function CheckCap(i: Inode, mds: int, a: CheckArgs): (i': Inode)
    requires mds in i.c.caps
  {
    if !CheckSends(i, mds, a) then i
    else
      var flushing := if i.c.auth == Some(mds) && i.m.dirty != {} then i.m.dirty else {};
      var i1 := if flushing != {} then MarkFlushing(i, mds) else i;
      var cap := SendCapBits(i.c.caps[mds], CapUsed(i, mds), i.r.fileWanted + Used(i), CheckRetain(i, a), a.holdMin);
      SendFlush(SetCap(i1, mds, cap), flushing)
  }

  /** try_flush_caps (fresh) and the kick_flushing functions (resend what is flushing). */
  function FlushCaps(i: Inode, resend: bool, holdMin: bool): (i': Inode)
  {
    if i.c.auth.None? || i.c.auth.value !in i.c.caps || (if resend then i.m.flushing == {} else i.m.dirty == {}) then i
    else
      var mds := i.c.auth.value;
      var bits := if resend then i.m.flushing else i.m.dirty;
      var i1 := if resend then i.(m := i.m.(flushingOn := Some(mds))) else MarkFlushing(i, mds);
      var cap := i.c.caps[mds];
      SendFlush(SetCap(i1, mds, SendCapBits(cap, Used(i), CapsWanted(i), cap.issued + cap.implemented, holdMin)), bits)
  }

  /** ceph_encode_inode_release: an embedded release of clean, unused bits. */
  function EncodeRelease(i: Inode, mds: int, drop: Bits, unless: Bits, nodelay: bool): (i': Inode)
  {
    var drop' := drop - (Used(i) + i.m.dirty + i.m.flushing);
    if mds in i.c.caps && i.c.caps[mds].valid && i.c.caps[mds].issued * drop' != {}
        && i.c.caps[mds].issued * unless == {}
    then SetCap(i, mds, i.c.caps[mds].(issued := i.c.caps[mds].issued - drop',
        implemented := i.c.caps[mds].implemented - drop',
                                        mdsWanted := CapsWanted(i) + if nodelay then {} else i.c.caps[mds].mdsWanted))
    else i
  }

  function IssuedOther(i: Inode, mds: int): (o: Bits)
  {
    IssuedUnion(i.c.caps - {mds})
  }

  /** trim_caps_cb: remove a cap that is not needed, if it is not the only one. */
  function TrimCap(i: Inode, mds: int): (i': Inode)
    requires mds in i.c.caps
  {
    var mine := i.c.caps[mds].issued + i.c.caps[mds].implemented;
    var need := Used(i) + i.r.fileWanted;
    var oissued := IssuedOther(i, mds);
    if i.c.auth == Some(mds) && (i.m.dirty + i.m.flushing != {} || need * ANY_WR != {}) then i
    else if (need - oissued) * mine != {} then i
    else if oissued != {} then RemoveCap(i, mds)
    else i
  }

  // ----- references --------------------------------------------------------

  /** __take_cap_refs */
  function TakeRefs(i: Inode, got: Bits): (i': Inode)
  {
    i.(r := i.r.(pinRef := i.r.pinRef + if Pin in got then 1 else 0,
                 rdRef := i.r.rdRef + if FileRd in got then 1 else 0,
                 rdcacheRef := i.r.rdcacheRef + if FileCache in got then 1 else 0,
                 wrRef := i.r.wrRef + if FileWr in got then 1 else 0,
                 wbRef := i.r.wbRef + if FileBuffer in got then 1 else 0),
       holds := i.holds + if FileBuffer in got && i.r.wbRef == 0 then 1 else 0)
  }

  /** try_get_cap_refs, when it takes references: what it gets. */
  predicate CanTake(i: Inode, need: Bits, want: Bits, sizeOk: bool)
  {
    var have := CapsIssued(i);
    var revoking := ImplementedUnion(i.c.caps) - have;
    && i.r.fileWanted * need != {}
    && !(FileWr in have * need && (!sizeOk || HavePendingCapSnap(i)))
    && need <= have
    && revoking * (want - need) == {}
  }

  function TryGetRefs(i: Inode, need: Bits, want: Bits, sizeOk: bool): (i': Inode)
  {
    if CanTake(i, need, want, sizeOk) then TakeRefs(i, need + CapsIssued(i) * want) else i
  }

  /** The caller holds a reference to each of the file bits. */
  predicate HoldsFileRefs(r: Refs, had: Bits)
  {
    && (FileRd in had ==> r.rdRef > 0) && (FileCache in had ==> r.rdcacheRef > 0)
    && (FileWr in had ==> r.wrRef > 0) && (FileBuffer in had ==> r.wbRef > 0)
  }

  predicate HoldsRefs(r: Refs, had: Bits)
  {
    HoldsFileRefs(r, had) && (Pin in had ==> r.pinRef > 0)
  }

  /** ceph_put_cap_refs: the last FileWr reference finishes the first cap_snap if a write was pending on it. */
  function PutRefs(i: Inode, had: Bits): (i': Inode)
    requires HoldsRefs(i.r, had)
  {
    var lastWr := FileWr in had && i.r.wrRef == 1;
    i.(r := i.r.(pinRef := i.r.pinRef - if Pin in had then 1 else 0,
                 rdRef := i.r.rdRef - if FileRd in had then 1 else 0,
                 rdcacheRef := i.r.rdcacheRef - if FileCache in had then 1 else 0,
                 wrRef := i.r.wrRef - if FileWr in had then 1 else 0,
                 wbRef := i.r.wbRef - if FileBuffer in had then 1 else 0),
       holds := i.holds - (if FileBuffer in had && i.r.wbRef == 1 then 1 else 0),
       d := if lastWr && i.d.capSnaps != []
           then i.d.(capSnaps := i.d.capSnaps[0 := i.d.capSnaps[0].(writing := false)]) else i.d)
  }

  // ----- dirty metadata ----------------------------------------------------

  function SetHead(d: Data, snapc: Ctx): (d': Data)
  {
    if d.head.None? then d.(head := Some(snapc)) else d
  }

  /** __ceph_mark_dirty_caps */
  function MarkDirty(i: Inode, mask: Bits, realm: Ctx): (i': Inode)
  {
    if i.m.dirty != {} then
      i.(m := i.m.(dirty := i.m.dirty + mask), bug := i.bug || !i.m.onDirtyList)
    else
      i.(m := i.m.(dirty := mask, onDirtyList := true),
         d := SetHead(i.d, realm),
         bug := i.bug || i.m.onDirtyList,
         holds := i.holds + if i.m.flushing == {} then 1 else 0)
  }

  /** The bits an ack cleans: those whose recorded 16-bit tid is the ack's. */
  function Cleaned(i: Inode, tid: nat, mask: Bits): (c: Bits)
  {
    set b | b in mask && b in i.m.flushTid && i.m.flushTid[b] == tid % TID_MOD
  }

  /** handle_cap_flush_ack */
  function FlushAck(i: Inode, tid: nat, mask: Bits): (i': Inode)
  {
    var cleaned := Cleaned(i, tid, mask);
    if i.m.flushing * cleaned == {} then i
    else
      var m := i.m.(flushing := i.m.flushing - cleaned);
      if m.flushing != {} then i.(m := m)
      else if i.m.dirty != {} then i.(m := m.(flushingOn := None), bug := i.bug || !i.m.onDirtyList)
      else
        i.(m := m.(flushingOn := None), holds := i.holds - 1,
           d := if i.d.headRef == 0 then i.d.(head := None) else i.d,
           bug := i.bug || i.m.onDirtyList || (i.d.headRef == 0 && i.d.head.None?))
  }

  // ----- dirty pages and cap_snaps -----------------------------------------

  /** ceph_set_page_dirty, the accounting under the lock. */
  function PageDirtied(i: Inode, snapc: Ctx): (i': Inode)
  {
    i.(d := SetHead(i.d, snapc).(headRef := i.d.headRef + 1, wrbufferRef := i.d.wrbufferRef + 1),
       holds := i.holds + if i.d.wrbufferRef == 0 then 1 else 0)
  }

  /** Index of the first cap_snap taken under `snapc`, or the length if there is none. */
  function FindSnap(snaps: seq<CapSnap>, snapc: Ctx): (k: nat)
    ensures k <= |snaps| && (k < |snaps| ==> snaps[k].context == snapc)
    ensures forall j :: 0 <= j < k ==> snaps[j].context != snapc
  {
    if snaps == [] || snaps[0].context == snapc then 0
    else
      var k := FindSnap(snaps[1..], snapc);
      assert forall j :: 1 <= j < k + 1 ==> snaps[j] == snaps[1..][j-1];
      k + 1
  }

  /** ceph_put_wrbuffer_cap_refs */
  function PutWrbuffer(i: Inode, nr: nat, snapc: Ctx): (i': Inode)
  {
    var d := i.d.(wrbufferRef := i.d.wrbufferRef - nr);
    var holds := i.holds - if i.d.wrbufferRef == nr then 1 else 0;
    if i.d.head == Some(snapc) then
      i.(d := d.(headRef := i.d.headRef - nr,
                 head := if i.d.headRef == nr && i.m.dirty == {} && i.m.flushing == {} then None else i.d.head),
         holds := holds)
    else
      var k := FindSnap(i.d.capSnaps, snapc);
      if k == |i.d.capSnaps| then i.(d := d, holds := holds, missed := true)
      else
        var cs := i.d.capSnaps[k].(dirtyPages := i.d.capSnaps[k].dirtyPages - nr);
        if cs.dirtyPages == 0 && cs.dirty == {}
        then i.(d := d.(capSnaps := i.d.capSnaps[..k] + i.d.capSnaps[k+1..]), holds := holds - 1)
        else i.(d := d.(capSnaps := i.d.capSnaps[k := cs]), holds := holds)
  }

  const SNAP_DIRTY: Bits := {AuthExcl, XattrExcl, FileExcl, FileWr}

  function SnapDirty(i: Inode): (d: Bits)
  {
    i.m.dirty + i.m.flushing + if FileWr in Used(i) then {FileWr} else {}
  }

  predicate WillQueueSnap(i: Inode)
  {
    !HavePendingCapSnap(i) && SnapDirty(i) * SNAP_DIRTY != {}
  }

  /** ceph_queue_cap_snap */
  function QueueCapSnap(i: Inode, realm: Ctx): (i': Inode)
  {
    if !WillQueueSnap(i) then i
    else
      var snapc := if i.d.head.Some? then i.d.head.value else realm;
      i.(d := i.d.(capSnaps := i.d.capSnaps + [CapSnap(snapc, i.d.headRef, SnapDirty(i), FileWr in Used(i),
          snapc.seqno, 0, false)],
                   headRef := 0, head := Some(realm)),
         holds := i.holds + 1)
  }

  /** __ceph_flush_snaps may send cap_snap k: its dirty pages are written and no write to it is in progress. */
  predicate CanFlushSnap(i: Inode, k: nat)
  {
    k < |i.d.capSnaps| && i.c.auth.Some? && i.d.capSnaps[k].dirtyPages == 0 && !i.d.capSnaps[k].writing
  }

  function FlushSnap(i: Inode, k: nat): (i': Inode)
    requires k < |i.d.capSnaps|
  {
    var tid := (i.m.lastTid + 1) % TID_MOD;
    i.(m := i.m.(lastTid := tid),
       d := i.d.(capSnaps := i.d.capSnaps[k := i.d.capSnaps[k].(flushTid := tid, flushed := true)]),
       bug := i.bug || i.d.capSnaps[k].dirty == {})
  }

  /** Index of the first cap_snap with the given follows, or the length. */
  function FindFollows(snaps: seq<CapSnap>, follows: nat): (k: nat)
    ensures k <= |snaps| && (k < |snaps| ==> snaps[k].follows == follows)
  {
    if snaps == [] || snaps[0].follows == follows then 0 else FindFollows(snaps[1..], follows) + 1
  }

  /** handle_cap_flushsnap_ack */
  function FlushSnapAck(i: Inode, follows: nat, tid: nat): (i': Inode)
  {
    var k := FindFollows(i.d.capSnaps, follows);
    if k == |i.d.capSnaps| || i.d.capSnaps[k].flushTid != tid then i
    else i.(d := i.d.(capSnaps := i.d.capSnaps[..k] + i.d.capSnaps[k+1..]), holds := i.holds - 1)
  }

  /** get_oldest_context: the first cap_snap that still has dirty pages, else the head. */
  function OldestContext(i: Inode): (r: Option<Ctx>)
  {
    var k := FirstDirtySnap(i.d.capSnaps);
    if k < |i.d.capSnaps| then Some(i.d.capSnaps[k].context)
    else if i.d.headRef != 0 then i.d.head
    else None
  }

  function FirstDirtySnap(snaps: seq<CapSnap>): (k: nat)
    ensures k <= |snaps| && (k < |snaps| ==> snaps[k].dirtyPages != 0)
    ensures forall j :: 0 <= j < k ==> snaps[j].dirtyPages == 0
  {
    if snaps == [] || snaps[0].dirtyPages != 0 then 0
    else
      var k := FirstDirtySnap(snaps[1..]);
      assert forall j :: 1 <= j < k + 1 ==> snaps[j] == snaps[1..][j-1];
      k + 1
  }

  /** remove_session_caps_cb: the MDS session is gone; the last cap takes dirty state with it. */
  function RemoveSessionCap(i: Inode, mds: int): (i': Inode)
  {
    var i1 := RemoveCap(i, mds);
    if i1.c.caps != map[] then i1
    else
      var drop := i.m.onDirtyList || i.m.flushingOn.Some?;
      var m := i.m.(dirty := if i.m.onDirtyList then {} else i.m.dirty, onDirtyList := false,
                    flushing := if i.m.flushingOn.Some? then {} else i.m.flushing, flushingOn := None);
      if drop && i.d.wrbufferRef != 0
      then i1.(m := m, d := i.d.(wrbufferRef := 0, headRef := 0), holds := i.holds - 2)
      else i1.(m := m, holds := i.holds - if drop then 1 else 0)
  }
}
