/** The cap, dirty-page and cap_snap code of one inode, changing its fields in place. Each method
    is tied to the step it takes in InodeState; where i_ceph_lock is dropped inside a loop, what
    others do meanwhile is given as operations, and the method is shown to be one legal run. */
module InodeCode {
  import opened Common
  import opened InodeState
  import opened InodeOps
  import opened InodeLists
  import opened InodeEffects
  import opened CapMessages
  import SnapWriteback

  /** All cap bits, in some order. */
  const BITS: seq<Bit> := [
    Pin, AuthShared, AuthExcl, LinkShared, LinkExcl, XattrShared, XattrExcl,
    FileShared, FileExcl, FileCache, FileRd, FileWr, FileBuffer, FileWrExtend, FileLazyIo,
    FlockShared, FlockExcl]

  lemma EveryBit(b: Bit)
    ensures b in BITS
  {
    var k := match b
      case Pin => 0 case AuthShared => 1 case AuthExcl => 2 case LinkShared => 3 case LinkExcl => 4
      case XattrShared => 5 case XattrExcl => 6 case FileShared => 7 case FileExcl => 8 case FileCache => 9
      case FileRd => 10 case FileWr => 11 case FileBuffer => 12 case FileWrExtend => 13 case FileLazyIo => 14
      case FlockShared => 15 case FlockExcl => 16;
    assert BITS[k] == b;
  }

  /** The caps an iteration over i_caps has yet to look at. */
  function Beyond(caps: map<int, Cap>, mds: int): (s: set<int>)
  {
    set m | m in caps && m > mds
  }

  /** What others do while the lock is dropped, and what ceph_check_caps reads when it has it again;
      early: the lock is dropped before the message, to take a mutex that is contended. */
  datatype Gap = Gap(ops: seq<Op>, args: CheckArgs, early: bool)

  /** A message of ceph_check_caps: the inode then, the cursor, the cap and what the code had read. */
  datatype Message = Message(ino: Inode, cursor: int, mds: int, args: CheckArgs)

  /** The message goes to the lowest-numbered cap behind the cursor that needs one. */
  ghost predicate LowestDue(x: Message)
  {
    && x.mds in x.ino.c.caps && x.mds > x.cursor && Due(x.ino, x.mds, x.args)
    && forall n :: n in x.ino.c.caps && n > x.cursor && Due(x.ino, n, x.args) ==> x.mds <= n
  }

  /** The messages of a call so far: all in the run, each to the lowest cap due behind the one before. */
  ghost predicate Sent(trace: seq<Op>, sends: seq<Message>, last: int)
  {
    && (forall j :: 0 <= j < |sends| ==> LowestDue(sends[j]) && OpCheckCap(sends[j].mds, sends[j].args) in trace)
    && (forall j :: 0 < j < |sends| ==> sends[j].cursor == sends[j - 1].mds)
    && last == if sends == [] then -1 else sends[|sends| - 1].mds
  }

  lemma SentLonger(trace: seq<Op>, trace': seq<Op>, sends: seq<Message>, last: int)
    requires Sent(trace, sends, last) && trace <= trace'
    ensures Sent(trace', sends, last)
  {
    forall j | 0 <= j < |sends| ensures OpCheckCap(sends[j].mds, sends[j].args) in trace' {
      var k :| 0 <= k < |trace| && trace[k] == OpCheckCap(sends[j].mds, sends[j].args);
      assert trace'[k] == trace[k];
    }
  }

  lemma SentMore(trace: seq<Op>, sends: seq<Message>, last: int, x: Message)
    requires Sent(trace, sends, last) && LowestDue(x) && x.cursor == last
    ensures Sent(trace + [OpCheckCap(x.mds, x.args)], sends + [x], x.mds)
  {
    var op := OpCheckCap(x.mds, x.args);
    var trace', sends' := trace + [op], sends + [x];
    SentLonger(trace, trace', sends, last);
    assert trace'[|trace|] == op;
    forall j | 0 <= j < |sends'|
      ensures LowestDue(sends'[j]) && OpCheckCap(sends'[j].mds, sends'[j].args) in trace'
    {
      assert sends'[j] == if j < |sends| then sends[j] else x;
    }
    forall j | 0 < j < |sends'| ensures sends'[j].cursor == sends'[j - 1].mds {
      assert sends'[j] == (if j < |sends| then sends[j] else x) && sends'[j - 1] == sends[j - 1];
    }
  }

  /** struct ceph_inode_info */
  class CephInode {
    var c: Caps
    var r: Refs
    var m: Meta
    var d: Data
    var holds: int
    var bug: bool
    var missed: bool

    function Model(): (i: Inode)
      reads this
    {
      Inode(c, r, m, d, holds, bug, missed)
    }

    // ----- queries ---------------------------------------------------------

    /** __ceph_caps_issued: the loop over i_caps, in whatever order */
    method GetIssued() returns (have: Bits, implemented: Bits)
      ensures have == CapsIssued(Model()) && implemented == ImplementedUnion(c.caps)
    {
      have, implemented := {}, {};
      var todo: set<int> := c.caps.Keys;
      while todo != {}
        invariant todo <= c.caps.Keys
        invariant forall b :: b in have <==>
            exists m :: m in c.caps && m !in todo && c.caps[m].valid && b in c.caps[m].issued
        invariant forall b :: b in implemented <==>
            exists m :: m in c.caps && m !in todo && c.caps[m].valid && b in c.caps[m].implemented
        decreases |todo|
      {
        var m := Pick(todo);
        todo := todo - {m};
        if c.caps[m].valid {
          have := have + c.caps[m].issued;
          implemented := implemented + c.caps[m].implemented;
        }
      }
      assert have == IssuedUnion(c.caps);
      if c.auth.Some? && c.auth.value in c.caps {
        have := have - (c.caps[c.auth.value].implemented - c.caps[c.auth.value].issued);
      }
    }

    /** __ceph_caps_used */
    method GetUsed() returns (used: Bits)
      ensures used == Used(Model())
    {
      used := {};
      if r.pinRef != 0 { used := used + {Pin}; }
      if r.rdRef != 0 { used := used + {FileRd}; }
      if r.rdcacheRef != 0 || r.cachedPages { used := used + {FileCache}; }
      if r.wrRef != 0 { used := used + {FileWr}; }
      if r.wbRef != 0 || d.wrbufferRef != 0 { used := used + {FileBuffer}; }
    }

    /** get_oldest_context */
    method GetOldest() returns (snapc: Option<Ctx>)
      ensures snapc == OldestContext(Model())
    {
      var k := 0;
      while k < |d.capSnaps| && d.capSnaps[k].dirtyPages == 0
        invariant 0 <= k <= |d.capSnaps| && forall j :: 0 <= j < k ==> d.capSnaps[j].dirtyPages == 0
      {
        k := k + 1;
      }
      if k < |d.capSnaps| {
        snapc := Some(d.capSnaps[k].context);
      } else if d.headRef != 0 {
        snapc := d.head;
      } else {
        snapc := None;
      }
    }

    // ----- sending caps ----------------------------------------------------

    /** The tid loop of __send_cap. */
    method RecordFlush(bits: Bits, tid: nat)
      modifies this
      ensures Model() == old(Model()).(m := old(Model()).m.(flushTid := RecordTid(old(m.flushTid), bits, tid)))
    {
      for k := 0 to |BITS|
        invariant Model() == old(Model()).(m := old(Model()).m.(flushTid := m.flushTid))
        invariant forall b :: b in m.flushTid <==> b in old(m.flushTid) || (b in bits && b in BITS[..k])
        invariant forall b :: b in m.flushTid ==>
            m.flushTid[b] == if b in bits && b in BITS[..k] then tid else old(m.flushTid)[b]
      {
        assert BITS[..k + 1] == BITS[..k] + [BITS[k]];
        if BITS[k] in bits {
          m := m.(flushTid := m.flushTid[BITS[k] := tid]);
        }
      }
      forall b: Bit ensures b in BITS[..|BITS|] { EveryBit(b); }
      assert m.flushTid == RecordTid(old(m.flushTid), bits, tid);
    }

    /** The bits __send_cap keeps. */
    method DropBits(mds: int, used: Bits, want: Bits, retain: Bits, delay: bool)
      requires mds in c.caps
      modifies this
      ensures Model() == SetCap(old(Model()), mds, SendCapBits(old(c.caps)[mds], used, want, retain, delay))
    {
      var cap := c.caps[mds];
      var revoking := cap.implemented - cap.issued;
      var keep, asked := retain - revoking, want;
      if delay {
        asked := asked + cap.mdsWanted;
        keep := keep + cap.issued;
      }
      var issued := cap.issued * keep;
      cap := cap.(issued := issued, implemented := cap.implemented * (issued + used), mdsWanted := asked);
      assert cap == SendCapBits(c.caps[mds], used, want, retain, delay);
      c := c.(caps := c.caps[mds := cap]);
    }

    /** The flush __send_cap announces. */
    method AssignTid(flush: Bits)
      modifies this
      ensures Model() == SendFlush(old(Model()), flush)
    {
      if flush != {} {
        m := m.(lastTid := (m.lastTid + 1) % TID_MOD);
        bug := bug || d.head.None?;
        RecordFlush(flush, m.lastTid);
      }
    }

    /** __send_cap, up to where it drops the lock */
    method SendCap(mds: int, used: Bits, want: Bits, retain: Bits, flush: Bits, delay: bool)
      requires mds in c.caps
      modifies this
      ensures Model() == SendFlush(SetCap(old(Model()), mds, SendCapBits(old(c.caps)[mds], used, want, retain,
          delay)), flush)
    {
      DropBits(mds, used, want, retain, delay);
      AssignTid(flush);
    }

    /** __mark_caps_flushing */
    method MarkCapsFlushing(session: int) returns (bits: Bits)
      modifies this
      ensures Model() == MarkFlushing(old(Model()), session) && bits == old(m.dirty)
      ensures m.dirty + m.flushing == old(m.dirty + m.flushing)
      ensures old(Shape(Model()) && m.dirty != {}) ==> Keeps(old(Model()), Model())
    {
      if Shape(Model()) && m.dirty != {} { FlushingEffect(Model(), session); }
      bug := bug || m.dirty == {} || !m.onDirtyList;
      bits := m.dirty;
      m := m.(flushing := m.flushing + bits);
      m := m.(dirty := {});
      m := m.(onDirtyList := false);
      m := m.(flushingOn := Some(session));
    }

    /** ceph_check_caps for one cap that needs a message */
    method CheckOne(mds: int, a: CheckArgs)
      requires mds in c.caps && Due(Model(), mds, a)
      modifies this
      ensures Model() == CheckCap(old(Model()), mds, a)
      ensures CapSent(old(Model()), mds, a, c.caps[mds]) && MasksSent(old(Model()), mds, m)
    {
      DueIs(Model(), mds, a);
      MessageEffect(Model(), mds, a);
      var used := GetUsed();
      var want, capUsed, retain := r.fileWanted + used, CapUsed(Model(), mds), CheckRetain(Model(), a);
      var flush: Bits := {};
      if c.auth == Some(mds) && m.dirty != {} {
        flush := MarkCapsFlushing(mds);
      }
      SendCap(mds, capUsed, want, retain, flush, a.holdMin);
    }

    method GetCapUsed(mds: int) returns (used: Bits)
      ensures used == CapUsed(Model(), mds)
    {
      used := GetUsed();
      if c.auth.Some? && c.auth.value in c.caps && c.auth.value != mds {
        used := used - c.caps[c.auth.value].issued;
      }
    }

    /** The tests of ceph_check_caps on one cap, in the order of the code: those that lead to the ack
        label, and the one there. */
    method NeedsMessage(mds: int, a: CheckArgs) returns (needs: bool)
      requires mds in c.caps
      ensures needs <==> Due(Model(), mds, a)
    {
      if a.authOnly && c.auth != Some(mds) {
        return false;
      }
      var ack := c.auth == Some(mds) && FileWr in c.caps[mds].issued && a.sizeReport;
      if !ack {
        ack := c.auth == Some(mds) && a.flush && m.dirty != {};
      }
      if !ack {
        ack := RevocationDone(mds);
      }
      if !ack {
        ack := WishesChanged(mds, a);
      }
      needs := ack && !a.noflush;
    }

    method RevocationDone(mds: int) returns (b: bool)
      requires mds in c.caps
      ensures b <==> RevocationOver(Model(), mds)
    {
      RevocationIs(Model(), mds);
      var revoking := c.caps[mds].implemented - c.caps[mds].issued;
      var capUsed := GetCapUsed(mds);
      b := revoking != {} && revoking * capUsed == {};
    }

    method WishesChanged(mds: int, a: CheckArgs) returns (b: bool)
      requires mds in c.caps
      ensures b <==> WantsMore(Model(), mds) || (Untidy(Model(), mds, a) && !MayDelay(a))
    {
      WantsMoreIs(Model(), mds);
      UntidyIs(Model(), mds, a);
      var used := GetUsed();
      var cap, want, retain := c.caps[mds], r.fileWanted + used, CheckRetain(Model(), a);
      if !(want <= cap.mdsWanted + cap.issued) {
        return true;
      }
      if cap.issued <= retain && cap.mdsWanted == want {
        return false;
      }
      return a.nodelay || a.stopping || !a.holdMax;
    }

    /** The scan of i_caps in ceph_check_caps: the first cap behind mds that needs a message. */
    method NextToSend(mds: int, a: CheckArgs) returns (found: bool, m: int)
      ensures found ==> LowestDue(Message(Model(), mds, m, a))
      ensures !found ==> forall n :: n in c.caps && n > mds ==> !Due(Model(), n, a)
    {
      found, m := false, mds;
      var todo := Beyond(c.caps, mds);
      while todo != {}
        invariant todo <= Beyond(c.caps, mds)
        invariant found ==> m in c.caps && m > mds && Due(Model(), m, a)
        invariant forall n :: n in Beyond(c.caps, mds) && n !in todo && Due(Model(), n, a) ==> found && m <= n
        decreases |todo|
      {
        var n := Pick(todo);
        todo := todo - {n};
        var needs := NeedsMessage(n, a);
        if needs && (!found || n < m) {
          found, m := true, n;
        }
      }
    }

    method Load(i: Inode)
      modifies this
      ensures Model() == i
    {
      c, r, m, d, holds, bug, missed := i.c, i.r, i.m, i.d, i.holds, i.bug, i.missed;
    }

    /** What others do while the lock is dropped; what they cannot do then does not happen. */
    method Others(ops: seq<Op>, ghost start: Inode, ghost done: seq<Op>) returns (ghost trace: seq<Op>)
      requires Legal(start, done) && Exec(start, done) == Model()
      modifies this
      ensures Legal(start, trace) && Exec(start, trace) == Model() && done <= trace
    {
      trace := done;
      for k := 0 to |ops|
        invariant Legal(start, trace) && Exec(start, trace) == Model() && done <= trace
      {
        if Enabled(Model(), ops[k]) {
          ExecAppend(start, trace, ops[k]);
          trace := trace + [ops[k]];
          Load(Apply(Model(), ops[k]));
        }
      }
    }

    /** One message of ceph_check_caps, noted in the run. */
    method SendOne(m: int, a: CheckArgs, ghost start: Inode, ghost done: seq<Op>) returns (ghost trace: seq<Op>)
      requires Legal(start, done) && Exec(start, done) == Model() && m in c.caps && Due(Model(), m, a)
      modifies this
      ensures Legal(start, trace) && Exec(start, trace) == Model() && trace == done + [OpCheckCap(m, a)]
      ensures c.caps.Keys == old(c.caps.Keys)
    {
      ExecAppend(start, done, OpCheckCap(m, a));
      DueIs(Model(), m, a);
      CheckCapShape(Model(), m, a);
      trace := done + [OpCheckCap(m, a)];
      CheckOne(m, a);
    }

    /** One round of ceph_check_caps: the message, unless the lock is dropped early, then others. */
    method CheckRound(x: Message, gap: Option<Gap>, ghost start: Inode, ghost done: seq<Op>, ghost prior: seq<Message>)
        returns (last: int, ghost trace: seq<Op>, ghost sends: seq<Message>)
      requires Legal(start, done) && Exec(start, done) == Model() && Sent(done, prior, x.cursor) && LowestDue(x)
      requires x.ino == Model()
      modifies this
      ensures Legal(start, trace) && Exec(start, trace) == Model() && Sent(trace, sends, last)
      ensures gap.None? ==> |Beyond(c.caps, last)| < old(|Beyond(c.caps, x.cursor)|)
    {
      last, trace, sends := x.cursor, done, prior;
      if gap.None? || !gap.value.early {
        ghost var before := c.caps;
        SentMore(done, prior, x.cursor, x);
        trace := SendOne(x.mds, x.args, start, done);
        BeyondShrinks(before, c.caps, x.cursor, x.mds);
        last, sends := x.mds, prior + [x];
      }
      if gap.Some? {
        ghost var sofar := trace;
        trace := Others(gap.value.ops, start, trace);
        SentLonger(sofar, trace, sends, last);
      }
    }

    /** ceph_check_caps: one message per round, the scan starting over behind the cap just sent, with
        what the code reads anew each time; the lock may also be dropped before a message. Whatever
        others do in between, the whole call is a legal run of inode operations; every message goes
        to the lowest-numbered cap behind the last one that is due one, and the call ends only when none
        behind the last one sent is: with what it read last, none has a revocation to acknowledge, a
        flush to send, a wish the MDS does not know, or anything to tidy without delay. */
    method CheckCaps(first: CheckArgs, gaps: seq<Gap>)
        returns (last: int, a: CheckArgs, ghost trace: seq<Op>, ghost sends: seq<Message>)
      modifies this
      ensures Legal(old(Model()), trace) && Exec(old(Model()), trace) == Model() && Sent(trace, sends, last)
      ensures forall n :: n in c.caps && n > last && !Excluded(Model(), n, a) ==>
        && !SizeDue(Model(), n, a) && !FlushDue(Model(), n, a) && !RevocationOver(Model(), n)
        && !WantsMore(Model(), n) && (Untidy(Model(), n, a) ==> MayDelay(a))
    {
      a, trace, sends := first, [], [];
      last := -1;
      ghost var start := Model();
      var k := 0;
      var found, m := NextToSend(last, a);
      while found
        invariant Legal(start, trace) && Exec(start, trace) == Model() && Sent(trace, sends, last) && 0 <= k <= |gaps|
        invariant found ==> LowestDue(Message(Model(), last, m, a))
        invariant !found ==> forall n :: n in c.caps && n > last ==> !Due(Model(), n, a)
        decreases |gaps| - k, |Beyond(c.caps, last)|
      {
        var gap := if k < |gaps| then Some(gaps[k]) else None;
        last, trace, sends := CheckRound(Message(Model(), last, m, a), gap, start, trace, sends);
        if gap.Some? {
          a, k := gap.value.args, k + 1;
        }
        found, m := NextToSend(last, a);
      }
    }

    /** So a call keeps referenced bits backed, unless a session is torn down meanwhile. */
    method CheckCapsBacked(first: CheckArgs, gaps: seq<Gap>) returns (ghost trace: seq<Op>)
      requires CapsOk(Model()) && Backed(Model())
      modifies this
      ensures Legal(old(Model()), trace) && Exec(old(Model()), trace) == Model()
      ensures (forall j :: 0 <= j < |trace| ==> !trace[j].OpRemoveSessionCap?) ==> CapsOk(Model()) && Backed(Model())
    {
      var last, a;
      ghost var sends;
      last, a, trace, sends := CheckCaps(first, gaps);
      if forall j :: 0 <= j < |trace| ==> !trace[j].OpRemoveSessionCap? {
        RunBacked(old(Model()), trace);
      }
    }

    // ----- grants, releases, trimming --------------------------------------

    /** handle_cap_grant, the part that sets the bits */
    method HandleGrant(mds: int, newcaps: Bits, seqOld: bool)
      requires mds in c.caps
      modifies this
      ensures Model() == Grant(old(Model()), mds, newcaps, seqOld)
      ensures old(CapsOk(Model()) && Backed(Model())) ==> CapsOk(Model()) && Backed(Model())
      ensures OnlyCap(old(Model()), Model(), mds) && old(c.caps[mds].implemented) <= c.caps[mds].implemented
    {
      if CapsOk(Model()) && Backed(Model()) { GrantEffect(Model(), mds, newcaps, seqOld); }
      var cap, bits := c.caps[mds], newcaps;
      if seqOld {
        bits := bits + cap.issued;
      }
      cap := cap.(valid := true);
      if cap.issued - bits != {} {
        // revocation
        cap := cap.(issued := bits, implemented := cap.implemented + bits);
      } else if cap.issued != bits {
        // grant
        cap := cap.(issued := bits, implemented := cap.implemented + bits);
      }
      c := c.(caps := c.caps[mds := cap]);
    }

    /** ceph_encode_inode_release, the part that gives bits up */
    method EncodeInodeRelease(mds: int, drop: Bits, unless: Bits, nodelay: bool)
      modifies this
      ensures Model() == EncodeRelease(old(Model()), mds, drop, unless, nodelay)
      ensures old(CapsOk(Model()) && Backed(Model())) ==> CapsOk(Model()) && Backed(Model())
      ensures OnlyCap(old(Model()), Model(), mds)
      ensures if old(Releases(Model(), mds, drop, unless))
        then CapReleased(old(Model()), mds, drop, nodelay, c.caps[mds]) else Model() == old(Model())
    {
      if CapsOk(Model()) && Backed(Model()) { ReleaseBacked(Model(), mds, drop, unless, nodelay); }
      ReleaseEffect(Model(), mds, drop, unless, nodelay);
      var used := GetUsed();
      var bits := drop - (used + m.dirty + m.flushing);
      if mds in c.caps && c.caps[mds].valid {
        var cap := c.caps[mds];
        if cap.issued * bits != {} && cap.issued * unless == {} {
          var wanted := CapsWanted(Model()) + if nodelay then {} else cap.mdsWanted;
          cap := cap.(issued := cap.issued - bits, implemented := cap.implemented - bits, mdsWanted := wanted);
          c := c.(caps := c.caps[mds := cap]);
        }
      }
    }

    /** __ceph_caps_issued_other */
    method GetIssuedOther(mds: int) returns (have: Bits)
      ensures have == IssuedOther(Model(), mds)
    {
      have := {};
      var todo: set<int> := c.caps.Keys - {mds};
      while todo != {}
        invariant todo <= c.caps.Keys - {mds}
        invariant forall b :: b in have <==>
            exists m :: m in c.caps && m != mds && m !in todo && c.caps[m].valid && b in c.caps[m].issued
        decreases |todo|
      {
        var m := Pick(todo);
        todo := todo - {m};
        if c.caps[m].valid {
          have := have + c.caps[m].issued;
        }
      }
      assert forall m :: m in c.caps - {mds} <==> m in c.caps && m != mds;
      assert have == IssuedUnion(c.caps - {mds});
    }

    /** trim_caps_cb */
    method TrimCapsCb(mds: int)
      requires mds in c.caps
      modifies this
      ensures Model() == TrimCap(old(Model()), mds)
      ensures mds !in c.caps <==>
        old(!AuthNeeded(Model(), mds) && !OnlyHere(Model(), mds) && exists b :: IssuedElsewhere(Model(), mds, b))
      ensures mds in c.caps ==> Model() == old(Model())
      ensures old(CapsOk(Model()) && Backed(Model())) ==> CapsOk(Model()) && Backed(Model())
    {
      if CapsOk(Model()) && Backed(Model()) { TrimBacked(Model(), mds); }
      TrimEffect(Model(), mds);
      var mine := c.caps[mds].issued + c.caps[mds].implemented;
      var used := GetUsed();
      var wanted := r.fileWanted;
      var oissued := GetIssuedOther(mds);
      if c.auth == Some(mds) && (m.dirty + m.flushing != {} || (used + wanted) * ANY_WR != {}) {
        return;
      }
      if ((used + wanted) - oissued) * mine != {} {
        return;
      }
      if oissued != {} {
        c := c.(caps := c.caps - {mds});
        if c.auth == Some(mds) {
          c := c.(auth := None);
        }
      }
    }

    // ----- references ------------------------------------------------------

    method RaiseRefs(got: Bits)
      modifies this
      ensures Model() == TakeRefs(old(Model()), got)
    {
      r := r.(pinRef := r.pinRef + if Pin in got then 1 else 0);
      r := r.(rdRef := r.rdRef + if FileRd in got then 1 else 0);
      r := r.(rdcacheRef := r.rdcacheRef + if FileCache in got then 1 else 0);
      r := r.(wrRef := r.wrRef + if FileWr in got then 1 else 0);
      if FileBuffer in got {
        if r.wbRef == 0 {
          holds := holds + 1;
        }
        r := r.(wbRef := r.wbRef + 1);
      }
    }

    /** __take_cap_refs */
    method TakeCapRefs(got: Bits)
      modifies this
      ensures Model() == TakeRefs(old(Model()), got)
      ensures old(Shape(Model())) ==> Keeps(old(Model()), Model())
      ensures Used(Model()) == old(Used(Model())) + got * COUNTED && CountersMove(old(r), r, got, 1)
    {
      TakeUses(Model(), got);
      TakeCounts(Model(), got);
      if Shape(Model()) { TakeEffect(Model(), got); }
      RaiseRefs(got);
    }

    /** try_get_cap_refs; sizeOk says the write stays within the size limits */
    method TryGetCapRefs(need: Bits, want: Bits, sizeOk: bool) returns (ok: bool, got: Bits)
      modifies this
      ensures Model() == TryGetRefs(old(Model()), need, want, sizeOk)
      ensures ok <==> old(Grantable(Model(), need, want, sizeOk))
      ensures ok ==> CountersMove(old(r), r, got, 1) && forall b :: b in got <==>
        b in need || (b in want && old(Have(Model(), b)))
      ensures !ok ==> got == {} && Model() == old(Model())
    {
      HaveIs(Model());
      CanTakeIs(Model(), need, want, sizeOk);
      ok, got := false, {};
      if r.fileWanted * need == {} {
        return;
      }
      var have, implemented := GetIssued();
      if FileWr in have * need {
        if !sizeOk {
          return;
        }
        if d.capSnaps != [] && d.capSnaps[|d.capSnaps| - 1].writing {
          return;
        }
      }
      if need <= have {
        var revoking := implemented - have;
        if revoking * (want - need) == {} {
          ok, got := true, need + have * want;
          TakeCapRefs(got);
        }
      }
    }

    method PutBufferRef(had: Bits)
      requires FileBuffer in had ==> r.wbRef > 0
      modifies this
      ensures Model() == old(Model()).(r := old(Model()).r.(wbRef := old(r.wbRef) - if FileBuffer in had then 1 else 0),
                                       holds := old(holds) - if FileBuffer in had && old(r.wbRef) == 1 then 1 else 0)
    {
      if FileBuffer in had {
        r := r.(wbRef := r.wbRef - 1);
        if r.wbRef == 0 {
          holds := holds - 1;
        }
      }
    }

    method PutOtherRefs(had: Bits)
      requires HoldsRefs(Model().r, had)
      modifies this
      ensures Model() == old(Model()).(r := old(Model()).r.(
        pinRef := old(r.pinRef) - (if Pin in had then 1 else 0),
            rdRef := old(r.rdRef) - (if FileRd in had then 1 else 0),
        rdcacheRef := old(r.rdcacheRef) - (if FileCache in had then 1 else 0),
            wrRef := old(r.wrRef) - (if FileWr in had then 1 else 0)))
    {
      r := r.(pinRef := r.pinRef - if Pin in had then 1 else 0);
      r := r.(rdRef := r.rdRef - if FileRd in had then 1 else 0);
      r := r.(rdcacheRef := r.rdcacheRef - if FileCache in had then 1 else 0);
      r := r.(wrRef := r.wrRef - if FileWr in had then 1 else 0);
    }

    method LowerRefs(had: Bits)
      requires HoldsRefs(Model().r, had)
      modifies this
      ensures Model() == PutRefs(old(Model()), had)
    {
      PutOtherRefs(had);
      PutBufferRef(had);
      if FileWr in had && r.wrRef == 0 && d.capSnaps != [] && d.capSnaps[0].writing {
        d := d.(capSnaps := d.capSnaps[0 := d.capSnaps[0].(writing := false)]);
      }
    }

    /** ceph_put_cap_refs */
    method PutCapRefs(had: Bits)
      requires HoldsRefs(Model().r, had)
      modifies this
      ensures Model() == PutRefs(old(Model()), had)
      ensures old(Shape(Model())) ==> Keeps(old(Model()), Model())
      ensures old(Backed(Model())) ==> Backed(Model())
    {
      OtherOps(Model(), OpPutRefs(had));
      if Shape(Model()) { PutEffect(Model(), had); }
      LowerRefs(had);
    }

    // ----- dirty metadata --------------------------------------------------

    /** __ceph_mark_dirty_caps */
    method MarkDirtyCaps(mask: Bits, realm: Ctx)
      modifies this
      ensures mask != {} ==> Model() == MarkDirty(old(Model()), mask, realm)
      ensures mask != {} && old(Shape(Model())) ==> Keeps(old(Model()), Model()) && d.head.Some?
    {
      if mask != {} && Shape(Model()) { MarkDirtyEffect(Model(), mask, realm); }
      var was := m.dirty;
      m := m.(dirty := m.dirty + mask);
      if was == {} {
        if d.head.None? {
          d := d.(head := Some(realm));
        }
        bug := bug || m.onDirtyList;
        m := m.(onDirtyList := true);
        if m.flushing == {} {
          holds := holds + 1;
        }
      }
      bug := bug || !m.onDirtyList;
    }

    /** The bit loop of handle_cap_flush_ack. */
    method BitsCleaned(tid: nat, mask: Bits) returns (cleaned: Bits)
      ensures cleaned == Cleaned(Model(), tid, mask)
    {
      cleaned := {};
      for k := 0 to |BITS|
        invariant forall b :: b in cleaned <==> b in BITS[..k] && b in Cleaned(Model(), tid, mask)
      {
        assert BITS[..k + 1] == BITS[..k] + [BITS[k]];
        if BITS[k] in mask && BITS[k] in m.flushTid && tid % TID_MOD == m.flushTid[BITS[k]] {
          cleaned := cleaned + {BITS[k]};
        }
      }
      forall b: Bit ensures b in BITS[..|BITS|] { EveryBit(b); }
    }

    /** handle_cap_flush_ack */
    method AckFlush(tid: nat, mask: Bits)
      modifies this
      ensures Model() == FlushAck(old(Model()), tid, mask)
      ensures old(Shape(Model())) ==>
        forall b :: b in m.flushing <==> b in old(m.flushing) && !AckFor(old(m), tid, mask, b)
    {
      if Shape(Model()) { AckEffect(Model(), tid, mask); }
      var cleaned := BitsCleaned(tid, mask);
      if m.flushing * cleaned == {} {
        return;
      }
      m := m.(flushing := m.flushing - cleaned);
      if m.flushing == {} {
        m := m.(flushingOn := None);
        if m.dirty == {} {
          bug := bug || m.onDirtyList;
          holds := holds - 1;
          if d.headRef == 0 {
            bug := bug || d.head.None?;
            d := d.(head := None);
          }
        } else {
          bug := bug || !m.onDirtyList;
        }
      }
    }

    // ----- dirty pages and cap_snaps ---------------------------------------

    /** ceph_set_page_dirty, under the lock */
    method SetPageDirty(realm: Ctx)
      modifies this
      ensures Model() == PageDirtied(old(Model()), realm)
      ensures old(Shape(Model())) ==> Keeps(old(Model()), Model())
      ensures d.head.Some? && d.capSnaps == old(d.capSnaps)
    {
      if Shape(Model()) { PageEffect(Model(), realm); }
      if d.wrbufferRef == 0 {
        holds := holds + 1;
      }
      if d.head.None? {
        d := d.(head := Some(realm));
      }
      d := d.(headRef := d.headRef + 1);
      d := d.(wrbufferRef := d.wrbufferRef + 1);
    }

    /** The list walk of ceph_put_wrbuffer_cap_refs. */
    method FindCapSnap(snapc: Ctx) returns (k: nat)
      ensures k == FindSnap(d.capSnaps, snapc)
    {
      k := 0;
      while k < |d.capSnaps| && d.capSnaps[k].context != snapc
        invariant k <= |d.capSnaps| && forall j :: 0 <= j < k ==> d.capSnaps[j].context != snapc
      {
        k := k + 1;
      }
    }

    /** The cap_snap half of ceph_put_wrbuffer_cap_refs. */
    method PutSnapPages(nr: nat, snapc: Ctx)
      modifies this
      ensures var k := FindSnap(old(d.capSnaps), snapc); var i := old(Model());
        if k == |i.d.capSnaps| then Model() == i.(missed := true)
        else
          var cs := i.d.capSnaps[k].(dirtyPages := i.d.capSnaps[k].dirtyPages - nr);
          if cs.dirtyPages == 0 && cs.dirty == {}
          then Model() == i.(d := i.d.(capSnaps := i.d.capSnaps[..k] + i.d.capSnaps[k+1..]), holds := i.holds - 1)
          else Model() == i.(d := i.d.(capSnaps := i.d.capSnaps[k := cs]))
    {
      var k := FindCapSnap(snapc);
      if k == |d.capSnaps| {
        missed := true;
        return;
      }
      var cs := d.capSnaps[k].(dirtyPages := d.capSnaps[k].dirtyPages - nr);
      if cs.dirtyPages == 0 && cs.dirty == {} {
        d := d.(capSnaps := d.capSnaps[..k] + d.capSnaps[k+1..]);
        holds := holds - 1;
      } else {
        d := d.(capSnaps := d.capSnaps[k := cs]);
      }
    }

    /** ceph_put_wrbuffer_cap_refs */
    method PutWrbufferCapRefs(nr: nat, snapc: Ctx)
      modifies this
      ensures Model() == PutWrbuffer(old(Model()), nr, snapc)
      ensures old(d.head) == Some(snapc) ==> d.capSnaps == old(d.capSnaps) && HeadPut(old(Model()), nr, d)
      ensures old(d.head) != Some(snapc) ==> d.head == old(d.head) && d.headRef == old(d.headRef)
      ensures forall k :: old(d.head) != Some(snapc) && FirstUnder(old(d.capSnaps), snapc, k) ==>
        SnapPut(old(d.capSnaps), nr, k, d.capSnaps)
    {
      PutPagesEffect(Model(), nr, snapc);
      LowerPages(nr, snapc);
    }

    method LowerPages(nr: nat, snapc: Ctx)
      modifies this
      ensures Model() == PutWrbuffer(old(Model()), nr, snapc)
    {
      d := d.(wrbufferRef := d.wrbufferRef - nr);
      if d.wrbufferRef == 0 {
        holds := holds - 1;
      }
      if d.head == Some(snapc) {
        d := d.(headRef := d.headRef - nr);
        if d.headRef == 0 && m.dirty == {} && m.flushing == {} {
          d := d.(head := None);
        }
      } else {
        PutSnapPages(nr, snapc);
      }
    }

    method MoveToSnap(realm: Ctx)
      modifies this
      ensures Model() == QueueCapSnap(old(Model()), realm)
    {
      var used := GetUsed();
      var bits := m.dirty + m.flushing;
      if FileWr in used {
        bits := bits + {FileWr};
      }
      assert bits == SnapDirty(Model());
      if d.capSnaps != [] && d.capSnaps[|d.capSnaps| - 1].writing {
        return;
      }
      if bits * SNAP_DIRTY == {} {
        return;
      }
      var snapc := if d.head.Some? then d.head.value else realm;
      d := d.(capSnaps := d.capSnaps + [CapSnap(snapc, d.headRef, bits, FileWr in used, snapc.seqno, 0, false)]);
      holds := holds + 1;
      d := d.(headRef := 0);
      d := d.(head := Some(realm));
    }

    /** ceph_queue_cap_snap */
    method QueueSnap(realm: Ctx)
      modifies this
      ensures Model() == QueueCapSnap(old(Model()), realm)
      ensures old(Shape(Model())) ==> Keeps(old(Model()), Model())
      ensures d.headRef + SnapWriteback.SumDirty(d.capSnaps) == old(d.headRef + SnapWriteback.SumDirty(d.capSnaps))
      ensures if old(SnapNeeded(Model()))
        then d.capSnaps != [] && TakesHead(old(Model()), realm, d.capSnaps[|d.capSnaps| - 1])
        else Model() == old(Model())
    {
      QueueEffect(Model(), realm);
      if Shape(Model()) { QueueKeeps(Model(), realm); }
      QueueSum(Model(), realm);
      MoveToSnap(realm);
    }

    /** The list walk of __ceph_flush_snaps: the next cap_snap to send, or none to send now. */
    method NextSnap(nextFollows: nat, again: bool) returns (found: bool, k: nat)
      ensures found ==> CanFlushSnap(Model(), k) && Sendable(Model(), nextFollows, again, k)
      ensures !found ==> NoneToSend(Model(), nextFollows, again)
    {
      found, k := false, 0;
      while k < |d.capSnaps|
        invariant k <= |d.capSnaps|
        invariant forall j :: 0 <= j < k && d.capSnaps[j].follows >= nextFollows ==>
            !again && d.capSnaps[j].flushed && !Busy(d.capSnaps[j])
      {
        if d.capSnaps[k].follows >= nextFollows {
          if Busy(d.capSnaps[k]) {
            return;
          }
          if c.auth.None? {
            return;
          }
          if again || !d.capSnaps[k].flushed {
            found := true;
            return;
          }
        }
        k := k + 1;
      }
    }

    /** Sending one cap_snap. */
    method SendSnap(k: nat)
      requires k < |d.capSnaps|
      modifies this
      ensures Model() == FlushSnap(old(Model()), k)
    {
      bug := bug || d.capSnaps[k].dirty == {};
      m := m.(lastTid := (m.lastTid + 1) % TID_MOD);
      d := d.(capSnaps := d.capSnaps[k := d.capSnaps[k].(flushTid := m.lastTid, flushed := true)]);
    }

    /** After it the walk has one cap_snap fewer to send. */
    method SendAhead(k: nat, f: nat) returns (next: nat)
      requires k < |d.capSnaps| && d.capSnaps[k].follows >= f
      modifies this
      ensures Model() == FlushSnap(old(Model()), k) && Ahead(d.capSnaps, next) < old(Ahead(d.capSnaps, f))
      ensures next == old(d.capSnaps[k].follows) + 1
    {
      FlushAhead(Model(), k, f);
      next := d.capSnaps[k].follows + 1;
      SendSnap(k);
    }

    /** One message of __ceph_flush_snaps, noted in the run. */
    method SendOneSnap(k: nat, f: nat, ghost start: Inode, ghost done: seq<Op>) returns (next: nat,
        ghost trace: seq<Op>)
      requires Legal(start, done) && Exec(start, done) == Model() && CanFlushSnap(Model(), k)
      requires d.capSnaps[k].follows >= f
      modifies this
      ensures Legal(start, trace) && Exec(start, trace) == Model() && trace == done + [OpFlushSnap(k)]
      ensures Ahead(d.capSnaps, next) < old(Ahead(d.capSnaps, f)) && next == old(d.capSnaps[k].follows) + 1
    {
      ExecAppend(start, done, OpFlushSnap(k));
      trace := done + [OpFlushSnap(k)];
      next := SendAhead(k, f);
    }

    /** One round: the message, then what others do before the lock is retaken. */
    method SnapRound(k: nat, f: nat, gap: Option<seq<Op>>, ghost start: Inode, ghost done: seq<Op>)
        returns (next: nat, ghost trace: seq<Op>)
      requires Legal(start, done) && Exec(start, done) == Model() && CanFlushSnap(Model(), k)
      requires d.capSnaps[k].follows >= f
      modifies this
      ensures Legal(start, trace) && Exec(start, trace) == Model() && trace != []
      ensures next == old(d.capSnaps[k].follows) + 1
      ensures gap.None? ==> Ahead(d.capSnaps, next) < old(Ahead(d.capSnaps, f))
    {
      next, trace := SendOneSnap(k, f, start, done);
      if gap.Some? {
        trace := Others(gap.value, start, trace);
      }
    }

    /** __ceph_flush_snaps: each message drops the lock, and the walk starts over behind it, until
        nothing behind the last one sent can be sent. */
    method FlushSnaps(again: bool, gaps: seq<seq<Op>>)
        returns (nextFollows: nat, ghost trace: seq<Op>, ghost sent: seq<CapSnap>)
      modifies this
      ensures Legal(old(Model()), trace) && Exec(old(Model()), trace) == Model()
      ensures NoneToSend(Model(), nextFollows, again)
      ensures trace == [] ==> nextFollows == 0
      ensures InOrder(sent, again, nextFollows)
    {
      trace, sent := [], [];
      nextFollows := 0;
      ghost var start := Model();
      var n := 0;
      var found, k := NextSnap(nextFollows, again);
      while found
        invariant Legal(start, trace) && Exec(start, trace) == Model() && 0 <= n <= |gaps|
        invariant found ==> CanFlushSnap(Model(), k) && Sendable(Model(), nextFollows, again, k)
        invariant !found ==> NoneToSend(Model(), nextFollows, again)
        invariant trace == [] ==> nextFollows == 0
        invariant InOrder(sent, again, nextFollows)
        decreases |gaps| - n, Ahead(d.capSnaps, nextFollows)
      {
        InOrderMore(sent, again, nextFollows, d.capSnaps[k]);
        sent := sent + [d.capSnaps[k]];
        nextFollows, trace := SnapRound(k, nextFollows, if n < |gaps| then Some(gaps[n]) else None, start, trace);
        if n < |gaps| {
          n := n + 1;
        }
        found, k := NextSnap(nextFollows, again);
      }
    }

    /** handle_cap_flushsnap_ack */
    method AckFlushSnap(follows: nat, tid: nat)
      modifies this
      ensures Model() == FlushSnapAck(old(Model()), follows, tid)
      ensures forall k :: FirstFollowing(old(d.capSnaps), follows, k) && old(d.capSnaps)[k].flushTid == tid ==>
        d.capSnaps == old(d.capSnaps)[..k] + old(d.capSnaps)[k+1..] && holds == old(holds) - 1
      ensures (forall k :: FirstFollowing(old(d.capSnaps), follows, k) ==> old(d.capSnaps)[k].flushTid != tid) ==>
        Model() == old(Model())
    {
      SnapAckEffect(Model(), follows, tid);
      var k := 0;
      assert d.capSnaps[0..] == d.capSnaps;
      while k < |d.capSnaps| && d.capSnaps[k].follows != follows
        invariant 0 <= k <= |d.capSnaps|
        invariant FindFollows(d.capSnaps, follows) == k + FindFollows(d.capSnaps[k..], follows)
      {
        k := k + 1;
      }
      if k < |d.capSnaps| && d.capSnaps[k].flushTid == tid {
        d := d.(capSnaps := d.capSnaps[..k] + d.capSnaps[k+1..]);
        holds := holds - 1;
      }
    }
  }

  /** A cap_snap with dirty pages or a writer cannot be sent yet. */
  predicate Busy(cs: CapSnap)
  {
    cs.dirtyPages != 0 || cs.writing
  }

  /** The walk sends k next: there is an auth cap, the cap_snap counts, is not busy, and was not sent
      before unless all are to be sent again; and none before it holds it up or is to be sent first. */
  ghost predicate Sendable(i: Inode, nextFollows: nat, again: bool, k: nat)
  {
    && i.c.auth.Some? && k < |i.d.capSnaps| && Clear(i.d.capSnaps, nextFollows, k)
    && (again || !i.d.capSnaps[k].flushed)
    && forall j :: 0 <= j < k && i.d.capSnaps[j].follows >= nextFollows ==> !again && i.d.capSnaps[j].flushed
  }

  /** The cap_snaps sent, as they were: none busy, none sent before unless again, oldest first. */
  ghost predicate InOrder(sent: seq<CapSnap>, again: bool, next: nat)
  {
    && (forall j :: 0 <= j < |sent| ==> !Busy(sent[j]) && (again || !sent[j].flushed))
    && (forall j :: 0 < j < |sent| ==> sent[j - 1].follows < sent[j].follows)
    && next == if sent == [] then 0 else sent[|sent| - 1].follows + 1
  }

  lemma InOrderMore(sent: seq<CapSnap>, again: bool, next: nat, cs: CapSnap)
    requires InOrder(sent, again, next) && !Busy(cs) && (again || !cs.flushed) && cs.follows >= next
    ensures InOrder(sent + [cs], again, cs.follows + 1)
  {
  }

  /** The walk gets to k: it counts, and no busy one that counts comes before it. */
  ghost predicate Clear(snaps: seq<CapSnap>, nextFollows: nat, k: nat)
    requires k < |snaps|
  {
    snaps[k].follows >= nextFollows && forall j :: 0 <= j <= k && snaps[j].follows >= nextFollows ==> !Busy(snaps[j])
  }

  /** Every cap_snap from the given follows on that no busy one comes before has been sent, or there
      is no auth cap to send it to. */
  ghost predicate NoneToSend(i: Inode, nextFollows: nat, again: bool)
  {
    i.c.auth.Some? ==>
      forall k :: 0 <= k < |i.d.capSnaps| && Clear(i.d.capSnaps, nextFollows, k) ==> !again && i.d.capSnaps[k].flushed
  }

  /** How many cap_snaps the walk may still send. */
  function Ahead(snaps: seq<CapSnap>, follows: nat): (n: nat)
  {
    if snaps == [] then 0 else (if snaps[0].follows >= follows then 1 else 0) + Ahead(snaps[1..], follows)
  }

  lemma {:induction false} AheadLess(snaps: seq<CapSnap>, f: nat, g: nat)
    requires f <= g
    ensures Ahead(snaps, g) <= Ahead(snaps, f)
  {
    if snaps != [] {
      AheadLess(snaps[1..], f, g);
    }
  }

  lemma {:induction false} AheadDrops(snaps: seq<CapSnap>, f: nat, k: nat, cs: CapSnap)
    requires k < |snaps| && snaps[k].follows >= f && cs.follows == snaps[k].follows
    ensures Ahead(snaps[k := cs], cs.follows + 1) < Ahead(snaps, f)
  {
    if k == 0 {
      assert snaps[0 := cs][1..] == snaps[1..];
      AheadLess(snaps[1..], f, cs.follows + 1);
    } else {
      assert snaps[k := cs][1..] == snaps[1..][k - 1 := cs];
      AheadDrops(snaps[1..], f, k - 1, cs);
    }
  }

  lemma FlushAhead(i: Inode, k: nat, f: nat)
    requires k < |i.d.capSnaps| && i.d.capSnaps[k].follows >= f
    ensures Ahead(FlushSnap(i, k).d.capSnaps, i.d.capSnaps[k].follows + 1) < Ahead(i.d.capSnaps, f)
  {
    AheadDrops(i.d.capSnaps, f, k, FlushSnap(i, k).d.capSnaps[k]);
  }

  lemma QueueSum(i: Inode, realm: Ctx)
    ensures var d := QueueCapSnap(i, realm).d;
      d.headRef + SnapWriteback.SumDirty(d.capSnaps) == i.d.headRef + SnapWriteback.SumDirty(i.d.capSnaps)
  {
    if WillQueueSnap(i) {
      var cs := QueueCapSnap(i, realm).d.capSnaps[|i.d.capSnaps|];
      assert QueueCapSnap(i, realm).d.capSnaps == i.d.capSnaps + [cs];
      SnapWriteback.SumAppend(i.d.capSnaps, cs);
    }
  }

  /** Some cap not looked at yet. */
  method Pick<T(==)>(s: set<T>) returns (x: T)
    requires s != {}
    ensures x in s
  {
    x :| x in s;
  }

  lemma BeyondShrinks(before: map<int, Cap>, after: map<int, Cap>, mds: int, m: int)
    requires m in before && m > mds && after.Keys == before.Keys
    ensures |Beyond(after, m)| < |Beyond(before, mds)|
  {
    assert Beyond(after, m) <= Beyond(before, mds) - {m};
    Subset(Beyond(after, m), Beyond(before, mds) - {m});
  }

  lemma {:induction false} Subset<T>(s: set<T>, t: set<T>)
    requires s <= t
    ensures |s| <= |t|
  {
    if s != {} {
      var x :| x in s;
      Subset(s - {x}, t - {x});
    }
  }
}
