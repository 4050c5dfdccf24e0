/** Dirty pages, cap_snaps and writeback: page counts per snap context are exact,
    and pages go out in snapshot order. */
module SnapWriteback {
  import opened Common
  import opened InodeState
  import opened InodeOps

  datatype Status = Dirty | InFlight(reqCtx: Ctx)

  /** A page that carries a snap context, as long as writeback can find it: until its tag is cleared
      or it is being invalidated. It is dirty, or being written under a request's context. */
  datatype Page = Page(ctx: Ctx, status: Status)

  /** The inode, its realm's cached context, its tagged pages, what each writeback thread last got
      from get_oldest_context, all contexts the realm ever had, the contexts of pages that are
      counted but not tagged (about to be tagged, or with their put still to come), and what each
      thread in ceph_set_page_dirty read of the realm before it took the lock. */
  datatype Sys = Sys(
    ino: Inode, realm: Ctx, pages: map<nat, Page>, oldest: map<nat, Ctx>, past: set<Ctx>, owed: multiset<Ctx>,
    held: map<nat, Ctx>)

  function Tagged(pages: map<nat, Page>, c: Ctx): (ps: set<nat>)
  {
    set p | p in pages && pages[p].ctx == c
  }

  function Count(pages: map<nat, Page>, c: Ctx): (n: nat)
  {
    |Tagged(pages, c)|
  }

  /** Pages counted under a context: tagged ones and those in between. */
  function Total(pages: map<nat, Page>, owed: multiset<Ctx>, c: Ctx): (n: nat)
  {
    Count(pages, c) + owed[c]
  }

  function SumDirty(snaps: seq<CapSnap>): (n: int)
  {
    if snaps == [] then 0 else snaps[0].dirtyPages + SumDirty(snaps[1..])
  }

  // ----- events ------------------------------------------------------------

  datatype Event =
    | NewContext(c: Ctx)                 // the realm's cached context is rebuilt
    | QueueSnap                          // ceph_queue_cap_snap
    | ReadContext(t: nat)                // ceph_set_page_dirty, before the lock
    | CountPage(t: nat)                  // ceph_set_page_dirty, under the lock
    | TagPage(p: nat, c: Ctx)            // ceph_set_page_dirty, afterwards
    | ReadOldest(w: nat)                 // get_oldest_context
    | Submit(w: nat, p: nat)             // a page joins a write request
    | Untag(ps: set<nat>, c: Ctx)        // writepages_finish, writepage_nounlock
    | Invalidate(p: nat)                 // ceph_invalidatepage begins
    | Put(nr: nat, c: Ctx)               // ceph_put_wrbuffer_cap_refs, after either
    | Other(op: Op)                      // any other operation on the inode

  predicate IsOther(op: Op)
  {
    !op.OpRemoveSessionCap? && !op.OpPageDirtied? && !op.OpPutWrbuffer? && !op.OpQueueCapSnap?
  }

  /** A FLUSHSNAP ack answers a flush that was sent. */
  predicate HonestAck(i: Inode, follows: nat, tid: nat)
  {
    var k := FindFollows(i.d.capSnaps, follows);
    k < |i.d.capSnaps| && i.d.capSnaps[k].flushTid == tid ==> i.d.capSnaps[k].flushed
  }

  /** A page whose context was read earlier is counted where it belongs: its context is the head's, or
      there is no head and none of the cap_snaps' and threads' contexts is newer. */
  predicate CountsRight(s: Sys, c: Ctx)
  {
    s.ino.d.head == Some(c) || (s.ino.d.head.None? && AllBelow(s.ino.d.capSnaps, c.seqno) && NoneNewer(s.oldest, c))
  }

  predicate NoneNewer(oldest: map<nat, Ctx>, c: Ctx)
  {
    forall w :: w in oldest ==> oldest[w].seqno <= c.seqno
  }

  predicate AllBelow(snaps: seq<CapSnap>, seqno: nat)
  {
    forall k :: 0 <= k < |snaps| ==> snaps[k].context.seqno < seqno
  }

  /** A cap_snap takes over a head context that the realm has replaced. */
  predicate HeadIsOld(s: Sys)
  {
    s.ino.d.head.Some? && s.ino.d.head != Some(s.realm)
  }

  /** The test in ceph_writepages_start and writepage_nounlock, against a context read earlier. */
  predicate MaySubmit(s: Sys, w: nat, p: nat)
  {
    w in s.oldest && p in s.pages && s.pages[p].status == Dirty && s.pages[p].ctx.seqno <= s.oldest[w].seqno
  }

  predicate Enabled(s: Sys, ev: Event)
  {
    match ev
    case NewContext(c) => c.seqno > s.realm.seqno
    case QueueSnap => true
    case ReadContext(t) => true
    case CountPage(t) => t in s.held
    case TagPage(p, c) => p !in s.pages && c in s.owed
    case ReadOldest(w) => true
    case Submit(w, p) => MaySubmit(s, w, p)
    case Untag(ps, c) => ps != {} && forall p :: p in ps ==> p in s.pages && s.pages[p].status == InFlight(c)
    case Invalidate(p) => p in s.pages && s.pages[p].status == Dirty
    case Put(nr, c) => 0 < nr <= s.owed[c]
    case Other(op) =>
      && IsOther(op) && InodeOps.Enabled(s.ino, op)
      && (op.OpMarkDirty? ==> op.realm == s.realm)
      && (op.OpFlushSnapAck? ==> HonestAck(s.ino, op.follows, op.tid))
  }

  function Apply(s: Sys, ev: Event): (s': Sys)
    requires Enabled(s, ev)
  {
    match ev
    case NewContext(c) => s.(realm := c, past := s.past + {c})
    case QueueSnap => s.(ino := QueueCapSnap(s.ino, s.realm))
    case ReadContext(t) => s.(held := s.held[t := s.realm])
    case CountPage(t) =>
      s.(ino := PageDirtied(s.ino, s.held[t]), owed := s.owed + multiset{s.held[t]}, held := s.held - {t})
    case TagPage(p, c) => s.(pages := s.pages[p := Page(c, Dirty)], owed := s.owed - multiset{c})
    case ReadOldest(w) =>
      (match OldestContext(s.ino)
       case Some(c) => s.(oldest := s.oldest[w := c])
       case None => s.(oldest := s.oldest - {w}))
    case Submit(w, p) => s.(pages := s.pages[p := s.pages[p].(status := InFlight(s.oldest[w]))])
    case Untag(ps, c) => s.(pages := s.pages - ps, owed := s.owed[c := s.owed[c] + |ps|])
    case Invalidate(p) => s.(pages := s.pages - {p}, owed := s.owed[s.pages[p].ctx := s.owed[s.pages[p].ctx] + 1])
    case Put(nr, c) => s.(ino := PutWrbuffer(s.ino, nr, c), owed := s.owed[c := s.owed[c] - nr])
    case Other(op) => s.(ino := InodeOps.Apply(s.ino, op))
  }

  /** The two steps that need care: a page is counted where it belongs, and a cap_snap is queued while
      the head's context is one that the realm has replaced. */
  predicate Orderly(s: Sys, ev: Event)
    requires Enabled(s, ev)
  {
    match ev
    case CountPage(t) => CountsRight(s, s.held[t])
    case QueueSnap => WillQueueSnap(s.ino) ==> HeadIsOld(s)
    case _ => true
  }

  // ----- invariant ---------------------------------------------------------

  /** The contexts pages can have: those of the cap_snaps and the head. */
  ghost predicate InUse(d: Data, c: Ctx)
  {
    d.head == Some(c) || exists k :: 0 <= k < |d.capSnaps| && d.capSnaps[k].context == c
  }

  ghost predicate Ascending(snaps: seq<CapSnap>)
  {
    forall i, j :: 0 <= i < j < |snaps| ==> snaps[i].context.seqno < snaps[j].context.seqno
  }

  /** Cap_snaps are in snapshot order, older than the head, which is no newer than the realm's context. */
  ghost predicate OrderOk(d: Data, realm: Ctx)
  {
    && Ascending(d.capSnaps) && AllBelow(d.capSnaps, realm.seqno)
    && (d.head.Some? ==> d.head.value.seqno <= realm.seqno && AllBelow(d.capSnaps, d.head.value.seqno))
  }

  /** The realm never reuses a sequence number, and what threads hold came from it. */
  ghost predicate PastOk(realm: Ctx, past: set<Ctx>, oldest: map<nat, Ctx>)
  {
    && realm in past
    && (forall a, b :: a in past && b in past && a.seqno == b.seqno ==> a == b)
    && (forall a :: a in past ==> a.seqno <= realm.seqno)
    && (forall w :: w in oldest ==> oldest[w] in past)
  }

  /** All contexts in use came from the realm. */
  ghost predicate UsedPast(d: Data, past: set<Ctx>)
  {
    forall c :: InUse(d, c) ==> c in past
  }

  /** Each counter is the number of pages counted under its context, tagged or in between, each such
      page has a counter, and i_wrbuffer_ref is the sum of the counters. */
  ghost predicate CountsOk(d: Data, pages: map<nat, Page>, owed: multiset<Ctx>)
  {
    && (forall k :: 0 <= k < |d.capSnaps| ==> d.capSnaps[k].dirtyPages == Total(pages, owed, d.capSnaps[k].context))
    && d.headRef == (if d.head.Some? then Total(pages, owed, d.head.value) else 0)
    && (forall p :: p in pages ==> InUse(d, pages[p].ctx))
    && (forall c :: c in owed ==> InUse(d, c))
    && d.wrbufferRef == d.headRef + SumDirty(d.capSnaps)
  }

  /** A cap_snap has something dirty to flush, and once flushed no dirty pages left. */
  ghost predicate SnapsOk(snaps: seq<CapSnap>)
  {
    forall k :: 0 <= k < |snaps| ==> snaps[k].dirty != {} && (snaps[k].flushed ==> snaps[k].dirtyPages == 0)
  }

  /** What any thread holds as the oldest context is no newer than any page counted, and a page is
      written under its own context. */
  ghost predicate WritersOk(oldest: map<nat, Ctx>, pages: map<nat, Page>, owed: multiset<Ctx>)
  {
    && (forall w, p :: w in oldest && p in pages ==> oldest[w].seqno <= pages[p].ctx.seqno)
    && (forall w, c :: w in oldest && c in owed ==> oldest[w].seqno <= c.seqno)
    && (forall p :: p in pages && pages[p].status.InFlight? ==> pages[p].status.reqCtx == pages[p].ctx)
  }

  /** What dirtying threads read came from the realm. */
  ghost predicate ReadsPast(held: map<nat, Ctx>, past: set<Ctx>)
  {
    forall t :: t in held ==> held[t] in past
  }

  /** No thread holds a context newer than the head's. */
  ghost predicate HeadNewest(head: Option<Ctx>, oldest: map<nat, Ctx>)
  {
    head.Some? ==> NoneNewer(oldest, head.value)
  }

  ghost predicate Inv(s: Sys)
  {
    && OrderOk(s.ino.d, s.realm) && PastOk(s.realm, s.past, s.oldest) && UsedPast(s.ino.d, s.past)
    && ReadsPast(s.held, s.past) && HeadNewest(s.ino.d.head, s.oldest)
    && CountsOk(s.ino.d, s.pages, s.owed) && SnapsOk(s.ino.d.capSnaps)
    && WritersOk(s.oldest, s.pages, s.owed) && !s.ino.missed
  }

  // ----- counting lemmas ---------------------------------------------------

  lemma {:induction false} SumUpdate(snaps: seq<CapSnap>, k: nat, cs: CapSnap)
    requires k < |snaps|
    ensures SumDirty(snaps[k := cs]) == SumDirty(snaps) - snaps[k].dirtyPages + cs.dirtyPages
  {
    if k > 0 {
      assert snaps[k := cs][1..] == snaps[1..][k-1 := cs];
      SumUpdate(snaps[1..], k - 1, cs);
    } else {
      assert snaps[0 := cs][1..] == snaps[1..];
    }
  }

  lemma {:induction false} SumRemove(snaps: seq<CapSnap>, k: nat)
    requires k < |snaps|
    ensures SumDirty(snaps[..k] + snaps[k+1..]) == SumDirty(snaps) - snaps[k].dirtyPages
  {
    if k > 0 {
      assert (snaps[..k] + snaps[k+1..])[1..] == snaps[1..][..k-1] + snaps[1..][k..];
      SumRemove(snaps[1..], k - 1);
    } else {
      assert snaps[..0] + snaps[1..] == snaps[1..];
    }
  }

  lemma {:induction false} SumAppend(snaps: seq<CapSnap>, cs: CapSnap)
    ensures SumDirty(snaps + [cs]) == SumDirty(snaps) + cs.dirtyPages
  {
    if snaps == [] {
      assert snaps + [cs] == [cs];
    } else {
      assert (snaps + [cs])[1..] == snaps[1..] + [cs];
      SumAppend(snaps[1..], cs);
    }
  }

  lemma CountRemove(pages: map<nat, Page>, ps: set<nat>, c: Ctx, x: Ctx)
    requires forall p :: p in ps ==> p in pages && pages[p].ctx == c
    ensures Count(pages - ps, x) == Count(pages, x) - if x == c then |ps| else 0
  {
    if x == c {
      assert Tagged(pages, c) == Tagged(pages - ps, c) + ps;
    } else {
      assert Tagged(pages - ps, x) == Tagged(pages, x);
    }
  }

  lemma CountAdd(pages: map<nat, Page>, p: nat, page: Page, x: Ctx)
    requires p !in pages
    ensures Count(pages[p := page], x) == Count(pages, x) + if x == page.ctx then 1 else 0
  {
    if x == page.ctx {
      assert Tagged(pages[p := page], x) == Tagged(pages, x) + {p};
    } else {
      assert Tagged(pages[p := page], x) == Tagged(pages, x);
    }
  }

  lemma CountRestatus(pages: map<nat, Page>, p: nat, st: Status, x: Ctx)
    requires p in pages
    ensures Count(pages[p := pages[p].(status := st)], x) == Count(pages, x)
  {
    assert Tagged(pages[p := pages[p].(status := st)], x) == Tagged(pages, x);
  }

  lemma CountPositive(pages: map<nat, Page>, p: nat)
    requires p in pages
    ensures Count(pages, pages[p].ctx) > 0
  {
    assert p in Tagged(pages, pages[p].ctx);
  }

  // ----- releasing pages ---------------------------------------------------

  /** Distinct contexts, as far as the lookup in put cares. */
  ghost predicate Distinct(d: Data)
  {
    && (forall i, j :: 0 <= i < j < |d.capSnaps| ==> d.capSnaps[i].context != d.capSnaps[j].context)
    && (forall k :: 0 <= k < |d.capSnaps| ==> d.head != Some(d.capSnaps[k].context))
  }

  lemma OrderDistinct(d: Data, realm: Ctx)
    requires OrderOk(d, realm)
    ensures Distinct(d)
  {
  }

  /** The counters agree with other pages and owed contexts of the same totals. */
  lemma SameTotals(d: Data, pages: map<nat, Page>, owed: multiset<Ctx>, pages': map<nat, Page>, owed': multiset<Ctx>)
    requires CountsOk(d, pages, owed) && forall x :: Total(pages', owed', x) == Total(pages, owed, x)
    ensures CountsOk(d, pages', owed')
  {
    forall c | Total(pages, owed, c) > 0
      ensures InUse(d, c)
    {
      CountedInUse(d, pages, owed, c);
    }
    forall p | p in pages'
      ensures InUse(d, pages'[p].ctx)
    {
      CountPositive(pages', p);
    }
    forall c | c in owed'
      ensures InUse(d, c)
    {
      assert Total(pages', owed', c) > 0;
    }
  }

  /** A context with pages counted under it is a cap_snap's or the head's. */
  lemma CountedInUse(d: Data, pages: map<nat, Page>, owed: multiset<Ctx>, c: Ctx)
    requires CountsOk(d, pages, owed) && Total(pages, owed, c) > 0
    ensures InUse(d, c)
  {
    if c !in owed {
      assert Tagged(pages, c) != {};
      var p :| p in Tagged(pages, c);
    }
  }

  /** Clearing tags moves pages from tagged to owed. */
  lemma UntagTotals(pages: map<nat, Page>, owed: multiset<Ctx>, ps: set<nat>, c: Ctx, x: Ctx)
    requires forall p :: p in ps ==> p in pages && pages[p].ctx == c
    ensures Total(pages - ps, owed[c := owed[c] + |ps|], x) == Total(pages, owed, x)
  {
    CountRemove(pages, ps, c, x);
  }

  /** Fewer pages of context c are owed. */
  ghost predicate PutDown(owed: multiset<Ctx>, owed': multiset<Ctx>, nr: nat, c: Ctx)
  {
    0 < nr <= owed[c] && owed' == owed[c := owed[c] - nr]
  }

  lemma PutHead(i: Inode, pages: map<nat, Page>, owed: multiset<Ctx>, nr: nat, c: Ctx, owed': multiset<Ctx>)
    requires CountsOk(i.d, pages, owed) && i.d.head == Some(c) && Distinct(i.d) && PutDown(owed, owed', nr, c)
    ensures CountsOk(PutWrbuffer(i, nr, c).d, pages, owed')
  {
    var d' := PutWrbuffer(i, nr, c).d;
    forall x | Total(pages, owed', x) > 0
      ensures InUse(d', x)
    {
      CountedInUse(i.d, pages, owed, x);
    }
    forall p | p in pages
      ensures InUse(d', pages[p].ctx)
    {
      CountPositive(pages, p);
    }
    forall x | x in owed'
      ensures InUse(d', x)
    {
      assert Total(pages, owed', x) > 0;
    }
  }

  lemma FindIt(d: Data, c: Ctx)
    requires InUse(d, c) && d.head != Some(c)
    ensures FindSnap(d.capSnaps, c) < |d.capSnaps|
  {
  }

  /** The same contexts are in use when one cap_snap's page count changes. */
  lemma InUseUpdate(d: Data, k: nat, n: int, c: Ctx)
    requires k < |d.capSnaps| && InUse(d, c)
    ensures InUse(d.(capSnaps := d.capSnaps[k := d.capSnaps[k].(dirtyPages := n)], wrbufferRef := 0), c)
  {
    if d.head != Some(c) {
      var j :| 0 <= j < |d.capSnaps| && d.capSnaps[j].context == c;
      assert d.capSnaps[k := d.capSnaps[k].(dirtyPages := n)][j].context == c;
    }
  }

  /** One cap_snap's count goes down by nr, the rest of the inode's data stays. */
  lemma CountDown(d: Data, d': Data, pages: map<nat, Page>, owed: multiset<Ctx>, k: nat, nr: nat, c: Ctx,
      owed': multiset<Ctx>)
    requires CountsOk(d, pages, owed) && Distinct(d) && d.head != Some(c) && k < |d.capSnaps|
    requires d.capSnaps[k].context == c
    requires PutDown(owed, owed', nr, c)
    requires d' == d.(capSnaps := d.capSnaps[k := d.capSnaps[k].(dirtyPages := d.capSnaps[k].dirtyPages - nr)],
        wrbufferRef := d.wrbufferRef - nr)
    ensures CountsOk(d', pages, owed')
  {
    var n := d.capSnaps[k].dirtyPages - nr;
    SumUpdate(d.capSnaps, k, d.capSnaps[k].(dirtyPages := n));
    forall x | InUse(d, x)
      ensures InUse(d', x)
    {
      InUseUpdate(d, k, n, x);
    }
    assert forall x :: x in owed' ==> x in owed;
    forall j | 0 <= j < |d'.capSnaps|
      ensures d'.capSnaps[j].dirtyPages == Total(pages, owed', d'.capSnaps[j].context)
    {
      TotalDown(pages, owed, owed', nr, c, d.capSnaps[j].context);
    }
    if d.head.Some? { TotalDown(pages, owed, owed', nr, c, d.head.value); }
  }

  lemma TotalDown(pages: map<nat, Page>, owed: multiset<Ctx>, owed': multiset<Ctx>, nr: nat, c: Ctx, x: Ctx)
    requires PutDown(owed, owed', nr, c)
    ensures Total(pages, owed', x) == Total(pages, owed, x) - if x == c then nr else 0
  {
  }

  lemma PutSnap(i: Inode, pages: map<nat, Page>, owed: multiset<Ctx>, nr: nat, c: Ctx, owed': multiset<Ctx>)
    requires CountsOk(i.d, pages, owed) && SnapsOk(i.d.capSnaps) && i.d.head != Some(c) && Distinct(i.d)
    requires PutDown(owed, owed', nr, c)
    ensures CountsOk(PutWrbuffer(i, nr, c).d, pages, owed')
    ensures PutWrbuffer(i, nr, c).missed == i.missed
    ensures SnapsOk(PutWrbuffer(i, nr, c).d.capSnaps)
  {
    assert c in owed && InUse(i.d, c);
    FindIt(i.d, c);
    var k, d' := FindSnap(i.d.capSnaps, c), PutWrbuffer(i, nr, c).d;
    assert d'.capSnaps == i.d.capSnaps[k := i.d.capSnaps[k].(dirtyPages := i.d.capSnaps[k].dirtyPages - nr)];
    CountDown(i.d, d', pages, owed, k, nr, c, owed');
    assert i.d.capSnaps[k].dirtyPages >= owed[c] > 0;
  }

  // ----- every step --------------------------------------------------------

  /** Same contexts in the same places, except that the head may be gone. */
  ghost predicate SameContexts(d: Data, d': Data)
  {
    && (d'.head.None? || d'.head == d.head)
    && |d'.capSnaps| == |d.capSnaps| && forall k :: 0 <= k < |d.capSnaps| ==>
        d'.capSnaps[k].context == d.capSnaps[k].context
  }

  lemma SameKeeps(s: Sys, d': Data)
    requires OrderOk(s.ino.d, s.realm) && PastOk(s.realm, s.past, s.oldest) && UsedPast(s.ino.d, s.past)
    requires SameContexts(s.ino.d, d')
    ensures OrderOk(d', s.realm) && UsedPast(d', s.past)
  {
    forall c | InUse(d', c)
      ensures c in s.past
    {
      if d'.head != Some(c) {
        var k :| 0 <= k < |d'.capSnaps| && d'.capSnaps[k].context == c;
        assert s.ino.d.capSnaps[k].context == c;
      }
      assert InUse(s.ino.d, c);
    }
  }

  lemma PutContexts(i: Inode, nr: nat, c: Ctx)
    requires SnapsOk(i.d.capSnaps)
    ensures SameContexts(i.d, PutWrbuffer(i, nr, c).d)
    ensures i.d.head == Some(c) ==>
        PutWrbuffer(i, nr, c).missed == i.missed && PutWrbuffer(i, nr, c).d.capSnaps == i.d.capSnaps
  {
  }

  lemma PutCounts(s: Sys, nr: nat, c: Ctx, owed': multiset<Ctx>)
    requires Inv(s) && PutDown(s.owed, owed', nr, c)
    ensures var i := PutWrbuffer(s.ino, nr, c); CountsOk(i.d, s.pages, owed') && SnapsOk(i.d.capSnaps) && !i.missed
  {
    OrderDistinct(s.ino.d, s.realm);
    if s.ino.d.head == Some(c) {
      PutHead(s.ino, s.pages, s.owed, nr, c, owed');
      PutContexts(s.ino, nr, c);
    } else {
      PutSnap(s.ino, s.pages, s.owed, nr, c, owed');
    }
  }

  lemma PutOrder(s: Sys, nr: nat, c: Ctx)
    requires OrderOk(s.ino.d, s.realm) && PastOk(s.realm, s.past, s.oldest) && UsedPast(s.ino.d, s.past)
    requires SnapsOk(s.ino.d.capSnaps)
    requires HeadNewest(s.ino.d.head, s.oldest)
    ensures OrderOk(PutWrbuffer(s.ino, nr, c).d, s.realm) && UsedPast(PutWrbuffer(s.ino, nr, c).d, s.past)
    ensures HeadNewest(PutWrbuffer(s.ino, nr, c).d.head, s.oldest)
  {
    PutContexts(s.ino, nr, c);
    SameKeeps(s, PutWrbuffer(s.ino, nr, c).d);
  }

  /** What threads hold stays old enough when puts come. */
  lemma PutWriters(s: Sys, nr: nat, c: Ctx, owed': multiset<Ctx>)
    requires WritersOk(s.oldest, s.pages, s.owed) && PutDown(s.owed, owed', nr, c)
    ensures WritersOk(s.oldest, s.pages, owed')
  {
    assert forall x :: x in owed' ==> x in s.owed;
  }

  /** And when pages of context c lose their tags. */
  lemma UntagWriters(s: Sys, pages': map<nat, Page>, owed': multiset<Ctx>, p: nat)
    requires WritersOk(s.oldest, s.pages, s.owed) && forall q :: q in pages' ==> q in s.pages && pages'[q] == s.pages[q]
    requires p in s.pages && forall x :: x in owed' ==> x in s.owed || x == s.pages[p].ctx
    ensures WritersOk(s.oldest, pages', owed')
  {
  }

  lemma Assemble(s: Sys, i': Inode, owed': multiset<Ctx>)
    requires PastOk(s.realm, s.past, s.oldest) && OrderOk(i'.d, s.realm) && UsedPast(i'.d, s.past)
    requires ReadsPast(s.held, s.past) && HeadNewest(i'.d.head, s.oldest)
    requires CountsOk(i'.d, s.pages, owed') && SnapsOk(i'.d.capSnaps) && WritersOk(s.oldest, s.pages, owed')
    requires !i'.missed
    ensures Inv(s.(ino := i', owed := owed'))
  {
  }

  lemma PutKeeps(s: Sys, nr: nat, c: Ctx, i': Inode, owed': multiset<Ctx>)
    requires Inv(s) && PutDown(s.owed, owed', nr, c) && i' == PutWrbuffer(s.ino, nr, c)
    ensures Inv(s.(ino := i', owed := owed'))
  {
    PutCounts(s, nr, c, owed');
    PutOrder(s, nr, c);
    PutWriters(s, nr, c, owed');
    Assemble(s, i', owed');
  }

  lemma PutIs(s: Sys, nr: nat, c: Ctx) returns (i': Inode, owed': multiset<Ctx>)
    requires Enabled(s, Put(nr, c))
    ensures i' == PutWrbuffer(s.ino, nr, c) && PutDown(s.owed, owed', nr, c)
    ensures Apply(s, Put(nr, c)) == s.(ino := i', owed := owed')
  {
    i', owed' := PutWrbuffer(s.ino, nr, c), s.owed[c := s.owed[c] - nr];
  }

  lemma PutStep(s: Sys, nr: nat, c: Ctx)
    requires Inv(s) && Enabled(s, Put(nr, c))
    ensures Inv(Apply(s, Put(nr, c)))
  {
    var i', owed' := PutIs(s, nr, c);
    PutKeeps(s, nr, c, i', owed');
  }

  lemma UntagCounts(s: Sys, ps: set<nat>, c: Ctx)
    requires CountsOk(s.ino.d, s.pages, s.owed) && forall p :: p in ps ==> p in s.pages && s.pages[p].ctx == c
    ensures CountsOk(s.ino.d, s.pages - ps, s.owed[c := s.owed[c] + |ps|])
  {
    var pages', owed' := s.pages - ps, s.owed[c := s.owed[c] + |ps|];
    forall x ensures Total(pages', owed', x) == Total(s.pages, s.owed, x) {
      UntagTotals(s.pages, s.owed, ps, c, x);
    }
    SameTotals(s.ino.d, s.pages, s.owed, pages', owed');
  }

  lemma UntagKeeps(s: Sys, ps: set<nat>, c: Ctx, pages': map<nat, Page>, owed': multiset<Ctx>)
    requires CountsOk(s.ino.d, s.pages, s.owed) && WritersOk(s.oldest, s.pages, s.owed)
    requires ps != {} && forall p :: p in ps ==> p in s.pages && s.pages[p].ctx == c
    requires pages' == s.pages - ps && owed' == s.owed[c := s.owed[c] + |ps|]
    ensures CountsOk(s.ino.d, pages', owed') && WritersOk(s.oldest, pages', owed')
  {
    UntagCounts(s, ps, c);
    var p :| p in ps;
    assert p in s.pages && s.pages[p].ctx == c;
    UntagWriters(s, pages', owed', p);
  }

  lemma TagCounts(d: Data, pages: map<nat, Page>, owed: multiset<Ctx>, p: nat, c: Ctx)
    requires CountsOk(d, pages, owed) && p !in pages && c in owed
    ensures CountsOk(d, pages[p := Page(c, Dirty)], owed - multiset{c})
  {
    var pages', owed' := pages[p := Page(c, Dirty)], owed - multiset{c};
    forall x ensures Total(pages', owed', x) == Total(pages, owed, x) {
      CountAdd(pages, p, Page(c, Dirty), x);
    }
    SameTotals(d, pages, owed, pages', owed');
  }

  lemma TagWriters(s: Sys, p: nat, c: Ctx)
    requires WritersOk(s.oldest, s.pages, s.owed) && p !in s.pages && c in s.owed
    ensures WritersOk(s.oldest, s.pages[p := Page(c, Dirty)], s.owed - multiset{c})
  {
    assert forall x :: x in s.owed - multiset{c} ==> x in s.owed;
  }

  lemma TagStep(s: Sys, p: nat, c: Ctx)
    requires Inv(s) && Enabled(s, TagPage(p, c))
    ensures Inv(Apply(s, TagPage(p, c)))
  {
    TagCounts(s.ino.d, s.pages, s.owed, p, c);
    TagWriters(s, p, c);
  }

  /** Setting the head to the realm's context when there is none. */
  lemma SetHeadKeeps(s: Sys)
    requires OrderOk(s.ino.d, s.realm) && PastOk(s.realm, s.past, s.oldest) && UsedPast(s.ino.d, s.past)
    ensures OrderOk(SetHead(s.ino.d, s.realm), s.realm)
    ensures UsedPast(SetHead(s.ino.d, s.realm), s.past)
    ensures forall c :: InUse(s.ino.d, c) ==> InUse(SetHead(s.ino.d, s.realm), c)
  {
    forall c | InUse(SetHead(s.ino.d, s.realm), c)
      ensures c in s.past
    {
      assert c == s.realm || InUse(s.ino.d, c);
    }
  }

  /** Nothing is counted under the realm's context, newer than every cap_snap's, until the head takes it. */
  lemma RealmUncounted(s: Sys)
    requires OrderOk(s.ino.d, s.realm) && CountsOk(s.ino.d, s.pages, s.owed) && s.ino.d.head != Some(s.realm)
    ensures Total(s.pages, s.owed, s.realm) == 0
  {
    if Total(s.pages, s.owed, s.realm) > 0 {
      CountedInUse(s.ino.d, s.pages, s.owed, s.realm);
    }
  }

  lemma DirtyCounts(s: Sys, c: Ctx)
    requires OrderOk(s.ino.d, s.realm) && CountsOk(s.ino.d, s.pages, s.owed) && CountsRight(s, c)
    ensures CountsOk(PageDirtied(s.ino, c).d, s.pages, s.owed + multiset{c})
  {
    OrderDistinct(s.ino.d, s.realm);
    DirtyExact(s, c);
  }

  lemma DirtyOrder(s: Sys, c: Ctx)
    requires OrderOk(s.ino.d, s.realm) && PastOk(s.realm, s.past, s.oldest) && UsedPast(s.ino.d, s.past)
    requires CountsRight(s, c) && c in s.past
    ensures OrderOk(PageDirtied(s.ino, c).d, s.realm)
    ensures UsedPast(PageDirtied(s.ino, c).d, s.past)
  {
    var d' := PageDirtied(s.ino, c).d;
    forall x | InUse(d', x)
      ensures x in s.past
    {
      assert x == c || InUse(s.ino.d, x);
    }
  }

  lemma DirtyWriters(s: Sys, c: Ctx)
    requires WritersOk(s.oldest, s.pages, s.owed) && NoneNewer(s.oldest, c)
    ensures WritersOk(s.oldest, s.pages, s.owed + multiset{c})
  {
    assert forall x :: x in s.owed + multiset{c} ==> x in s.owed || x == c;
  }

  lemma CountStep(s: Sys, t: nat)
    requires Inv(s) && Enabled(s, CountPage(t)) && CountsRight(s, s.held[t])
    ensures Inv(Apply(s, CountPage(t)))
  {
    var c := s.held[t];
    DirtyCounts(s, c);
    DirtyOrder(s, c);
    DirtyWriters(s, c);
    assert ReadsPast(s.held - {t}, s.past);
  }

  /** A page counted elsewhere breaks the counts, the order of contexts or what threads rely on. */
  lemma CountBreaks(s: Sys, t: nat)
    requires Inv(s) && Enabled(s, CountPage(t)) && !CountsRight(s, s.held[t])
    ensures !Inv(Apply(s, CountPage(t)))
  {
    var c, d := s.held[t], s.ino.d;
    var d', owed' := PageDirtied(s.ino, c).d, s.owed + multiset{c};
    if d.head.Some? {
      assert Total(s.pages, owed', d.head.value) == d.headRef;
      assert !CountsOk(d', s.pages, owed');
    } else if !AllBelow(d.capSnaps, c.seqno) {
      assert !OrderOk(d', s.realm);
    } else {
      assert c in owed';
      assert !WritersOk(s.oldest, s.pages, owed');
    }
  }

  /** Threads that read the context the head still has, or the realm still has while there is no head,
      count right. */
  lemma UsualCount(s: Sys, c: Ctx)
    requires Inv(s) && (s.ino.d.head == Some(c) || (s.ino.d.head.None? && c == s.realm))
    ensures CountsRight(s, c)
  {
  }

  /** A cap_snap takes over the head's context and count; the realm's context becomes the head's. */
  ghost predicate Queued(d: Data, d': Data, realm: Ctx)
  {
    && d.head.Some? && d'.head == Some(realm) && d'.headRef == 0 && d'.wrbufferRef == d.wrbufferRef
    && |d'.capSnaps| == |d.capSnaps| + 1 && d'.capSnaps[..|d.capSnaps|] == d.capSnaps
    && d'.capSnaps[|d.capSnaps|].context == d.head.value && d'.capSnaps[|d.capSnaps|].dirtyPages == d.headRef
  }

  lemma QueuedInUse(d: Data, d': Data, realm: Ctx, c: Ctx)
    requires Queued(d, d', realm)
    ensures InUse(d', c) <==> InUse(d, c) || c == realm
  {
    assert d'.capSnaps == d.capSnaps + [d'.capSnaps[|d.capSnaps|]];
    if InUse(d, c) {
      var k := if d.head == Some(c) then |d.capSnaps| else FindSnap(d.capSnaps, c);
      assert d'.capSnaps[k].context == c;
    }
    if InUse(d', c) && c != realm {
      var k :| 0 <= k < |d'.capSnaps| && d'.capSnaps[k].context == c;
      assert d.head == Some(c) || d.capSnaps[k].context == c;
    }
  }

  lemma QueuedCounts(d: Data, d': Data, pages: map<nat, Page>, owed: multiset<Ctx>, realm: Ctx)
    requires CountsOk(d, pages, owed) && Queued(d, d', realm) && !InUse(d, realm)
    ensures CountsOk(d', pages, owed)
  {
    Uncounted(d, pages, owed, realm);
    assert d'.capSnaps == d.capSnaps + [d'.capSnaps[|d.capSnaps|]];
    SumAppend(d.capSnaps, d'.capSnaps[|d.capSnaps|]);
    forall x | InUse(d, x)
      ensures InUse(d', x)
    {
      QueuedInUse(d, d', realm, x);
    }
  }

  lemma QueueOrder(s: Sys, d': Data)
    requires OrderOk(s.ino.d, s.realm) && PastOk(s.realm, s.past, s.oldest) && UsedPast(s.ino.d, s.past)
    requires HeadIsOld(s) && Queued(s.ino.d, d', s.realm)
    ensures OrderOk(d', s.realm) && UsedPast(d', s.past)
  {
    var d := s.ino.d;
    assert d'.capSnaps == d.capSnaps + [d'.capSnaps[|d.capSnaps|]];
    assert InUse(d, d.head.value);
    forall c | InUse(d', c)
      ensures c in s.past
    {
      QueuedInUse(d, d', s.realm, c);
    }
  }

  lemma QueueStep(s: Sys)
    requires Inv(s) && (WillQueueSnap(s.ino) ==> HeadIsOld(s))
    ensures Inv(s.(ino := QueueCapSnap(s.ino, s.realm)))
  {
    if WillQueueSnap(s.ino) {
      var d' := QueueCapSnap(s.ino, s.realm).d;
      QueuedCounts(s.ino.d, d', s.pages, s.owed, s.realm);
      QueueOrder(s, d');
      assert NoneNewer(s.oldest, s.realm);
    }
  }

  /** Queued at any other time, the new cap_snap has the realm's context, which the head then has too. */
  lemma QueueBreaks(s: Sys)
    requires Inv(s) && WillQueueSnap(s.ino) && !HeadIsOld(s)
    ensures !Inv(s.(ino := QueueCapSnap(s.ino, s.realm)))
  {
    var d' := QueueCapSnap(s.ino, s.realm).d;
    assert d'.capSnaps[|s.ino.d.capSnaps|].context == s.realm;
    assert !OrderOk(d', s.realm);
  }

  lemma NewContextStep(s: Sys, c: Ctx)
    requires Inv(s) && c.seqno > s.realm.seqno
    ensures Inv(s.(realm := c, past := s.past + {c}))
  {
  }

  /** A counter that is not zero is no older than the oldest one. */
  lemma CounterAfterOldest(d: Data, realm: Ctx, c: Ctx)
    requires OrderOk(d, realm) && InUse(d, c)
    requires d.head == Some(c) ==> d.headRef != 0
    requires forall k :: 0 <= k < |d.capSnaps| && d.capSnaps[k].context == c ==> d.capSnaps[k].dirtyPages != 0
    ensures var k := FirstDirtySnap(d.capSnaps);
      if k < |d.capSnaps| then d.capSnaps[k].context.seqno <= c.seqno else d.head == Some(c) && d.headRef != 0
  {
    if d.head != Some(c) {
      var j :| 0 <= j < |d.capSnaps| && d.capSnaps[j].context == c;
      assert j >= FirstDirtySnap(d.capSnaps);
    }
  }

  /** The oldest context is no newer than any context pages are counted under, and there is one. */
  lemma OldestBelow(s: Sys, c: Ctx)
    requires Inv(s) && Total(s.pages, s.owed, c) > 0
    ensures OldestContext(s.ino).Some? && OldestContext(s.ino).value.seqno <= c.seqno
    ensures InUse(s.ino.d, OldestContext(s.ino).value)
  {
    CountedInUse(s.ino.d, s.pages, s.owed, c);
    CounterAfterOldest(s.ino.d, s.realm, c);
  }

  /** The oldest context is no newer than any outstanding page, and there is one if there is such a page. */
  lemma OldestIsOldest(s: Sys, p: nat)
    requires Inv(s) && p in s.pages
    ensures OldestContext(s.ino).Some? && OldestContext(s.ino).value.seqno <= s.pages[p].ctx.seqno
    ensures InUse(s.ino.d, OldestContext(s.ino).value)
  {
    CountPositive(s.pages, p);
    OldestBelow(s, s.pages[p].ctx);
  }

  lemma ReadWriters(s: Sys, w: nat, c: Ctx)
    requires WritersOk(s.oldest, s.pages, s.owed)
    requires forall p :: p in s.pages ==> c.seqno <= s.pages[p].ctx.seqno
    requires forall x :: x in s.owed ==> c.seqno <= x.seqno
    ensures WritersOk(s.oldest[w := c], s.pages, s.owed)
  {
  }

  lemma ReadHead(s: Sys, w: nat, c: Ctx)
    requires OrderOk(s.ino.d, s.realm) && InUse(s.ino.d, c) && HeadNewest(s.ino.d.head, s.oldest)
    ensures HeadNewest(s.ino.d.head, s.oldest[w := c])
  {
  }

  lemma ReadStep(s: Sys, w: nat)
    requires Inv(s) && OldestContext(s.ino).Some?
    ensures Inv(s.(oldest := s.oldest[w := OldestContext(s.ino).value]))
  {
    var c := OldestContext(s.ino).value;
    forall p | p in s.pages
      ensures c.seqno <= s.pages[p].ctx.seqno
    {
      OldestIsOldest(s, p);
    }
    forall x | x in s.owed
      ensures c.seqno <= x.seqno
    {
      OldestBelow(s, x);
    }
    ReadWriters(s, w, c);
    assert InUse(s.ino.d, c);
    ReadHead(s, w, c);
  }

  lemma ForgetStep(s: Sys, w: nat)
    requires Inv(s)
    ensures Inv(s.(oldest := s.oldest - {w}))
  {
  }

  /** A page that a thread may submit has exactly the context the thread holds as oldest,
      and no outstanding page, dirty or in flight, has an older one. */
  lemma SubmitInOrder(s: Sys, w: nat, p: nat, q: nat)
    requires Inv(s) && MaySubmit(s, w, p) && q in s.pages
    ensures s.pages[p].ctx == s.oldest[w] && s.pages[p].ctx.seqno <= s.pages[q].ctx.seqno
  {
    assert InUse(s.ino.d, s.pages[p].ctx);
  }

  lemma SubmitCounts(d: Data, pages: map<nat, Page>, owed: multiset<Ctx>, p: nat, st: Status)
    requires CountsOk(d, pages, owed) && p in pages
    ensures CountsOk(d, pages[p := pages[p].(status := st)], owed)
  {
    var pages' := pages[p := pages[p].(status := st)];
    forall x
      ensures Total(pages', owed, x) == Total(pages, owed, x)
    {
      CountRestatus(pages, p, st, x);
    }
    SameTotals(d, pages, owed, pages', owed);
  }

  lemma SubmitWriters(s: Sys, p: nat, c: Ctx)
    requires WritersOk(s.oldest, s.pages, s.owed) && p in s.pages && s.pages[p].ctx == c
    ensures WritersOk(s.oldest, s.pages[p := s.pages[p].(status := InFlight(c))], s.owed)
  {
    var pages' := s.pages[p := s.pages[p].(status := InFlight(c))];
    assert forall q :: q in pages' ==> q in s.pages && pages'[q].ctx == s.pages[q].ctx;
  }

  lemma SubmitStep(s: Sys, w: nat, p: nat)
    requires Inv(s) && MaySubmit(s, w, p)
    ensures Inv(s.(pages := s.pages[p := s.pages[p].(status := InFlight(s.oldest[w]))]))
  {
    SubmitInOrder(s, w, p, p);
    SubmitCounts(s.ino.d, s.pages, s.owed, p, InFlight(s.oldest[w]));
    SubmitWriters(s, p, s.oldest[w]);
  }

  // ----- the other operations ----------------------------------------------

  predicate TouchesData(op: Op)
  {
    op.OpMarkDirty? || op.OpFlushAck? || op.OpPutRefs? || op.OpFlushSnap? || op.OpFlushSnapAck?
  }

  lemma DataUntouched(i: Inode, op: Op)
    requires InodeOps.Enabled(i, op) && IsOther(op) && !TouchesData(op)
    ensures InodeOps.Apply(i, op).d == i.d && InodeOps.Apply(i, op).missed == i.missed
  {
    match op
    case OpCheckCap(_, _) =>
    case OpFlushCaps(_, _) =>
    case OpTryGetRefs(_, _, _) =>
    case OpGetRefs(_) =>
    case OpAddCap(_, _, _, _, _, _, _) =>
    case OpGrant(_, _, _) =>
    case OpStale(_) =>
    case OpEncodeRelease(_, _, _, _) =>
    case OpTrimCap(_) =>
    case OpFileModes(_) =>
    case OpCachedPages(_) =>
  }

  /** Only flags of cap_snaps change, or an unused head context goes. */
  ghost predicate SameCounts(d: Data, d': Data)
  {
    && d'.headRef == d.headRef && d'.wrbufferRef == d.wrbufferRef
    && (d'.head == d.head || (d'.head.None? && d.headRef == 0))
    && |d'.capSnaps| == |d.capSnaps|
    && forall k :: 0 <= k < |d.capSnaps| ==>
        d'.capSnaps[k].context == d.capSnaps[k].context && d'.capSnaps[k].dirtyPages == d.capSnaps[k].dirtyPages
  }

  lemma {:induction false} SameSum(a: seq<CapSnap>, b: seq<CapSnap>)
    requires |a| == |b| && forall k :: 0 <= k < |a| ==> a[k].dirtyPages == b[k].dirtyPages
    ensures SumDirty(a) == SumDirty(b)
  {
    if a != [] {
      SameSum(a[1..], b[1..]);
    }
  }

  lemma AllInUse(d: Data, pages: map<nat, Page>, owed: multiset<Ctx>)
    requires forall c :: Total(pages, owed, c) > 0 ==> InUse(d, c)
    ensures forall p :: p in pages ==> InUse(d, pages[p].ctx)
    ensures forall c :: c in owed ==> InUse(d, c)
  {
    forall p | p in pages
      ensures InUse(d, pages[p].ctx)
    {
      CountPositive(pages, p);
    }
    forall c | c in owed
      ensures InUse(d, c)
    {
      assert Total(pages, owed, c) > 0;
    }
  }

  lemma SameCountsKeeps(s: Sys, i': Inode)
    requires Inv(s) && SameCounts(s.ino.d, i'.d) && SnapsOk(i'.d.capSnaps) && !i'.missed
    ensures Inv(s.(ino := i'))
  {
    SameKeeps(s, i'.d);
    SameSum(s.ino.d.capSnaps, i'.d.capSnaps);
    forall c | Total(s.pages, s.owed, c) > 0
      ensures InUse(i'.d, c)
    {
      CountedInUse(s.ino.d, s.pages, s.owed, c);
      if s.ino.d.head != Some(c) {
        var k :| 0 <= k < |s.ino.d.capSnaps| && s.ino.d.capSnaps[k].context == c;
        assert i'.d.capSnaps[k].context == c;
      }
    }
    AllInUse(i'.d, s.pages, s.owed);
  }

  function Without(d: Data, k: nat): (d': Data)
    requires k < |d.capSnaps|
    ensures |d'.capSnaps| == |d.capSnaps| - 1
    ensures forall j :: 0 <= j < |d'.capSnaps| ==> d'.capSnaps[j] == d.capSnaps[if j < k then j else j + 1]
  {
    d.(capSnaps := d.capSnaps[..k] + d.capSnaps[k+1..])
  }

  lemma WithoutUsed(d: Data, k: nat, past: set<Ctx>)
    requires UsedPast(d, past) && k < |d.capSnaps|
    ensures UsedPast(Without(d, k), past)
  {
    var d' := Without(d, k);
    forall c | InUse(d', c)
      ensures c in past
    {
      if d.head != Some(c) {
        var j :| 0 <= j < |d'.capSnaps| && d'.capSnaps[j].context == c;
        assert d.capSnaps[if j < k then j else j + 1].context == c;
      }
      assert InUse(d, c);
    }
  }

  lemma WithoutOrder(d: Data, realm: Ctx, k: nat)
    requires OrderOk(d, realm) && k < |d.capSnaps|
    ensures OrderOk(Without(d, k), realm)
  {
  }

  lemma WithoutCounts(s: Sys, k: nat)
    requires CountsOk(s.ino.d, s.pages, s.owed) && SnapsOk(s.ino.d.capSnaps) && k < |s.ino.d.capSnaps|
    requires s.ino.d.capSnaps[k].flushed
    ensures CountsOk(Without(s.ino.d, k), s.pages, s.owed)
  {
    SumRemove(s.ino.d.capSnaps, k);
    forall c | Total(s.pages, s.owed, c) > 0
      ensures InUse(Without(s.ino.d, k), c)
    {
      AckKeepsCounted(s, k, c);
    }
    AllInUse(Without(s.ino.d, k), s.pages, s.owed);
  }

  /** Acknowledged cap_snaps leave; they had no pages. */
  lemma AckSnapStep(s: Sys, k: nat, i': Inode)
    requires Inv(s) && k < |s.ino.d.capSnaps| && s.ino.d.capSnaps[k].flushed
    requires i'.d == Without(s.ino.d, k) && i'.missed == s.ino.missed
    ensures Inv(s.(ino := i'))
  {
    WithoutOrder(s.ino.d, s.realm, k);
    WithoutUsed(s.ino.d, k, s.past);
    WithoutCounts(s, k);
  }

  lemma AckKeepsCounted(s: Sys, k: nat, c: Ctx)
    requires CountsOk(s.ino.d, s.pages, s.owed) && SnapsOk(s.ino.d.capSnaps) && Total(s.pages, s.owed, c) > 0
    requires k < |s.ino.d.capSnaps| && s.ino.d.capSnaps[k].flushed
    ensures InUse(Without(s.ino.d, k), c)
  {
    var d := s.ino.d;
    CountedInUse(d, s.pages, s.owed, c);
    if d.head != Some(c) {
      var j :| 0 <= j < |d.capSnaps| && d.capSnaps[j].context == c;
      assert j != k;
      assert Without(d, k).capSnaps[if j < k then j else j - 1].context == c;
    }
  }

  lemma MarkDirtyStep(s: Sys, i': Inode)
    requires Inv(s) && i'.d == SetHead(s.ino.d, s.realm) && i'.missed == s.ino.missed
    ensures Inv(s.(ino := i'))
  {
    SetHeadKeeps(s);
    if s.ino.d.head.None? {
      RealmUncounted(s);
    }
  }

  /** Marking dirty a second time, flush acks, reference puts and snap flushes change no count. */
  lemma FlagOps(i: Inode, op: Op)
    requires InodeOps.Enabled(i, op) && SnapsOk(i.d.capSnaps)
    requires op.OpFlushAck? || op.OpPutRefs? || op.OpFlushSnap? || (op.OpMarkDirty? && i.m.dirty != {})
    ensures SameCounts(i.d, InodeOps.Apply(i, op).d) && SnapsOk(InodeOps.Apply(i, op).d.capSnaps)
    ensures InodeOps.Apply(i, op).missed == i.missed
  {
    match op
    case OpMarkDirty(_, _) =>
    case OpFlushAck(_, _) =>
    case OpPutRefs(_) =>
    case OpFlushSnap(_) =>
  }

  lemma SnapAckStep(s: Sys, follows: nat, tid: nat)
    requires Inv(s) && HonestAck(s.ino, follows, tid)
    ensures Inv(s.(ino := FlushSnapAck(s.ino, follows, tid)))
  {
    var k := FindFollows(s.ino.d.capSnaps, follows);
    if k < |s.ino.d.capSnaps| && s.ino.d.capSnaps[k].flushTid == tid {
      AckSnapStep(s, k, FlushSnapAck(s.ino, follows, tid));
    }
  }

  lemma OtherStep(s: Sys, op: Op)
    requires Inv(s) && Enabled(s, Other(op))
    ensures Inv(s.(ino := InodeOps.Apply(s.ino, op)))
  {
    if op.OpMarkDirty? && s.ino.m.dirty == {} {
      MarkDirtyStep(s, InodeOps.Apply(s.ino, op));
    } else if op.OpFlushSnapAck? {
      SnapAckStep(s, op.follows, op.tid);
    } else {
      if TouchesData(op) { FlagOps(s.ino, op); } else { DataUntouched(s.ino, op); }
      SameCountsKeeps(s, InodeOps.Apply(s.ino, op));
    }
  }

  lemma NewPages(s: Sys, pages': map<nat, Page>, owed': multiset<Ctx>)
    requires Inv(s) && CountsOk(s.ino.d, pages', owed') && WritersOk(s.oldest, pages', owed')
    ensures Inv(s.(pages := pages', owed := owed'))
  {
  }

  /** A set of pages with one context is no longer tagged. */
  ghost predicate Gone(s: Sys, ps: set<nat>, c: Ctx, pages': map<nat, Page>, owed': multiset<Ctx>)
  {
    && ps != {} && (forall p :: p in ps ==> p in s.pages && s.pages[p].ctx == c)
    && pages' == s.pages - ps && owed' == s.owed[c := s.owed[c] + |ps|]
  }

  lemma GoneKeeps(s: Sys, ps: set<nat>, c: Ctx, pages': map<nat, Page>, owed': multiset<Ctx>)
    requires Inv(s) && Gone(s, ps, c, pages', owed')
    ensures Inv(s.(pages := pages', owed := owed'))
  {
    UntagKeeps(s, ps, c, pages', owed');
    NewPages(s, pages', owed');
  }

  lemma UntagIs(s: Sys, ps: set<nat>, c: Ctx) returns (pages': map<nat, Page>, owed': multiset<Ctx>)
    requires WritersOk(s.oldest, s.pages, s.owed) && Enabled(s, Untag(ps, c))
    ensures Gone(s, ps, c, pages', owed') && Apply(s, Untag(ps, c)) == s.(pages := pages', owed := owed')
  {
    InFlightOwn(s, ps, c);
    pages', owed' := s.pages - ps, s.owed[c := s.owed[c] + |ps|];
  }

  lemma UntagStep(s: Sys, ps: set<nat>, c: Ctx)
    requires Inv(s) && Enabled(s, Untag(ps, c))
    ensures Inv(Apply(s, Untag(ps, c)))
  {
    var pages', owed' := UntagIs(s, ps, c);
    GoneKeeps(s, ps, c, pages', owed');
  }

  lemma InFlightOwn(s: Sys, ps: set<nat>, c: Ctx)
    requires WritersOk(s.oldest, s.pages, s.owed) && Enabled(s, Untag(ps, c))
    ensures forall p :: p in ps ==> p in s.pages && s.pages[p].ctx == c
  {
  }

  lemma InvalidateIs(s: Sys, p: nat) returns (pages': map<nat, Page>, owed': multiset<Ctx>)
    requires Enabled(s, Invalidate(p))
    ensures Gone(s, {p}, s.pages[p].ctx, pages', owed')
    ensures Apply(s, Invalidate(p)) == s.(pages := pages', owed := owed')
  {
    var c := s.pages[p].ctx;
    assert |{p}| == 1;
    pages', owed' := s.pages - {p}, s.owed[c := s.owed[c] + 1];
  }

  lemma InvalidateStep(s: Sys, p: nat)
    requires Inv(s) && Enabled(s, Invalidate(p))
    ensures Inv(Apply(s, Invalidate(p)))
  {
    var pages', owed' := InvalidateIs(s, p);
    GoneKeeps(s, {p}, s.pages[p].ctx, pages', owed');
  }

  lemma ThreadStep(s: Sys, ev: Event)
    requires Inv(s) && Enabled(s, ev) && (ev.ReadOldest? || ev.Submit?)
    ensures Inv(Apply(s, ev))
  {
    match ev
    case ReadOldest(w) => if OldestContext(s.ino).Some? { ReadStep(s, w); } else { ForgetStep(s, w); }
    case Submit(w, p) => SubmitStep(s, w, p);
  }

  lemma PageStep(s: Sys, ev: Event)
    requires Inv(s) && Enabled(s, ev) && (ev.ReadContext? || ev.TagPage? || ev.Put?)
    ensures Inv(Apply(s, ev))
  {
    match ev
    case ReadContext(t) =>
    case TagPage(p, c) => TagStep(s, p, c);
    case Put(nr, c) => PutStep(s, nr, c);
  }

  lemma RealmStep(s: Sys, ev: Event)
    requires Inv(s) && Enabled(s, ev) && (ev.NewContext? || ev.Other?)
    ensures Inv(Apply(s, ev))
  {
    match ev
    case NewContext(c) => NewContextStep(s, c);
    case Other(op) => OtherStep(s, op);
  }

  /** Every step keeps the invariant exactly if it is orderly: all steps do but counting a page whose
      context was read too early, and queueing a cap_snap at the wrong time. */
  lemma StepExact(s: Sys, ev: Event)
    requires Inv(s) && Enabled(s, ev)
    ensures Inv(Apply(s, ev)) <==> Orderly(s, ev)
  {
    if ev.CountPage? {
      if Orderly(s, ev) { CountStep(s, ev.t); } else { CountBreaks(s, ev.t); }
    } else if ev.QueueSnap? {
      if Orderly(s, ev) { QueueStep(s); } else { QueueBreaks(s); }
    } else if ev.Untag? {
      UntagStep(s, ev.ps, ev.c);
    } else if ev.Invalidate? {
      InvalidateStep(s, ev.p);
    } else if ev.ReadOldest? || ev.Submit? {
      ThreadStep(s, ev);
    } else if ev.ReadContext? || ev.TagPage? || ev.Put? {
      PageStep(s, ev);
    } else {
      RealmStep(s, ev);
    }
  }

  // ----- every run ---------------------------------------------------------

  function Start(realm: Ctx): (s: Sys)
  {
    Sys(Fresh(), realm, map[], map[], {realm}, multiset{}, map[])
  }

  predicate Legal(s: Sys, evs: seq<Event>)
    decreases |evs|
  {
    evs == [] || (Enabled(s, evs[0]) && Legal(Apply(s, evs[0]), evs[1..]))
  }

  function Exec(s: Sys, evs: seq<Event>): (s': Sys)
    requires Legal(s, evs)
    decreases |evs|
  {
    if evs == [] then s else Exec(Apply(s, evs[0]), evs[1..])
  }

  ghost predicate AllOrderly(s: Sys, evs: seq<Event>)
    requires Legal(s, evs)
    decreases |evs|
  {
    evs == [] || (Orderly(s, evs[0]) && AllOrderly(Apply(s, evs[0]), evs[1..]))
  }

  /** In every run of orderly steps the counters are exact, the lookup in put has not missed, and
      cap_snaps are in order. */
  lemma {:induction false} RunInv(s: Sys, evs: seq<Event>)
    requires Inv(s) && Legal(s, evs) && AllOrderly(s, evs)
    ensures Inv(Exec(s, evs))
    decreases |evs|
  {
    if evs != [] {
      StepExact(s, evs[0]);
      RunInv(Apply(s, evs[0]), evs[1..]);
    }
  }

  /** In every such run, whenever a thread may submit page p, no page q still dirty or in flight has an
      older context, even though the thread read its oldest context at some earlier point; the
      request's context is the page's own; and any tagged page has an oldest context to compare with. */
  lemma SnapOrder(realm: Ctx, evs: seq<Event>, w: nat, p: nat, q: nat)
    requires Legal(Start(realm), evs) && AllOrderly(Start(realm), evs)
    requires q in Exec(Start(realm), evs).pages
    ensures OldestContext(Exec(Start(realm), evs).ino).Some?
    ensures MaySubmit(Exec(Start(realm), evs), w, p) ==>
      var s := Exec(Start(realm), evs); s.pages[p].ctx == s.oldest[w] && s.pages[p].ctx.seqno <= s.pages[q].ctx.seqno
  {
    StartInv(realm);
    RunInv(Start(realm), evs);
    OldestIsOldest(Exec(Start(realm), evs), q);
    if MaySubmit(Exec(Start(realm), evs), w, p) {
      SubmitInOrder(Exec(Start(realm), evs), w, p, q);
    }
  }

  lemma StartInv(realm: Ctx)
    ensures Inv(Start(realm))
  {
    assert forall c :: !InUse(Start(realm).ino.d, c);
  }

  // ----- exactly when the counts survive -----------------------------------

  /** The head's counter takes the page, and c is in use afterwards. */
  lemma DirtyHolds(s: Sys, c: Ctx)
    requires CountsOk(s.ino.d, s.pages, s.owed) && Distinct(s.ino.d)
    requires s.ino.d.head == Some(c) || (s.ino.d.head.None? && !InUse(s.ino.d, c))
    ensures CountsOk(PageDirtied(s.ino, c).d, s.pages, s.owed + multiset{c}) && Distinct(PageDirtied(s.ino, c).d)
  {
    var d, d', owed' := s.ino.d, PageDirtied(s.ino, c).d, s.owed + multiset{c};
    assert forall x :: Total(s.pages, owed', x) == Total(s.pages, s.owed, x) + if x == c then 1 else 0;
    if d.head.None? { Uncounted(d, s.pages, s.owed, c); }
    forall x | InUse(d, x)
      ensures InUse(d', x)
    {
    }
    assert InUse(d', c);
    assert forall x :: x in owed' ==> x in s.owed || x == c;
  }

  /** Counting a page whose context c was read earlier keeps the counts exact and the contexts distinct
      if and only if the head context is c, or there is no head and c is not that of a cap_snap. */
  lemma DirtyExact(s: Sys, c: Ctx)
    requires CountsOk(s.ino.d, s.pages, s.owed) && Distinct(s.ino.d)
    ensures var d' := PageDirtied(s.ino, c).d;
      CountsOk(d', s.pages, s.owed + multiset{c}) && Distinct(d')
      <==> s.ino.d.head == Some(c) || (s.ino.d.head.None? && !InUse(s.ino.d, c))
  {
    var d, owed' := s.ino.d, s.owed + multiset{c};
    if d.head == Some(c) || (d.head.None? && !InUse(d, c)) {
      DirtyHolds(s, c);
    } else if d.head.Some? {
      assert Total(s.pages, owed', d.head.value) == d.headRef;
    } else {
      var k :| 0 <= k < |d.capSnaps| && d.capSnaps[k].context == c;
      assert PageDirtied(s.ino, c).d.capSnaps[k].context == c;
    }
  }

  lemma Uncounted(d: Data, pages: map<nat, Page>, owed: multiset<Ctx>, c: Ctx)
    requires CountsOk(d, pages, owed) && !InUse(d, c)
    ensures Total(pages, owed, c) == 0
  {
    if Total(pages, owed, c) > 0 {
      CountedInUse(d, pages, owed, c);
    }
  }

  lemma QueuedDistinct(d: Data, d': Data, realm: Ctx)
    requires Distinct(d) && Queued(d, d', realm) && !InUse(d, realm)
    ensures Distinct(d')
  {
    assert d'.capSnaps == d.capSnaps + [d'.capSnaps[|d.capSnaps|]];
  }

  /** Queueing a cap_snap keeps the counts exact and the contexts distinct if and only if there is a
      head context to hand over and the realm's context is not in use yet. */
  lemma QueueExact(s: Sys)
    requires CountsOk(s.ino.d, s.pages, s.owed) && Distinct(s.ino.d) && WillQueueSnap(s.ino)
    ensures var d' := QueueCapSnap(s.ino, s.realm).d;
      CountsOk(d', s.pages, s.owed) && Distinct(d') <==> s.ino.d.head.Some? && !InUse(s.ino.d, s.realm)
  {
    var d, d' := s.ino.d, QueueCapSnap(s.ino, s.realm).d;
    var n := |d.capSnaps|;
    if d.head.Some? && !InUse(d, s.realm) {
      QueuedCounts(d, d', s.pages, s.owed, s.realm);
      QueuedDistinct(d, d', s.realm);
    } else if d.head.Some? && d.head != Some(s.realm) {
      var k :| 0 <= k < n && d.capSnaps[k].context == s.realm;
      assert d'.capSnaps[k].context == s.realm;
    } else {
      assert d'.capSnaps[n].context == s.realm;
    }
  }
}
