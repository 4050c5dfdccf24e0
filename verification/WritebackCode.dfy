/** Writeback passes and their completion, changing page tags and inode counters in place.
    The object remembers, as a ghost, the run of SnapWriteback events that led to its state. */
module WritebackCode {
  import opened Common
  import opened InodeState
  import opened SnapWriteback

  lemma {:induction false} ExecSnoc(s: Sys, evs: seq<Event>, ev: Event)
    requires Legal(s, evs) && AllOrderly(s, evs) && Enabled(Exec(s, evs), ev) && Orderly(Exec(s, evs), ev)
    ensures Legal(s, evs + [ev]) && AllOrderly(s, evs + [ev]) && Exec(s, evs + [ev]) == Apply(Exec(s, evs), ev)
    decreases |evs|
  {
    if evs == [] {
      assert (evs + [ev])[1..] == [];
    } else {
      assert (evs + [ev])[1..] == evs[1..] + [ev];
      ExecSnoc(Apply(s, evs[0]), evs[1..], ev);
    }
  }

  /** What others do to the inode and its pages: not the thread at work itself. */
  predicate ByOthers(w: nat, ev: Event)
  {
    !(ev.ReadOldest? && ev.w == w) && !(ev.Submit? && ev.w == w) && !(ev.ReadContext? && ev.t == w)
    && !(ev.CountPage? && ev.t == w)
  }

  lemma OthersLeave(s: Sys, w: nat, ev: Event)
    requires Enabled(s, ev) && ByOthers(w, ev)
    ensures w in s.oldest ==> w in Apply(s, ev).oldest && Apply(s, ev).oldest[w] == s.oldest[w]
    ensures w in s.held ==> w in Apply(s, ev).held && Apply(s, ev).held[w] == s.held[w]
  {
  }

  /** At this point of the run the page is looked at: if it may be submitted, it is, there and then. */
  ghost predicate Considered(realm: Ctx, evs: seq<Event>, w: nat, p: nat, mark: nat)
  {
    && mark <= |evs| && Legal(Start(realm), evs[..mark])
    && (MaySubmit(Exec(Start(realm), evs[..mark]), w, p) ==> mark < |evs| && evs[mark] == Submit(w, p))
  }

  /** The pages are looked at one by one, in order, from this point of the run on. */
  ghost predicate AllConsidered(realm: Ctx, evs: seq<Event>, w: nat, order: seq<nat>, marks: seq<nat>, start: nat)
    requires |marks| <= |order|
  {
    && (forall k :: 0 <= k < |marks| ==> start <= marks[k] && Considered(realm, evs, w, order[k], marks[k]))
    && (forall j, k :: 0 <= j < k < |marks| ==> marks[j] <= marks[k])
  }

  lemma MoreConsidered(realm: Ctx, evs: seq<Event>, evs': seq<Event>, w: nat, order: seq<nat>, marks: seq<nat>,
      start: nat, mark: nat)
    requires |marks| < |order| && AllConsidered(realm, evs, w, order, marks, start) && evs <= evs'
    requires start <= |evs| <= mark && Considered(realm, evs', w, order[|marks|], mark)
    ensures AllConsidered(realm, evs', w, order, marks + [mark], start)
  {
    forall k | 0 <= k < |marks| ensures Considered(realm, evs', w, order[k], marks[k]) {
      assert Considered(realm, evs, w, order[k], marks[k]);
      assert evs'[..marks[k]] == evs[..marks[k]];
    }
  }

  /** An inode and its tagged pages. oldest is each thread's last get_oldest_context. */
  class Mapping {
    var ino: Inode
    var realm: Ctx
    var pages: map<nat, Page>
    var oldest: map<nat, Ctx>
    var past: set<Ctx>
    var owed: multiset<Ctx>
    var held: map<nat, Ctx>
    ghost var realm0: Ctx
    ghost var evs: seq<Event>

    function Model(): (s: Sys)
      reads this
    {
      Sys(ino, realm, pages, oldest, past, owed, held)
    }

    /** The state is that of a run of orderly steps. */
    ghost predicate Valid()
      reads this
    {
      Legal(Start(realm0), evs) && AllOrderly(Start(realm0), evs) && Exec(Start(realm0), evs) == Model()
    }

    constructor (r: Ctx)
      ensures Valid() && Model() == Start(r)
    {
      ino, realm, pages, oldest, past, owed, held := InodeOps.Fresh(), r, map[], map[], {r}, multiset{}, map[];
      realm0, evs := r, [];
    }

    method Load(s: Sys)
      modifies this
      ensures Model() == s && realm0 == old(realm0) && evs == old(evs)
    {
      ino, realm, pages, oldest, past, owed, held := s.ino, s.realm, s.pages, s.oldest, s.past, s.owed, s.held;
    }

    /** One orderly event, whoever causes it. */
    method Take(ev: Event)
      requires Valid() && Enabled(Model(), ev) && Orderly(Model(), ev)
      modifies this
      ensures Valid() && Model() == Apply(old(Model()), ev) && realm0 == old(realm0) && evs == old(evs) + [ev]
    {
      ExecSnoc(Start(realm0), evs, ev);
      Load(Apply(Model(), ev));
      evs := evs + [ev];
    }

    /** Others run; what is not possible or not orderly at that point does not happen. */
    method Others(w: nat, acts: seq<Event>)
      requires Valid() && w in oldest
      modifies this
      ensures Valid() && w in oldest && oldest[w] == old(oldest[w]) && realm0 == old(realm0) && old(evs) <= evs
    {
      for k := 0 to |acts|
        invariant Valid() && w in oldest && oldest[w] == old(oldest[w]) && realm0 == old(realm0) && old(evs) <= evs
      {
        if ByOthers(w, acts[k]) && Enabled(Model(), acts[k]) && Orderly(Model(), acts[k]) {
          OthersLeave(Model(), w, acts[k]);
          Take(acts[k]);
        }
      }
    }

    /** One page of a writeback pass: sent if its context is not newer than the one read. Then it
        has that very context, and no outstanding page has an older one. */
    method ConsiderPage(w: nat, p: nat) returns (sent: bool)
      requires Valid() && w in oldest
      modifies this
      ensures Valid() && oldest == old(oldest)
      ensures sent <==> old(MaySubmit(Model(), w, p))
      ensures sent ==> old(pages)[p].ctx == oldest[w] && pages == old(pages)[p := Page(oldest[w], InFlight(oldest[w]))]
      ensures sent ==> forall q :: q in pages ==> oldest[w].seqno <= pages[q].ctx.seqno
      ensures !sent ==> Model() == old(Model())
      ensures realm0 == old(realm0) && evs == if sent then old(evs) + [Submit(w, p)] else old(evs)
    {
      sent := p in pages && pages[p].status == Dirty && pages[p].ctx.seqno <= oldest[w].seqno;
      if sent {
        forall q | q in pages ensures pages[p].ctx == oldest[w] && oldest[w].seqno <= pages[q].ctx.seqno {
          SnapOrder(realm0, evs, w, p, q);
        }
        Take(Submit(w, p));
      }
    }

    /** One page, others first; mark is the point of the run at which the page is looked at. */
    method PageTurn(w: nat, p: nat, gap: seq<Event>) returns (ctx: Option<Ctx>, ghost mark: nat)
      requires Valid() && w in oldest
      modifies this
      ensures Valid() && w in oldest && oldest[w] == old(oldest[w]) && realm0 == old(realm0) && old(evs) <= evs
      ensures ctx.Some? ==> ctx.value == oldest[w]
      ensures old(|evs|) <= mark && Considered(realm0, evs, w, p, mark)
      ensures ctx.Some? <==> mark < |evs|
    {
      ctx := None;
      Others(w, gap);
      mark := |evs|;
      ghost var before := evs;
      var ok := ConsiderPage(w, p);
      assert evs[..mark] == before;
      if ok {
        ctx := Some(pages[p].ctx);
      }
    }

    /** One pass of ceph_writepages_start over the pages in index order. The oldest context is
        read once; whatever others do between the pages, only pages of that very context are sent,
        and every page is sent that may be when its turn comes. */
    method WritepagesPass(w: nat, order: seq<nat>, gaps: seq<seq<Event>>)
        returns (snapc: Option<Ctx>, sent: seq<Ctx>, ghost marks: seq<nat>)
      requires Valid() && |gaps| == |order|
      modifies this
      ensures Valid() && snapc == OldestContext(old(ino)) && realm0 == old(realm0)
      ensures snapc.None? ==> sent == []
      ensures forall k :: 0 <= k < |sent| ==> snapc == Some(sent[k])
      ensures snapc.Some? ==> |marks| == |order| && AllConsidered(realm0, evs, w, order, marks, |old(evs)| + 1)
    {
      sent, marks := [], [];
      snapc := OldestContext(ino);
      ghost var start := |evs| + 1;
      Take(ReadOldest(w));
      if snapc.None? {
        return;
      }
      for k := 0 to |order|
        invariant Valid() && w in oldest && oldest[w] == snapc.value && realm0 == old(realm0) && start <= |evs|
        invariant forall j :: 0 <= j < |sent| ==> snapc == Some(sent[j])
        invariant |marks| == k && AllConsidered(realm0, evs, w, order, marks, start)
      {
        ghost var mark, before := 0, evs;
        var ctx;
        ctx, mark := PageTurn(w, order[k], gaps[k]);
        MoreConsidered(realm0, before, evs, w, order, marks, start, mark);
        marks := marks + [mark];
        if ctx.Some? {
          sent := sent + [ctx.value];
        }
      }
    }

    /** writepage_nounlock up to the test of the page's context: the oldest context it compares
        with exists whenever the page is tagged. */
    method Writepage(w: nat, p: nat) returns (sent: bool)
      requires Valid() && p in pages
      modifies this
      ensures Valid() && OldestContext(old(ino)).Some?
      ensures sent <==> old(pages)[p].status == Dirty && old(pages)[p].ctx.seqno <= OldestContext(old(ino)).value.seqno
      ensures sent ==> forall q :: q in old(pages) ==> old(pages)[p].ctx.seqno <= old(pages)[q].ctx.seqno
    {
      SnapOrder(realm0, evs, w, p, p);
      Take(ReadOldest(w));
      sent := ConsiderPage(w, p);
      assert forall q :: q in old(pages) ==> q in pages && pages[q].ctx == old(pages)[q].ctx;
    }

    /** Others run while nr puts under c are still to come from this thread. */
    method OthersOwing(acts: seq<Event>, nr: nat, c: Ctx)
      requires Valid() && owed[c] >= nr
      modifies this
      ensures Valid() && owed[c] >= nr
    {
      for k := 0 to |acts|
        invariant Valid() && owed[c] >= nr
      {
        if Enabled(Model(), acts[k]) && Orderly(Model(), acts[k]) && Apply(Model(), acts[k]).owed[c] >= nr {
          Take(acts[k]);
        }
      }
    }

    /** The page loop of writepages_finish. */
    method ClearTags(ps: seq<nat>)
      modifies this
      ensures Model() == old(Model()).(pages := old(pages) - SetOf(ps)) && realm0 == old(realm0) && evs == old(evs)
    {
      var left := ps;
      while left != []
        invariant Model() == old(Model()).(pages := pages) && realm0 == old(realm0) && evs == old(evs)
        invariant pages - SetOf(left) == old(pages) - SetOf(ps)
        decreases |left|
      {
        pages := pages - {left[0]};
        left := left[1..];
      }
      assert pages - {} == pages;
    }

    /** writepages_finish up to the put: every page of the request loses its tag. */
    method UntagAll(ps: seq<nat>, c: Ctx)
      requires Valid() && ps != [] && NoRepeat(ps)
      requires forall p :: p in SetOf(ps) ==> p in pages && pages[p].status == InFlight(c)
      modifies this
      ensures Valid() && pages == old(pages) - SetOf(ps) && ino == old(ino) && owed[c] >= |ps|
    {
      ghost var ev := Untag(SetOf(ps), c);
      UntagSeq(Model(), ps, c);
      ExecSnoc(Start(realm0), evs, ev);
      ClearTags(ps);
      owed := owed[c := owed[c] + |ps|];
      evs := evs + [ev];
    }

    /** writepages_finish: the tags go, others run, and only then the counters follow; whatever the
        others did, even dirtying the pages again, the cap_snap or head that counts them is found. */
    method WritepagesFinish(ps: seq<nat>, c: Ctx, gap: seq<Event>)
      requires Valid() && ps != [] && NoRepeat(ps)
      requires forall p :: p in SetOf(ps) ==> p in pages && pages[p].status == InFlight(c)
      modifies this
      ensures Valid() && !ino.missed
    {
      UntagAll(ps, c);
      OthersOwing(gap, |ps|, c);
      Take(Put(|ps|, c));
      NeverMissed(realm0, evs);
    }

    /** Others run between the read of the realm's context and the lock. */
    method OthersHeld(t: nat, acts: seq<Event>)
      requires Valid() && t in held
      modifies this
      ensures Valid() && t in held && held[t] == old(held[t])
    {
      for k := 0 to |acts|
        invariant Valid() && t in held && held[t] == old(held[t])
      {
        if ByOthers(t, acts[k]) && Enabled(Model(), acts[k]) && Orderly(Model(), acts[k]) {
          OthersLeave(Model(), t, acts[k]);
          Take(acts[k]);
        }
      }
    }

    /** ceph_set_page_dirty: the realm's context is read without a lock, others run, the page is counted
        under the lock, others run, and it is tagged with the context read. The counts and the order of
        contexts survive if and only if that context still counts right when the lock is taken. */
    method SetPageDirty(t: nat, p: nat, before: seq<Event>, after: seq<Event>)
        returns (good: bool, tagged: bool, ghost locked: Sys)
      requires Valid()
      modifies this
      ensures Inv(locked) && t in locked.held && locked.held[t] == old(realm)
      ensures good <==> CountsRight(locked, old(realm))
      ensures good <==> Inv(Apply(locked, CountPage(t)))
      ensures good ==> Valid() && (tagged ==> p in pages && pages[p] == Page(old(realm), Dirty))
      ensures !good ==> Model() == Apply(locked, CountPage(t))
    {
      var snapc := realm;
      Take(ReadContext(t));
      OthersHeld(t, before);
      locked := Model();
      ValidInv(realm0, evs);
      StepExact(locked, CountPage(t));
      good, tagged := CountsRight(Model(), snapc), false;
      if !good {
        Load(Apply(Model(), CountPage(t)));
        return;
      }
      Take(CountPage(t));
      OthersOwing(after, 1, snapc);
      tagged := p !in pages;
      if tagged {
        Take(TagPage(p, snapc));
      }
    }
  }

  lemma ValidInv(realm: Ctx, evs: seq<Event>)
    requires Legal(Start(realm), evs) && AllOrderly(Start(realm), evs)
    ensures Inv(Exec(Start(realm), evs))
  {
    StartInv(realm);
    RunInv(Start(realm), evs);
  }

  lemma UntagSeq(s: Sys, ps: seq<nat>, c: Ctx)
    requires ps != [] && NoRepeat(ps) && forall p :: p in SetOf(ps) ==> p in s.pages && s.pages[p].status == InFlight(c)
    ensures Enabled(s, Untag(SetOf(ps), c))
    ensures Apply(s, Untag(SetOf(ps), c)) == s.(pages := s.pages - SetOf(ps), owed := s.owed[c := s.owed[c] + |ps|])
  {
    SizeOf(ps);
  }

  function SetOf(ps: seq<nat>): (s: set<nat>)
  {
    if ps == [] then {} else {ps[0]} + SetOf(ps[1..])
  }

  predicate NoRepeat(ps: seq<nat>)
  {
    ps == [] || (ps[0] !in SetOf(ps[1..]) && NoRepeat(ps[1..]))
  }

  lemma {:induction false} SizeOf(ps: seq<nat>)
    requires NoRepeat(ps)
    ensures |SetOf(ps)| == |ps| && (ps != [] ==> SetOf(ps) != {})
  {
    if ps != [] {
      SizeOf(ps[1..]);
    }
  }

  /** In every run the lookup in ceph_put_wrbuffer_cap_refs finds its cap_snap. */
  lemma NeverMissed(realm: Ctx, evs: seq<Event>)
    requires Legal(Start(realm), evs) && AllOrderly(Start(realm), evs)
    ensures !Exec(Start(realm), evs).ino.missed
  {
    StartInv(realm);
    RunInv(Start(realm), evs);
  }
}
