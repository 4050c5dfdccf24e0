/** A page dirtied with a context that was read before a snapshot: a run in which it is counted under
    a newer context than it carries, and writeback then goes out of snapshot order. */
module StaleContext {
  import opened Common
  import opened InodeState
  import InodeOps
  import opened SnapWriteback

  /** The states a run goes through, one more than its events. */
  ghost predicate Path(ss: seq<Sys>, evs: seq<Event>)
  {
    && |ss| == |evs| + 1
    && forall k :: 0 <= k < |evs| ==> Enabled(ss[k], evs[k]) && ss[k + 1] == Apply(ss[k], evs[k])
  }

  lemma PathTail(ss: seq<Sys>, evs: seq<Event>)
    requires Path(ss, evs) && evs != []
    ensures Path(ss[1..], evs[1..]) && Enabled(ss[0], evs[0]) && ss[1] == Apply(ss[0], evs[0])
  {
    forall k | 0 <= k < |evs[1..]|
      ensures Enabled(ss[1..][k], evs[1..][k]) && ss[1..][k + 1] == Apply(ss[1..][k], evs[1..][k])
    {
      assert ss[1..][k] == ss[k + 1] && evs[1..][k] == evs[k + 1];
    }
  }

  lemma LegalStep(s: Sys, evs: seq<Event>, s': Sys)
    requires evs != [] && Enabled(s, evs[0]) && s' == Apply(s, evs[0]) && Legal(s', evs[1..])
    ensures Legal(s, evs) && Exec(s, evs) == Exec(s', evs[1..])
  {
  }

  lemma {:induction false} PathRun(ss: seq<Sys>, evs: seq<Event>)
    requires Path(ss, evs)
    ensures Legal(ss[0], evs) && Exec(ss[0], evs) == ss[|evs|]
    decreases |evs|
  {
    if evs != [] {
      PathTail(ss, evs);
      PathRun(ss[1..], evs[1..]);
      LegalStep(ss[0], evs, ss[1]);
    }
  }

  lemma PathMore(ss: seq<Sys>, evs: seq<Event>, ev: Event, s: Sys)
    requires Path(ss, evs) && Enabled(ss[|evs|], ev) && s == Apply(ss[|evs|], ev)
    ensures Path(ss + [s], evs + [ev])
  {
  }

  /** The part of the state the run is about. */
  datatype Scene = Scene(
    realm: Ctx, d: Data, dirty: Bits, pages: map<nat, Page>, oldest: map<nat, Ctx>, owed: multiset<Ctx>,
        held: map<nat, Ctx>)

  predicate At(s: Sys, x: Scene)
  {
    && s.realm == x.realm && s.ino.d == x.d && s.ino.m.dirty == x.dirty && s.ino.m.flushing == {}
    && s.ino.r == Refs(0, 0, 0, 0, 0, {}, false)
    && s.pages == x.pages && s.oldest == x.oldest && s.owed == x.owed && s.held == x.held
  }

  /** A run from the start whose last state shows the scene. */
  ghost predicate Shown(start: Sys, ss: seq<Sys>, evs: seq<Event>, x: Scene)
  {
    Path(ss, evs) && [start] <= ss && At(ss[|evs|], x)
  }

  lemma ShowMore(start: Sys, ss: seq<Sys>, evs: seq<Event>, x: Scene, ev: Event, x': Scene) returns (ss': seq<Sys>)
    requires Shown(start, ss, evs, x) && Enabled(ss[|evs|], ev) && At(Apply(ss[|evs|], ev), x')
    ensures Shown(start, ss', evs + [ev], x')
  {
    PathMore(ss, evs, ev, Apply(ss[|evs|], ev));
    ss' := ss + [Apply(ss[|evs|], ev)];
  }

  // ----- one event at a time -----------------------------------------------

  function Attach(): (ev: Event)
  {
    Other(InodeOps.OpAddCap(0, {Pin, FileWr}, {}, false, true, true, true))
  }

  function Dirtying(c: Ctx): (ev: Event)
  {
    Other(InodeOps.OpMarkDirty({FileWr}, c))
  }

  lemma DoAttach(start: Sys, ss: seq<Sys>, evs: seq<Event>, x: Scene) returns (ss': seq<Sys>)
    requires Shown(start, ss, evs, x)
    ensures Shown(start, ss', evs + [Attach()], x)
  {
    ss' := ShowMore(start, ss, evs, x, Attach(), x);
  }

  lemma DoRead(start: Sys, ss: seq<Sys>, evs: seq<Event>, x: Scene, t: nat) returns (ss': seq<Sys>)
    requires Shown(start, ss, evs, x)
    ensures Shown(start, ss', evs + [ReadContext(t)], x.(held := x.held[t := x.realm]))
  {
    ss' := ShowMore(start, ss, evs, x, ReadContext(t), x.(held := x.held[t := x.realm]));
  }

  lemma DoCount(start: Sys, ss: seq<Sys>, evs: seq<Event>, x: Scene, t: nat) returns (ss': seq<Sys>)
    requires Shown(start, ss, evs, x) && t in x.held
    ensures var c := x.held[t];
      Shown(start, ss', evs + [CountPage(t)],
            x.(d := SetHead(x.d, c).(headRef := x.d.headRef + 1, wrbufferRef := x.d.wrbufferRef + 1),
               owed := x.owed + multiset{c}, held := x.held - {t}))
  {
    var c := x.held[t];
    ss' := ShowMore(start, ss, evs, x, CountPage(t),
            x.(d := SetHead(x.d, c).(headRef := x.d.headRef + 1, wrbufferRef := x.d.wrbufferRef + 1),
               owed := x.owed + multiset{c}, held := x.held - {t}));
  }

  lemma DoTag(start: Sys, ss: seq<Sys>, evs: seq<Event>, x: Scene, p: nat, c: Ctx) returns (ss': seq<Sys>)
    requires Shown(start, ss, evs, x) && p !in x.pages && c in x.owed
    ensures Shown(start, ss', evs + [TagPage(p, c)], x.(pages := x.pages[p := Page(c, Dirty)],
        owed := x.owed - multiset{c}))
  {
    ss' := ShowMore(start, ss, evs, x, TagPage(p, c),
                    x.(pages := x.pages[p := Page(c, Dirty)], owed := x.owed - multiset{c}));
  }

  lemma DoMarkDirty(start: Sys, ss: seq<Sys>, evs: seq<Event>, x: Scene) returns (ss': seq<Sys>)
    requires Shown(start, ss, evs, x) && x.dirty == {}
    ensures Shown(start, ss', evs + [Dirtying(x.realm)], x.(dirty := {FileWr}, d := SetHead(x.d, x.realm)))
  {
    ss' := ShowMore(start, ss, evs, x, Dirtying(x.realm), x.(dirty := {FileWr}, d := SetHead(x.d, x.realm)));
  }

  lemma DoNewContext(start: Sys, ss: seq<Sys>, evs: seq<Event>, x: Scene, c: Ctx) returns (ss': seq<Sys>)
    requires Shown(start, ss, evs, x) && c.seqno > x.realm.seqno
    ensures Shown(start, ss', evs + [NewContext(c)], x.(realm := c))
  {
    ss' := ShowMore(start, ss, evs, x, NewContext(c), x.(realm := c));
  }

  /** The cap_snap that takes over a head with dirty pages. */
  function Taken(c: Ctx, pages: int): (cs: CapSnap)
  {
    CapSnap(c, pages, {FileWr}, false, c.seqno, 0, false)
  }

  lemma DoQueue(start: Sys, ss: seq<Sys>, evs: seq<Event>, x: Scene) returns (ss': seq<Sys>)
    requires Shown(start, ss, evs, x) && x.dirty == {FileWr} && x.d.head.Some? && x.d.capSnaps == []
    ensures Shown(start, ss', evs + [QueueSnap],
                  x.(d := Data(Some(x.realm), 0, x.d.wrbufferRef, [Taken(x.d.head.value, x.d.headRef)])))
  {
    var i := ss[|evs|].ino;
    assert FileWr in SnapDirty(i) * SNAP_DIRTY;
    assert SnapDirty(i) == {FileWr};
    ss' := ShowMore(start, ss, evs, x, QueueSnap,
                    x.(d := Data(Some(x.realm), 0, x.d.wrbufferRef, [Taken(x.d.head.value, x.d.headRef)])));
  }

  lemma DoInvalidate(start: Sys, ss: seq<Sys>, evs: seq<Event>, x: Scene, p: nat) returns (ss': seq<Sys>)
    requires Shown(start, ss, evs, x) && p in x.pages && x.pages[p].status == Dirty
    ensures var c := x.pages[p].ctx;
      Shown(start, ss', evs + [Invalidate(p)], x.(pages := x.pages - {p}, owed := x.owed[c := x.owed[c] + 1]))
  {
    var c := x.pages[p].ctx;
    ss' := ShowMore(start, ss, evs, x, Invalidate(p), x.(pages := x.pages - {p}, owed := x.owed[c := x.owed[c] + 1]));
  }

  /** The put of the only page of the only cap_snap. */
  lemma DoPut(start: Sys, ss: seq<Sys>, evs: seq<Event>, x: Scene, a: Ctx) returns (ss': seq<Sys>)
    requires Shown(start, ss, evs, x) && x.owed[a] > 0 && x.d.head != Some(a) && x.d.capSnaps == [Taken(a, 1)]
    ensures Shown(start, ss', evs + [Put(1, a)],
                  x.(d := x.d.(wrbufferRef := x.d.wrbufferRef - 1, capSnaps := [Taken(a, 0)]),
                      owed := x.owed[a := x.owed[a] - 1]))
  {
    assert FindSnap(x.d.capSnaps, a) == 0;
    ss' := ShowMore(start, ss, evs, x, Put(1, a),
                    x.(d := x.d.(wrbufferRef := x.d.wrbufferRef - 1, capSnaps := [Taken(a, 0)]),
                        owed := x.owed[a := x.owed[a] - 1]));
  }

  lemma DoReadOldest(start: Sys, ss: seq<Sys>, evs: seq<Event>, x: Scene, w: nat, a: Ctx) returns (ss': seq<Sys>)
    requires Shown(start, ss, evs, x) && x.d.capSnaps == [Taken(a, 0)] && x.d.headRef != 0 && x.d.head.Some?
    ensures Shown(start, ss', evs + [ReadOldest(w)], x.(oldest := x.oldest[w := x.d.head.value]))
  {
    assert FirstDirtySnap(x.d.capSnaps) == 1;
    ss' := ShowMore(start, ss, evs, x, ReadOldest(w), x.(oldest := x.oldest[w := x.d.head.value]));
  }

  // ----- the run -----------------------------------------------------------

  /** Thread 1 reads context a and is held up; page 0 is dirtied under a, and bits too. */
  function Before(a: Ctx): (evs: seq<Event>)
  {
    [] + [Attach()] + [ReadContext(1)] + [ReadContext(0)] + [CountPage(0)] + [TagPage(0, a)] + [Dirtying(a)]
  }

  lemma AfterBefore(a: Ctx) returns (ss: seq<Sys>)
    ensures Shown(Start(a), ss, Before(a),
      Scene(a, Data(Some(a), 1, 1, []), {FileWr}, map[0 := Page(a, Dirty)], map[], multiset{}, map[1 := a]))
  {
    var s0 := Start(a);
    var x0 := Scene(a, Data(None, 0, 0, []), {}, map[], map[], multiset{}, map[]);
    assert Shown(s0, [s0], [], x0);
    ss := DoAttach(s0, [s0], [], x0);
    ss := DoRead(s0, ss, [] + [Attach()], x0, 1);
    var x2 := x0.(held := map[1 := a]);
    ss := DoRead(s0, ss, [] + [Attach()] + [ReadContext(1)], x2, 0);
    var x3 := x2.(held := map[1 := a, 0 := a]);
    ss := DoCount(s0, ss, [] + [Attach()] + [ReadContext(1)] + [ReadContext(0)], x3, 0);
    assert x3.held - {0} == map[1 := a] && multiset{} + multiset{a} == multiset{a};
    var x4 := x2.(d := Data(Some(a), 1, 1, []), owed := multiset{a});
    ss := DoTag(s0, ss, [] + [Attach()] + [ReadContext(1)] + [ReadContext(0)] + [CountPage(0)], x4, 0, a);
    assert multiset{a} - multiset{a} == multiset{};
    var x5 := x4.(pages := map[0 := Page(a, Dirty)], owed := multiset{});
    ss := DoMarkDirty(s0, ss, [] + [Attach()] + [ReadContext(1)] + [ReadContext(0)] + [CountPage(0)]
        + [TagPage(0, a)], x5);
  }

  /** A snapshot: the realm goes to b and a cap_snap takes over page 0; page 2 is dirtied under b. */
  function Snapshot(a: Ctx, b: Ctx): (evs: seq<Event>)
  {
    Before(a) + [NewContext(b)] + [QueueSnap] + [ReadContext(2)] + [CountPage(2)] + [TagPage(2, b)]
  }

  lemma AfterSnapshot(a: Ctx, b: Ctx) returns (ss: seq<Sys>)
    requires a.seqno < b.seqno
    ensures Shown(Start(a), ss, Snapshot(a, b),
      Scene(b, Data(Some(b), 1, 2, [Taken(a, 1)]), {FileWr}, map[0 := Page(a, Dirty), 2 := Page(b, Dirty)],
            map[], multiset{}, map[1 := a]))
  {
    var s0, e0 := Start(a), Before(a);
    var x0 := Scene(a, Data(Some(a), 1, 1, []), {FileWr}, map[0 := Page(a, Dirty)], map[], multiset{}, map[1 := a]);
    ss := AfterBefore(a);
    ss := DoNewContext(s0, ss, e0, x0, b);
    var x1 := x0.(realm := b);
    ss := DoQueue(s0, ss, e0 + [NewContext(b)], x1);
    var x2 := x1.(d := Data(Some(b), 0, 1, [Taken(a, 1)]));
    ss := DoRead(s0, ss, e0 + [NewContext(b)] + [QueueSnap], x2, 2);
    var x3 := x2.(held := map[1 := a, 2 := b]);
    ss := DoCount(s0, ss, e0 + [NewContext(b)] + [QueueSnap] + [ReadContext(2)], x3, 2);
    assert x3.held - {2} == map[1 := a] && multiset{} + multiset{b} == multiset{b};
    var x4 := x2.(d := Data(Some(b), 1, 2, [Taken(a, 1)]), owed := multiset{b});
    ss := DoTag(s0, ss, e0 + [NewContext(b)] + [QueueSnap] + [ReadContext(2)] + [CountPage(2)], x4, 2, b);
    assert multiset{b} - multiset{b} == multiset{};
  }

  /** Page 0 is done with; a writeback thread finds b the oldest; only then thread 1 takes the lock. */
  function Late(a: Ctx, b: Ctx): (evs: seq<Event>)
  {
    Snapshot(a, b) + [Invalidate(0)] + [Put(1, a)] + [ReadOldest(9)] + [CountPage(1)] + [TagPage(1, a)]
  }

  lemma AfterLate(a: Ctx, b: Ctx) returns (ss: seq<Sys>)
    requires a.seqno < b.seqno
    ensures Shown(Start(a), ss, Late(a, b),
      Scene(b, Data(Some(b), 2, 2, [Taken(a, 0)]), {FileWr}, map[1 := Page(a, Dirty), 2 := Page(b, Dirty)],
            map[9 := b], multiset{}, map[]))
  {
    var s0, e0 := Start(a), Snapshot(a, b);
    var x0 := Scene(b, Data(Some(b), 1, 2, [Taken(a, 1)]), {FileWr}, map[0 := Page(a, Dirty), 2 := Page(b, Dirty)],
                    map[], multiset{}, map[1 := a]);
    ss := AfterSnapshot(a, b);
    ss := DoInvalidate(s0, ss, e0, x0, 0);
    assert x0.pages - {0} == map[2 := Page(b, Dirty)];
    var x1 := x0.(pages := map[2 := Page(b, Dirty)], owed := x0.owed[a := x0.owed[a] + 1]);
    assert x1.owed == multiset{a};
    ss := DoPut(s0, ss, e0 + [Invalidate(0)], x1, a);
    assert multiset{a}[a := 0] == multiset{};
    var x2 := x1.(d := Data(Some(b), 1, 1, [Taken(a, 0)]), owed := multiset{});
    ss := DoReadOldest(s0, ss, e0 + [Invalidate(0)] + [Put(1, a)], x2, 9, a);
    var x3 := x2.(oldest := map[9 := b]);
    ss := DoCount(s0, ss, e0 + [Invalidate(0)] + [Put(1, a)] + [ReadOldest(9)], x3, 1);
    assert x3.held - {1} == map[] && multiset{} + multiset{a} == multiset{a};
    var x4 := x3.(d := Data(Some(b), 2, 2, [Taken(a, 0)]), owed := multiset{a}, held := map[]);
    ss := DoTag(s0, ss, e0 + [Invalidate(0)] + [Put(1, a)] + [ReadOldest(9)] + [CountPage(1)], x4, 1, a);
    assert multiset{a} - multiset{a} == multiset{};
    assert x4.pages[1 := Page(a, Dirty)] == map[1 := Page(a, Dirty), 2 := Page(b, Dirty)];
  }

  /** A run from a new inode after which page 2, of context b, may go out while page 1, of the older
      context a, is still dirty; page 1 is counted under b, and its put takes the counter of the
      cap_snap for a below zero. */
  lemma StaleRead(a: Ctx, b: Ctx)
    requires a.seqno < b.seqno
    ensures Legal(Start(a), Late(a, b))
    ensures var s := Exec(Start(a), Late(a, b));
      && MaySubmit(s, 9, 2) && 1 in s.pages && s.pages[1] == Page(a, Dirty) && s.pages[2].ctx == b
      && Count(s.pages, b) == 1 && s.ino.d.headRef == 2
      && var d := PutWrbuffer(s.ino, 1, a).d; |d.capSnaps| == 1 && d.capSnaps[0].dirtyPages == -1
  {
    var ss := AfterLate(a, b);
    PathRun(ss, Late(a, b));
    var s := ss[|Late(a, b)|];
    assert Tagged(s.pages, b) == {2};
    assert FindSnap(s.ino.d.capSnaps, a) == 0;
  }
}
