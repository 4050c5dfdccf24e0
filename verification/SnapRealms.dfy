/** Snapshot realms: each realm caches the snap context that its own snaps, its prior
    parents' snaps and its parent's context define; a trace from the MDS updates some
    realms and rebuilds downward, skipping realms whose sequence numbers say so. */
module SnapRealms {

  /** What the MDS tells about a realm; parent 0 means none. */
  datatype Info = Info(parent: nat, seqno: nat, parentSince: nat, snaps: seq<nat>, prior: seq<nat>)

  /** A snap context: a sequence number and the snap ids, newest first. */
  datatype Ctx = Ctx(seqno: nat, snaps: seq<nat>)

  /** One entry of a snap trace. */
  datatype Entry = Entry(ino: nat, info: Info)

  type Realms = map<nat, Info>
  type Rank = map<nat, nat>

  const NEW_REALM: Info := Info(0, 0, 0, [], [])

  // ----- what a context should be ------------------------------------------

  function Insert(x: nat, s: seq<nat>): (r: seq<nat>)
    ensures multiset(r) == multiset(s) + multiset{x}
  {
    if s == [] || x >= s[0] then [x] + s
    else
      assert s == [s[0]] + s[1..];
      [s[0]] + Insert(x, s[1..])
  }

  /** Descending sort. */
  function SortDesc(s: seq<nat>): (r: seq<nat>)
    ensures multiset(r) == multiset(s)
  {
    if s == [] then [] else
      assert s == [s[0]] + s[1..];
      Insert(s[0], SortDesc(s[1..]))
  }

  ghost predicate Descending(s: seq<nat>)
  {
    forall i, j :: 0 <= i < j < |s| ==> s[i] >= s[j]
  }

  lemma {:induction false} InsertBound(x: nat, s: seq<nat>, hi: nat)
    requires x <= hi && forall k :: 0 <= k < |s| ==> s[k] <= hi
    ensures forall k :: 0 <= k < |Insert(x, s)| ==> Insert(x, s)[k] <= hi
  {
    if s != [] && x < s[0] {
      InsertBound(x, s[1..], hi);
    }
  }

  lemma {:induction false} InsertDescending(x: nat, s: seq<nat>)
    requires Descending(s)
    ensures Descending(Insert(x, s))
  {
    if s != [] && x < s[0] {
      InsertDescending(x, s[1..]);
      InsertBound(x, s[1..], s[0]);
    }
  }

  lemma {:induction false} SortDescending(s: seq<nat>)
    ensures Descending(SortDesc(s))
  {
    if s != [] {
      SortDescending(s[1..]);
      InsertDescending(s[0], SortDesc(s[1..]));
    }
  }

  /** The snaps taken since the parent became the parent. */
  function Since(snaps: seq<nat>, since: nat): (r: seq<nat>)
  {
    if snaps == [] then [] else
    var rest := Since(snaps[..|snaps|-1], since);
    if snaps[|snaps|-1] >= since then rest + [snaps[|snaps|-1]] else rest
  }

  function RootContext(own: Info): (c: Ctx)
  {
    Ctx(own.seqno, SortDesc(own.snaps + own.prior))
  }

  function ChildContext(own: Info, parent: Ctx): (c: Ctx)
    ensures c.seqno >= own.seqno && c.seqno >= parent.seqno
  {
    Ctx(if parent.seqno > own.seqno then parent.seqno else own.seqno,
        SortDesc(Since(parent.snaps, own.parentSince) + own.snaps + own.prior))
  }

  /** The hierarchy is acyclic: ranks grow from parent to child. */
  ghost predicate Acyclic(info: Realms, rank: Rank)
  {
    && 0 !in info
    && forall x :: x in info ==> x in rank && (info[x].parent != 0 ==>
        info[x].parent in info && info[x].parent in rank && rank[info[x].parent] < rank[x])
  }

  /** The context of a realm, computed from scratch up to the root. */
  ghost function Def(info: Realms, rank: Rank, x: nat): (c: Ctx)
    requires Acyclic(info, rank) && x in info
    decreases rank[x]
  {
    if info[x].parent == 0 then RootContext(info[x])
    else ChildContext(info[x], Def(info, rank, info[x].parent))
  }

  /** What the recursive definition says, without naming the sort: newest first, exactly the
      parent's snaps since parent_since plus own plus prior parents' snaps, and a sequence number
      that is the larger of its own and the parent's. */
  lemma DefIs(info: Realms, rank: Rank, x: nat)
    requires Acyclic(info, rank) && x in info
    ensures var c := Def(info, rank, x); var own := info[x];
      && Descending(c.snaps)
      && (own.parent == 0 ==> c.seqno == own.seqno && multiset(c.snaps) == multiset(own.snaps) + multiset(own.prior))
      && (own.parent != 0 ==>
            var up := Def(info, rank, own.parent);
            && multiset(c.snaps) == multiset(Since(up.snaps, own.parentSince))
                                  + multiset(own.snaps) + multiset(own.prior)
            && c.seqno >= own.seqno && c.seqno >= up.seqno && (c.seqno == own.seqno || c.seqno == up.seqno))
  {
    var own := info[x];
    SortDescending(own.snaps + own.prior);
    if own.parent != 0 {
      SortDescending(Since(Def(info, rank, own.parent).snaps, own.parentSince) + own.snaps + own.prior);
    }
  }

  /** Since keeps exactly the snaps not older than the given one, with their multiplicity. */
  lemma {:induction false} SinceIs(snaps: seq<nat>, since: nat, n: nat)
    ensures multiset(Since(snaps, since))[n] == if n >= since then multiset(snaps)[n] else 0
  {
    if snaps != [] {
      SinceIs(snaps[..|snaps|-1], since, n);
      assert snaps == snaps[..|snaps|-1] + [snaps[|snaps|-1]];
    }
  }

  /** Every realm's cached context is what it should be. */
  ghost predicate Good(info: Realms, cached: map<nat, Ctx>, rank: Rank)
  {
    Acyclic(info, rank) && cached.Keys == info.Keys && forall x :: x in info ==> cached[x] == Def(info, rank, x)
  }

  // ----- the "unchanged" test ----------------------------------------------

  /** build_snap_context's early return, with the parent's true context. */
  ghost predicate LooksUnchanged(info: Realms, cached: map<nat, Ctx>, rank: Rank, x: nat)
    requires Acyclic(info, rank) && x in info
  {
    && x in cached && cached[x].seqno == info[x].seqno
    && (info[x].parent == 0 || cached[x].seqno >= Def(info, rank, info[x].parent).seqno)
  }

  /** The early return is sound at x: a realm that looks unchanged has the right context. */
  ghost predicate TestSound(info: Realms, cached: map<nat, Ctx>, rank: Rank, x: nat)
    requires Acyclic(info, rank) && x in info
  {
    LooksUnchanged(info, cached, rank, x) ==> cached[x] == Def(info, rank, x)
  }

  ghost predicate AllSound(info: Realms, cached: map<nat, Ctx>, rank: Rank)
    requires Acyclic(info, rank)
  {
    forall x :: x in info ==> TestSound(info, cached, rank, x)
  }

  /** The contexts cached above x are right. */
  ghost predicate AncestorsOk(info: Realms, cached: map<nat, Ctx>, rank: Rank, x: nat)
    requires Acyclic(info, rank) && x in info
    decreases rank[x]
  {
    var p := info[x].parent;
    p == 0 || ((p in cached ==> cached[p] == Def(info, rank, p)) && AncestorsOk(info, cached, rank, p))
  }

  /** x is top or below it. */
  ghost predicate Under(info: Realms, rank: Rank, x: nat, top: nat)
    requires Acyclic(info, rank) && x in info
    decreases rank[x]
  {
    x == top || (info[x].parent != 0 && Under(info, rank, info[x].parent, top))
  }

  // ----- trace updates -----------------------------------------------------

  function Lookup(info: Realms, x: nat): (i: Info)
  {
    if x in info then info[x] else NEW_REALM
  }

  /** One trace entry: adjust_snap_realm_parent (which may create the parent), then the
      realm's parameters if the entry is newer. */
  function UpdateEntry(info: Realms, e: Entry): (info': Realms)
  {
    var own := Lookup(info, e.ino);
    var info1 := if own.parent != e.info.parent && e.info.parent !in info then info[e.info.parent := NEW_REALM]
        else info;
    info1[e.ino := if e.info.seqno > own.seqno then e.info else own.(parent := e.info.parent)]
  }

  /** Whether an entry makes the code rebuild. */
  predicate Invalidates(info: Realms, cached: map<nat, Ctx>, e: Entry)
  {
    var own := Lookup(info, e.ino);
    own.parent != e.info.parent || e.info.seqno > own.seqno || e.ino !in cached
  }

  function UpdateAll(info: Realms, trace: seq<Entry>): (info': Realms)
  {
    if trace == [] then info else UpdateEntry(UpdateAll(info, trace[..|trace|-1]), trace[|trace|-1])
  }

  function Inos(trace: seq<Entry>): (xs: set<nat>)
  {
    set i | 0 <= i < |trace| :: trace[i].ino
  }

  /** The trace runs from a realm up through its ancestors, each once, ending at a root or
      below a known realm. */
  ghost predicate RunsUp(info: Realms, trace: seq<Entry>)
  {
    && (forall i :: 0 <= i < |trace| ==> trace[i].ino != 0)
    && (forall i, j :: 0 <= i < j < |trace| ==> trace[i].ino != trace[j].ino)
    && (forall i :: 0 <= i < |trace| - 1 ==> LeadsTo(trace, i))
    && (trace != [] ==> var e := trace[|trace|-1];
          if e.info.parent == 0 then Lookup(info, e.ino).parent == 0
              else e.info.parent in info && e.info.parent !in Inos(trace))
  }

  ghost predicate LeadsTo(trace: seq<Entry>, i: nat)
    requires i + 1 < |trace|
  {
    trace[i].info.parent == trace[i+1].ino
  }

  /** A known realm is changed or given another parent only with a sequence number never seen. */
  ghost predicate FreshEntries(info: Realms, seen: nat, trace: seq<Entry>)
  {
    forall i :: 0 <= i < |trace| && trace[i].ino in info ==>
      || trace[i].info.seqno > seen
      || (trace[i].info.parent == info[trace[i].ino].parent && trace[i].info.seqno <= info[trace[i].ino].seqno)
  }

  /** And seen is no smaller than any number in the table. */
  ghost predicate FreshSeqs(info: Realms, seen: nat, trace: seq<Entry>)
  {
    (forall x :: x in info ==> info[x].seqno <= seen) && FreshEntries(info, seen, trace)
  }

  /** Known realms are untouched or carry a sequence number never seen. */
  ghost predicate Updated(info: Realms, info': Realms, seen: nat)
  {
    forall x :: x in info ==> x in info' && (info'[x] == info[x] || info'[x].seqno > seen)
  }

  // ----- the test is sound after an update ---------------------------------

  lemma {:induction false} DefBound(info: Realms, rank: Rank, seen: nat, x: nat)
    requires Acyclic(info, rank) && x in info && forall y :: y in info ==> info[y].seqno <= seen
    ensures Def(info, rank, x).seqno <= seen
    decreases rank[x]
  {
    if info[x].parent != 0 {
      DefBound(info, rank, seen, info[x].parent);
    }
  }

  /** A known realm's context either stays or gets a sequence number never seen. */
  lemma {:induction false} DefStaysOrFresh(info: Realms, rank: Rank, info': Realms, rank': Rank, seen: nat, x: nat)
    requires Acyclic(info, rank) && Acyclic(info', rank') && Updated(info, info', seen) && x in info
    ensures Def(info', rank', x) == Def(info, rank, x) || Def(info', rank', x).seqno > seen
    decreases rank'[x]
  {
    if info'[x] == info[x] && info[x].parent != 0 {
      DefStaysOrFresh(info, rank, info', rank', seen, info[x].parent);
    }
  }

  /** After an update with fresh sequence numbers, the early return is sound at every realm. */
  lemma UpdateSound(info: Realms, cached: map<nat, Ctx>, rank: Rank, info': Realms, rank': Rank, seen: nat)
    requires Good(info, cached, rank) && Acyclic(info', rank') && Updated(info, info', seen)
    requires forall y :: y in info ==> info[y].seqno <= seen
    ensures AllSound(info', cached, rank')
  {
    forall x | x in info'
      ensures TestSound(info', cached, rank', x)
    {
      if x in cached {
        DefBound(info, rank, seen, x);
        if info'[x] == info[x] && info[x].parent != 0 {
          DefStaysOrFresh(info, rank, info', rank', seen, info[x].parent);
        }
      }
    }
  }

  // ----- what a trace touches ----------------------------------------------

  lemma {:induction false} UpdateAllKnown(info: Realms, trace: seq<Entry>, seen: nat, x: nat)
    requires x in info && 0 !in info && FreshSeqs(info, seen, trace)
    requires forall i, j :: 0 <= i < j < |trace| ==> trace[i].ino != trace[j].ino
    ensures x in UpdateAll(info, trace)
    ensures x !in Inos(trace) ==> UpdateAll(info, trace)[x] == info[x]
    ensures UpdateAll(info, trace)[x] == info[x] || UpdateAll(info, trace)[x].seqno > seen
  {
    if trace != [] {
      var front, e := trace[..|trace|-1], trace[|trace|-1];
      UpdateAllKnown(info, front, seen, x);
      assert forall i :: 0 <= i < |front| ==> front[i] == trace[i];
      assert Inos(trace) == Inos(front) + {e.ino} by { InosSnoc(trace); }
    }
  }

  lemma InosSnoc(trace: seq<Entry>)
    requires trace != []
    ensures Inos(trace) == Inos(trace[..|trace|-1]) + {trace[|trace|-1].ino}
  {
    var front := trace[..|trace|-1];
    forall x | x in Inos(trace)
      ensures x in Inos(front) + {trace[|trace|-1].ino}
    {
      var i :| 0 <= i < |trace| && trace[i].ino == x;
      assert i < |front| ==> front[i].ino == x;
    }
    forall x | x in Inos(front)
      ensures x in Inos(trace)
    {
      var i :| 0 <= i < |front| && front[i].ino == x;
      assert trace[i].ino == x;
    }
  }

  ghost predicate DistinctInos(trace: seq<Entry>)
  {
    forall i, j :: 0 <= i < j < |trace| ==> trace[i].ino != trace[j].ino
  }

  /** A realm without an entry is as it was; one that exists only because a child named it as parent
      is blank. */
  lemma {:induction false} UpdateAllOther(info: Realms, trace: seq<Entry>, x: nat)
    requires x !in Inos(trace)
    ensures Lookup(UpdateAll(info, trace), x) == Lookup(info, x)
    ensures x in info ==> x in UpdateAll(info, trace)
  {
    if trace != [] {
      InosSnoc(trace);
      UpdateAllOther(info, trace[..|trace|-1], x);
    }
  }

  /** What an entry makes of its realm: always the entry's parent; the other four parameters are the
      entry's if its sequence number exceeds the realm's, else the realm's. */
  ghost predicate Stored(own: Info, e: Info, now: Info)
  {
    && now.parent == e.parent
    && (e.seqno > own.seqno ==>
          now.seqno == e.seqno && now.parentSince == e.parentSince && now.snaps == e.snaps && now.prior == e.prior)
    && (e.seqno <= own.seqno ==>
          && now.seqno == own.seqno && now.parentSince == own.parentSince
          && now.snaps == own.snaps && now.prior == own.prior)
  }

  /** What a trace makes of the table: its entries are stored, realms without an entry keep their
      parameters, and no other realm appears. An unknown realm counts as blank. */
  ghost predicate Stores(info: Realms, trace: seq<Entry>, info': Realms)
  {
    && info'.Keys == info.Keys + Inos(trace)
    && (forall i :: 0 <= i < |trace| ==>
          trace[i].ino in info' && Stored(Lookup(info, trace[i].ino), trace[i].info, info'[trace[i].ino]))
    && (forall x :: x in info && x !in Inos(trace) ==> info'[x] == info[x])
  }

  lemma {:induction false} UpdateAllStored(info: Realms, trace: seq<Entry>, i: nat)
    requires i < |trace| && DistinctInos(trace)
    ensures trace[i].ino in UpdateAll(info, trace)
    ensures Stored(Lookup(info, trace[i].ino), trace[i].info, UpdateAll(info, trace)[trace[i].ino])
  {
    var front := trace[..|trace|-1];
    assert forall k :: 0 <= k < |front| ==> front[k] == trace[k];
    if i < |front| {
      UpdateAllStored(info, front, i);
    } else {
      UpdateAllOther(info, front, trace[i].ino);
    }
  }

  lemma UpdateAllStores(info: Realms, trace: seq<Entry>, seen: nat)
    requires 0 !in info && RunsUp(info, trace) && FreshSeqs(info, seen, trace)
    ensures Stores(info, trace, UpdateAll(info, trace))
  {
    var info' := UpdateAll(info, trace);
    forall i | 0 <= i < |trace|
      ensures trace[i].ino in info' && Stored(Lookup(info, trace[i].ino), trace[i].info, info'[trace[i].ino])
    {
      UpdateAllStored(info, trace, i);
    }
    forall x | x in info && x !in Inos(trace) ensures x in info' && info'[x] == info[x] {
      UpdateAllOther(info, trace, x);
    }
    assert trace[..|trace|] == trace;
    UpdateAllKeys(info, trace, seen, |trace|);
  }

  lemma {:induction false} UpdateAllKeys(info: Realms, trace: seq<Entry>, seen: nat, k: nat)
    requires 0 !in info && RunsUp(info, trace) && FreshSeqs(info, seen, trace) && k <= |trace|
    ensures UpdateAll(info, trace[..k]).Keys <= info.Keys + Inos(trace)
  {
    if k > 0 {
      UpdateAllKeys(info, trace, seen, k - 1);
      var front, e := trace[..k-1], trace[k-1];
      assert trace[..k][..k-1] == front;
      assert e.ino in Inos(trace);
      if k < |trace| {
        assert LeadsTo(trace, k - 1);
        assert trace[k].ino in Inos(trace);
      } else {
        LastKnown(info, trace, seen);
        assert front == trace[..|trace|-1];
      }
    }
  }

  /** The last entry creates no realm. */
  lemma LastKnown(info: Realms, trace: seq<Entry>, seen: nat)
    requires 0 !in info && trace != [] && RunsUp(info, trace) && FreshSeqs(info, seen, trace)
    ensures var e, before := trace[|trace|-1], UpdateAll(info, trace[..|trace|-1]);
      e.info.parent in before || Lookup(before, e.ino).parent == e.info.parent
  {
    var front, e := trace[..|trace|-1], trace[|trace|-1];
    assert forall i :: 0 <= i < |front| ==> front[i] == trace[i];
    assert FreshSeqs(info, seen, front) && DistinctInos(front);
    assert e.ino !in Inos(front);
    if e.info.parent != 0 {
      UpdateAllKnown(info, front, seen, e.info.parent);
    } else if e.ino in info {
      UpdateAllKnown(info, front, seen, e.ino);
    } else {
      UpdateAllOther(info, front, e.ino);
    }
  }

  /** Every realm of the trace ends up below the trace's last realm. */
  lemma {:induction false} TraceUnder(info: Realms, trace: seq<Entry>, info': Realms, rank': Rank, i: nat)
    requires RunsUp(info, trace) && i < |trace| && Acyclic(info', rank')
    requires info' == UpdateAll(info, trace) && trace[i].ino in info'
    ensures Under(info', rank', trace[i].ino, trace[|trace|-1].ino)
    decreases |trace| - i
  {
    UpdateAllStored(info, trace, i);
    if i < |trace| - 1 {
      assert LeadsTo(trace, i);
      TraceUnder(info, trace, info', rank', i + 1);
    }
  }

  /** A realm that is not below the trace's last realm keeps its context. */
  lemma {:induction false} OutsideStays(info: Realms, rank: Rank, trace: seq<Entry>, rank': Rank, seen: nat, x: nat)
    requires Acyclic(info, rank) && RunsUp(info, trace) && FreshSeqs(info, seen, trace) && trace != []
    requires Acyclic(UpdateAll(info, trace), rank') && x in UpdateAll(info, trace)
    requires !Under(UpdateAll(info, trace), rank', x, trace[|trace|-1].ino)
    ensures x in info && Def(UpdateAll(info, trace), rank', x) == Def(info, rank, x)
    decreases rank'[x]
  {
    var info' := UpdateAll(info, trace);
    assert x !in Inos(trace) by {
      if x in Inos(trace) {
        var i :| 0 <= i < |trace| && trace[i].ino == x;
        TraceUnder(info, trace, info', rank', i);
      }
    }
    UpdateAllKeys(info, trace, seen, |trace|);
    assert trace[..|trace|] == trace;
    UpdateAllKnown(info, trace, seen, x);
    if info[x].parent != 0 {
      OutsideStays(info, rank, trace, rank', seen, info[x].parent);
    }
  }

  // ----- rebuilding --------------------------------------------------------

  /** Contexts were only replaced by right ones, or added. */
  ghost predicate Rebuilt(info: Realms, rank: Rank, before: map<nat, Ctx>, after: map<nat, Ctx>)
    requires Acyclic(info, rank)
  {
    && (forall y :: y in before ==>
        y in after && (after[y] == before[y] || (y in info && after[y] == Def(info, rank, y))))
    && (forall y :: y in after && y !in before ==> y in info && after[y] == Def(info, rank, y))
  }

  lemma RebuiltSound(info: Realms, rank: Rank, before: map<nat, Ctx>, after: map<nat, Ctx>)
    requires Acyclic(info, rank) && AllSound(info, before, rank) && Rebuilt(info, rank, before, after)
    ensures AllSound(info, after, rank)
  {
    forall x | x in info
      ensures TestSound(info, after, rank, x)
    {
      assert TestSound(info, before, rank, x);
    }
  }

  lemma RebuiltStep(info: Realms, rank: Rank, before: map<nat, Ctx>, mid: map<nat, Ctx>, x: nat)
    requires Acyclic(info, rank) && x in info && Rebuilt(info, rank, before, mid)
    ensures Rebuilt(info, rank, before, mid[x := Def(info, rank, x)])
  {
  }

  lemma {:induction false} RebuiltAncestors(info: Realms, rank: Rank, before: map<nat, Ctx>, after: map<nat,
      Ctx>, x: nat)
    requires Acyclic(info, rank) && x in info && AncestorsOk(info, before, rank, x)
    requires Rebuilt(info, rank, before, after)
    ensures AncestorsOk(info, after, rank, x)
    decreases rank[x]
  {
    if info[x].parent != 0 {
      RebuiltAncestors(info, rank, before, after, info[x].parent);
    }
  }

  lemma {:induction false} UnderRank(info: Realms, rank: Rank, x: nat, top: nat)
    requires Acyclic(info, rank) && x in info && top in info && Under(info, rank, x, top)
    ensures rank[x] >= rank[top]
    decreases rank[x]
  {
    if x != top {
      UnderRank(info, rank, info[x].parent, top);
    }
  }

  /** What is strictly below a realm is below one of its children. */
  lemma {:induction false} UnderChild(info: Realms, rank: Rank, x: nat, top: nat) returns (c: nat)
    requires Acyclic(info, rank) && x in info && x != top && Under(info, rank, x, top)
    ensures c in info && info[c].parent == top && Under(info, rank, x, c)
    decreases rank[x]
  {
    if info[x].parent == top {
      c := x;
    } else {
      c := UnderChild(info, rank, info[x].parent, top);
    }
  }

  lemma {:induction false} AncestorsOutside(info: Realms, cached: map<nat, Ctx>, rank: Rank, trace: seq<Entry>,
      rank': Rank, seen: nat, x: nat)
    requires Good(info, cached, rank) && RunsUp(info, trace) && FreshSeqs(info, seen, trace) && trace != []
    requires Acyclic(UpdateAll(info, trace), rank') && x in UpdateAll(info, trace)
    requires trace[|trace|-1].ino in UpdateAll(info, trace)
    requires rank'[x] <= rank'[trace[|trace|-1].ino]
    ensures AncestorsOk(UpdateAll(info, trace), cached, rank', x)
    decreases rank'[x]
  {
    var info', top := UpdateAll(info, trace), trace[|trace|-1].ino;
    var p := info'[x].parent;
    if p != 0 {
      assert !Under(info', rank', p, top) by {
        if Under(info', rank', p, top) {
          UnderRank(info', rank', p, top);
        }
      }
      OutsideStays(info, rank, trace, rank', seen, p);
      AncestorsOutside(info, cached, rank, trace, rank', seen, p);
    }
  }

  /** The realms of a mount: mdsc->snap_realms with the cached contexts. */
  class RealmTable {
    var info: Realms
    var cached: map<nat, Ctx>

    /** The loop over the parent's snaps in build_snap_context. */
    method SnapsSince(snaps: seq<nat>, since: nat) returns (r: seq<nat>)
      ensures r == Since(snaps, since)
    {
      r := [];
      var i := 0;
      while i < |snaps|
        invariant 0 <= i <= |snaps| && r == Since(snaps[..i], since)
      {
        assert snaps[..i+1][..i] == snaps[..i];
        if snaps[i] >= since { r := r + [snaps[i]]; }
        i := i + 1;
      }
      assert snaps[..i] == snaps;
    }

    /** build_snap_context */
    method BuildSnapContext(x: nat, ghost rank: Rank)
      requires Acyclic(info, rank) && x in info && AllSound(info, cached, rank) && AncestorsOk(info, cached, rank, x)
      modifies `cached
      ensures x in cached && cached[x] == Def(info, rank, x)
      ensures Rebuilt(info, rank, old(cached), cached)
      decreases rank[x]
    {
      var p := info[x].parent;
      if p != 0 && p !in cached {
        BuildSnapContext(p, rank);
        RebuiltSound(info, rank, old(cached), cached);
      }
      ghost var mid := cached;
      assert TestSound(info, cached, rank, x);
      RefreshOwn(x, rank);
      RebuiltStep(info, rank, old(cached), mid, x);
    }

    /** build_snap_context once the parent's context is there. */
    method RefreshOwn(x: nat, ghost rank: Rank)
      requires Acyclic(info, rank) && x in info && TestSound(info, cached, rank, x)
      requires info[x].parent != 0 ==>
          info[x].parent in cached && cached[info[x].parent] == Def(info, rank, info[x].parent)
      modifies `cached
      ensures cached == old(cached)[x := Def(info, rank, x)]
    {
      var own := info[x];
      if x in cached && cached[x].seqno == own.seqno && (own.parent == 0
          || cached[x].seqno >= cached[own.parent].seqno) {
        return;
      }
      var snapc := NewContext(own);
      cached := cached[x := snapc];
    }

    /** The part of build_snap_context that fills a new context: parent's snaps, own snaps, prior
        parents' snaps, sorted; the larger sequence number. */
    method NewContext(own: Info) returns (c: Ctx)
      requires own.parent != 0 ==> own.parent in cached
      ensures c == if own.parent == 0 then RootContext(own) else ChildContext(own, cached[own.parent])
    {
      var snaps, seqno := [], own.seqno;
      if own.parent != 0 {
        snaps := SnapsSince(cached[own.parent].snaps, own.parentSince);
        if cached[own.parent].seqno > seqno { seqno := cached[own.parent].seqno; }
      }
      assert own.parent == 0 ==> snaps + own.snaps + own.prior == own.snaps + own.prior;
      c := Ctx(seqno, SortDesc(snaps + own.snaps + own.prior));
    }

    /** rebuild_snap_realms: a realm, then everything below it. */
    method RebuildSnapRealms(x: nat, ghost rank: Rank, ghost bound: nat)
      requires Acyclic(info, rank) && x in info && AllSound(info, cached, rank) && AncestorsOk(info, cached, rank, x)
      requires forall y :: y in info ==> rank[y] < bound
      modifies `cached
      ensures Rebuilt(info, rank, old(cached), cached)
      ensures forall y :: y in info && Under(info, rank, y, x) ==> y in cached && cached[y] == Def(info, rank, y)
      decreases bound - rank[x]
    {
      BuildSnapContext(x, rank);
      var children := set c | c in info && info[c].parent == x;
      var todo := children;
      while todo != {}
        invariant todo <= children
        invariant Rebuilt(info, rank, old(cached), cached) && x in cached && cached[x] == Def(info, rank, x)
        invariant forall c, y :: c in children - todo && y in info && Under(info, rank, y, c) ==>
            y in cached && cached[y] == Def(info, rank, y)
      {
        var c :| c in todo;
        RebuiltSound(info, rank, old(cached), cached);
        RebuiltAncestors(info, rank, old(cached), cached, x);
        RebuildSnapRealms(c, rank, bound);
        todo := todo - {c};
      }
      forall y | y in info && Under(info, rank, y, x)
        ensures y in cached && cached[y] == Def(info, rank, y)
      {
        if y != x {
          var c := UnderChild(info, rank, y, x);
        }
      }
    }

    /** ceph_update_snap_trace: apply the entries, then rebuild from the last (topmost) realm if
        anything changed. Afterwards every realm's cached context is the one defined from scratch. */
    method UpdateSnapTrace(trace: seq<Entry>, ghost rank: Rank, ghost rank': Rank, ghost bound: nat, ghost seen: nat)
      requires Good(info, cached, rank) && trace != []
      requires RunsUp(info, trace) && FreshSeqs(info, seen, trace)
      requires Acyclic(UpdateAll(info, trace), rank') && forall y :: y in UpdateAll(info, trace) ==> rank'[y] < bound
      modifies this
      ensures info == UpdateAll(old(info), trace) && Good(info, cached, rank')
      ensures Stores(old(info), trace, info)
    {
      UpdateAllStores(info, trace, seen);
      var invalidate := ApplyEntries(trace);
      var top := trace[|trace|-1].ino;
      ghost var info0 := old(info);
      UpdateAllStored(info0, trace, |trace| - 1);
      forall x | x in info0
        ensures x in info && (info[x] == info0[x] || info[x].seqno > seen)
      {
        UpdateAllKnown(info0, trace, seen, x);
      }
      if invalidate {
        UpdateSound(info0, cached, rank, info, rank', seen);
        AncestorsOutside(info0, cached, rank, trace, rank', seen, top);
        RebuildSnapRealms(top, rank', bound);
      } else {
        SameRealms(info, rank, rank', seen);
      }
      forall x | x in info
        ensures x in cached && cached[x] == Def(info, rank', x)
      {
        if invalidate && !Under(info, rank', x, top) {
          OutsideStays(info0, rank, trace, rank', seen, x);
        }
      }
    }

    /** The entry loop of ceph_update_snap_trace. */
    method ApplyEntries(trace: seq<Entry>) returns (invalidate: bool)
      requires cached.Keys == info.Keys
      modifies `info
      ensures info == UpdateAll(old(info), trace)
      ensures !invalidate ==> info == old(info)
    {
      invalidate := false;
      var i := 0;
      while i < |trace|
        invariant 0 <= i <= |trace|
        invariant info == UpdateAll(old(info), trace[..i])
        invariant !invalidate ==> info == old(info)
      {
        var e := trace[i];
        assert trace[..i+1][..i] == trace[..i];
        if Invalidates(info, cached, e) { invalidate := true; }
        info := UpdateEntry(info, e);
        i := i + 1;
      }
      assert trace[..i] == trace;
    }
  }

  /** Contexts do not depend on which ranking shows that the hierarchy is acyclic. */
  lemma SameRealms(info: Realms, rank: Rank, rank': Rank, seen: nat)
    requires Acyclic(info, rank) && Acyclic(info, rank') && forall y :: y in info ==> info[y].seqno <= seen
    ensures forall x :: x in info ==> Def(info, rank', x) == Def(info, rank, x)
  {
    forall x | x in info
      ensures Def(info, rank', x) == Def(info, rank, x)
    {
      DefStaysOrFresh(info, rank, info, rank', seen, x);
      DefBound(info, rank', seen, x);
    }
  }

  /** A root (realm 1) with the given sequence number and snaps, and a child (realm 2) at 10 without snaps. */
  function TwoRealms(seqno: nat, snaps: seq<nat>): (info: Realms)
  {
    map[1 := Info(0, seqno, 0, snaps, []), 2 := Info(1, 10, 0, [], [])]
  }

  const TWO_RANKS: Rank := map[1 := 0, 2 := 1]

  lemma TwoRealmsDef(seqno: nat, snaps: seq<nat>)
    requires seqno <= 10 && |snaps| <= 1
    ensures Acyclic(TwoRealms(seqno, snaps), TWO_RANKS)
    ensures Def(TwoRealms(seqno, snaps), TWO_RANKS, 1) == Ctx(seqno, snaps)
    ensures Def(TwoRealms(seqno, snaps), TWO_RANKS, 2) == Ctx(10, snaps)
  {
    SmallContexts(seqno, snaps);
    var info := TwoRealms(seqno, snaps);
    assert Def(info, TWO_RANKS, 1) == RootContext(info[1]);
    assert Def(info, TWO_RANKS, 2) == ChildContext(info[2], Def(info, TWO_RANKS, 1));
  }

  lemma SmallContexts(seqno: nat, snaps: seq<nat>)
    requires seqno <= 10 && |snaps| <= 1
    ensures RootContext(Info(0, seqno, 0, snaps, [])) == Ctx(seqno, snaps)
    ensures ChildContext(Info(1, 10, 0, [], []), Ctx(seqno, snaps)) == Ctx(10, snaps)
  {
    SortOne(snaps);
    assert snaps + [] == snaps;
    assert Since(snaps, 0) + [] + [] == snaps;
  }

  lemma SortOne(snaps: seq<nat>)
    requires |snaps| <= 1
    ensures SortDesc(snaps) == snaps && Since(snaps, 0) == snaps
  {
    if |snaps| == 1 {
      assert snaps[1..] == [] && snaps[..0] == [];
      assert SortDesc(snaps) == Insert(snaps[0], []);
      assert Since(snaps, 0) == Since([], 0) + [snaps[0]];
    }
  }

  lemma MultisetTail(s: seq<nat>)
    requires s != []
    ensures multiset(s) == multiset(s[1..]) + multiset{s[0]}
  {
    assert s == [s[0]] + s[1..];
  }

  lemma Cancel(m: multiset<nat>, n: multiset<nat>, k: multiset<nat>)
    ensures m + k == n + k <==> m == n
  {
    if m + k == n + k {
      forall x ensures m[x] == n[x] {
        assert (m + k)[x] == (n + k)[x];
      }
    }
  }

  lemma FirstIsLargest(a: seq<nat>, x: nat)
    requires Descending(a) && x in multiset(a)
    ensures a != [] && x <= a[0]
  {
    assert x in a;
  }

  lemma SameFirst(a: seq<nat>, b: seq<nat>)
    requires Descending(a) && Descending(b) && multiset(a) == multiset(b) && a != []
    ensures b != [] && a[0] == b[0]
  {
    assert a[0] in multiset(a);
    FirstIsLargest(b, a[0]);
    assert b[0] in multiset(b);
    FirstIsLargest(a, b[0]);
  }

  lemma TailDescending(a: seq<nat>)
    requires Descending(a) && a != []
    ensures Descending(a[1..])
  {
  }

  /** A descending sequence is determined by what it holds. */
  lemma {:induction false} DescendingUnique(a: seq<nat>, b: seq<nat>)
    requires Descending(a) && Descending(b) && multiset(a) == multiset(b)
    ensures a == b
  {
    if a == [] {
      assert |multiset(b)| == 0;
    } else {
      SameFirst(a, b);
      TailDescending(a);
      TailDescending(b);
      MultisetTail(a);
      MultisetTail(b);
      Cancel(multiset(a[1..]), multiset(b[1..]), multiset{a[0]});
      DescendingUnique(a[1..], b[1..]);
      assert a == [a[0]] + a[1..];
      assert b == [b[0]] + b[1..];
    }
  }

  /** Two contexts built from the same own snaps agree exactly if the parents' recent snaps do. */
  lemma SortAgrees(up: seq<nat>, up': seq<nat>, own: seq<nat>, prior: seq<nat>)
    ensures SortDesc(up + own + prior) == SortDesc(up' + own + prior) <==> multiset(up) == multiset(up')
  {
    var s, s' := SortDesc(up + own + prior), SortDesc(up' + own + prior);
    SortDescending(up + own + prior);
    SortDescending(up' + own + prior);
    var k := multiset(own) + multiset(prior);
    assert multiset(s) == multiset(up) + k && multiset(s') == multiset(up') + k;
    Cancel(multiset(up), multiset(up'), k);
    if multiset(s) == multiset(s') {
      DescendingUnique(s, s');
    }
  }

  /** The early return is unsound for a realm whose own parameters are unchanged exactly when neither
      the old nor the new sequence number of its parent's context exceeds its own, and yet the
      parent's snaps since parent_since changed. */
  lemma TestExact(info: Realms, cached: map<nat, Ctx>, rank: Rank, info': Realms, rank': Rank, x: nat)
    requires Good(info, cached, rank) && Acyclic(info', rank') && x in info && x in info' && info'[x] == info[x]
    ensures info[x].parent == 0 ==> TestSound(info', cached, rank', x)
    ensures info[x].parent != 0 ==>
      var own := info[x];
      var was, now := Def(info, rank, own.parent), Def(info', rank', own.parent);
      TestSound(info', cached, rank', x) <==>
        !(was.seqno <= own.seqno && now.seqno <= own.seqno &&
          multiset(Since(was.snaps, own.parentSince)) != multiset(Since(now.snaps, own.parentSince)))
  {
    var own := info[x];
    assert cached[x] == Def(info, rank, x);
    if own.parent != 0 {
      var was, now := Def(info, rank, own.parent), Def(info', rank', own.parent);
      SortAgrees(Since(was.snaps, own.parentSince), Since(now.snaps, own.parentSince), own.snaps, own.prior);
    }
  }

  /** And for any realm, its own parameters changed or not: exactly when the sequence numbers match
      while the snaps it should hold are not those it holds. */
  lemma AnyTestExact(cached: map<nat, Ctx>, info': Realms, rank': Rank, x: nat)
    requires Acyclic(info', rank') && x in info' && x in cached && Descending(cached[x].snaps)
    ensures TestSound(info', cached, rank', x) <==>
      !(cached[x].seqno == info'[x].seqno
        && (info'[x].parent != 0 ==> Def(info', rank', info'[x].parent).seqno <= info'[x].seqno)
        && multiset(cached[x].snaps) != multiset(Def(info', rank', x).snaps))
  {
    DefIs(info', rank', x);
    if multiset(cached[x].snaps) == multiset(Def(info', rank', x).snaps) {
      DescendingUnique(cached[x].snaps, Def(info', rank', x).snaps);
    }
  }

  /** A sequence number that is new only for the realm itself is not enough: a root goes from 4 to 5
      and gains snap 7 while its child already has 10; the child looks unchanged but is stale. */
  lemma SmallSeqMissed()
    ensures var cached := map[1 := Ctx(4, []), 2 := Ctx(10, [])];
      && UpdateEntry(TwoRealms(4, []), Entry(1, Info(0, 5, 0, [7], []))) == TwoRealms(5, [7])
      && Good(TwoRealms(4, []), cached, TWO_RANKS) && Acyclic(TwoRealms(5, [7]), TWO_RANKS)
      && LooksUnchanged(TwoRealms(5, [7]), cached, TWO_RANKS, 2)
      && Def(TwoRealms(5, [7]), TWO_RANKS, 2) == Ctx(10, [7])
  {
    TwoRealmsDef(4, []);
    TwoRealmsDef(5, [7]);
  }

  // ----- any number of traces ----------------------------------------------

  /** The largest sequence number seen so far. */
  function Newest(seen: nat, trace: seq<Entry>): (n: nat)
  {
    if trace == [] then seen
    else
      var m := Newest(seen, trace[..|trace|-1]);
      if trace[|trace|-1].info.seqno > m then trace[|trace|-1].info.seqno else m
  }

  lemma {:induction false} SeenCovers(info: Realms, trace: seq<Entry>, seen: nat)
    requires forall x :: x in info ==> info[x].seqno <= seen
    ensures forall x :: x in UpdateAll(info, trace) ==> UpdateAll(info, trace)[x].seqno <= Newest(seen, trace)
  {
    if trace != [] {
      SeenCovers(info, trace[..|trace|-1], seen);
    }
  }

  /** The realms after a list of traces. */
  function UpdateMany(info: Realms, traces: seq<seq<Entry>>): (info': Realms)
    decreases |traces|
  {
    if traces == [] then info else UpdateMany(UpdateAll(info, traces[0]), traces[1..])
  }

  /** What is assumed of each trace, given the realms and the largest number seen when it arrives:
      it runs upward, leaves an acyclic hierarchy, and changes a known realm only with a number never
      seen. */
  ghost predicate Admissible(info: Realms, seen: nat, traces: seq<seq<Entry>>, ranks: seq<Rank>)
    decreases |traces|
  {
    traces == [] ||
    (|ranks| > 0 && traces[0] != [] && RunsUp(info, traces[0]) && FreshEntries(info, seen, traces[0])
     && Acyclic(UpdateAll(info, traces[0]), ranks[0])
     && Admissible(UpdateAll(info, traces[0]), Newest(seen, traces[0]), traces[1..], ranks[1..]))
  }

  lemma {:induction false} RankBound(xs: set<nat>, rank: Rank) returns (bound: nat)
    requires forall x :: x in xs ==> x in rank
    ensures forall x :: x in xs ==> rank[x] < bound
  {
    bound := 0;
    if xs != {} {
      var x :| x in xs;
      var b := RankBound(xs - {x}, rank);
      bound := if b > rank[x] then b else rank[x] + 1;
      assert xs == (xs - {x}) + {x};
    }
  }

  /** One more trace, with what is known so far. */
  method UpdateNext(table: RealmTable, trace: seq<Entry>, ghost rank: Rank, ghost rank': Rank, ghost seen: nat)
    requires Good(table.info, table.cached, rank) && (forall x :: x in table.info ==> table.info[x].seqno <= seen)
    requires trace != [] && RunsUp(table.info, trace) && FreshEntries(table.info, seen, trace)
    requires Acyclic(UpdateAll(table.info, trace), rank')
    modifies table
    ensures table.info == UpdateAll(old(table.info), trace) && Good(table.info, table.cached, rank')
    ensures Stores(old(table.info), trace, table.info)
    ensures forall x :: x in table.info ==> table.info[x].seqno <= Newest(seen, trace)
  {
    ghost var bound := RankBound(UpdateAll(table.info, trace).Keys, rank');
    SeenCovers(table.info, trace, seen);
    table.UpdateSnapTrace(trace, rank, rank', bound, seen);
  }

  /** The tables a list of traces goes through: each trace is stored in the table before it. */
  ghost predicate StoredInTurn(tables: seq<Realms>, traces: seq<seq<Entry>>)
  {
    && |tables| == |traces| + 1
    && forall i :: 0 <= i < |traces| ==> Stores(tables[i], traces[i], tables[i+1])
  }

  lemma {:induction false} ManyStored(info: Realms, seen: nat, traces: seq<seq<Entry>>, ranks: seq<Rank>)
    returns (tables: seq<Realms>)
    requires 0 !in info && Admissible(info, seen, traces, ranks) && forall x :: x in info ==> info[x].seqno <= seen
    ensures StoredInTurn(tables, traces) && tables[0] == info && tables[|traces|] == UpdateMany(info, traces)
    decreases |traces|
  {
    if traces == [] {
      return [info];
    }
    var info', seen' := UpdateAll(info, traces[0]), Newest(seen, traces[0]);
    SeenCovers(info, traces[0], seen);
    UpdateAllStores(info, traces[0], seen);
    var rest := ManyStored(info', seen', traces[1..], ranks[1..]);
    tables := [info] + rest;
    assert tables[|traces|] == rest[|traces| - 1];
    forall i | 0 <= i < |traces|
      ensures Stores(tables[i], traces[i], tables[i+1])
    {
      assert i > 0 ==> tables[i] == rest[i-1] && traces[i] == traces[1..][i-1];
    }
  }

  /** After every list of traces, from the empty table, each realm's cached context is the one defined
      from scratch on the parameters the traces stored in turn. */
  method UpdateTraces(table: RealmTable, traces: seq<seq<Entry>>, ghost ranks: seq<Rank>)
    returns (ghost rank: Rank, ghost tables: seq<Realms>)
    requires table.info == map[] && table.cached == map[] && Admissible(map[], 0, traces, ranks)
    modifies table
    ensures table.info == UpdateMany(map[], traces) && Good(table.info, table.cached, rank)
    ensures StoredInTurn(tables, traces) && tables[0] == map[] && tables[|traces|] == table.info
  {
    tables := ManyStored(map[], 0, traces, ranks);
    rank := UpdateEach(table, traces, ranks);
  }

  method UpdateEach(table: RealmTable, traces: seq<seq<Entry>>, ghost ranks: seq<Rank>) returns (ghost rank: Rank)
    requires table.info == map[] && table.cached == map[] && Admissible(map[], 0, traces, ranks)
    modifies table
    ensures table.info == UpdateMany(map[], traces) && Good(table.info, table.cached, rank)
  {
    rank := map[];
    var todo := traces;
    ghost var left, seen: nat := ranks, 0;
    while todo != []
      invariant Good(table.info, table.cached, rank) && forall x :: x in table.info ==> table.info[x].seqno <= seen
      invariant Admissible(table.info, seen, todo, left)
      invariant UpdateMany(table.info, todo) == UpdateMany(map[], traces)
      decreases |todo|
    {
      UpdateNext(table, todo[0], rank, left[0], seen);
      seen, rank := Newest(seen, todo[0]), left[0];
      todo, left := todo[1..], left[1..];
    }
  }
}
