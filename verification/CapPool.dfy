/** The pool of preallocated cap structures: reserve (in two critical sections with allocation
    in between), unreserve, get and put, in any interleaving. */
module CapPool {

  /** A caller's ceph_cap_reservation: idle or holding count, or between the two critical
      sections of ceph_reserve_caps with have caps already set aside. */
  datatype Ctx = Holds(count: nat) | Reserving(need: nat, have: nat)

  /** free is the length of caps_list. lost counts caps that ceph_reserve_caps could not allocate
      but recorded as reserved. bug: a BUG_ON has fired. */
  datatype Pool = Pool(total: int, used: int, reserved: int, avail: int, min: int, free: nat, ctxs: seq<Ctx>,
      lost: nat, bug: bool)

  datatype Event =
    | NewCtx
    | ReserveBegin(c: nat, need: nat)
    | ReserveEnd(c: nat, alloc: nat)
    | Unreserve(c: nat)
    | Get(c: nat)
    | GetUnreserved
    | Put
    | AdjustMin(delta: int)

  /** What the contexts believe they have. */
  function Claimed(cs: seq<Ctx>): (n: nat)
  {
    if cs == [] then 0
    else (match cs[0] case Holds(n) => n case Reserving(_, have) => have) + Claimed(cs[1..])
  }

  predicate Balanced(p: Pool)
  {
    p.total == p.used + p.reserved + p.avail
  }

  /** Callers reserve into an empty context, get from a nonempty one and put caps in use. */
  predicate Enabled(p: Pool, e: Event)
  {
    match e
    case NewCtx => true
    case ReserveBegin(c, _) => c < |p.ctxs| && p.ctxs[c] == Holds(0)
    case ReserveEnd(c, alloc) => c < |p.ctxs| && p.ctxs[c].Reserving? && alloc <= p.ctxs[c].need - p.ctxs[c].have
    case Unreserve(c) => c < |p.ctxs| && p.ctxs[c].Holds?
    case Get(c) => c < |p.ctxs| && p.ctxs[c].Holds? && p.ctxs[c].count > 0
    case GetUnreserved => true
    case Put => p.used > 0
    case AdjustMin(delta) => p.min + delta >= 0
  }

  function Check(p: Pool): (r: Pool)
  {
    if Balanced(p) then p else p.(bug := true)
  }

  function Step(p: Pool, e: Event): (r: Pool)
    requires Enabled(p, e)
  {
    match e
    case NewCtx => p.(ctxs := p.ctxs + [Holds(0)])
    case ReserveBegin(c, need) =>
      var have := if p.avail >= need then need else if p.avail >= 0 then p.avail else 0;
      Check(p.(avail := p.avail - have, reserved := p.reserved + have, ctxs := p.ctxs[c := Reserving(need, have)]))
    case ReserveEnd(c, alloc) =>
      var need, have := p.ctxs[c].need, p.ctxs[c].have;
      Check(p.(total := p.total + alloc, reserved := p.reserved + alloc, free := p.free + alloc,
               ctxs := p.ctxs[c := Holds(need)], lost := p.lost + (need - have - alloc)))
    case Unreserve(c) =>
      var n := p.ctxs[c].count;
      if p.reserved < n then p.(bug := true)
      else Check(p.(reserved := p.reserved - n, avail := p.avail + n, ctxs := p.ctxs[c := Holds(0)]))
    case Get(c) =>
      var n := p.ctxs[c].count;
      if n > p.reserved || p.free == 0 then p.(bug := true)
      else Check(p.(reserved := p.reserved - 1, used := p.used + 1, free := p.free - 1,
          ctxs := p.ctxs[c := Holds(n - 1)]))
    case GetUnreserved => p.(used := p.used + 1, total := p.total + 1)
    case Put =>
      if p.avail >= p.reserved + p.min then Check(p.(used := p.used - 1, total := p.total - 1))
      else Check(p.(used := p.used - 1, avail := p.avail + 1, free := p.free + 1))
    case AdjustMin(delta) => p.(min := p.min + delta)
  }

  // ----- invariant ---------------------------------------------------------

  /** Whatever happened. */
  ghost predicate Inv(p: Pool)
  {
    && Balanced(p) && p.free == p.reserved + p.avail
    && p.used >= 0 && p.reserved >= 0 && p.avail >= 0
  }

  /** The contexts claim what is reserved and what was lost. */
  ghost predicate Accounted(p: Pool)
  {
    Claimed(p.ctxs) == p.reserved + p.lost
  }

  lemma {:induction false} ClaimedAt(cs: seq<Ctx>, c: nat, x: Ctx)
    requires c < |cs|
    ensures Claimed(cs[c := x]) == Claimed(cs) - Claimed([cs[c]]) + Claimed([x])
    ensures Claimed([cs[c]]) <= Claimed(cs)
  {
    assert [x][1..] == [] && [cs[c]][1..] == [];
    if c == 0 {
      assert cs[0 := x][1..] == cs[1..];
    } else {
      assert cs[c := x][1..] == cs[1..][c - 1 := x];
      ClaimedAt(cs[1..], c - 1, x);
    }
  }

  lemma {:induction false} ClaimedNew(cs: seq<Ctx>)
    ensures Claimed(cs + [Holds(0)]) == Claimed(cs)
  {
    if cs == [] {
      assert (cs + [Holds(0)])[1..] == [];
    } else {
      assert (cs + [Holds(0)])[1..] == cs[1..] + [Holds(0)];
      ClaimedNew(cs[1..]);
    }
  }

  lemma One(x: Ctx)
    ensures Claimed([x]) == match x case Holds(n) => n case Reserving(_, have) => have
  {
    assert [x][1..] == [];
  }

  /** The pool's own counters always balance, and the free list is as long as they say. */
  lemma StepInv(p: Pool, e: Event)
    requires Inv(p) && Enabled(p, e)
    ensures Inv(Step(p, e))
  {
  }

  /** While no allocation has failed, no BUG_ON fires: a get from a nonempty reservation finds a
      cap on the list. */
  lemma StepSafe(p: Pool, e: Event)
    requires Inv(p) && Accounted(p) && Enabled(p, e)
    ensures !Step(p, e).bug ==> Accounted(Step(p, e))
    ensures p.lost == 0 && !p.bug ==> !Step(p, e).bug
  {
    match e
    case NewCtx => ClaimedNew(p.ctxs);
    case ReserveBegin(c, need) =>
      ClaimedAt(p.ctxs, c, Step(p, e).ctxs[c]);
      One(p.ctxs[c]);
      One(Step(p, e).ctxs[c]);
    case ReserveEnd(c, alloc) =>
      ClaimedAt(p.ctxs, c, Holds(p.ctxs[c].need));
      One(p.ctxs[c]);
      One(Holds(p.ctxs[c].need));
    case Unreserve(c) =>
      ClaimedAt(p.ctxs, c, Holds(0));
      One(p.ctxs[c]);
      One(Holds(0));
    case Get(c) =>
      ClaimedAt(p.ctxs, c, Holds(p.ctxs[c].count - 1));
      One(p.ctxs[c]);
      One(Holds(p.ctxs[c].count - 1));
    case GetUnreserved =>
    case Put =>
    case AdjustMin(_) =>
  }

  ghost predicate CanRun(p: Pool, es: seq<Event>)
    decreases |es|
  {
    es == [] || (Enabled(p, es[0]) && CanRun(Step(p, es[0]), es[1..]))
  }

  ghost function Run(p: Pool, es: seq<Event>): (r: Pool)
    requires CanRun(p, es)
    decreases |es|
  {
    if es == [] then p else Run(Step(p, es[0]), es[1..])
  }

  /** ceph_caps_init */
  predicate Empty(p: Pool)
  {
    && p.total == 0 && p.used == 0 && p.reserved == 0 && p.avail == 0 && p.min == 0 && p.free == 0
    && |p.ctxs| == 0 && p.lost == 0 && !p.bug
  }

  lemma EmptyInv(p: Pool)
    requires Empty(p)
    ensures Inv(p) && Accounted(p)
  {
  }

  /** In every run the counters balance and the free list has reserved + available caps … */
  lemma {:induction false} RunBalanced(p: Pool, es: seq<Event>)
    requires Inv(p) && CanRun(p, es)
    ensures Inv(Run(p, es))
    decreases |es|
  {
    if es != [] {
      StepInv(p, es[0]);
      RunBalanced(Step(p, es[0]), es[1..]);
    }
  }

  /** Counters of lost caps and fired checks only grow. */
  lemma {:induction false} LostGrows(p: Pool, es: seq<Event>)
    requires CanRun(p, es)
    ensures p.lost <= Run(p, es).lost && (p.bug ==> Run(p, es).bug)
    decreases |es|
  {
    if es != [] {
      LostGrows(Step(p, es[0]), es[1..]);
    }
  }

  /** … and if no allocation failed the contexts sum to the reserved count and no check fires. */
  lemma {:induction false} RunSafe(p: Pool, es: seq<Event>)
    requires Inv(p) && Accounted(p) && !p.bug && CanRun(p, es) && Run(p, es).lost == 0
    ensures !Run(p, es).bug && Claimed(Run(p, es).ctxs) == Run(p, es).reserved
    decreases |es|
  {
    LostGrows(p, es);
    if es != [] {
      StepInv(p, es[0]);
      StepSafe(p, es[0]);
      RunSafe(Step(p, es[0]), es[1..]);
    }
  }

  /** So a context with something in it finds a cap on the list. */
  lemma GetFinds(p: Pool, c: nat)
    requires Inv(p) && Claimed(p.ctxs) == p.reserved && Enabled(p, Get(c))
    ensures p.ctxs[c].count <= p.reserved && p.free > 0
  {
    ClaimedAt(p.ctxs, c, Holds(0));
    One(p.ctxs[c]);
  }

  /** The reservation of a context is backed exactly if none of its allocations failed. */
  lemma BackedExactly(p: Pool, c: nat, alloc: nat)
    requires Inv(p) && Claimed(p.ctxs) == p.reserved && Enabled(p, ReserveEnd(c, alloc))
    ensures Claimed(Step(p, ReserveEnd(c, alloc)).ctxs) == Step(p, ReserveEnd(c, alloc)).reserved <==>
      alloc == p.ctxs[c].need - p.ctxs[c].have
  {
    ClaimedAt(p.ctxs, c, Holds(p.ctxs[c].need));
    One(p.ctxs[c]);
    One(Holds(p.ctxs[c].need));
  }

  /** One failed allocation, and a get from the reservation it filled finds nothing. */
  lemma FailedAllocation(p: Pool)
    requires Empty(p.(ctxs := [])) && p.ctxs == [Holds(0)]
    ensures var q := Step(Step(p, ReserveBegin(0, 1)), ReserveEnd(0, 0)); Enabled(q, Get(0)) && Step(q, Get(0)).bug
  {
    var q := Step(p, ReserveBegin(0, 1));
    assert q.ctxs == [Reserving(1, 0)];
    assert Step(q, ReserveEnd(0, 0)).ctxs == [Holds(1)];
  }

  // ----- code --------------------------------------------------------------

  /** The caps_* fields of struct ceph_mds_client, with the callers' reservations. */
  class CapsList {
    var total: int
    var used: int
    var reserved: int
    var avail: int
    var min: int
    var free: nat
    var ctxs: seq<Ctx>
    ghost var lost: nat

    ghost function Model(): (p: Pool)
      reads this
    {
      Pool(total, used, reserved, avail, min, free, ctxs, lost, false)
    }

    /** first critical section of ceph_reserve_caps */
    method SetAside(c: nat, need: nat) returns (have: nat)
      requires Inv(Model()) && Enabled(Model(), ReserveBegin(c, need))
      modifies this
      ensures Model() == Step(old(Model()), ReserveBegin(c, need)) && Inv(Model())
      ensures ctxs == old(ctxs)[c := Reserving(need, have)] && have <= need && (have < need ==> avail == 0)
      ensures avail == old(avail) - have && reserved == old(reserved) + have && free == old(free)
    {
      have := if avail >= need then need else avail;
      avail := avail - have;
      reserved := reserved + have;
      ctxs := ctxs[c := Reserving(need, have)];
    }

    /** The allocation loop between the sections; works says which allocations succeed. */
    method Allocate(have: nat, need: nat, works: seq<bool>) returns (alloc: nat)
      requires have <= need && |works| == need - have
      ensures alloc <= need - have && (forall k :: 0 <= k < alloc ==> works[k])
      ensures alloc < need - have ==> !works[alloc]
    {
      alloc := 0;
      for i := have to need
        invariant alloc == i - have && (forall k :: 0 <= k < alloc ==> works[k])
      {
        if !works[alloc] {
          break;
        }
        alloc := alloc + 1;
      }
    }

    /** second critical section, and the count left in the context */
    method AddNew(c: nat, alloc: nat)
      requires Inv(Model()) && Enabled(Model(), ReserveEnd(c, alloc))
      modifies this
      ensures Model() == Step(old(Model()), ReserveEnd(c, alloc)) && Inv(Model())
      ensures ctxs == old(ctxs)[c := Holds(old(ctxs)[c].need)] && free == old(free) + alloc
      ensures reserved == old(reserved) + alloc && avail == old(avail) && used == old(used)
    {
      var need, have := ctxs[c].need, ctxs[c].have;
      total := total + alloc;
      reserved := reserved + alloc;
      free := free + alloc;
      ctxs := ctxs[c := Holds(need)];
      lost := lost + (need - have - alloc);
    }

    /** ceph_unreserve_caps */
    method UnreserveCaps(c: nat)
      requires Inv(Model()) && Accounted(Model()) && lost == 0 && Enabled(Model(), Unreserve(c))
      modifies this
      ensures Model() == Step(old(Model()), Unreserve(c)) && Inv(Model()) && Accounted(Model())
      ensures ctxs == old(ctxs)[c := Holds(0)] && avail == old(avail) + old(ctxs)[c].count && used == old(used)
    {
      StepSafe(Model(), Unreserve(c));
      var n := ctxs[c].count;
      if n != 0 {
        reserved := reserved - n;
        avail := avail + n;
        ctxs := ctxs[c := Holds(0)];
      }
    }

    /** ceph_get_cap with a context: its BUG_ONs do not fire */
    method GetCap(c: nat)
      requires Inv(Model()) && Accounted(Model()) && lost == 0 && Enabled(Model(), Get(c))
      modifies this
      ensures Model() == Step(old(Model()), Get(c)) && Inv(Model()) && Accounted(Model())
      ensures free == old(free) - 1 && used == old(used) + 1 && total == old(total) && avail == old(avail)
      ensures ctxs == old(ctxs)[c := Holds(old(ctxs)[c].count - 1)]
    {
      StepSafe(Model(), Get(c));
      GetFinds(Model(), c);
      ctxs := ctxs[c := Holds(ctxs[c].count - 1)];
      reserved := reserved - 1;
      used := used + 1;
      free := free - 1;
    }

    /** ceph_put_cap: the cap goes back to the list exactly if fewer are available than are reserved
        plus the minimum, and is freed otherwise. */
    method PutCap()
      requires Inv(Model()) && Enabled(Model(), Put)
      modifies this
      ensures Model() == Step(old(Model()), Put) && Inv(Model())
      ensures used == old(used) - 1 && reserved == old(reserved) && ctxs == old(ctxs) && min == old(min)
      ensures total == old(total) <==> old(avail) < reserved + min
      ensures free - old(free) == avail - old(avail) == 1 - (old(total) - total)
    {
      used := used - 1;
      if avail >= reserved + min {
        total := total - 1;
      } else {
        avail := avail + 1;
        free := free + 1;
      }
    }
  }
}
