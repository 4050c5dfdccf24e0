/** Preallocated cap release messages of a session: each release queued takes a slot that was
    set aside earlier, so it always fits. */
module CapReleases {
  import opened Common

  const PAGE := 4096
  const HEAD := 4
  const ITEM := 24

  /** CEPH_CAPS_PER_RELEASE */
  const PER := (PAGE - HEAD) / ITEM

  /** A release message and the number of releases in it. */
  datatype Msg = Msg(id: nat, num: nat)

  /** ceph_add_cap_releases at work: the margin it aims for, the partial message it found, if
      any, and how many releases that held. */
  datatype Adding = Adding(extra: int, partial: Option<nat>, found: nat)

  /** releases, done: s_cap_releases, s_cap_releases_done. free: s_num_cap_releases.
      caps: s_nr_caps. bug: one of the BUG_ONs in __queue_cap_release has fired. */
  datatype Queue = Queue(releases: seq<Msg>, done: seq<Msg>, free: int, caps: nat, adding: Option<Adding>, bug: bool)

  datatype Event =
    | Release
    | CapsChange(caps: nat)
    | AddBegin(safety: nat)
    | AddMsg(id: nat)
    | AddFail
    | AddEnd
    | Send
    | Discard

  // ----- lists of messages -------------------------------------------------

  function Has(s: seq<Msg>, id: nat): (b: bool)
  {
    s != [] && (s[0].id == id || Has(s[1..], id))
  }

  /** The number of releases in the message with this id; a message no longer on the list is full. */
  function NumOf(s: seq<Msg>, id: nat): (n: nat)
  {
    if s == [] then PER else if s[0].id == id then s[0].num else NumOf(s[1..], id)
  }

  function Without(s: seq<Msg>, id: nat): (r: seq<Msg>)
  {
    if s == [] then [] else if s[0].id == id then s[1..] else [s[0]] + Without(s[1..], id)
  }

  predicate Distinct(s: seq<Msg>)
  {
    s == [] || (!Has(s[1..], s[0].id) && Distinct(s[1..]))
  }

  /** Every message on the list has room. */
  predicate Room(s: seq<Msg>)
  {
    s == [] || (s[0].num < PER && Room(s[1..]))
  }

  /** No message on the list is overfull. */
  predicate Legal(s: seq<Msg>)
  {
    s == [] || (s[0].num <= PER && Legal(s[1..]))
  }

  /** Free slots in the messages of the list. */
  function Slots(s: seq<Msg>): (n: int)
  {
    if s == [] then 0 else PER - s[0].num + Slots(s[1..])
  }

  /** Releases recorded in the messages of the list. */
  function Held(s: seq<Msg>): (n: nat)
  {
    if s == [] then 0 else s[0].num + Held(s[1..])
  }

  // ----- steps -------------------------------------------------------------

  /** __queue_cap_release */
  function Take(q: Queue): (r: Queue)
  {
    if q.free == 0 || q.releases == [] || HEAD + q.releases[0].num * ITEM + ITEM > PAGE then q.(bug := true)
    else
      var m := q.releases[0].(num := q.releases[0].num + 1);
      if m.num == PER then q.(releases := q.releases[1..], done := q.done + [m], free := q.free - 1)
      else q.(releases := [m] + q.releases[1..], free := q.free - 1)
  }

  /** discard_cap_releases, first part: empty the message in progress */
  function EmptyFirst(q: Queue): (r: Queue)
  {
    if q.releases == [] then q
    else q.(releases := [q.releases[0].(num := 0)] + q.releases[1..], free := q.free + q.releases[0].num)
  }

  /** second part: empty the finished messages and put them back */
  function Requeue(q: Queue): (r: Queue)
    decreases |q.done|
  {
    if q.done == [] then q
    else Requeue(q.(releases := [q.done[0].(num := 0)] + q.releases, done := q.done[1..],
        free := q.free + q.done[0].num))
  }

  predicate Enabled(q: Queue, e: Event)
  {
    match e
    case Release => q.free != 0
    case CapsChange(_) => true
    case AddBegin(_) => q.adding.None?
    case AddMsg(id) => q.adding.Some? && !Has(q.releases, id) && !Has(q.done, id)
    case AddFail => q.adding.Some?
    case AddEnd => q.adding.Some? && q.free >= q.caps + q.adding.value.extra
    case Send => q.adding.None? && q.done != []
    case Discard => q.adding.None?
  }

  /** The end of ceph_add_cap_releases: hand over the partial message. */
  function Finish(q: Queue): (r: Queue)
    requires q.adding.Some?
  {
    var a := q.adding.value;
    if a.partial.None? then q.(adding := None)
    else
      var num := NumOf(q.releases, a.partial.value);
      q.(releases := Without(q.releases, a.partial.value),
         done := Without(q.done, a.partial.value) + [Msg(a.partial.value, num)],
         free := q.free - (PER - num), adding := None)
  }

  /** The start: a partly filled first message raises the target by its remainder. */
  function Begin(q: Queue, safety: nat): (a: Adding)
  {
    if q.releases != [] && q.releases[0].num > 0 then
      Adding(safety + (PER - q.releases[0].num), Some(q.releases[0].id), q.releases[0].num)
    else Adding(safety, None, 0)
  }

  function Step(q: Queue, e: Event): (r: Queue)
    requires Enabled(q, e)
  {
    match e
    case Release => Take(q)
    case CapsChange(caps) => q.(caps := caps)
    case AddBegin(safety) => q.(adding := Some(Begin(q, safety)))
    case AddMsg(id) => q.(releases := [Msg(id, 0)] + q.releases, free := q.free + PER)
    case AddFail => q.(adding := None)
    case AddEnd => Finish(q)
    case Send => q.(done := q.done[1..])
    case Discard => Requeue(EmptyFirst(q))
  }

  // ----- invariant ---------------------------------------------------------

  ghost predicate PartialOk(q: Queue)
  {
    q.adding.Some? ==>
      var a := q.adding.value;
      if a.partial.None? then a.extra >= 0
      else
        && (Has(q.releases, a.partial.value) || Has(q.done, a.partial.value))
        && a.found <= NumOf(q.releases, a.partial.value) && a.extra >= PER - a.found
        && NumOf(q.done, a.partial.value) == PER    // on done it is full
  }

  ghost predicate Inv(q: Queue)
  {
    && 0 <= q.free <= Slots(q.releases)
    && Room(q.releases) && Legal(q.done) && Distinct(q.releases + q.done)
    && PartialOk(q) && !q.bug
  }

  lemma {:induction false} RoomSlots(s: seq<Msg>)
    requires Room(s)
    ensures Slots(s) >= 0 && (s != [] ==> Slots(s) > 0)
  {
    if s != [] {
      RoomSlots(s[1..]);
    }
  }

  lemma {:induction false} HasAppend(s: seq<Msg>, t: seq<Msg>, id: nat)
    ensures Has(s + t, id) <==> Has(s, id) || Has(t, id)
  {
    if s == [] {
      assert s + t == t;
    } else {
      assert (s + t)[1..] == s[1..] + t;
      HasAppend(s[1..], t, id);
    }
  }

  /** Two lists are distinct together if each is and they share no id. */
  lemma {:induction false} DistinctParts(s: seq<Msg>, t: seq<Msg>)
    ensures Distinct(s + t) <==> Distinct(s) && Distinct(t) && (forall id :: Has(s, id) ==> !Has(t, id))
  {
    if s == [] {
      assert s + t == t;
    } else {
      assert (s + t)[1..] == s[1..] + t;
      DistinctParts(s[1..], t);
      HasAppend(s[1..], t, s[0].id);
      assert Has(s, s[0].id);
      assert forall id :: Has(s, id) <==> id == s[0].id || Has(s[1..], id);
    }
  }

  lemma {:induction false} WithoutFacts(s: seq<Msg>, id: nat)
    requires Distinct(s) && Room(s)
    ensures Slots(Without(s, id)) == Slots(s) - (PER - NumOf(s, id))
    ensures Room(Without(s, id)) && NumOf(s, id) <= PER
  {
    if s != [] && s[0].id != id {
      WithoutFacts(s[1..], id);
      assert Without(s, id)[1..] == Without(s[1..], id);
    }
  }

  lemma {:induction false} WithoutIds(s: seq<Msg>, id: nat)
    requires Distinct(s)
    ensures Distinct(Without(s, id))
    ensures forall x :: Has(Without(s, id), x) <==> Has(s, x) && x != id
  {
    if s != [] {
      WithoutIds(s[1..], id);
      if s[0].id != id {
        assert Without(s, id)[1..] == Without(s[1..], id);
      }
    }
  }

  lemma {:induction false} NumOfMissing(s: seq<Msg>, id: nat)
    requires !Has(s, id)
    ensures NumOf(s, id) == PER
  {
    if s != [] {
      NumOfMissing(s[1..], id);
    }
  }

  lemma {:induction false} NumOfAppend(s: seq<Msg>, m: Msg, id: nat)
    ensures NumOf(s + [m], id) == if Has(s, id) || id != m.id then NumOf(s, id) else m.num
  {
    if s == [] {
      assert s + [m] == [m] && [m][1..] == [];
    } else {
      assert (s + [m])[1..] == s[1..] + [m];
      NumOfAppend(s[1..], m, id);
    }
  }

  lemma {:induction false} LegalChange(s: seq<Msg>, m: Msg, id: nat)
    requires Legal(s) && m.num <= PER
    ensures Legal(s + [m]) && Legal(Without(s, id))
  {
    if s == [] {
      assert (s + [m])[1..] == [];
    } else {
      LegalChange(s[1..], m, id);
      assert (s + [m])[1..] == s[1..] + [m];
      assert s[0].id != id ==> Without(s, id)[1..] == Without(s[1..], id);
    }
  }

  lemma OneDistinct(m: Msg)
    ensures Distinct([m]) && (forall id :: Has([m], id) <==> id == m.id)
  {
    assert [m][1..] == [];
  }

  /** Messages are alike but for the number of releases in the first. */
  lemma FirstChanged(s: seq<Msg>, m: Msg)
    requires s != [] && m.id == s[0].id
    ensures ([m] + s[1..])[1..] == s[1..] && (Distinct([m] + s[1..]) <==> Distinct(s))
    ensures forall id :: Has([m] + s[1..], id) <==> Has(s, id)
  {
    assert ([m] + s[1..])[1..] == s[1..];
  }

  /** Moving one message to the end of the second list keeps the ids distinct. */
  lemma MoveDistinct(s: seq<Msg>, t: seq<Msg>, m: Msg)
    requires Distinct(s + t)
    ensures Distinct(Without(s, m.id) + (Without(t, m.id) + [m]))
  {
    var u, v := Without(s, m.id), Without(t, m.id);
    DistinctParts(s, t);
    WithoutIds(s, m.id);
    WithoutIds(t, m.id);
    OneDistinct(m);
    DistinctParts(v, [m]);
    forall x | Has(u, x) ensures !Has(v + [m], x) {
      HasAppend(v, [m], x);
      assert Has(s, x) && x != m.id && !Has(t, x);
      assert !Has(v, x) && !Has([m], x);
    }
    DistinctParts(u, v + [m]);
  }

  /** A release with a slot set aside always fits. */
  lemma ReleaseInv(q: Queue)
    requires Inv(q) && Enabled(q, Release)
    ensures Inv(Take(q))
  {
    var m := q.releases[0].(num := q.releases[0].num + 1);
    RoomSlots(q.releases[1..]);
    DistinctParts(q.releases, q.done);
    FirstChanged(q.releases, m);
    if m.num == PER {
      assert Without(q.releases, m.id) == q.releases[1..];
      assert Has(q.releases, m.id);
      WithoutMissing(q.done, m.id);
      MoveDistinct(q.releases, q.done, m);
      NumOfMissing(q.releases[1..], m.id);
      LegalChange(q.done, m, m.id);
      forall id ensures NumOf(q.done + [m], id) == if Has(q.done, id) || id != m.id then NumOf(q.done, id) else m.num {
        NumOfAppend(q.done, m, id);
      }
      forall id ensures Has(q.done + [m], id) <==> Has(q.done, id) || id == m.id {
        HasAppend(q.done, [m], id);
        OneDistinct(m);
      }
    } else {
      DistinctParts([m] + q.releases[1..], q.done);
    }
  }

  lemma {:induction false} WithoutMissing(s: seq<Msg>, id: nat)
    requires !Has(s, id)
    ensures Without(s, id) == s
  {
    if s != [] {
      WithoutMissing(s[1..], id);
    }
  }

  lemma AddMsgInv(q: Queue, id: nat)
    requires Inv(q) && Enabled(q, AddMsg(id))
    ensures Inv(Step(q, AddMsg(id)))
  {
    var s := [Msg(id, 0)] + q.releases;
    assert s[1..] == q.releases;
    assert (s + q.done)[1..] == q.releases + q.done;
    HasAppend(q.releases, q.done, id);
  }

  /** A successful ceph_add_cap_releases leaves a slot for every cap and the margin besides. */
  lemma AddEndInv(q: Queue)
    requires Inv(q) && Enabled(q, AddEnd)
    ensures Inv(Step(q, AddEnd))
    ensures var a := q.adding.value;
      Finish(q).free >= q.caps + (if a.partial.Some? then a.extra - (PER - a.found) else a.extra)
  {
    var a := q.adding.value;
    if a.partial.Some? {
      var id := a.partial.value;
      var m := Msg(id, NumOf(q.releases, id));
      DistinctParts(q.releases, q.done);
      WithoutFacts(q.releases, id);
      LegalChange(q.done, m, id);
      LegalChange(Without(q.done, id), m, id);
      MoveDistinct(q.releases, q.done, m);
    }
  }

  lemma BeginInv(q: Queue, safety: nat)
    requires Inv(q) && Enabled(q, AddBegin(safety))
    ensures Inv(Step(q, AddBegin(safety)))
    ensures var a := Begin(q, safety); a.extra == (if a.partial.Some? then safety + (PER - a.found) else safety)
  {
    RoomSlots(q.releases);
    if q.releases != [] {
      DistinctParts(q.releases, q.done);
      assert Has(q.releases, q.releases[0].id);
      NumOfMissing(q.done, q.releases[0].id);
    }
  }

  lemma SendInv(q: Queue)
    requires Inv(q) && Enabled(q, Send)
    ensures Inv(Step(q, Send))
  {
    DistinctParts(q.releases, q.done);
    DistinctParts(q.releases, q.done[1..]);
  }

  lemma {:induction false} RequeueInv(q: Queue)
    requires Inv(q) && q.adding.None?
    ensures Inv(Requeue(q)) && Requeue(q).done == [] && Requeue(q).free >= q.free && Requeue(q).adding.None?
    decreases |q.done|
  {
    if q.done != [] {
      var m := q.done[0].(num := 0);
      DistinctParts(q.releases, q.done);
      assert Has(q.done, q.done[0].id);
      DistinctParts(q.releases, q.done[1..]);
      HasAppend(q.releases, q.done[1..], m.id);
      assert ([m] + q.releases)[1..] == q.releases;
      assert ([m] + q.releases + q.done[1..])[1..] == q.releases + q.done[1..];
      RequeueInv(q.(releases := [m] + q.releases, done := q.done[1..], free := q.free + q.done[0].num));
    }
  }

  /** Discarding on reconnect gives every set-aside slot back. */
  lemma DiscardInv(q: Queue)
    requires Inv(q) && Enabled(q, Discard)
    ensures Inv(Step(q, Discard)) && Step(q, Discard).free >= q.free && Step(q, Discard).done == []
  {
    if q.releases != [] {
      var m := q.releases[0].(num := 0);
      DistinctParts(q.releases, q.done);
      FirstChanged(q.releases, m);
      DistinctParts([m] + q.releases[1..], q.done);
    }
    RequeueInv(EmptyFirst(q));
  }

  lemma StepInv(q: Queue, e: Event)
    requires Inv(q) && Enabled(q, e)
    ensures Inv(Step(q, e))
  {
    match e
    case Release => ReleaseInv(q);
    case CapsChange(_) =>
    case AddBegin(safety) => BeginInv(q, safety);
    case AddMsg(id) => AddMsgInv(q, id);
    case AddFail =>
    case AddEnd => AddEndInv(q);
    case Send => SendInv(q);
    case Discard => DiscardInv(q);
  }

  ghost predicate CanRun(q: Queue, es: seq<Event>)
    decreases |es|
  {
    es == [] || (Enabled(q, es[0]) && CanRun(Step(q, es[0]), es[1..]))
  }

  ghost function Run(q: Queue, es: seq<Event>): (r: Queue)
    requires CanRun(q, es)
    decreases |es|
  {
    if es == [] then q else Run(Step(q, es[0]), es[1..])
  }

  lemma {:induction false} RunInv(q: Queue, es: seq<Event>)
    requires Inv(q) && CanRun(q, es)
    ensures Inv(Run(q, es))
    decreases |es|
  {
    if es != [] {
      StepInv(q, es[0]);
      RunInv(Step(q, es[0]), es[1..]);
    }
  }

  function Init(): (q: Queue)
  {
    Queue([], [], 0, 0, None, false)
  }

  /** In every run: the counter never exceeds the free slots, no message on the list is full,
      and with a nonzero counter a release goes into the first message within its page. */
  lemma EveryRun(es: seq<Event>)
    requires CanRun(Init(), es)
    ensures var q := Run(Init(), es);
      && 0 <= q.free <= Slots(q.releases) && Room(q.releases) && !q.bug
      && (q.free > 0 ==> q.releases != [] && HEAD + (q.releases[0].num + 1) * ITEM <= PAGE && !Take(q).bug)
  {
    RunInv(Init(), es);
    var q := Run(Init(), es);
    if q.free > 0 {
      ReleaseInv(q);
    }
  }

  // ----- where the releases go ---------------------------------------------

  function Total(q: Queue): (n: nat)
  {
    Held(q.releases) + Held(q.done)
  }

  function Messages(q: Queue): (n: nat)
  {
    |q.releases| + |q.done|
  }

  /** The message is the next to be sent after those already handed over. */
  ghost predicate HandedOver(q: Queue, id: nat)
  {
    !Has(q.releases, id) && q.done != [] && q.done[|q.done| - 1].id == id
  }

  /** Releases that a step sends to the MDS. */
  function SentBy(q: Queue, e: Event): (n: nat)
  {
    if e.Send? && q.done != [] then q.done[0].num else 0
  }

  /** Releases that a step throws away: those of the message in progress and of the finished ones. */
  function DroppedBy(q: Queue, e: Event): (n: nat)
  {
    if e.Discard? then Held(q.done) + (if q.releases == [] then 0 else q.releases[0].num) else 0
  }

  /** Slots of handed-over messages that come back without being counted again. */
  function UncountedBy(q: Queue, e: Event): (n: int)
  {
    if e.Discard? then Slots(q.done) else 0
  }

  lemma {:induction false} HeldAppend(s: seq<Msg>, m: Msg)
    ensures Held(s + [m]) == Held(s) + m.num && Slots(s + [m]) == Slots(s) + PER - m.num
  {
    if s == [] {
      assert s + [m] == [m] && [m][1..] == [];
    } else {
      assert (s + [m])[1..] == s[1..] + [m];
      HeldAppend(s[1..], m);
    }
  }

  lemma {:induction false} HeldWithout(s: seq<Msg>, id: nat)
    ensures Held(s) == Held(Without(s, id)) + (if Has(s, id) then NumOf(s, id) else 0)
    ensures |s| == |Without(s, id)| + (if Has(s, id) then 1 else 0)
  {
    if s != [] && s[0].id != id {
      HeldWithout(s[1..], id);
      assert Without(s, id)[1..] == Without(s[1..], id);
    }
  }

  lemma FirstHeld(s: seq<Msg>, n: nat)
    requires s != []
    ensures var t := [s[0].(num := n)] + s[1..];
      Held(t) == Held(s) - s[0].num + n && Slots(t) == Slots(s) + s[0].num - n
  {
    assert ([s[0].(num := n)] + s[1..])[1..] == s[1..];
  }

  /** A release adds one to what the lists hold and uses one slot. */
  lemma TakeHeld(q: Queue)
    requires Inv(q) && q.free != 0
    ensures Total(Take(q)) == Total(q) + 1
    ensures Slots(Take(q).releases) == Slots(q.releases) - 1 && Take(q).free == q.free - 1
  {
    var n := q.releases[0].num + 1;
    RoomSlots(q.releases);
    FirstHeld(q.releases, n);
    HeldAppend(q.done, q.releases[0].(num := n));
  }

  lemma FinishHeld(q: Queue)
    requires Inv(q) && q.adding.Some?
    ensures Total(Finish(q)) == Total(q) && Messages(Finish(q)) == Messages(q)
    ensures q.adding.value.partial.Some? ==> HandedOver(Finish(q), q.adding.value.partial.value)
    ensures Slots(Finish(q).releases) - Finish(q).free == Slots(q.releases) - q.free
  {
    var a := q.adding.value;
    if a.partial.Some? {
      var id := a.partial.value;
      DistinctParts(q.releases, q.done);
      WithoutFacts(q.releases, id);
      WithoutIds(q.releases, id);
      HeldWithout(q.releases, id);
      HeldWithout(q.done, id);
      HeldAppend(Without(q.done, id), Msg(id, NumOf(q.releases, id)));
      if !Has(q.releases, id) {
        NumOfMissing(q.releases, id);
      }
    }
  }

  /** The messages in reverse order, emptied. */
  function Emptied(s: seq<Msg>): (r: seq<Msg>)
    ensures |r| == |s| && forall i :: 0 <= i < |s| ==> r[i] == Msg(s[|s| - 1 - i].id, 0)
  {
    if s == [] then [] else Emptied(s[1..]) + [Msg(s[0].id, 0)]
  }

  /** What the second part of a discard leaves. */
  lemma {:induction false} RequeueIs(q: Queue)
    ensures Requeue(q) == q.(releases := Emptied(q.done) + q.releases, done := [], free := q.free + Held(q.done))
    decreases |q.done|
  {
    if q.done == [] {
      assert Emptied(q.done) + q.releases == q.releases;
    } else {
      var m := Msg(q.done[0].id, 0);
      assert Emptied(q.done) + q.releases == Emptied(q.done[1..]) + ([m] + q.releases);
      RequeueIs(q.(releases := [m] + q.releases, done := q.done[1..], free := q.free + q.done[0].num));
    }
  }

  /** The finished messages are back in front, last one first and all empty; then the message that was
      in progress, emptied; the rest as it was. */
  ghost predicate PutBack(releases: seq<Msg>, done: seq<Msg>, now: seq<Msg>)
  {
    && |now| == |done| + |releases|
    && (forall i :: 0 <= i < |done| ==> now[i] == Msg(done[|done| - 1 - i].id, 0))
    && (releases != [] ==> now[|done|] == Msg(releases[0].id, 0) && now[|done| + 1..] == releases[1..])
  }

  lemma DiscardIs(q: Queue)
    ensures var r := Requeue(EmptyFirst(q));
      && PutBack(q.releases, q.done, r.releases) && r.done == [] && r.caps == q.caps
      && r.free == q.free + DroppedBy(q, Discard)
  {
    var first := EmptyFirst(q).releases;
    RequeueIs(EmptyFirst(q));
    assert q.releases != [] ==> first[0] == Msg(q.releases[0].id, 0) && first[1..] == q.releases[1..];
    assert (Emptied(q.done) + first)[|q.done|..] == first;
  }

  lemma {:induction false} RequeueHeld(q: Queue)
    ensures Total(Requeue(q)) == Held(q.releases)
    ensures Slots(Requeue(q).releases) - Requeue(q).free == Slots(q.releases) + Slots(q.done) - q.free
    decreases |q.done|
  {
    if q.done != [] {
      var m := q.done[0].(num := 0);
      assert ([m] + q.releases)[1..] == q.releases;
      RequeueHeld(q.(releases := [m] + q.releases, done := q.done[1..], free := q.free + q.done[0].num));
    }
  }

  lemma DiscardHeld(q: Queue)
    ensures var r := Requeue(EmptyFirst(q));
      && Total(r) + DroppedBy(q, Discard) == Total(q)
      && Slots(r.releases) - r.free == Slots(q.releases) - q.free + Slots(q.done)
  {
    RequeueHeld(EmptyFirst(q));
    if q.releases != [] {
      FirstHeld(q.releases, 0);
    }
  }

  lemma StepHeld(q: Queue, e: Event)
    requires Inv(q) && Enabled(q, e)
    ensures Total(Step(q, e)) + SentBy(q, e) + DroppedBy(q, e) == Total(q) + if e.Release? then 1 else 0
    ensures Slots(Step(q, e).releases) - Step(q, e).free == Slots(q.releases) - q.free + UncountedBy(q, e)
  {
    match e
    case Release => TakeHeld(q);
    case AddMsg(id) => assert ([Msg(id, 0)] + q.releases)[1..] == q.releases;
    case AddEnd => FinishHeld(q);
    case Discard => DiscardHeld(q);
    case _ =>
  }

  /** Totals over a run. */
  datatype Totals = Totals(released: nat, sent: nat, dropped: nat, uncounted: int)

  ghost function RunTotals(q: Queue, es: seq<Event>): (t: Totals)
    requires CanRun(q, es)
    decreases |es|
  {
    if es == [] then Totals(0, 0, 0, 0) else
    var t := RunTotals(Step(q, es[0]), es[1..]);
    Totals(t.released + (if es[0].Release? then 1 else 0), t.sent + SentBy(q, es[0]),
           t.dropped + DroppedBy(q, es[0]), t.uncounted + UncountedBy(q, es[0]))
  }

  /** In every run each release is still in a message, was sent, or was thrown away by a reconnect; and
      the counter follows the free slots, but for the unfilled part of handed-over messages that a
      reconnect put back. */
  lemma {:induction false} EveryRelease(q: Queue, es: seq<Event>)
    requires Inv(q) && CanRun(q, es)
    ensures var r, t := Run(q, es), RunTotals(q, es);
      && Held(r.releases) + Held(r.done) + t.sent + t.dropped == Held(q.releases) + Held(q.done) + t.released
      && Slots(r.releases) - r.free == Slots(q.releases) - q.free + t.uncounted
    decreases |es|
  {
    if es != [] {
      StepInv(q, es[0]);
      StepHeld(q, es[0]);
      EveryRelease(Step(q, es[0]), es[1..]);
    }
  }

  /** Between the first and the last step of ceph_add_cap_releases only releases, cap counts and
      its own messages change. */
  predicate InAdd(e: Event)
  {
    e.Release? || e.CapsChange? || e.AddMsg?
  }

  ghost predicate AllInAdd(es: seq<Event>)
  {
    es == [] || (InAdd(es[0]) && AllInAdd(es[1..]))
  }

  lemma {:induction false} AddKeepsTarget(q: Queue, es: seq<Event>)
    requires Inv(q) && CanRun(q, es) && AllInAdd(es)
    ensures Inv(Run(q, es)) && Run(q, es).adding == q.adding
    decreases |es|
  {
    if es != [] {
      StepInv(q, es[0]);
      AddKeepsTarget(Step(q, es[0]), es[1..]);
    }
  }

  /** Whatever is released or changes while messages are allocated, a call that succeeds ends
      with a slot for every cap plus the safety margin. */
  lemma AddEnough(q: Queue, safety: nat, es: seq<Event>)
    requires Inv(q) && Enabled(q, AddBegin(safety))
    requires var b := Step(q, AddBegin(safety)); CanRun(b, es) && AllInAdd(es) && Enabled(Run(b, es), AddEnd)
    ensures var end := Step(Run(Step(q, AddBegin(safety)), es), AddEnd);
      Inv(end) && end.free >= end.caps + safety
  {
    BeginInv(q, safety);
    var b := Step(q, AddBegin(safety));
    AddKeepsTarget(b, es);
    AddEndInv(Run(b, es));
  }

  // ----- code --------------------------------------------------------------

  /** What happens while the lock is dropped to allocate one message: releases queued, and the
      number of caps the session then has. */
  datatype Gap = Gap(releases: nat, caps: nat)

  /** An id that no message on the list has. */
  function NextId(s: seq<Msg>): (n: nat)
  {
    if s == [] then 0 else if NextId(s[1..]) <= s[0].id then s[0].id + 1 else NextId(s[1..])
  }

  lemma {:induction false} NextIdFresh(s: seq<Msg>, id: nat)
    requires id >= NextId(s)
    ensures !Has(s, id)
  {
    if s != [] {
      NextIdFresh(s[1..], id);
    }
  }

  lemma PrefixOn(all: seq<Msg>, sent: seq<Msg>, done: seq<Msg>, m: Msg, done': seq<Msg>)
    requires all <= sent + done && done != [] && m == done[0] && done[1..] <= done'
    ensures all <= sent + [m] + done'
  {
    assert sent + done == sent + [m] + done[1..];
    assert sent + [m] + done[1..] <= sent + [m] + done';
  }

  class ReleaseList {
    var releases: seq<Msg>
    var done: seq<Msg>
    var free: int
    var caps: nat
    ghost var adding: Option<Adding>

    ghost function Model(): (q: Queue)
      reads this
    {
      Queue(releases, done, free, caps, adding, false)
    }

    /** __queue_cap_release; its BUG_ONs do not fire */
    method QueueCapRelease()
      requires Inv(Model()) && free != 0
      modifies this
      ensures Model() == Take(old(Model())) && Inv(Model())
      ensures Held(releases) + Held(done) == old(Held(releases) + Held(done)) + 1
      ensures Slots(releases) - free == old(Slots(releases) - free)
      ensures free == old(free) - 1 && caps == old(caps) && adding == old(adding) && old(releases) != []
      ensures var m := old(releases)[0].(num := old(releases)[0].num + 1);
        if m.num == PER then releases == old(releases)[1..] && done == old(done) + [m]
        else releases == [m] + old(releases)[1..] && done == old(done)
    {
      ReleaseInv(Model());
      TakeHeld(Model());
      RoomSlots(releases);
      var m := releases[0].(num := releases[0].num + 1);
      free := free - 1;
      if m.num == PER {
        releases := releases[1..];
        done := done + [m];
      } else {
        releases := [m] + releases[1..];
      }
    }

    /** discard_cap_releases */
    method DiscardCapReleases()
      requires Inv(Model()) && adding.None?
      modifies this
      ensures Model() == Step(old(Model()), Discard) && Inv(Model())
      ensures PutBack(old(releases), old(done), releases) && done == [] && caps == old(caps)
      ensures free == old(free) + DroppedBy(old(Model()), Discard)
    {
      DiscardInv(Model());
      DiscardIs(Model());
      if releases != [] {
        var num := releases[0].num;
        releases := [releases[0].(num := 0)] + releases[1..];
        free := free + num;
      }
      RequeueDone();
    }

    method RequeueDone()
      modifies this
      ensures Model() == Requeue(old(Model()))
    {
      while done != []
        invariant Requeue(Model()) == Requeue(old(Model()))
        decreases |done|
      {
        var m := done[0];
        done := done[1..];
        free := free + m.num;
        releases := [m.(num := 0)] + releases;
      }
    }

    /** ceph_send_cap_releases: hand the finished messages to the connection, oldest first, with others
        at work while the lock is dropped for each. */
    method SendCapReleases(gaps: seq<Gap>) returns (sent: seq<Msg>, ghost queued: nat)
      requires Inv(Model()) && adding.None?
      modifies this
      ensures Inv(Model()) && adding.None? && done == [] && old(done) <= sent
      ensures Held(releases) + Held(sent) == old(Held(releases) + Held(done)) + queued
      ensures Messages(Model()) + |sent| == old(Messages(Model()))
      ensures Slots(releases) - free == old(Slots(releases) - free)
    {
      sent, queued := [], 0;
      var k := 0;
      while done != []
        invariant Inv(Model()) && adding.None? && 0 <= k <= |gaps| && old(done) <= sent + done
        invariant Total(Model()) + Held(sent) == old(Total(Model())) + queued
        invariant Messages(Model()) + |sent| == old(Messages(Model()))
        invariant Slots(releases) - free == old(Slots(releases) - free)
        decreases |gaps| - k, |done|
      {
        var m;
        ghost var more;
        ghost var was := done;
        m, more := SendRound(if k < |gaps| then Some(gaps[k]) else None);
        HeldAppend(sent, m);
        PrefixOn(old(done), sent, was, m, done);
        sent, queued := sent + [m], queued + more;
        if k < |gaps| {
          k := k + 1;
        }
      }
    }

    /** One message, then others at work. */
    method SendRound(gap: Option<Gap>) returns (m: Msg, ghost queued: nat)
      requires Inv(Model()) && Enabled(Model(), Send)
      modifies this
      ensures Inv(Model()) && adding == old(adding) && m == old(done)[0] && old(done)[1..] <= done
      ensures Total(Model()) + m.num == old(Total(Model())) + queued
      ensures Messages(Model()) + 1 == old(Messages(Model()))
      ensures Slots(releases) - free == old(Slots(releases) - free)
      ensures gap.None? ==> |done| < |old(done)|
    {
      m := SendFirst();
      queued := 0;
      if gap.Some? {
        ghost var held := Total(Model());
        Others(gap.value);
        queued := Total(Model()) - held;
      }
    }

    /** One message off the list. */
    method SendFirst() returns (m: Msg)
      requires Inv(Model()) && Enabled(Model(), Send)
      modifies this
      ensures Model() == Step(old(Model()), Send) && Inv(Model())
      ensures m == old(done)[0] && done == old(done)[1..] && releases == old(releases)
      ensures Total(Model()) == old(Total(Model())) - m.num
    {
      SendInv(Model());
      m := done[0];
      done := done[1..];
    }

    /** Others at work while the lock is dropped: each release takes one slot, as long as there is one. */
    method Others(gap: Gap)
      requires Inv(Model())
      modifies this
      ensures Inv(Model()) && adding == old(adding) && caps == gap.caps && old(done) <= done
      ensures free == if gap.releases <= old(free) then old(free) - gap.releases else 0
      ensures Messages(Model()) == old(Messages(Model())) && Slots(releases) - free == old(Slots(releases) - free)
      ensures Total(Model()) - old(Total(Model())) == old(free) - free
    {
      for i := 0 to gap.releases
        invariant Inv(Model()) && adding == old(adding) && old(done) <= done
        invariant free == if i <= old(free) then old(free) - i else 0
        invariant Messages(Model()) == old(Messages(Model())) && Slots(releases) - free == old(Slots(releases) - free)
        invariant Total(Model()) - old(Total(Model())) == old(free) - free
      {
        if free != 0 {
          QueueCapRelease();
        }
      }
      caps := gap.caps;
    }

    /** One message allocated and put on the list. */
    method PushMsg(id: nat)
      requires Inv(Model()) && Enabled(Model(), AddMsg(id))
      modifies this
      ensures Model() == Step(old(Model()), AddMsg(id)) && Inv(Model())
      ensures Total(Model()) == old(Total(Model())) && Messages(Model()) == old(Messages(Model())) + 1
      ensures Slots(releases) - free == old(Slots(releases) - free)
    {
      AddMsgInv(Model(), id);
      StepHeld(Model(), AddMsg(id));
      releases := [Msg(id, 0)] + releases;
      free := free + PER;
    }

    /** The tail of ceph_add_cap_releases. */
    method HandOver(partial: Option<nat>)
      requires Inv(Model()) && Enabled(Model(), AddEnd) && adding.value.partial == partial
      modifies this
      ensures Model() == Step(old(Model()), AddEnd) && Inv(Model())
      ensures Total(Model()) == old(Total(Model())) && Messages(Model()) == old(Messages(Model()))
      ensures Slots(releases) - free == old(Slots(releases) - free)
      ensures partial.Some? ==> HandedOver(Model(), partial.value)
    {
      AddEndInv(Model());
      FinishHeld(Model());
      adding := None;
      if partial.Some? {
        var num := NumOf(releases, partial.value);
        releases := Without(releases, partial.value);
        done := Without(done, partial.value) + [Msg(partial.value, num)];
        free := free - (PER - num);
      }
    }

    /** ceph_add_cap_releases. Each gap stands for one allocation; the one after the last gap
        fails. `added` messages are allocated and `queued` releases come in meanwhile. A call that
        succeeds hands over the partial message it found; one that fails has used every allocation
        and is still short of its target. */
    method AddCapReleases(safety: nat, gaps: seq<Gap>) returns (ok: bool, ghost added: nat, ghost queued: nat)
      requires Inv(Model()) && adding.None?
      modifies this
      ensures Inv(Model()) && adding.None?
      ensures ok ==> free >= caps + safety
      ensures !ok ==> free < caps + Begin(old(Model()), safety).extra && added == |gaps|
      ensures added <= |gaps| && Messages(Model()) == old(Messages(Model())) + added
      ensures Total(Model()) == old(Total(Model())) + queued
      ensures Slots(releases) - free == old(Slots(releases) - free)
      ensures ok && old(releases) != [] && old(releases)[0].num > 0 ==> HandedOver(Model(), old(releases)[0].id)
    {
      BeginInv(Model(), safety);
      var extra, partial: Option<nat> := safety, None;
      if releases != [] && releases[0].num > 0 {
        extra := extra + (PER - releases[0].num);
        partial := Some(releases[0].id);
      }
      adding := Some(Begin(Model(), safety));
      ghost var a := adding;
      var k := 0;
      queued := 0;
      while free < caps + extra
        invariant Inv(Model()) && adding == a && 0 <= k <= |gaps|
        invariant Messages(Model()) == old(Messages(Model())) + k && Total(Model()) == old(Total(Model())) + queued
        invariant Slots(releases) - free == old(Slots(releases) - free)
        decreases |gaps| - k
      {
        if k == |gaps| {
          adding := None;
          return false, k, queued;
        }
        ghost var more := AddOne(gaps[k]);
        queued := queued + more;
        k := k + 1;
      }
      AddEndInv(Model());
      HandOver(partial);
      ok, added := true, k;
    }

    /** One turn of the loop: others at work, then a message allocated. */
    method AddOne(gap: Gap) returns (ghost queued: nat)
      requires Inv(Model()) && adding.Some?
      modifies this
      ensures Inv(Model()) && adding == old(adding)
      ensures Messages(Model()) == old(Messages(Model())) + 1 && Total(Model()) == old(Total(Model())) + queued
      ensures Slots(releases) - free == old(Slots(releases) - free)
      ensures caps == gap.caps && queued == if gap.releases <= old(free) then gap.releases else old(free)
      ensures free == old(free) - queued + PER
    {
      Others(gap);
      var id := if NextId(releases) < NextId(done) then NextId(done) else NextId(releases);
      NextIdFresh(releases, id);
      NextIdFresh(done, id);
      queued := old(free) - free;
      PushMsg(id);
    }
  }
}
