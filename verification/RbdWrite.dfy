/** Layered writes: direct, after a stat, or via copyup, with any number of
    object requests in flight and every interleaving of their steps. */
module RbdWrite {
  import opened Common
  import opened RbdImage

  /** Where an object write request is. The OSD executes an operation at some
      point between its submission and its reply. */
  datatype Phase =
    | Idle
    | StatPending                        // stat sent, not executed yet
    | StatDone(found: bool)              // stat executed, reply under way
    | DirectPending                      // plain write sent
    | ParentPending                      // reading the parent's copy of the object
    | CopyupPending(pdata: seq<Byte>)    // copyup + write sent
    | Done

  datatype WriteReq = WriteReq(imgOffset: nat, data: seq<Byte>, phase: Phase)

  /** The clone, its write requests, and the order in which their writes took effect. */
  datatype State = State(img: Image, reqs: map<nat, WriteReq>, log: seq<nat>)

  datatype Event =
    | Submit(r: nat)                     // rbd_img_obj_request_submit, first time
    | OsdStat(r: nat)
    | ExistsCallback(r: nat)             // rbd_img_obj_exists_callback
    | ParentReadFull(r: nat, pdata: seq<Byte>)
    | OsdWrite(r: nat)
    | OsdCopyup(r: nat)

  function Extent(img: Image, w: WriteReq): (q: ObjRequest)
  {
    ObjRequest(SegmentNo(ObjBytes(img), w.imgOffset), SegmentOffset(ObjBytes(img), w.imgOffset), |w.data|, w.imgOffset)
  }

  function ObjStart(img: Image, p: nat): (s: nat)
    ensures s <= p < s + ObjBytes(img)
  {
    p - SegmentOffset(ObjBytes(img), p)
  }

  predicate Layered(img: Image)
  {
    img.parent.Parent? && img.parent.overlap > 0
  }

  function RoundUp(size: nat, x: nat): (r: nat)
    requires size > 0
    ensures x <= r < x + size && SegmentOffset(size, r) == 0
  {
    var o := SegmentOffset(size, x);
    if o == 0 then x else NextObject(size, x); x + (size - o)
  }

  predicate OverlapsParent(img: Image, w: WriteReq)
    requires img.parent.Parent?
  {
    w.imgOffset < RoundUp(ObjBytes(img), img.parent.overlap)
  }

  predicate WholeObject(img: Image, w: WriteReq)
  {
    Extent(img, w).offset == 0 && |w.data| == ObjBytes(img)
  }

  /** img_obj_request_simple, for a write. */
  predicate Simple(img: Image, w: WriteReq, known: bool, exists_: bool)
  {
    || !Layered(img)
    || !OverlapsParent(img, w)
    || WholeObject(img, w)
    || (known && exists_)
  }

  /** How much of the object the parent has: clipped at the overlap. */
  function ParentLength(img: Image, w: WriteReq): (n: nat)
    requires img.parent.Parent?
  {
    var start := ObjStart(img, w.imgOffset);
    if start + ObjBytes(img) <= img.parent.overlap then ObjBytes(img)
    else if start < img.parent.overlap then img.parent.overlap - start
    else 0
  }

  /** An OSD write of an extent: zero fill up to it, keep what lies beyond it. */
  function WriteExtent(d: seq<Byte>, off: nat, data: seq<Byte>): (r: seq<Byte>)
    ensures |r| == if |d| >= off + |data| then |d| else off + |data|
    ensures forall i: nat :: PadByte(r, i) == if off <= i < off + |data| then data[i - off] else PadByte(d, i)
  {
    var n := if |d| >= off + |data| then |d| else off + |data|;
    seq(n, i requires 0 <= i < n => if off <= i < off + |data| then data[i - off] else PadByte(d, i))
  }

  function Existing(img: Image, n: nat): (d: seq<Byte>)
  {
    if n in img.objects then img.objects[n] else []
  }

  /** A write that takes effect on top of `base`. */
  function Commit(img: Image, w: WriteReq, base: seq<Byte>): (img': Image)
  {
    var q := Extent(img, w);
    img.(objects := img.objects[q.objectNo := WriteExtent(base, q.offset, w.data)])
  }

  ghost predicate Enabled(s: State, ev: Event)
  {
    && ev.r in s.reqs
    && var w := s.reqs[ev.r];
       match ev
       case Submit(_) => w.phase == Idle
       case OsdStat(_) => w.phase == StatPending
       case ExistsCallback(_) => w.phase.StatDone?
       case ParentReadFull(_, pdata) =>
         && w.phase == ParentPending && Layered(s.img)
         && |pdata| == ParentLength(s.img, w) && Shows(s.img.parent.image, ObjStart(s.img, w.imgOffset), pdata)
       case OsdWrite(_) => w.phase == DirectPending
       case OsdCopyup(_) => w.phase.CopyupPending?
  }

  function Move(s: State, r: nat, phase: Phase): (s': State)
    requires r in s.reqs
  {
    s.(reqs := s.reqs[r := s.reqs[r].(phase := phase)])
  }

  /** One atomic step. */
  function Apply(s: State, ev: Event): (s': State)
    requires ev.r in s.reqs
  {
    var w := s.reqs[ev.r];
    match ev
    case Submit(r) =>
      Move(s, r, if Simple(s.img, w, false, false) then DirectPending else StatPending)
    case OsdStat(r) =>
      Move(s, r, StatDone(Extent(s.img, w).objectNo in s.img.objects))
    case ExistsCallback(r) =>
      Move(s, r, if Simple(s.img, w, true, w.phase.StatDone? && w.phase.found) then DirectPending else ParentPending)
    case ParentReadFull(r, pdata) =>
      Move(s, r, CopyupPending(pdata))
    case OsdWrite(r) =>
      Move(s, r, Done).(img := Commit(s.img, w, Existing(s.img, Extent(s.img, w).objectNo)), log := s.log + [r])
    case OsdCopyup(r) =>
      var n := Extent(s.img, w).objectNo;
      var base := if n in s.img.objects || !w.phase.CopyupPending? then Existing(s.img, n) else w.phase.pdata;
      Move(s, r, Done).(img := Commit(s.img, w, base), log := s.log + [r])
  }

  // ----- invariant ---------------------------------------------------------

  /** A request belongs to one object, and what it believes about that object is still true. */
  ghost predicate ReqOk(img: Image, w: WriteReq)
  {
    && InOneObject(ObjBytes(img), Extent(img, w))
    && var present := Extent(img, w).objectNo in img.objects;
       match w.phase
       case StatDone(found) => found ==> present
       case DirectPending => Simple(img, w, true, present)
       case ParentPending => Layered(img) && OverlapsParent(img, w)
       case CopyupPending(pdata) =>
         && Layered(img) && OverlapsParent(img, w)
         && |pdata| == ParentLength(img, w) && Shows(img.parent.image, ObjStart(img, w.imgOffset), pdata)
       case _ => true
  }

  ghost predicate Inv(s: State)
  {
    && Valid(s.img)
    && (forall r :: r in s.reqs ==> ReqOk(s.img, s.reqs[r]))
    && (forall r :: r in s.reqs ==> multiset(s.log)[r] == if s.reqs[r].phase == Done then 1 else 0)
    && (forall r :: r in s.log ==> r in s.reqs)
  }

  ghost predicate Init(s: State)
  {
    && Valid(s.img) && s.log == []
    && forall r :: r in s.reqs ==> s.reqs[r].phase == Idle && InOneObject(ObjBytes(s.img), Extent(s.img, s.reqs[r]))
  }

  // ----- object arithmetic -------------------------------------------------

  /** Rounding the overlap up is asking whether the object starts below the overlap. */
  lemma {:induction false} RoundUpIsObjStart(size: nat, overlap: nat, x: nat)
    requires size > 0
    ensures x < RoundUp(size, overlap) <==> x - SegmentOffset(size, x) < overlap
    decreases x
  {
    if x >= size && overlap >= size {
      RoundUpIsObjStart(size, overlap - size, x - size);
    }
  }

  lemma SameStart(img: Image, p: nat, x: nat)
    requires SegmentNo(ObjBytes(img), p) == SegmentNo(ObjBytes(img), x)
    ensures ObjStart(img, p) == ObjStart(img, x)
  {
    SegmentIsDivMod(ObjBytes(img), p);
    SegmentIsDivMod(ObjBytes(img), x);
  }

  /** Image byte `p` after the write `w`, given that it was `before`. */
  ghost function Overlay(w: WriteReq, p: nat, before: Byte): (b: Byte)
  {
    if w.imgOffset <= p < w.imgOffset + |w.data| then w.data[p - w.imgOffset] else before
  }

  /** `base` is a faithful copy of the object as the image shows it, off the written range. */
  ghost predicate BaseOk(img: Image, w: WriteReq, base: seq<Byte>)
  {
    forall p: nat :: SegmentNo(ObjBytes(img), p) == Extent(img, w).objectNo && !Covers(Extent(img, w), p)
      ==> PadByte(base, SegmentOffset(ObjBytes(img), p)) == View(img, p)
  }

  /** Committing onto a faithful base changes exactly the written range of the view. */
  lemma CommitView(img: Image, w: WriteReq, base: seq<Byte>, p: nat)
    requires InOneObject(ObjBytes(img), Extent(img, w)) && BaseOk(img, w, base)
    ensures View(Commit(img, w, base), p) == Overlay(w, p, View(img, p))
  {
    var q := Extent(img, w);
    if SegmentNo(ObjBytes(img), p) == q.objectNo {
      SameStart(img, p, w.imgOffset);
    } else if Covers(q, p) {
      SameObject(ObjBytes(img), w.imgOffset, p - w.imgOffset);
    }
  }

  lemma DirectBase(img: Image, w: WriteReq)
    requires ReqOk(img, w) && w.phase == DirectPending
    ensures BaseOk(img, w, Existing(img, Extent(img, w).objectNo))
  {
    var q := Extent(img, w);
    if q.objectNo !in img.objects {
      forall p: nat | SegmentNo(ObjBytes(img), p) == q.objectNo && !Covers(q, p)
        ensures View(img, p) == 0
      {
        SameStart(img, p, w.imgOffset);
        if Layered(img) {
          RoundUpIsObjStart(ObjBytes(img), img.parent.overlap, w.imgOffset);
        }
      }
    }
  }

  lemma CopyupBase(img: Image, w: WriteReq)
    requires ReqOk(img, w) && w.phase.CopyupPending? && Extent(img, w).objectNo !in img.objects
    ensures BaseOk(img, w, w.phase.pdata)
  {
    var q, pdata := Extent(img, w), w.phase.pdata;
    RoundUpIsObjStart(ObjBytes(img), img.parent.overlap, w.imgOffset);
    forall p: nat | SegmentNo(ObjBytes(img), p) == q.objectNo
      ensures PadByte(pdata, SegmentOffset(ObjBytes(img), p)) == View(img, p)
    {
      SameStart(img, p, w.imgOffset);
      var i := SegmentOffset(ObjBytes(img), p);
      if i < |pdata| {
        assert pdata[i] == View(img.parent.image, ObjStart(img, w.imgOffset) + i);
      }
    }
  }

  lemma CommitKeeps(img: Image, w: WriteReq, base: seq<Byte>, v: WriteReq)
    requires Valid(img) && ReqOk(img, v) && InOneObject(ObjBytes(img), Extent(img, w)) && |base| <= ObjBytes(img)
    ensures Valid(Commit(img, w, base)) && ReqOk(Commit(img, w, base), v)
  {
  }

  // ----- every step --------------------------------------------------------

  predicate Commits(ev: Event)
  {
    ev.OsdWrite? || ev.OsdCopyup?
  }

  function CommitBase(s: State, ev: Event): (base: seq<Byte>)
    requires ev.r in s.reqs
  {
    var w := s.reqs[ev.r];
    var n := Extent(s.img, w).objectNo;
    if n in s.img.objects || !w.phase.CopyupPending? then Existing(s.img, n) else w.phase.pdata
  }

  lemma BaseFits(s: State, ev: Event)
    requires Inv(s) && Enabled(s, ev) && Commits(ev)
    ensures BaseOk(s.img, s.reqs[ev.r], CommitBase(s, ev)) && |CommitBase(s, ev)| <= ObjBytes(s.img)
  {
    var w := s.reqs[ev.r];
    if ev.OsdWrite? {
      DirectBase(s.img, w);
    } else if Extent(s.img, w).objectNo !in s.img.objects {
      CopyupBase(s.img, w);
    }
  }

  /** A step either leaves every byte of the image alone, or is the write of one
      request taking effect and changes exactly that request's range. */
  lemma StepView(s: State, ev: Event, p: nat)
    requires Inv(s) && Enabled(s, ev)
    ensures View(Apply(s, ev).img, p)
         == if Commits(ev) then Overlay(s.reqs[ev.r], p, View(s.img, p)) else View(s.img, p)
  {
    if Commits(ev) {
      BaseFits(s, ev);
      CommitView(s.img, s.reqs[ev.r], CommitBase(s, ev), p);
      assert Apply(s, ev).img == Commit(s.img, s.reqs[ev.r], CommitBase(s, ev));
    }
  }

  lemma MoveOk(s: State, ev: Event)
    requires Inv(s) && Enabled(s, ev)
    ensures ReqOk(s.img, Apply(s, ev).reqs[ev.r])
  {
  }

  lemma StepReqs(s: State, ev: Event)
    requires Inv(s) && Enabled(s, ev)
    ensures Valid(Apply(s, ev).img)
    ensures forall r :: r in s.reqs ==> ReqOk(Apply(s, ev).img, Apply(s, ev).reqs[r])
  {
    var s' := Apply(s, ev);
    MoveOk(s, ev);
    if Commits(ev) {
      BaseFits(s, ev);
      forall r | r in s.reqs
        ensures Valid(s'.img) && ReqOk(s'.img, s'.reqs[r])
      {
        assert s'.img == Commit(s.img, s.reqs[ev.r], CommitBase(s, ev));
        CommitKeeps(s.img, s.reqs[ev.r], CommitBase(s, ev), s'.reqs[r]);
      }
    }
  }

  lemma StepInv(s: State, ev: Event)
    requires Inv(s) && Enabled(s, ev)
    ensures Inv(Apply(s, ev))
  {
    StepReqs(s, ev);
    StepLog(s, ev);
  }

  // ----- whole runs --------------------------------------------------------

  ghost function Exec(s: State, evs: seq<Event>): (s': State)
    requires Legal(s, evs)
    decreases |evs|
  {
    if evs == [] then s else Exec(Apply(s, evs[0]), evs[1..])
  }

  ghost predicate Legal(s: State, evs: seq<Event>)
    decreases |evs|
  {
    evs == [] || (Enabled(s, evs[0]) && Legal(Apply(s, evs[0]), evs[1..]))
  }

  ghost predicate SameWrites(a: map<nat, WriteReq>, b: map<nat, WriteReq>)
  {
    a.Keys == b.Keys && forall r :: r in a ==> a[r].imgOffset == b[r].imgOffset && a[r].data == b[r].data
  }

  /** Byte `p` after the logged writes, in the order in which they took effect. */
  ghost function Replay(reqs: map<nat, WriteReq>, log: seq<nat>, p: nat, before: Byte): (b: Byte)
    requires forall r :: r in log ==> r in reqs
  {
    if log == [] then before
    else Overlay(reqs[log[|log|-1]], p, Replay(reqs, log[..|log|-1], p, before))
  }

  lemma {:induction false} ReplaySame(a: map<nat, WriteReq>, b: map<nat, WriteReq>, log: seq<nat>, p: nat, before: Byte)
    requires SameWrites(a, b) && forall r :: r in log ==> r in a
    ensures Replay(a, log, p, before) == Replay(b, log, p, before)
  {
    if log != [] {
      ReplaySame(a, b, log[..|log|-1], p, before);
    }
  }

  lemma StepLog(s: State, ev: Event)
    requires ev.r in s.reqs
    ensures SameWrites(s.reqs, Apply(s, ev).reqs)
    ensures Apply(s, ev).log == if Commits(ev) then s.log + [ev.r] else s.log
  {
  }

  lemma StepReplay(s: State, ev: Event, p: nat, before: Byte)
    requires Inv(s) && Enabled(s, ev)
    requires View(s.img, p) == Replay(s.reqs, s.log, p, before)
    ensures forall r :: r in Apply(s, ev).log ==> r in Apply(s, ev).reqs
    ensures View(Apply(s, ev).img, p) == Replay(Apply(s, ev).reqs, Apply(s, ev).log, p, before)
  {
    StepLog(s, ev);
    StepView(s, ev, p);
    ReplayMore(s.reqs, Apply(s, ev).reqs, s.log, ev.r, p, before);
  }

  lemma ReplayMore(a: map<nat, WriteReq>, b: map<nat, WriteReq>, log: seq<nat>, r: nat, p: nat, before: Byte)
    requires SameWrites(a, b) && (forall x :: x in log ==> x in a) && r in a
    ensures Replay(b, log, p, before) == Replay(a, log, p, before)
    ensures Replay(b, log + [r], p, before) == Overlay(a[r], p, Replay(a, log, p, before))
  {
    ReplaySame(a, b, log, p, before);
    assert (log + [r])[..|log|] == log;
  }

  /** In every run, whatever the interleaving, the image is the initial image with
      the committed writes applied in commit order, and each finished request was
      committed exactly once (an unfinished one not at all). */
  lemma {:induction false} RunView(s: State, evs: seq<Event>, p: nat, before: Byte)
    requires Inv(s) && Legal(s, evs)
    requires View(s.img, p) == Replay(s.reqs, s.log, p, before)
    ensures Inv(Exec(s, evs)) && SameWrites(s.reqs, Exec(s, evs).reqs)
    ensures View(Exec(s, evs).img, p) == Replay(Exec(s, evs).reqs, Exec(s, evs).log, p, before)
    decreases |evs|
  {
    if evs != [] {
      StepInv(s, evs[0]);
      StepLog(s, evs[0]);
      StepReplay(s, evs[0], p, before);
      RunView(Apply(s, evs[0]), evs[1..], p, before);
    }
  }

  lemma RunFromInit(s: State, evs: seq<Event>, p: nat)
    requires Init(s) && Legal(s, evs)
    ensures Inv(Exec(s, evs)) && SameWrites(s.reqs, Exec(s, evs).reqs)
    ensures View(Exec(s, evs).img, p) == Replay(Exec(s, evs).reqs, Exec(s, evs).log, p, View(s.img, p))
  {
    RunView(s, evs, p, View(s.img, p));
  }

  // ----- one image write, cut into object writes ---------------------------

  lemma {:induction false} CoverWitness(reqs: seq<ObjRequest>, p: nat) returns (i: nat)
    requires CoverCount(reqs, p) > 0
    ensures i < |reqs| && Covers(reqs[i], p)
  {
    if Covers(reqs[0], p) {
      i := 0;
    } else {
      i := CoverWitness(reqs[1..], p);
      i := i + 1;
    }
  }

  lemma {:induction false} CoverCounted(reqs: seq<ObjRequest>, p: nat, i: nat)
    requires i < |reqs| && Covers(reqs[i], p)
    ensures CoverCount(reqs, p) > 0
  {
    if i > 0 {
      CoverCounted(reqs[1..], p, i - 1);
    }
  }

  /** The requests are the pieces of one image write of `data` at `off`. */
  ghost predicate PiecesOf(size: nat, reqs: map<nat, WriteReq>, off: nat, data: seq<Byte>)
    requires size > 0
  {
    var pieces := Split(size, off, |data|);
    && (forall r :: r in reqs <==> r < |pieces|)
    && forall r :: 0 <= r < |pieces| ==> IsPiece(reqs[r], pieces[r], off, data)
  }

  ghost predicate IsPiece(w: WriteReq, q: ObjRequest, off: nat, data: seq<Byte>)
  {
    && w.imgOffset == q.imgOffset && |w.data| == q.length
    && forall p: nat :: Covers(q, p) && off <= p < off + |data| ==> w.data[p - q.imgOffset] == data[p - off]
  }

  predicate WritesAt(w: WriteReq, p: nat, v: Byte)
  {
    w.imgOffset <= p < w.imgOffset + |w.data| && w.data[p - w.imgOffset] == v
  }

  /** If every request that covers `p` writes `v` there, replay yields `v` once one of
      them is in the log, and the old byte otherwise. */
  lemma {:induction false} ReplayAgrees(reqs: map<nat, WriteReq>, log: seq<nat>, p: nat, before: Byte, v: Byte)
    requires forall r :: r in log ==> r in reqs
    requires forall r, b: Byte {:trigger Overlay(reqs[r], p, b)} :: r in reqs ==>
        Overlay(reqs[r], p, b) == v || Overlay(reqs[r], p, b) == b
    ensures Replay(reqs, log, p, before) == v || Replay(reqs, log, p, before) == before
    ensures (exists r :: r in log && WritesAt(reqs[r], p, v)) ==> Replay(reqs, log, p, before) == v
  {
    if log != [] {
      ReplayAgrees(reqs, log[..|log|-1], p, before, v);
      assert log == log[..|log|-1] + [log[|log|-1]];
    }
  }

  /** A log that holds every piece of an image write replays to that write. */
  lemma PiecesReplay(size: nat, reqs: map<nat, WriteReq>, log: seq<nat>, off: nat, data: seq<Byte>, p: nat,
      before: Byte)
    requires size > 0 && PiecesOf(size, reqs, off, data)
    requires forall r :: r in log <==> r in reqs
    ensures Replay(reqs, log, p, before) == if off <= p < off + |data| then data[p - off] else before
  {
    var pieces := Split(size, off, |data|);
    SplitCoversOnce(size, off, |data|, p);
    var v := if off <= p < off + |data| then data[p - off] else before;
    forall r, b: Byte {:trigger Overlay(reqs[r], p, b)} | r in reqs
      ensures Overlay(reqs[r], p, b) == v || Overlay(reqs[r], p, b) == b
    {
      assert IsPiece(reqs[r], pieces[r], off, data);
      if Covers(pieces[r], p) {
        CoverCounted(pieces, p, r);
      }
    }
    ReplayAgrees(reqs, log, p, before, v);
    if off <= p < off + |data| {
      var i := CoverWitness(pieces, p);
      assert IsPiece(reqs[i], pieces[i], off, data);
      assert WritesAt(reqs[i], p, v);
    }
  }

  /** When all pieces of an image write are done, in whatever order they were
      statted, copied up and committed, the image shows exactly that write. */
  lemma ImageWrite(s: State, evs: seq<Event>, off: nat, data: seq<Byte>, p: nat)
    requires Init(s) && PiecesOf(ObjBytes(s.img), s.reqs, off, data) && Legal(s, evs)
    requires forall r :: r in Exec(s, evs).reqs ==> Exec(s, evs).reqs[r].phase == Done
    ensures View(Exec(s, evs).img, p) == if off <= p < off + |data| then data[p - off] else View(s.img, p)
  {
    var t := Exec(s, evs);
    RunFromInit(s, evs, p);
    assert forall r :: r in t.log <==> r in s.reqs by {
      assert forall r :: r in t.reqs ==> multiset(t.log)[r] == 1;
      assert forall r :: r in multiset(t.log) <==> r in t.log;
    }
    ReplaySame(s.reqs, t.reqs, t.log, p, View(s.img, p));
    PiecesReplay(ObjBytes(s.img), s.reqs, t.log, off, data, p, View(s.img, p));
  }
}
