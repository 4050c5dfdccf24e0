/** Xattr calls that overlap: __build_xattrs and the preallocation loops drop the inode lock to
    allocate memory, and other readers, a flush or an MDS reply may come in between. */
module XattrRace {
  import opened Common
  import opened XattrIndex
  import opened XattrState

  /** A set or remove call that has dropped the lock: inside __build_xattrs, holding the version
      it saw, or allocating a blob of the given size. */
  datatype Setter = Loading(ch: Change, saved: nat) | Allocating(ch: Change, size: int)

  /** readers: the versions saved by the __build_xattrs calls of readers that dropped the lock.
      bug: the BUG_ON of __ceph_build_xattrs_blob has fired. */
  datatype Sys = Sys(x: Xattrs, readers: seq<nat>, setters: seq<Setter>, bug: bool)

  datatype Event =
    | ReadStart
    | ReadResume(i: nat)
    | SetStart(ch: Change)
    | SetResume(i: nat)
    | AllocDone(i: nat, excl: bool)   // excl: XATTR_EXCL is still issued
    | AllocFail(i: nat)
    | Encoding
    | Reply(version: nat, blob: Option<seq<Byte>>)

  // ----- steps -------------------------------------------------------------

  /** A step of __build_xattrs: the new state, and whether the lock is dropped to allocate. */
  datatype Progress = Progress(x: Xattrs, waiting: bool)

  /** __build_xattrs from its start label */
  function Reread(x: Xattrs): (p: Progress)
  {
    if x.blob.Some? && |x.blob.value| > 4 then Progress(x, true) else Progress(Finish(x), false)
  }

  function BeginLoad(x: Xattrs): (p: Progress)
  {
    if Loaded(x) then Progress(x, false) else Reread(Destroy(x))
  }

  /** With the lock retaken: start over if the version moved, otherwise fill the index. */
  function ResumeLoad(x: Xattrs, saved: nat): (p: Progress)
  {
    if x.version != saved then Reread(x) else Progress(Load(x), false)
  }

  datatype Outcome = Outcome(x: Xattrs, setter: seq<Setter>)

  /** The end of the preallocation loop: change the index, or drop the lock to allocate. */
  function Attempt(x: Xattrs, ch: Change): (o: Outcome)
  {
    if x.prealloc.None? || NeedFor(x, ch) > x.prealloc.value then Outcome(x, [Allocating(ch, NeedFor(x, ch))])
    else Outcome(ApplyChange(x, ch), [])
  }

  function AfterLoad(p: Progress, ch: Change): (o: Outcome)
  {
    if p.waiting then Outcome(p.x, [Loading(ch, p.x.version)]) else Attempt(p.x, ch)
  }

  /** From the retry label; with version 0 the call is passed on to the MDS. */
  function Retry(x: Xattrs, ch: Change): (o: Outcome)
  {
    if x.version == 0 then Outcome(x, []) else AfterLoad(BeginLoad(x), ch)
  }

  /** The new blob goes in whatever happens then: back to the retry label, which passes the call on to
      the MDS if the exclusive cap is gone. */
  function Install(x: Xattrs, ch: Change, size: nat, excl: bool): (o: Outcome)
  {
    var y := x.(prealloc := Some(size));
    if excl then Retry(y, ch) else Outcome(y, [])
  }

  function Drop<T>(s: seq<T>, i: nat): (r: seq<T>)
    requires i < |s|
  {
    s[..i] + s[i+1..]
  }

  predicate Enabled(s: Sys, e: Event)
  {
    match e
    case ReadStart => true
    case ReadResume(i) => i < |s.readers|
    case SetStart(ch) => ValidName(ch.name)
    case SetResume(i) => i < |s.setters| && s.setters[i].Loading?
    case AllocDone(i, _) => i < |s.setters| && s.setters[i].Allocating? && 0 <= s.setters[i].size < U32
    case AllocFail(i) => i < |s.setters| && s.setters[i].Allocating?
    case Encoding => true
    case Reply(_, blob) => GoodBlob(blob)
  }

  function Waiting(p: Progress): (r: seq<nat>)
  {
    if p.waiting then [p.x.version] else []
  }

  function Step(s: Sys, e: Event): (r: Sys)
    requires Enabled(s, e)
  {
    match e
    case ReadStart =>
      var p := BeginLoad(s.x);
      s.(x := p.x, readers := s.readers + Waiting(p))
    case ReadResume(i) =>
      var p := ResumeLoad(s.x, s.readers[i]);
      s.(x := p.x, readers := Drop(s.readers, i) + Waiting(p))
    case SetStart(ch) =>
      var o := Retry(s.x, ch);
      s.(x := o.x, setters := s.setters + o.setter)
    case SetResume(i) =>
      var o := AfterLoad(ResumeLoad(s.x, s.setters[i].saved), s.setters[i].ch);
      s.(x := o.x, setters := s.setters[..i] + o.setter + s.setters[i+1..])
    case AllocDone(i, excl) =>
      var o := Install(s.x, s.setters[i].ch, s.setters[i].size, excl);
      s.(x := o.x, setters := s.setters[..i] + o.setter + s.setters[i+1..])
    case AllocFail(i) =>
      s.(setters := Drop(s.setters, i))
    case Encoding =>
      s.(x := BuildBlob(s.x), bug := s.bug || !Fits(s.x))
    case Reply(version, blob) =>
      if version > s.x.version then s.(x := s.x.(version := version, blob := blob)) else s
  }

  // ----- the BUG_ON does not fire ------------------------------------------

  ghost predicate Core(x: Xattrs)
  {
    Exact(x) && GoodBlob(x.blob) && Fits(x) && (x.prealloc.Some? ==> x.prealloc.value < U32)
  }

  /** The blob being allocated will hold whatever is dirty now. */
  predicate SetterOk(x: Xattrs, t: Setter)
  {
    ValidName(t.ch.name) && (t.Allocating? && x.dirty ==> Need(x) <= t.size)
  }

  predicate SettersOk(x: Xattrs, ts: seq<Setter>)
  {
    |ts| <= 1 && (|ts| == 1 ==> SetterOk(x, ts[0]))
  }

  ghost predicate Inv(s: Sys)
  {
    Core(s.x) && SettersOk(s.x, s.setters) && !s.bug
  }

  /** y has no more to encode than x. */
  predicate NoBigger(y: Xattrs, x: Xattrs)
  {
    y.dirty ==> x.dirty && Need(y) <= Need(x)
  }

  lemma LoadSafe(x: Xattrs)
    requires Core(x)
    ensures Core(Load(x)) && !Load(x).dirty
  {
    StoreAllExact(x, Decode(x.blob).attrs);
  }

  lemma BeginSafe(x: Xattrs)
    requires Core(x)
    ensures Core(BeginLoad(x).x) && NoBigger(BeginLoad(x).x, x)
  {
    assert Need(Destroy(x)) == 4 <= Need(x);
  }

  lemma ResumeSafe(x: Xattrs, saved: nat)
    requires Core(x)
    ensures Core(ResumeLoad(x, saved).x) && NoBigger(ResumeLoad(x, saved).x, x)
  {
    LoadSafe(x);
  }

  lemma AfterSafe(p: Progress, ch: Change)
    requires Core(p.x) && ValidName(ch.name)
    ensures Core(AfterLoad(p, ch).x) && SettersOk(AfterLoad(p, ch).x, AfterLoad(p, ch).setter)
  {
    ChangeExact(p.x, ch);
    assert Need(p.x) <= NeedFor(p.x, ch);
  }

  lemma RetrySafe(x: Xattrs, ch: Change)
    requires Core(x) && ValidName(ch.name)
    ensures Core(Retry(x, ch).x) && SettersOk(Retry(x, ch).x, Retry(x, ch).setter)
  {
    BeginSafe(x);
    AfterSafe(BeginLoad(x), ch);
  }

  lemma EncodeSafe(x: Xattrs)
    requires Core(x)
    ensures Core(BuildBlob(x)) && !BuildBlob(x).dirty
  {
    if x.dirty {
      EncodeSize(x.index);
      DecodeEncoded(x.index);
      SortedNames(x.index);
    }
  }

  /** Only one set or remove call at a time, as the inode mutex ensures. */
  predicate Serial(s: Sys, e: Event)
  {
    e.SetStart? ==> s.setters == []
  }

  lemma StepInv(s: Sys, e: Event)
    requires Inv(s) && Enabled(s, e) && Serial(s, e)
    ensures Inv(Step(s, e))
  {
    match e
    case ReadStart => BeginSafe(s.x);
    case ReadResume(i) => ResumeSafe(s.x, s.readers[i]);
    case SetStart(ch) =>
      RetrySafe(s.x, ch);
      assert s.setters + Retry(s.x, ch).setter == Retry(s.x, ch).setter;
    case SetResume(i) =>
      ResumeSafe(s.x, s.setters[i].saved);
      AfterSafe(ResumeLoad(s.x, s.setters[i].saved), s.setters[i].ch);
    case AllocDone(i, _) =>
      RetrySafe(s.x.(prealloc := Some(s.setters[i].size)), s.setters[i].ch);
    case AllocFail(i) =>
    case Encoding => EncodeSafe(s.x);
    case Reply(_, _) =>
  }

  function Run(s: Sys, es: seq<Event>): (r: Sys)
    requires CanRun(s, es)
    decreases |es|
  {
    if es == [] then s else Run(Step(s, es[0]), es[1..])
  }

  predicate CanRun(s: Sys, es: seq<Event>)
    decreases |es|
  {
    es == [] || (Enabled(s, es[0]) && CanRun(Step(s, es[0]), es[1..]))
  }

  predicate SerialRun(s: Sys, es: seq<Event>)
    requires CanRun(s, es)
    decreases |es|
  {
    es == [] || (Serial(s, es[0]) && SerialRun(Step(s, es[0]), es[1..]))
  }

  function Init(): (s: Sys)
  {
    Sys(Fresh(), [], [], false)
  }

  /** In every run with one setter at a time, whatever readers, flushes and replies come in
      between, the counters are exact and a dirty index fits the preallocated blob. */
  lemma {:induction false} RunInv(s: Sys, es: seq<Event>)
    requires Inv(s) && CanRun(s, es) && SerialRun(s, es)
    ensures Inv(Run(s, es))
    decreases |es|
  {
    if es != [] {
      StepInv(s, es[0]);
      RunInv(Step(s, es[0]), es[1..]);
    }
  }

  lemma EveryRun(es: seq<Event>)
    requires CanRun(Init(), es) && SerialRun(Init(), es)
    ensures Exact(Run(Init(), es).x) && Fits(Run(Init(), es).x) && !Run(Init(), es).bug
  {
    RunInv(Init(), es);
  }

  // ----- any number of setters ---------------------------------------------

  /** A blob of this size may replace the preallocated one: nothing is dirty, or it holds what is,
      or the index is out of date and about to be thrown away. */
  predicate Replaceable(x: Xattrs, size: int, excl: bool)
  {
    !x.dirty || Need(x) <= size || (excl && x.version != 0 && !Loaded(x))
  }

  lemma AttemptExact(y: Xattrs, ch: Change, size: int)
    requires Exact(y) && GoodBlob(y.blob) && ValidName(ch.name) && 0 <= size < U32 && y.prealloc == Some(size)
    ensures Fits(Attempt(y, ch).x) <==> !y.dirty || Need(y) <= size
    ensures !y.dirty || Need(y) <= size ==> Core(Attempt(y, ch).x)
  {
    ChangeExact(y, ch);
    assert Need(y) <= NeedFor(y, ch);
  }

  lemma ReloadFits(y: Xattrs, ch: Change, size: int)
    requires Exact(y) && GoodBlob(y.blob) && ValidName(ch.name) && 4 <= size < U32 && y.prealloc == Some(size)
    requires !Loaded(y)
    ensures Core(AfterLoad(BeginLoad(y), ch).x)
  {
    assert Need(Destroy(y)) == 4;
    assert Core(Destroy(y));
    AfterSafe(BeginLoad(y), ch);
  }

  /** Installing a new blob keeps the dirty index within it if and only if the blob may replace the
      old one, however many setters are at work. */
  lemma AllocExact(x: Xattrs, ch: Change, size: int, excl: bool)
    requires Core(x) && ValidName(ch.name) && 4 <= size < U32
    ensures Fits(Install(x, ch, size, excl).x) <==> Replaceable(x, size, excl)
    ensures Replaceable(x, size, excl) ==> Core(Install(x, ch, size, excl).x)
  {
    var y := x.(prealloc := Some(size));
    if excl && x.version != 0 && !Loaded(x) {
      ReloadFits(y, ch, size);
    } else if excl && x.version != 0 {
      AttemptExact(y, ch, size);
    }
  }

  predicate SizeOk(t: Setter)
  {
    ValidName(t.ch.name) && (t.Allocating? ==> t.size >= 4)
  }

  ghost predicate AnyInv(s: Sys)
  {
    Core(s.x) && !s.bug && forall i :: 0 <= i < |s.setters| ==> SizeOk(s.setters[i])
  }

  /** The one step that can go wrong. */
  predicate Orderly(s: Sys, e: Event)
    requires Enabled(s, e)
  {
    e.AllocDone? ==> Replaceable(s.x, s.setters[e.i].size, e.excl)
  }

  lemma NewSetterOk(p: Progress, ch: Change)
    requires Exact(p.x) && ValidName(ch.name)
    ensures forall i :: 0 <= i < |AfterLoad(p, ch).setter| ==> SizeOk(AfterLoad(p, ch).setter[i])
  {
    assert NeedFor(p.x, ch) >= Need(p.x) >= 4;
  }

  lemma SetStartStep(s: Sys, ch: Change)
    requires AnyInv(s) && Enabled(s, SetStart(ch))
    ensures AnyInv(Step(s, SetStart(ch)))
  {
    RetrySafe(s.x, ch);
    BeginSafe(s.x);
    NewSetterOk(BeginLoad(s.x), ch);
  }

  lemma SetResumeStep(s: Sys, i: nat)
    requires AnyInv(s) && Enabled(s, SetResume(i))
    ensures AnyInv(Step(s, SetResume(i)))
  {
    var p := ResumeLoad(s.x, s.setters[i].saved);
    assert SizeOk(s.setters[i]);
    ResumeSafe(s.x, s.setters[i].saved);
    AfterSafe(p, s.setters[i].ch);
    NewSetterOk(p, s.setters[i].ch);
  }

  lemma AllocDoneStep(s: Sys, i: nat, excl: bool)
    requires AnyInv(s) && Enabled(s, AllocDone(i, excl))
    ensures Fits(Step(s, AllocDone(i, excl)).x) <==> Orderly(s, AllocDone(i, excl))
    ensures Orderly(s, AllocDone(i, excl)) ==> AnyInv(Step(s, AllocDone(i, excl)))
  {
    var t := s.setters[i];
    assert SizeOk(t);
    AllocExact(s.x, t.ch, t.size, excl);
    var y := s.x.(prealloc := Some(t.size));
    assert Exact(y) && Exact(BeginLoad(y).x);
    NewSetterOk(BeginLoad(y), t.ch);
  }

  lemma AnyStep(s: Sys, e: Event)
    requires AnyInv(s) && Enabled(s, e) && Orderly(s, e)
    ensures AnyInv(Step(s, e))
  {
    match e
    case ReadStart => BeginSafe(s.x);
    case ReadResume(i) => ResumeSafe(s.x, s.readers[i]);
    case SetStart(ch) => SetStartStep(s, ch);
    case SetResume(i) => SetResumeStep(s, i);
    case AllocDone(i, excl) => AllocDoneStep(s, i, excl);
    case AllocFail(i) =>
    case Encoding => EncodeSafe(s.x);
    case Reply(_, _) =>
  }

  ghost predicate OrderlyRun(s: Sys, es: seq<Event>)
    requires CanRun(s, es)
    decreases |es|
  {
    es == [] || (Orderly(s, es[0]) && OrderlyRun(Step(s, es[0]), es[1..]))
  }

  /** In every run with any number of setters in which no blob replaces one that is still needed,
      the size check does not fire. */
  lemma {:induction false} AnyRun(s: Sys, es: seq<Event>)
    requires AnyInv(s) && CanRun(s, es) && OrderlyRun(s, es)
    ensures AnyInv(Run(s, es))
    decreases |es|
  {
    if es != [] {
      AnyStep(s, es[0]);
      AnyRun(Step(s, es[0]), es[1..]);
    }
  }

  // ----- why one setter at a time ------------------------------------------

  lemma RunOne(s: Sys, e: Event, es: seq<Event>)
    requires Enabled(s, e) && CanRun(Step(s, e), es)
    ensures CanRun(s, [e] + es) && Run(s, [e] + es) == Run(Step(s, e), es)
  {
    assert ([e] + es)[1..] == es;
  }

  function Small(): (ch: Change)
  {
    Store([97], Some([]), false, false)
  }

  function Large(): (ch: Change)
  {
    Store([98], Some([1, 2, 3, 4, 5, 6, 7, 8, 9, 10]), false, false)
  }

  lemma LargeApplied(x: Xattrs)
    requires x.index == [] && x.count == 0 && x.namesSize == 0 && x.valsSize == 0
    ensures Need(ApplyChange(x, Large())) == 23 && ApplyChange(x, Large()).dirty
  {
    assert NulFree([98]) by { assert [98][1..] == []; }
    assert AsMap(x.index) == map[];
    StoreExact(x, Attr([98], Large().val.value));
  }

  function TwoSetterRun(): (es: seq<Event>)
  {
    [Reply(1, None)] + ([SetStart(Small())] + ([SetStart(Large())] + TwoSetterEnd()))
  }

  function TwoSetterEnd(): (es: seq<Event>)
  {
    [AllocDone(1, true)] + ([AllocDone(0, true)] + ([Encoding] + []))
  }

  lemma ShortNames()
    ensures ValidName([97]) && ValidName([98])
  {
    assert [97][1..] == [] && [98][1..] == [];
  }

  /** Both setters are allocating: the one with the larger change gets on first. */
  lemma SmallerBlobWins(y: Xattrs)
    requires y == Fresh().(version := 1, indexVersion := 1)
    ensures var s := Sys(y, [], [Allocating(Small(), 13), Allocating(Large(), 23)], false);
      CanRun(s, TwoSetterEnd()) && Run(s, TwoSetterEnd()).bug
  {
    var s3 := Sys(y, [], [Allocating(Small(), 13), Allocating(Large(), 23)], false);
    LargeApplied(y.(prealloc := Some(23)));
    var s4 := Step(s3, AllocDone(1, true));
    var z := ApplyChange(y.(prealloc := Some(23)), Large());
    assert s4 == Sys(z, [], [Allocating(Small(), 13)], false);
    var s5 := Step(s4, AllocDone(0, true));
    assert s5.x == z.(prealloc := Some(13));
    RunOne(s5, Encoding, []);
    RunOne(s4, AllocDone(0, true), [Encoding] + []);
    RunOne(s3, AllocDone(1, true), [AllocDone(0, true)] + ([Encoding] + []));
  }

  lemma BothAllocating(s: Sys, es: seq<Event>)
    requires s == Sys(Fresh().(version := 1, indexVersion := 1), [],
                      [Allocating(Small(), 13), Allocating(Large(), 23)], false)
    requires CanRun(s, es)
    ensures var all := [Reply(1, None)] + ([SetStart(Small())] + ([SetStart(Large())] + es));
      CanRun(Init(), all) && Run(Init(), all) == Run(s, es)
  {
    ShortNames();
    var s1 := Step(Init(), Reply(1, None));
    var s2 := Step(s1, SetStart(Small()));
    assert s2 == Sys(Fresh().(version := 1, indexVersion := 1), [], [Allocating(Small(), 13)], false);
    assert Retry(s2.x, Large()).setter == [Allocating(Large(), 23)];
    assert Step(s2, SetStart(Large())) == s;
    RunOne(s2, SetStart(Large()), es);
    RunOne(s1, SetStart(Small()), [SetStart(Large())] + es);
    RunOne(Init(), Reply(1, None), [SetStart(Small())] + ([SetStart(Large())] + es));
  }

  /** With two setters the smaller blob of one can replace the blob that the other sized for
      its now dirty change, and encoding then overruns it. */
  lemma TwoSetters()
    ensures CanRun(Init(), TwoSetterRun()) && Run(Init(), TwoSetterRun()).bug
  {
    var y := Fresh().(version := 1, indexVersion := 1);
    SmallerBlobWins(y);
    BothAllocating(Sys(y, [], [Allocating(Small(), 13), Allocating(Large(), 23)], false), TwoSetterEnd());
  }

  // ----- a reader racing a setter ------------------------------------------

  /** What a resumed load does to an index that another call loaded and changed meanwhile: it
      sets the attributes back to the blob's and forgets that they were dirty. It does no harm
      exactly when the blob's values are still the index's. */
  lemma LateLoad(x: Xattrs, saved: nat)
    requires Core(x) && Loaded(x) && x.version == saved && x.indexVersion == x.version
    ensures ResumeLoad(x, saved).x == x <==>
      !x.dirty && forall k :: k in AsMap(BlobIndex(x.blob)) ==>
          k in AsMap(x.index) && AsMap(x.index)[k] == AsMap(BlobIndex(x.blob))[k]
    ensures !ResumeLoad(x, saved).x.dirty
    ensures Logical(ResumeLoad(x, saved).x) == AsMap(x.index) + AsMap(BlobIndex(x.blob))
  {
    var s := Decode(x.blob).attrs;
    var y := ResumeLoad(x, saved).x;
    var m, b := AsMap(x.index), AsMap(BlobIndex(x.blob));
    StoreAllExact(x, s);
    PutAllMap(x.index, s);
    LoadSafe(x);
    assert y.index == PutAll(x.index, s);
    assert AsMap(y.index) == m + b;
    if !x.dirty && forall k :: k in b ==> k in m && m[k] == b[k] {
      assert m + b == m;
      Canonical(y.index, x.index);
    }
    if y == x {
      assert m + b == m;
      assert forall k :: k in b ==> (m + b)[k] == b[k];
    }
  }

  function Old(): (a: Attr)
  {
    Attr([97], [1])
  }

  function New(): (ch: Change)
  {
    Store([97], Some([2]), false, false)
  }

  function OldBlob(): (b: seq<Byte>)
  {
    Encode([Old()])
  }

  lemma OldBlobHolds()
    ensures |OldBlob()| > 4 && GoodBlob(Some(OldBlob())) && Sorted([Old()])
    ensures Decode(Some(OldBlob())).attrs == [Old()] && BlobIndex(Some(OldBlob())) == [Old()]
  {
    ShortNames();
    assert [Old()][1..] == [];
    EncodeSize([Old()]);
    DecodeEncoded([Old()]);
    SortedNames([Old()]);
    PutAllSorted([Old()]);
  }

  function LostUpdateRun(): (es: seq<Event>)
  {
    [Reply(1, Some(OldBlob()))] + ([ReadStart] + ([SetStart(New())] + ([SetResume(0)] + LostUpdateEnd())))
  }

  function LostUpdateEnd(): (es: seq<Event>)
  {
    [AllocDone(0, true)] + ([ReadResume(0)] + [])
  }

  /** The index holds the old value and the setter is about to store the new one. */
  predicate AboutToStore(y: Xattrs)
  {
    y == Xattrs([Old()], 1, 1, 1, 1, 1, false, false, Some(OldBlob()), None)
  }

  lemma StoreThenReload(y: Xattrs)
    requires AboutToStore(y)
    ensures var s := Sys(y, [1], [Allocating(New(), NeedFor(y, New()))], false);
      && CanRun(s, LostUpdateEnd()) && SerialRun(s, LostUpdateEnd())
      && !Run(s, LostUpdateEnd()).x.dirty && Run(s, LostUpdateEnd()).setters == []
      && Logical(Run(s, LostUpdateEnd()).x) == map[[97] := [1]]
  {
    OldBlobHolds();
    var s4 := Sys(y, [1], [Allocating(New(), NeedFor(y, New()))], false);
    var w := y.(prealloc := Some(NeedFor(y, New())));
    assert [Old()][1..] == [];
    var z := ApplyChange(w, New());
    SetWins(w);
    var s5 := Step(s4, AllocDone(0, true));
    assert s5 == Sys(z, [1], [], false);
    LateLoad(z, 1);
    RunSerial(s5, ReadResume(0), []);
    RunSerial(s4, AllocDone(0, true), [ReadResume(0)] + []);
  }

  /** A reader and the setter have both begun to load the same version. */
  function BothLoading(): (s: Sys)
  {
    Sys(Fresh().(version := 1, blob := Some(OldBlob())), [1], [Loading(New(), 1)], false)
  }

  lemma ReachBothLoading(es: seq<Event>)
    requires CanRun(BothLoading(), es) && SerialRun(BothLoading(), es)
    ensures var all := [Reply(1, Some(OldBlob()))] + ([ReadStart] + ([SetStart(New())] + es));
      CanRun(Init(), all) && SerialRun(Init(), all) && Run(Init(), all) == Run(BothLoading(), es)
  {
    ShortNames();
    OldBlobHolds();
    var s1 := Step(Init(), Reply(1, Some(OldBlob())));
    var s2 := Step(s1, ReadStart);
    assert Step(s2, SetStart(New())) == BothLoading();
    RunSerial(s2, SetStart(New()), es);
    RunSerial(s1, ReadStart, [SetStart(New())] + es);
    RunSerial(Init(), Reply(1, Some(OldBlob())), [ReadStart] + ([SetStart(New())] + es));
  }

  lemma SetterLoads()
    ensures AboutToStore(Load(BothLoading().x))
    ensures Enabled(BothLoading(), SetResume(0)) && Serial(BothLoading(), SetResume(0))
    ensures var y := Load(BothLoading().x);
      Step(BothLoading(), SetResume(0)) == Sys(y, [1], [Allocating(New(), NeedFor(y, New()))], false)
  {
    OldBlobHolds();
    StoreAllExact(BothLoading().x, [Old()]);
    assert [Old()][1..] == [];
  }

  /** A store that succeeded between the two halves of a reader's load is lost, with only one
      setter: the reader puts the old value back and nothing is left to flush. */
  lemma LostUpdate()
    ensures CanRun(Init(), LostUpdateRun()) && SerialRun(Init(), LostUpdateRun())
    ensures !Run(Init(), LostUpdateRun()).x.dirty && Run(Init(), LostUpdateRun()).setters == []
    ensures Logical(Run(Init(), LostUpdateRun()).x) == map[[97] := [1]]
  {
    var es := LostUpdateEnd();
    SetterLoads();
    StoreThenReload(Load(BothLoading().x));
    RunSerial(BothLoading(), SetResume(0), es);
    ReachBothLoading([SetResume(0)] + es);
  }

  lemma RunSerial(s: Sys, e: Event, es: seq<Event>)
    requires Enabled(s, e) && Serial(s, e) && CanRun(Step(s, e), es) && SerialRun(Step(s, e), es)
    ensures CanRun(s, [e] + es) && Run(s, [e] + es) == Run(Step(s, e), es) && SerialRun(s, [e] + es)
  {
    assert ([e] + es)[1..] == es;
  }

  lemma SetWins(y: Xattrs)
    requires Core(y) && y.index == [Old()] && y.version == 1 && y.indexVersion == 1 && y.blob == Some(OldBlob())
    requires y.prealloc.Some? && y.prealloc.value >= NeedFor(y, New())
    ensures Core(ApplyChange(y, New())) && AsMap(ApplyChange(y, New()).index) == map[[97] := [2]]
    ensures ApplyChange(y, New()).dirty
  {
    ShortNames();
    assert AsMap([Old()]) == map[[97] := [1]] by { assert [Old()][1..] == []; }
    ChangeExact(y, New());
  }
}
