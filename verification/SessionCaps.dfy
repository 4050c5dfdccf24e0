/** The list of caps of an MDS session: walking it while caps are added, removed and touched at
    every point where s_cap_lock is dropped. */
module SessionCaps {
  import opened Common

  type CapId = nat

  /** caps, nr, iter: s_caps, s_nr_caps, s_cap_iterator. cut: the cap being visited was removed
      meanwhile (its ci is NULL). oldCap: taken off the list and not
      yet put.
      The rest is history: removed and returned count calls of __ceph_remove_cap and of
      ceph_put_cap; visited counts the visits, in this walk, to the caps now on the list;
      skipped are those whose inode could not be grabbed. */
  datatype Session = Session(
    caps: seq<CapId>,
    nr: int,
    iter: Option<CapId>,
    cut: bool,
    oldCap: Option<CapId>,
    removed: multiset<CapId>,
    returned: multiset<CapId>,
    visited: multiset<CapId>,
    skipped: set<CapId>)

  datatype Event =
    | Add(c: CapId)
    | Remove(c: CapId)
    | Touch(c: CapId)
    | Start(grab: set<CapId>)
    | PutOld
    | Resume(stop: bool, grab: set<CapId>)

  // ----- list operations ---------------------------------------------------

  function Del(s: seq<CapId>, c: CapId): (r: seq<CapId>)
  {
    if s == [] then [] else if s[0] == c then s[1..] else [s[0]] + Del(s[1..], c)
  }

  /** The part of the list behind c. */
  function After(s: seq<CapId>, c: CapId): (r: seq<CapId>)
  {
    if s == [] then [] else if s[0] == c then s[1..] else After(s[1..], c)
  }

  /** The first cap whose inode can be grabbed. */
  function FirstGrab(s: seq<CapId>, grab: set<CapId>): (r: Option<CapId>)
  {
    if s == [] then None else if s[0] in grab then Some(s[0]) else FirstGrab(s[1..], grab)
  }

  /** The caps passed on the way to that one. */
  function NotGrabbed(s: seq<CapId>, grab: set<CapId>): (r: set<CapId>)
  {
    if s == [] || s[0] in grab then {} else {s[0]} + NotGrabbed(s[1..], grab)
  }

  predicate NoDup(s: seq<CapId>)
  {
    s == [] || (s[0] !in s[1..] && NoDup(s[1..]))
  }

  // ----- steps -------------------------------------------------------------

  /** The loop head of iterate_session_caps: skip what cannot be grabbed, visit the next. */
  function Scan(s: Session, rest: seq<CapId>, grab: set<CapId>): (r: Session)
  {
    var n := FirstGrab(rest, grab);
    var t := s.(iter := n, skipped := s.skipped + NotGrabbed(rest, grab));
    if n.Some? then t.(visited := t.visited + multiset{n.value}) else t
  }

  /** The lock retaken after the callback: a deferred removal is finished. */
  function Settle(s: Session): (r: Session)
    requires s.iter.Some?
  {
    if s.cut then s.(caps := Del(s.caps, s.iter.value), nr := s.nr - 1, cut := false, oldCap := s.iter,
        visited := s.visited[s.iter.value := 0])
    else s
  }

  predicate Enabled(s: Session, e: Event)
  {
    match e
    case Add(c) => c !in s.caps && s.oldCap != Some(c)
    case Remove(c) => c in s.caps && !(s.cut && s.iter == Some(c))
    case Touch(c) => c in s.caps && !(s.cut && s.iter == Some(c))
    case Start(_) => s.iter.None? && s.oldCap.None?
    case PutOld => s.oldCap.Some?
    case Resume(_, _) => s.iter.Some? && s.oldCap.None?
  }

  function Step(s: Session, e: Event): (r: Session)
    requires Enabled(s, e)
  {
    match e
    case Add(c) => s.(caps := s.caps + [c], nr := s.nr + 1, visited := s.visited[c := 0], skipped := s.skipped - {c})
    case Remove(c) =>
      var t := s.(removed := s.removed + multiset{c});
      if s.iter == Some(c) then t.(cut := true)
      else t.(caps := Del(s.caps, c), nr := s.nr - 1, returned := s.returned + multiset{c},
          visited := s.visited[c := 0])
    case Touch(c) => if s.iter.None? then s.(caps := Del(s.caps, c) + [c]) else s
    case Start(grab) => Scan(s.(visited := multiset{}, skipped := {}), s.caps, grab)
    case PutOld => s.(oldCap := None, returned := s.returned + multiset{s.oldCap.value})
    case Resume(stop, grab) =>
      var rest := After(s.caps, s.iter.value);
      if stop then Settle(s).(iter := None) else Scan(Settle(s), rest, grab)
  }

  // ----- invariant ---------------------------------------------------------

  /** Nothing on the list has been visited. */
  predicate Unseen(s: seq<CapId>, vis: multiset<CapId>)
  {
    s == [] || (vis[s[0]] == 0 && Unseen(s[1..], vis))
  }

  predicate SeenOrSkipped(c: CapId, vis: multiset<CapId>, skipped: set<CapId>)
  {
    vis[c] == 1 || (vis[c] == 0 && c in skipped)
  }

  /** Everything on the list has been visited exactly once, or skipped. */
  predicate AllSeen(s: seq<CapId>, vis: multiset<CapId>, skipped: set<CapId>)
  {
    s == [] || (SeenOrSkipped(s[0], vis, skipped) && AllSeen(s[1..], vis, skipped))
  }

  /** The walk is at c: what is before it is done, what is behind it is not begun. */
  predicate At(s: seq<CapId>, c: CapId, vis: multiset<CapId>, skipped: set<CapId>)
  {
    s != [] &&
    if s[0] == c then vis[c] == 1 && Unseen(s[1..], vis)
    else SeenOrSkipped(s[0], vis, skipped) && At(s[1..], c, vis, skipped)
  }

  /** Removed caps that still have to be put. */
  function Deferred(s: Session): (m: multiset<CapId>)
  {
    (if s.cut && s.iter.Some? then multiset{s.iter.value} else multiset{}) +
    (if s.oldCap.Some? then multiset{s.oldCap.value} else multiset{})
  }

  ghost predicate Inv(s: Session)
  {
    && NoDup(s.caps) && s.nr == |s.caps|
    && (s.oldCap.Some? ==> s.oldCap.value !in s.caps)
    && (s.cut ==> s.iter.Some?)
    && s.removed == s.returned + Deferred(s)
    && (s.iter.Some? ==> At(s.caps, s.iter.value, s.visited, s.skipped))
  }

  // ----- lemmas on lists ---------------------------------------------------

  lemma {:induction false} DelFacts(s: seq<CapId>, c: CapId)
    requires NoDup(s) && c in s
    ensures NoDup(Del(s, c)) && |Del(s, c)| == |s| - 1
    ensures forall x :: x in Del(s, c) <==> x in s && x != c
  {
    if s[0] != c {
      DelFacts(s[1..], c);
      assert Del(s, c)[1..] == Del(s[1..], c);
      assert s == [s[0]] + s[1..];
    }
  }

  lemma {:induction false} NoDupAppend(s: seq<CapId>, c: CapId)
    requires NoDup(s) && c !in s
    ensures NoDup(s + [c])
  {
    if s != [] {
      NoDupAppend(s[1..], c);
      assert (s + [c])[1..] == s[1..] + [c];
    } else {
      assert (s + [c])[1..] == [];
    }
  }

  /** Only the counts of caps on the list matter. */
  predicate Agree(s: seq<CapId>, vis: multiset<CapId>, vis': multiset<CapId>)
  {
    forall x :: x in s ==> vis[x] == vis'[x]
  }

  lemma {:induction false} UnseenAgree(s: seq<CapId>, vis: multiset<CapId>, vis': multiset<CapId>)
    requires Unseen(s, vis) && Agree(s, vis, vis')
    ensures Unseen(s, vis')
  {
    if s != [] {
      UnseenAgree(s[1..], vis, vis');
    }
  }

  lemma {:induction false} UnseenAppend(s: seq<CapId>, c: CapId, vis: multiset<CapId>)
    requires Unseen(s, vis) && vis[c] == 0
    ensures Unseen(s + [c], vis)
  {
    if s != [] {
      UnseenAppend(s[1..], c, vis);
      assert (s + [c])[1..] == s[1..] + [c];
    } else {
      assert (s + [c])[1..] == [];
    }
  }

  lemma {:induction false} UnseenDel(s: seq<CapId>, c: CapId, vis: multiset<CapId>)
    requires Unseen(s, vis)
    ensures Unseen(Del(s, c), vis)
  {
    if s != [] && s[0] != c {
      UnseenDel(s[1..], c, vis);
      assert Del(s, c)[1..] == Del(s[1..], c);
    }
  }

  lemma {:induction false} AtAgree(s: seq<CapId>, c: CapId, vis: multiset<CapId>, vis': multiset<CapId>,
      skipped: set<CapId>)
    requires At(s, c, vis, skipped) && Agree(s, vis, vis')
    ensures At(s, c, vis', skipped) && c in s
  {
    if s[0] == c {
      UnseenAgree(s[1..], vis, vis');
    } else {
      AtAgree(s[1..], c, vis, vis', skipped);
    }
  }

  /** Whether a cap not on the list was skipped does not matter. */
  lemma {:induction false} AtForget(s: seq<CapId>, c: CapId, vis: multiset<CapId>, skipped: set<CapId>, x: CapId)
    requires At(s, c, vis, skipped) && x !in s
    ensures At(s, c, vis, skipped - {x})
  {
    if s[0] != c {
      AtForget(s[1..], c, vis, skipped, x);
    }
  }

  lemma {:induction false} AtAppend(s: seq<CapId>, c: CapId, n: CapId, vis: multiset<CapId>, skipped: set<CapId>)
    requires At(s, c, vis, skipped) && vis[n] == 0
    ensures At(s + [n], c, vis, skipped)
  {
    assert (s + [n])[1..] == s[1..] + [n];
    if s[0] == c {
      UnseenAppend(s[1..], n, vis);
    } else {
      AtAppend(s[1..], c, n, vis, skipped);
    }
  }

  lemma {:induction false} AtDel(s: seq<CapId>, c: CapId, x: CapId, vis: multiset<CapId>, skipped: set<CapId>)
    requires At(s, c, vis, skipped) && x != c
    ensures At(Del(s, x), c, vis, skipped)
  {
    if s[0] == c {
      UnseenDel(s[1..], x, vis);
      assert Del(s, x)[1..] == Del(s[1..], x);
    } else if s[0] != x {
      AtDel(s[1..], c, x, vis, skipped);
      assert Del(s, x)[1..] == Del(s[1..], x);
    }
  }

  /** The state of the walk once the next cap, if any, has been picked from rest. */
  predicate Picked(s: seq<CapId>, n: Option<CapId>, vis: multiset<CapId>, skipped: set<CapId>)
  {
    if n.Some? then At(s, n.value, vis, skipped) else AllSeen(s, vis, skipped)
  }

  function Visit(vis: multiset<CapId>, n: Option<CapId>): (r: multiset<CapId>)
  {
    if n.Some? then vis + multiset{n.value} else vis
  }

  lemma {:induction false} FirstGrabIn(rest: seq<CapId>, grab: set<CapId>)
    ensures FirstGrab(rest, grab).Some? ==> FirstGrab(rest, grab).value in rest && FirstGrab(rest, grab).value in grab
  {
    if rest != [] {
      FirstGrabIn(rest[1..], grab);
    }
  }

  /** What is skipped is what comes before the first cap that can be grabbed. */
  lemma {:induction false} NotGrabbedIs(rest: seq<CapId>, grab: set<CapId>, p: nat)
    requires p <= |rest| && (forall j :: 0 <= j < p ==> rest[j] !in grab) && (p < |rest| ==> rest[p] in grab)
    ensures NotGrabbed(rest, grab) == set j | 0 <= j < p :: rest[j]
  {
    if p > 0 {
      var tail := rest[1..];
      NotGrabbedIs(tail, grab, p - 1);
      assert forall j :: 0 < j < |rest| ==> rest[j] == tail[j-1];
      assert (set j | 0 <= j < p :: rest[j]) == {rest[0]} + (set j | 0 <= j < p - 1 :: tail[j]) by {
        forall j | 0 <= j < p - 1 ensures tail[j] in (set k | 0 <= k < p :: rest[k]) {
          assert tail[j] == rest[j+1];
        }
      }
    }
  }

  /** Picking from an unseen list. */
  lemma {:induction false} ScanPicks(rest: seq<CapId>, grab: set<CapId>, vis: multiset<CapId>, skipped: set<CapId>)
    requires NoDup(rest) && Unseen(rest, vis) && NotGrabbed(rest, grab) <= skipped
    ensures Picked(rest, FirstGrab(rest, grab), Visit(vis, FirstGrab(rest, grab)), skipped)
  {
    if rest != [] {
      var n := FirstGrab(rest, grab);
      FirstGrabIn(rest[1..], grab);
      if rest[0] in grab {
        UnseenAgree(rest[1..], vis, Visit(vis, n));
      } else {
        assert rest[0] in skipped;
        ScanPicks(rest[1..], grab, vis, skipped);
        assert n.Some? ==> n.value != rest[0];
      }
    }
  }

  /** More may be skipped. */
  lemma {:induction false} SeenStays(s: seq<CapId>, c: CapId, vis: multiset<CapId>, skipped: set<CapId>,
      more: set<CapId>)
    requires At(s, c, vis, skipped) && skipped <= more
    ensures At(s, c, vis, more)
  {
    if s[0] != c {
      SeenStays(s[1..], c, vis, skipped, more);
    }
  }

  /** Moving on from c: the walk continues behind it, whether or not c itself is taken off. */
  lemma {:induction false} MoveOn(s: seq<CapId>, c: CapId, grab: set<CapId>, vis: multiset<CapId>, skipped: set<CapId>)
    requires NoDup(s) && At(s, c, vis, skipped) && NotGrabbed(After(s, c), grab) <= skipped
    ensures var n := FirstGrab(After(s, c), grab);
      Picked(s, n, Visit(vis, n), skipped) && Picked(Del(s, c), n, Visit(vis, n), skipped)
  {
    var n := FirstGrab(After(s, c), grab);
    FirstGrabIn(After(s, c), grab);
    if s[0] == c {
      ScanPicks(s[1..], grab, vis, skipped);
    } else {
      AfterIn(s[1..], c);
      MoveOn(s[1..], c, grab, vis, skipped);
      assert Del(s, c)[1..] == Del(s[1..], c);
      assert n.Some? ==> n.value in s[1..] && n.value != s[0];
    }
  }

  lemma {:induction false} AfterIn(s: seq<CapId>, c: CapId)
    ensures forall x :: x in After(s, c) ==> x in s
  {
    if s != [] && s[0] != c {
      AfterIn(s[1..], c);
    }
  }

  /** The cap being visited is not behind itself. */
  lemma {:induction false} NotBehind(s: seq<CapId>, c: CapId)
    requires NoDup(s)
    ensures c !in After(s, c)
  {
    if s != [] && s[0] != c {
      NotBehind(s[1..], c);
    }
  }

  lemma {:induction false} AllUnseen(s: seq<CapId>)
    ensures Unseen(s, multiset{})
  {
    if s != [] {
      AllUnseen(s[1..]);
    }
  }

  // ----- steps keep the invariant ------------------------------------------

  lemma AddInv(s: Session, c: CapId)
    requires Inv(s) && Enabled(s, Add(c))
    ensures Inv(Step(s, Add(c)))
  {
    NoDupAppend(s.caps, c);
    if s.iter.Some? {
      AtAgree(s.caps, s.iter.value, s.visited, s.visited[c := 0], s.skipped);
      AtForget(s.caps, s.iter.value, s.visited[c := 0], s.skipped, c);
      AtAppend(s.caps, s.iter.value, c, s.visited[c := 0], s.skipped - {c});
    }
  }

  lemma RemoveInv(s: Session, c: CapId)
    requires Inv(s) && Enabled(s, Remove(c))
    ensures Inv(Step(s, Remove(c)))
  {
    if s.iter != Some(c) {
      DelFacts(s.caps, c);
      if s.iter.Some? {
        AtDel(s.caps, s.iter.value, c, s.visited, s.skipped);
        AtAgree(Del(s.caps, c), s.iter.value, s.visited, s.visited[c := 0], s.skipped);
      }
    }
  }

  lemma TouchInv(s: Session, c: CapId)
    requires Inv(s) && Enabled(s, Touch(c))
    ensures Inv(Step(s, Touch(c)))
  {
    DelFacts(s.caps, c);
    NoDupAppend(Del(s.caps, c), c);
  }

  /** What the walk has to show for itself when it picks the next cap or ends. */
  ghost predicate WalkOk(s: Session)
  {
    Picked(s.caps, s.iter, s.visited, s.skipped)
  }

  lemma StartInv(s: Session, grab: set<CapId>)
    requires Inv(s) && Enabled(s, Start(grab))
    ensures Inv(Step(s, Start(grab))) && WalkOk(Step(s, Start(grab)))
  {
    AllUnseen(s.caps);
    ScanPicks(s.caps, grab, multiset{}, {} + NotGrabbed(s.caps, grab));
  }

  lemma ScanAt(s: Session, grab: set<CapId>)
    requires Inv(s) && s.iter.Some?
    ensures var c := s.iter.value; var rest := After(s.caps, c); var n := FirstGrab(rest, grab);
      var skipped := s.skipped + NotGrabbed(rest, grab);
      && Picked(s.caps, n, Visit(s.visited, n), skipped)
      && Picked(Del(s.caps, c), n, Visit(s.visited[c := 0], n), skipped)
  {
    var c := s.iter.value;
    var rest := After(s.caps, c);
    var n := FirstGrab(rest, grab);
    var skipped := s.skipped + NotGrabbed(rest, grab);
    SeenStays(s.caps, c, s.visited, s.skipped, skipped);
    MoveOn(s.caps, c, grab, s.visited, skipped);
    AtAgree(s.caps, c, s.visited, s.visited, skipped);
    NotBehind(s.caps, c);
    FirstGrabIn(rest, grab);
    DelFacts(s.caps, c);
    PickedAgree(Del(s.caps, c), n, Visit(s.visited, n), Visit(s.visited[c := 0], n), skipped);
  }

  lemma {:induction false} AllSeenAgree(s: seq<CapId>, vis: multiset<CapId>, vis': multiset<CapId>, skipped: set<CapId>)
    requires AllSeen(s, vis, skipped) && Agree(s, vis, vis')
    ensures AllSeen(s, vis', skipped)
  {
    if s != [] {
      AllSeenAgree(s[1..], vis, vis', skipped);
    }
  }

  lemma PickedAgree(s: seq<CapId>, n: Option<CapId>, vis: multiset<CapId>, vis': multiset<CapId>, skipped: set<CapId>)
    requires Picked(s, n, vis, skipped) && Agree(s, vis, vis')
    ensures Picked(s, n, vis', skipped)
  {
    if n.Some? {
      AtAgree(s, n.value, vis, vis', skipped);
    } else {
      AllSeenAgree(s, vis, vis', skipped);
    }
  }

  lemma ResumeInv(s: Session, stop: bool, grab: set<CapId>)
    requires Inv(s) && Enabled(s, Resume(stop, grab))
    ensures Inv(Step(s, Resume(stop, grab)))
    ensures !stop ==> WalkOk(Step(s, Resume(stop, grab)))
  {
    AtAgree(s.caps, s.iter.value, s.visited, s.visited, s.skipped);
    DelFacts(s.caps, s.iter.value);
    ScanAt(s, grab);
  }

  lemma StepInv(s: Session, e: Event)
    requires Inv(s) && Enabled(s, e)
    ensures Inv(Step(s, e))
  {
    match e
    case Add(c) => AddInv(s, c);
    case Remove(c) => RemoveInv(s, c);
    case Touch(c) => TouchInv(s, c);
    case Start(grab) => StartInv(s, grab);
    case PutOld =>
    case Resume(stop, grab) => ResumeInv(s, stop, grab);
  }

  // ----- runs --------------------------------------------------------------

  ghost predicate CanRun(s: Session, es: seq<Event>)
    decreases |es|
  {
    es == [] || (Enabled(s, es[0]) && CanRun(Step(s, es[0]), es[1..]))
  }

  ghost function Run(s: Session, es: seq<Event>): (r: Session)
    requires CanRun(s, es)
    decreases |es|
  {
    if es == [] then s else Run(Step(s, es[0]), es[1..])
  }

  lemma {:induction false} RunInv(s: Session, es: seq<Event>)
    requires Inv(s) && CanRun(s, es)
    ensures Inv(Run(s, es))
    decreases |es|
  {
    if es != [] {
      StepInv(s, es[0]);
      RunInv(Step(s, es[0]), es[1..]);
    }
  }

  function Init(): (s: Session)
  {
    Session([], 0, None, false, None, multiset{}, multiset{}, multiset{}, {})
  }

  /** In every run s_nr_caps is the length of s_caps, and each removal of a cap has been matched
      by exactly one put, except for a cap the walk still holds. */
  lemma EveryRun(es: seq<Event>)
    requires CanRun(Init(), es)
    ensures var s := Run(Init(), es);
      s.nr == |s.caps| && s.removed == s.returned + Deferred(s) && (s.iter.None? && s.oldCap.None? ==>
          s.removed == s.returned)
  {
    RunInv(Init(), es);
  }

  lemma {:induction false} AllSeenEach(s: seq<CapId>, vis: multiset<CapId>, skipped: set<CapId>, c: CapId)
    requires AllSeen(s, vis, skipped) && c in s
    ensures vis[c] == 1 || (vis[c] == 0 && c in skipped)
  {
    if s[0] != c {
      AllSeenEach(s[1..], vis, skipped, c);
    }
  }

  /** When a walk that no callback stopped reaches the end of the list, every cap then on the
      list has been visited exactly once since it was put there or the walk began, unless its
      inode could not be grabbed. */
  lemma WalkVisitsEach(es: seq<Event>, grab: set<CapId>, c: CapId)
    requires CanRun(Init(), es) && Enabled(Run(Init(), es), Resume(false, grab))
    requires var s := Step(Run(Init(), es), Resume(false, grab)); s.iter.None? && c in s.caps
    ensures var s := Step(Run(Init(), es), Resume(false, grab));
      s.visited[c] == 1 || (s.visited[c] == 0 && c in s.skipped)
  {
    RunInv(Init(), es);
    var s := Run(Init(), es);
    ResumeInv(s, false, grab);
    var t := Step(s, Resume(false, grab));
    AllSeenEach(t.caps, t.visited, t.skipped, c);
  }

  lemma {:induction false} AtEach(s: seq<CapId>, c: CapId, vis: multiset<CapId>, skipped: set<CapId>, x: CapId)
    requires At(s, c, vis, skipped) && x in s
    ensures vis[x] <= 1
  {
    if s[0] == c {
      if x != c {
        UnseenEach(s[1..], vis, x);
      }
    } else if s[0] != x {
      AtEach(s[1..], c, vis, skipped, x);
    }
  }

  lemma {:induction false} UnseenEach(s: seq<CapId>, vis: multiset<CapId>, x: CapId)
    requires Unseen(s, vis) && x in s
    ensures vis[x] == 0
  {
    if s[0] != x {
      UnseenEach(s[1..], vis, x);
    }
  }

  /** At no point of a walk has a cap on the list been visited twice. */
  lemma NeverTwice(es: seq<Event>, c: CapId)
    requires CanRun(Init(), es) && Run(Init(), es).iter.Some? && c in Run(Init(), es).caps
    ensures Run(Init(), es).visited[c] <= 1
  {
    RunInv(Init(), es);
    var s := Run(Init(), es);
    AtEach(s.caps, s.iter.value, s.visited, s.skipped, c);
  }

  /** Were caps moved to the tail during a walk, a cap that never left the list could be missed. */
  lemma TouchMustWait()
    ensures var s := Step(Step(Step(Init(), Add(1)), Add(2)), Start({1, 2}));
      var moved := s.(caps := Del(s.caps, 1) + [1]);
      Step(moved, Resume(false, {1, 2})).iter == None && Step(moved, Resume(false, {1, 2})).visited[2] == 0 &&
      2 !in Step(moved, Resume(false, {1, 2})).skipped
  {
    var s := Step(Step(Step(Init(), Add(1)), Add(2)), Start({1, 2}));
    assert s.caps == [1, 2];
    assert FirstGrab([1, 2], {1, 2}) == Some(1);
    assert Del([1, 2], 1) == [2];
    assert [2, 1][1..] == [1] && [1][1..] == [];
    assert After([2, 1], 1) == [];
  }

  // ----- what removal and touching do --------------------------------------

  lemma {:induction false} DelSplit(s: seq<CapId>, c: CapId) returns (l: seq<CapId>, r: seq<CapId>)
    requires NoDup(s) && c in s
    ensures s == l + [c] + r && Del(s, c) == l + r && c !in l && c !in r
  {
    if s[0] == c {
      l, r := [], s[1..];
    } else {
      l, r := DelSplit(s[1..], c);
      l := [s[0]] + l;
      assert s == [s[0]] + s[1..];
    }
  }

  /** A removed cap is off the list and put back at once, the others keeping their order, unless the
      walk is at it: then it stays, and is the one put the walk still owes. */
  lemma RemoveEffect(s: Session, c: CapId) returns (l: seq<CapId>, r: seq<CapId>)
    requires Inv(s) && Enabled(s, Remove(c))
    ensures var s' := Step(s, Remove(c));
      && Inv(s') && s'.nr == |s'.caps| && s'.removed == s.removed + multiset{c} && s.caps == l + [c] + r
      && (s.iter == Some(c) ==> s'.caps == s.caps && s'.returned == s.returned)
      && (s.iter == Some(c) ==> c in Deferred(s') && s'.iter == s.iter)
      && (s.iter != Some(c) ==> s'.caps == l + r && c !in s'.caps)
      && (s.iter != Some(c) ==> s'.returned == s.returned + multiset{c} && Deferred(s') == Deferred(s))
  {
    RemoveInv(s, c);
    l, r := DelSplit(s.caps, c);
  }

  /** Touching loses and duplicates no cap; during a walk it changes nothing, and otherwise the cap
      becomes the last, the others keeping their order. */
  lemma TouchEffect(s: Session, c: CapId) returns (l: seq<CapId>, r: seq<CapId>)
    requires Inv(s) && Enabled(s, Touch(c))
    ensures var s' := Step(s, Touch(c));
      && Inv(s') && multiset(s'.caps) == multiset(s.caps) && s.caps == l + [c] + r
      && (s.iter.Some? ==> s' == s) && (s.iter.None? ==> s'.caps == l + r + [c])
  {
    TouchInv(s, c);
    l, r := DelSplit(s.caps, c);
    assert multiset(l + [c] + r) == multiset(l + r + [c]);
  }

  // ----- code --------------------------------------------------------------

  /** What happens while the lock is dropped for one callback, the callback included; whether
      the callback asks to stop; and which inodes can be grabbed when the walk moves on. */
  datatype Round = Round(acts: seq<Event>, stop: bool, grab: set<CapId>)

  /** struct ceph_mds_session, with its cap list */
  class SessionList {
    var caps: seq<CapId>
    var nr: int
    var iter: Option<CapId>
    var cut: bool
    var oldCap: Option<CapId>
    ghost var removed: multiset<CapId>
    ghost var returned: multiset<CapId>
    ghost var visited: multiset<CapId>
    ghost var skipped: set<CapId>

    ghost function Model(): (s: Session)
      reads this
    {
      Session(caps, nr, iter, cut, oldCap, removed, returned, visited, skipped)
    }

    /** the list part of ceph_add_cap */
    method AddCap(c: CapId)
      requires Enabled(Model(), Add(c))
      modifies this
      ensures Model() == Step(old(Model()), Add(c))
    {
      caps := caps + [c];
      nr := nr + 1;
      visited := visited[c := 0];
      skipped := skipped - {c};
    }

    method TakeOff(c: CapId)
      requires Enabled(Model(), Remove(c))
      modifies this
      ensures Model() == Step(old(Model()), Remove(c))
    {
      removed := removed + multiset{c};
      if iter == Some(c) {
        cut := true;
      } else {
        caps := Del(caps, c);
        nr := nr - 1;
        visited := visited[c := 0];
        returned := returned + multiset{c};
      }
    }

    /** the list part of __ceph_remove_cap */
    method RemoveCap(c: CapId)
      requires Enabled(Model(), Remove(c))
      modifies this
      ensures Model() == Step(old(Model()), Remove(c))
      ensures old(Inv(Model())) ==> Inv(Model()) && (c in caps <==> old(iter) == Some(c))
    {
      if Inv(Model()) { ghost var l, r := RemoveEffect(Model(), c); }
      TakeOff(c);
    }

    /** __touch_cap */
    method TouchCap(c: CapId)
      requires Enabled(Model(), Touch(c))
      modifies this
      ensures Model() == Step(old(Model()), Touch(c))
      ensures old(Inv(Model())) ==> Inv(Model())
      ensures old(Inv(Model())) ==> multiset(caps) == multiset(old(caps))
    {
      if Inv(Model()) { ghost var l, r := TouchEffect(Model(), c); }
      if iter == None {
        caps := Del(caps, c) + [c];
      }
    }

    /** ceph_put_cap on a cap whose removal the walk finished */
    method PutOldCap()
      modifies this
      ensures Model() == if old(oldCap).Some? then Step(old(Model()), PutOld) else old(Model())
      ensures old(Inv(Model())) ==> Inv(Model())
    {
      if oldCap.Some? {
        returned := returned + multiset{oldCap.value};
        oldCap := None;
      }
    }

    /** The loop head: skip caps whose inode cannot be grabbed. */
    method PickNext(rest: seq<CapId>, grab: set<CapId>) returns (p: nat)
      modifies this
      ensures Model() == Scan(old(Model()), rest, grab)
      ensures p <= |rest| && (forall j :: 0 <= j < p ==> rest[j] !in grab)
      ensures if p < |rest| then rest[p] in grab && iter == Some(rest[p]) else iter == None
    {
      p := 0;
      assert rest[0..] == rest;
      while p < |rest| && rest[p] !in grab
        invariant 0 <= p <= |rest| && FirstGrab(rest[p..], grab) == FirstGrab(rest, grab)
        invariant forall j :: 0 <= j < p ==> rest[j] !in grab
      {
        p := p + 1;
      }
      skipped := skipped + NotGrabbed(rest, grab);
      if p < |rest| {
        iter := Some(rest[p]);
        visited := visited + multiset{rest[p]};
      } else {
        iter := None;
      }
    }

    /** What others do to the list while the lock is dropped; a step that is not possible then
        does not happen. */
    method Others(acts: seq<Event>)
      requires Inv(Model())
      modifies this
      ensures Inv(Model()) && iter == old(iter) && oldCap == old(oldCap)
    {
      for i := 0 to |acts|
        invariant Inv(Model()) && iter == old(iter) && oldCap == old(oldCap)
      {
        var e := acts[i];
        if (e.Add? || e.Remove? || e.Touch?) && Enabled(Session(caps, nr, iter, cut, oldCap, multiset{},
            multiset{}, multiset{}, {}), e) {
          StepInv(Model(), e);
          match e
          case Add(c) => AddCap(c);
          case Remove(c) => RemoveCap(c);
          case Touch(c) => TouchCap(c);
          case _ =>
        }
      }
    }

    /** The end of a removal that __ceph_remove_cap left to the walk. */
    method FinishRemoval()
      requires iter.Some?
      modifies this
      ensures Model() == Settle(old(Model()))
    {
      if cut {
        caps := Del(caps, iter.value);
        nr := nr - 1;
        cut := false;
        oldCap := iter;
        visited := visited[iter.value := 0];
      }
    }

    /** The lock retaken after a callback. */
    method AfterCallback(stop: bool, grab: set<CapId>)
      requires iter.Some? && oldCap.None?
      modifies this
      ensures Model() == Step(old(Model()), Resume(stop, grab))
    {
      var rest := After(caps, iter.value);
      FinishRemoval();
      if stop {
        iter := None;
      } else {
        var p := PickNext(rest, grab);
      }
    }

    /** One round of the walk. */
    method VisitOne(round: Round)
      requires Inv(Model()) && iter.Some?
      modifies this
      ensures Inv(Model()) && if round.stop then iter.None? else WalkOk(Model())
    {
      PutOldCap();
      Others(round.acts);
      ResumeInv(Model(), round.stop, round.grab);
      AfterCallback(round.stop, round.grab);
    }

    method StartWalk(first: set<CapId>)
      requires Inv(Model()) && iter.None? && oldCap.None?
      modifies this
      ensures Inv(Model()) && WalkOk(Model())
    {
      StartInv(Model(), first);
      visited, skipped := multiset{}, {};
      var p := PickNext(caps, first);
    }

    /** iterate_session_caps, for as many callbacks as rounds describes: whatever is done to the
        list in between, each cap on it at the end was visited exactly once or could not be
        grabbed, and every removed cap has been put once. It ends early only if a callback says so. */
    method IterateSessionCaps(first: set<CapId>, rounds: seq<Round>) returns (stopped: bool, called: nat)
      requires Inv(Model()) && iter.None? && oldCap.None?
      modifies this
      ensures Inv(Model()) && oldCap.None?
      ensures iter.None? ==> Model().removed == Model().returned
      ensures iter.None? && !stopped ==> AllSeen(caps, visited, skipped)
      ensures called <= |rounds| && (iter.Some? ==> called == |rounds| && !stopped)
      ensures stopped <==> called > 0 && rounds[called - 1].stop
      ensures forall k :: 0 <= k < called - 1 ==> !rounds[k].stop
    {
      StartWalk(first);
      stopped, called := false, 0;
      while iter.Some? && called < |rounds|
        invariant 0 <= called <= |rounds| && Inv(Model())
        invariant if stopped then iter.None? else WalkOk(Model())
        invariant stopped <==> called > 0 && rounds[called - 1].stop
        invariant forall k :: 0 <= k < called - 1 ==> !rounds[k].stop
        decreases |rounds| - called
      {
        stopped := rounds[called].stop;
        VisitOne(rounds[called]);
        called := called + 1;
      }
      PutOldCap();
    }
  }
}
