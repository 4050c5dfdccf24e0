/** Completion of an image request: object requests finish in any order and are
    ended in ascending order by whichever callback finds the next one done. */
module RbdCompletion {

  /** The image request between critical sections. `pending` holds the requests
      whose callback has not run yet; `ended` lists the calls of
      rbd_img_obj_end_request, `completed` counts rbd_img_request_complete. */
  datatype State = State(
    done: seq<bool>, results: seq<int>, pending: set<nat>,
    next: nat, ended: seq<nat>, result: int, completed: nat)

  datatype Event =
    | Reply(which: nat, res: int)        // OSD reply: result recorded, then marked done
    | Callback(which: nat)               // rbd_img_obj_callback under completion_lock

  function Start(n: nat): (s: State)
    requires n > 0
  {
    State(seq(n, i => false), seq(n, i => 0), {}, 0, [], 0, 0)
  }

  predicate Enabled(s: State, ev: Event)
  {
    && |s.done| == |s.results| && ev.which < |s.done|
    && match ev
       case Reply(w, _) => !s.done[w]
       case Callback(w) => w in s.pending
  }

  /** The first request from `i` on that is not done. */
  function FirstUndone(done: seq<bool>, i: nat): (j: nat)
    requires i <= |done|
    ensures i <= j <= |done| && (forall k :: i <= k < j ==> done[k]) && (j < |done| ==> !done[j])
    decreases |done| - i
  {
    if i < |done| && done[i] then FirstUndone(done, i + 1) else i
  }

  function Upto(i: nat, j: nat): (s: seq<nat>)
    requires i <= j
    ensures |s| == j - i && forall k :: 0 <= k < |s| ==> s[k] == i + k
  {
    seq(j - i, k requires 0 <= k < j - i => i + k)
  }

  /** The image result: the first error in request order. */
  function FirstError(sofar: int, results: seq<int>): (r: int)
    decreases |results|
  {
    if sofar != 0 || results == [] then sofar else FirstError(results[0], results[1..])
  }

  /** r is the outcome of the requests whose results are given: 0 if all succeeded, else the error of
      the first that failed. */
  ghost predicate Outcome(results: seq<int>, r: int)
  {
    && (r == 0 <==> forall k :: 0 <= k < |results| ==> results[k] == 0)
    && (r != 0 ==> exists k :: 0 <= k < |results| && results[k] == r && forall j :: 0 <= j < k ==> results[j] == 0)
  }

  lemma {:induction false} FirstErrorIs(sofar: int, results: seq<int>)
    ensures sofar != 0 ==> FirstError(sofar, results) == sofar
    ensures sofar == 0 ==> Outcome(results, FirstError(sofar, results))
    decreases |results|
  {
    if sofar == 0 && results != [] {
      var r, rest := FirstError(sofar, results), results[1..];
      FirstErrorIs(results[0], rest);
      assert forall k :: 0 < k < |results| ==> results[k] == rest[k-1];
      if results[0] != 0 {
        assert results[0] == r;
      } else if r != 0 {
        var k :| 0 <= k < |rest| && rest[k] == r && forall j :: 0 <= j < k ==> rest[j] == 0;
        assert results[k+1] == r && forall j :: 0 <= j < k + 1 ==> results[j] == 0;
      } else {
        assert forall k :: 0 <= k < |rest| ==> rest[k] == 0;
      }
    }
  }

  function Apply(s: State, ev: Event): (s': State)
    requires Enabled(s, ev)
  {
    match ev
    case Reply(w, res) =>
      s.(done := s.done[w := true], results := s.results[w := res], pending := s.pending + {w})
    case Callback(w) =>
      if w != s.next then s.(pending := s.pending - {w})
      else
        var j := FirstUndone(s.done, s.next);
        s.(pending := s.pending - {w}, next := j, ended := s.ended + Upto(s.next, j),
           result := FirstError(s.result, s.results[s.next..j]),
           completed := s.completed + if j == |s.done| then 1 else 0)
  }

  ghost predicate Inv(s: State)
  {
    && 0 < |s.done| == |s.results|
    && s.next <= |s.done|
    && s.ended == Upto(0, s.next)
    && (forall i :: 0 <= i < s.next ==> s.done[i])
    && (forall i :: i in s.pending ==> i < |s.done| && s.done[i])
    // no stall: if the next request is done, the callback that will end it has yet to run
    && (s.next < |s.done| && s.done[s.next] ==> s.next in s.pending)
    && s.completed == (if s.next == |s.done| then 1 else 0)
    && s.result == FirstError(0, s.results[..s.next])
  }

  lemma {:induction false} FirstErrorConcat(sofar: int, a: seq<int>, b: seq<int>)
    ensures FirstError(sofar, a + b) == FirstError(FirstError(sofar, a), b)
    decreases |a|
  {
    if sofar == 0 && a != [] {
      assert (a + b)[1..] == a[1..] + b;
      FirstErrorConcat(a[0], a[1..], b);
    } else if a == [] {
      assert a + b == b;
    } else {
    }
  }

  lemma StepInv(s: State, ev: Event)
    requires Inv(s) && Enabled(s, ev)
    ensures Inv(Apply(s, ev))
  {
    var s' := Apply(s, ev);
    match ev
    case Reply(w, res) =>
      assert s'.results[..s.next] == s.results[..s.next];
    case Callback(w) =>
      if w == s.next {
        FirstErrorConcat(0, s.results[..s.next], s.results[s.next..s'.next]);
        assert s.results[..s.next] + s.results[s.next..s'.next] == s.results[..s'.next];
      }
  }

  predicate Legal(s: State, evs: seq<Event>)
    decreases |evs|
  {
    evs == [] || (Enabled(s, evs[0]) && Legal(Apply(s, evs[0]), evs[1..]))
  }

  function Exec(s: State, evs: seq<Event>): (s': State)
    requires Legal(s, evs)
    decreases |evs|
  {
    if evs == [] then s else Exec(Apply(s, evs[0]), evs[1..])
  }

  lemma {:induction false} RunInv(s: State, evs: seq<Event>)
    requires Inv(s) && Legal(s, evs)
    ensures Inv(Exec(s, evs)) && |Exec(s, evs).done| == |s.done|
    decreases |evs|
  {
    if evs != [] {
      StepInv(s, evs[0]);
      RunInv(Apply(s, evs[0]), evs[1..]);
    }
  }

  /** A request is done exactly if its reply came, and its result is the reply's. */
  lemma {:induction false} RepliesRecorded(s: State, evs: seq<Event>, w: nat)
    requires Legal(s, evs) && |s.done| == |s.results| && w < |s.done|
    ensures var t := Exec(s, evs);
      && |t.done| == |t.results| == |s.done|
      && (s.done[w] ==> t.done[w] && t.results[w] == s.results[w])
      && (forall k :: 0 <= k < |evs| && evs[k].Reply? && evs[k].which == w ==>
            t.done[w] && t.results[w] == evs[k].res)
      && (t.done[w] ==> s.done[w] || exists k :: 0 <= k < |evs| && evs[k].Reply? && evs[k].which == w)
    decreases |evs|
  {
    if evs != [] {
      var s', rest := Apply(s, evs[0]), evs[1..];
      RepliesRecorded(s', rest, w);
      assert forall k :: 0 < k < |evs| ==> evs[k] == rest[k-1];
      if k :| 0 <= k < |rest| && rest[k].Reply? && rest[k].which == w {
        assert evs[k+1].Reply? && evs[k+1].which == w;
      }
    }
  }

  lemma {:induction false} EventInRange(s: State, evs: seq<Event>, k: nat)
    requires Legal(s, evs) && k < |evs|
    ensures evs[k].which < |s.done|
    decreases |evs|
  {
    if k > 0 {
      EventInRange(Apply(s, evs[0]), evs[1..], k - 1);
    }
  }

  /** For every interleaving of replies and callbacks of an n-object request:
      the requests ended so far are 0, 1, 2, ... each once; the request completes at
      most once and only after the last; and once every reply is in and every
      callback has run, all were ended and it has completed, with the first error among the
      results the replies brought. */
  lemma EveryRun(n: nat, evs: seq<Event>)
    requires n > 0 && Legal(Start(n), evs)
    ensures var s := Exec(Start(n), evs);
      && s.next <= n && s.ended == Upto(0, s.next)
      && s.completed == (if s.next == n then 1 else 0)
      && |s.done| == |s.results| == n
      && (forall k :: 0 <= k < |evs| && evs[k].Reply? ==> evs[k].which < n && s.results[evs[k].which] == evs[k].res)
      && (s.pending == {} && (forall i :: 0 <= i < n ==> s.done[i])
          ==> s.next == n && s.completed == 1 && Outcome(s.results, s.result))
  {
    RunInv(Start(n), evs);
    forall k | 0 <= k < |evs| && evs[k].Reply?
      ensures evs[k].which < n && Exec(Start(n), evs).results[evs[k].which] == evs[k].res
    {
      EventInRange(Start(n), evs, k);
      RepliesRecorded(Start(n), evs, evs[k].which);
    }
    var s := Exec(Start(n), evs);
    FirstErrorIs(0, s.results);
    assert s.results[..|s.results|] == s.results;
  }

  /** The image request object and the code that runs on it. */
  class ImgRequest {
    var done: seq<bool>
    var results: seq<int>
    var next: nat
    var result: int
    ghost var pending: set<nat>
    ghost var ended: seq<nat>
    ghost var completed: nat

    ghost function Model(): (s: State)
      reads this
    {
      State(done, results, pending, next, ended, result, completed)
    }

    constructor (n: nat)
      requires n > 0
      ensures Model() == Start(n) && Inv(Model())
    {
      done, results := seq(n, i => false), seq(n, i => 0);
      next, result, pending, ended, completed := 0, 0, {}, [], 0;
    }

    method OsdReply(w: nat, res: int)
      requires Inv(Model()) && Enabled(Model(), Reply(w, res))
      modifies this
      ensures Model() == Apply(old(Model()), Reply(w, res)) && Inv(Model())
    {
      StepInv(Model(), Reply(w, res));
      results := results[w := res];
      done := done[w := true];
      pending := pending + {w};
    }

    /** The loop of rbd_img_obj_callback over rbd_img_obj_end_request: end every
        done request from `next` on. `more` is taken as for child requests. */
    method EndRequests() returns (which: nat, more: bool)
      requires |done| == |results| && next < |done|
      modifies this`result, this`ended
      ensures which == FirstUndone(done, next)
      ensures ended == old(ended) + Upto(next, which)
      ensures result == FirstError(old(result), results[next..which])
      ensures old(result) != 0 ==> result == old(result)
      ensures old(result) == 0 ==> Outcome(results[next..which], result)
      ensures more == (which < |done|)
    {
      which, more := next, true;
      while which < |done| && done[which]
        invariant next <= which <= |done|
        invariant FirstUndone(done, which) == FirstUndone(done, next)
        invariant more == (which < |done|)
        invariant ended == old(ended) + Upto(next, which)
        invariant result == FirstError(old(result), results[next..which])
      {
        FirstErrorConcat(old(result), results[next..which], [results[which]]);
        assert results[next..which] + [results[which]] == results[next..which+1];
        if results[which] != 0 {
          if result == 0 { result := results[which]; }
        }
        ended := ended + [which];
        more := which < |done| - 1;
        which := which + 1;
      }
      FirstErrorIs(old(result), results[next..which]);
    }

    /** rbd_img_obj_callback. */
    method ObjCallback(w: nat) returns (complete: bool)
      requires Inv(Model()) && Enabled(Model(), Callback(w))
      modifies this
      ensures Model() == Apply(old(Model()), Callback(w)) && Inv(Model())
      ensures complete <==> completed == old(completed) + 1
    {
      StepInv(Model(), Callback(w));
      complete := false;
      pending := pending - {w};
      if w == next {
        var which, more := EndRequests();
        next := which;
        complete := !more;
      }
      if complete { completed := completed + 1; }
    }
  }
}
