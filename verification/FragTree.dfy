/** The directory fragment tree of an inode: finding the leaf frag for a hash value, and
    replacing the set of splits by the one the MDS reports. The red-black tree is its
    in-order sequence of nodes. */
module FragTree {
  import opened Common
  import opened Frag

  datatype FragNode = FragNode(frag: Fragment, splitBy: nat, mds: int, ndist: nat)

  // ----- order -------------------------------------------------------------

  /** ceph_frag_compare */
  function Compare(a: Fragment, b: Fragment): (c: int)
  {
    if Num(a.value) < Num(b.value) then -1
    else if Num(a.value) > Num(b.value) then 1
    else if a.bits < b.bits then -1
    else if a.bits > b.bits then 1
    else 0
  }

  /** The comparison is a total order whose only ties are equal frags. */
  lemma CompareOrder(a: Fragment, b: Fragment, c: Fragment)
    ensures Compare(a, b) == 0 <==> a == b
    ensures Compare(a, b) == -Compare(b, a)
    ensures Compare(a, b) < 0 && Compare(b, c) < 0 ==> Compare(a, c) < 0
  {
    NumInjective(a.value, b.value);
  }

  lemma {:induction false} Pow2Grows(m: nat, n: nat)
    requires m < n
    ensures Pow2(m) < Pow2(n)
  {
    if n > m + 1 {
      Pow2Grows(m, n - 1);
    }
  }

  /** In terms of the values they contain: a frag precedes those that begin later, and those that begin
      with it but end sooner, such as its children. */
  lemma CompareRanges(a: Fragment, b: Fragment)
    requires Canonical(a) && Canonical(b)
    ensures Compare(a, b) < 0 <==> Begin(a) < Begin(b) || (Begin(a) == Begin(b) && End(b) < End(a))
  {
    if a.bits < b.bits {
      Pow2Grows(WIDTH - b.bits, WIDTH - a.bits);
    } else if b.bits < a.bits {
      Pow2Grows(WIDTH - a.bits, WIDTH - b.bits);
    }
  }

  ghost predicate Sorted(nodes: seq<FragNode>)
  {
    forall i, j :: 0 <= i < j < |nodes| ==> Compare(nodes[i].frag, nodes[j].frag) < 0
  }

  // ----- the tree as a map from frag to split ------------------------------

  ghost function AsMap(nodes: seq<FragNode>): (m: map<Fragment, nat>)
  {
    if nodes == [] then map[]
    else AsMap(nodes[..|nodes|-1])[nodes[|nodes|-1].frag := nodes[|nodes|-1].splitBy]
  }

  lemma {:induction false} AsMapAt(nodes: seq<FragNode>, i: nat)
    requires Sorted(nodes) && i < |nodes|
    ensures nodes[i].frag in AsMap(nodes) && AsMap(nodes)[nodes[i].frag] == nodes[i].splitBy
  {
    if i < |nodes| - 1 {
      AsMapAt(nodes[..|nodes|-1], i);
      CompareOrder(nodes[i].frag, nodes[|nodes|-1].frag, nodes[i].frag);
    }
  }

  lemma {:induction false} AsMapKey(nodes: seq<FragNode>, f: Fragment) returns (i: nat)
    requires f in AsMap(nodes)
    ensures i < |nodes| && nodes[i].frag == f
  {
    if nodes[|nodes|-1].frag == f {
      i := |nodes| - 1;
    } else {
      i := AsMapKey(nodes[..|nodes|-1], f);
    }
  }

  lemma {:induction false} AsMapInsert(nodes: seq<FragNode>, pos: nat, n: FragNode)
    requires pos <= |nodes| && n.frag !in AsMap(nodes)
    ensures AsMap(nodes[..pos] + [n] + nodes[pos..]) == AsMap(nodes)[n.frag := n.splitBy]
  {
    var all := nodes[..pos] + [n] + nodes[pos..];
    if pos == |nodes| {
      assert all[..|all|-1] == nodes;
    } else {
      var front := nodes[..|nodes|-1];
      assert all[..|all|-1] == front[..pos] + [n] + front[pos..];
      AsMapInsert(front, pos, n);
    }
  }

  lemma {:induction false} AsMapUpdate(nodes: seq<FragNode>, pos: nat, n: FragNode)
    requires Sorted(nodes) && pos < |nodes| && n.frag == nodes[pos].frag
    ensures AsMap(nodes[pos := n]) == AsMap(nodes)[n.frag := n.splitBy]
  {
    var all := nodes[pos := n];
    var front := nodes[..|nodes|-1];
    if pos == |nodes| - 1 {
      assert all[..|all|-1] == front;
    } else {
      assert all[..|all|-1] == front[pos := n];
      AsMapUpdate(front, pos, n);
      CompareOrder(nodes[pos].frag, nodes[|nodes|-1].frag, nodes[pos].frag);
    }
  }

  // ----- leaves ------------------------------------------------------------

  /** No split reaches beyond 24 bits. */
  ghost predicate WellFormed(m: map<Fragment, nat>)
  {
    forall f :: f in m ==> f.bits + m[f] <= WIDTH
  }

  ghost predicate IsLeaf(m: map<Fragment, nat>, t: Fragment)
  {
    t !in m || m[t] == 0
  }

  /** u is a leaf reached from t through splits. */
  ghost predicate LeafUnder(m: map<Fragment, nat>, t: Fragment, u: Fragment)
    requires WellFormed(m) && t.bits <= WIDTH
    decreases WIDTH - t.bits
  {
    if IsLeaf(m, t) then u == t
    else exists i: nat :: i < Pow2(m[t]) && LeafUnder(m, MakeChild(t, m[t], i), u)
  }

  /** Which child of a split holds a value. */
  function ChildIndex(t: Fragment, n: nat, v: Word): (i: nat)
    requires t.bits + n <= WIDTH
    ensures i < Pow2(n)
  {
    NumBound(v[t.bits..t.bits + n]);
    Num(v[t.bits..t.bits + n])
  }

  /** The leaf the descent reaches. */
  ghost function Descend(m: map<Fragment, nat>, t: Fragment, v: Word): (u: Fragment)
    requires WellFormed(m) && t.bits <= WIDTH
    ensures u.bits <= WIDTH
    decreases WIDTH - t.bits
  {
    if IsLeaf(m, t) then t else Descend(m, MakeChild(t, m[t], ChildIndex(t, m[t], v)), v)
  }

  lemma ChildCanonical(t: Fragment, n: nat, i: nat)
    requires t.bits + n <= WIDTH
    ensures Canonical(MakeChild(t, n, i)) && MakeChild(t, n, i).bits == t.bits + n
  {
    MakeIs(t.bits + n, Or(t.value, Shl(Low(i, WIDTH), WIDTH - (t.bits + n))));
  }

  lemma {:induction false} DescendIsLeaf(m: map<Fragment, nat>, t: Fragment, v: Word)
    requires WellFormed(m) && Canonical(t)
    ensures LeafUnder(m, t, Descend(m, t, v)) && IsLeaf(m, Descend(m, t, v))
    ensures Contains(t, v) ==> Contains(Descend(m, t, v), v)
    decreases WIDTH - t.bits
  {
    if !IsLeaf(m, t) {
      var i := ChildIndex(t, m[t], v);
      ChildContains(t, m[t], i, v);
      ChildCanonical(t, m[t], i);
      DescendIsLeaf(m, MakeChild(t, m[t], i), v);
    }
  }

  /** A leaf that contains a value is where the descent for that value ends. */
  lemma {:induction false} LeafUnique(m: map<Fragment, nat>, t: Fragment, u: Fragment, v: Word)
    requires WellFormed(m) && Canonical(t) && LeafUnder(m, t, u) && u.bits <= WIDTH && Contains(u, v)
    ensures Contains(t, v) && u == Descend(m, t, v)
    decreases WIDTH - t.bits
  {
    if !IsLeaf(m, t) {
      var i: nat :| i < Pow2(m[t]) && LeafUnder(m, MakeChild(t, m[t], i), u);
      ChildCanonical(t, m[t], i);
      LeafUnique(m, MakeChild(t, m[t], i), u, v);
      ChildContains(t, m[t], i, v);
    }
  }

  lemma RootContainsAll(v: Word)
    ensures Canonical(Root()) && Contains(Root(), v)
  {
    MakeIs(0, Zeros(WIDTH));
    ContainsIs([], v);
    assert Zeros(WIDTH)[..0] == [];
  }

  /** The leaves partition the space: each value is in exactly one leaf, the one the descent finds. */
  lemma LeavesPartition(m: map<Fragment, nat>, v: Word)
    requires WellFormed(m)
    ensures LeafUnder(m, Root(), Descend(m, Root(), v)) && Contains(Descend(m, Root(), v), v)
    ensures forall u :: LeafUnder(m, Root(), u) && u.bits <= WIDTH && Contains(u, v) ==> u == Descend(m, Root(), v)
  {
    RootContainsAll(v);
    DescendIsLeaf(m, Root(), v);
    forall u | LeafUnder(m, Root(), u) && u.bits <= WIDTH && Contains(u, v)
      ensures u == Descend(m, Root(), v)
    {
      LeafUnique(m, Root(), u, v);
    }
  }

  // ----- code --------------------------------------------------------------

  /** The reported splits as a map: a later entry for the same frag wins. */
  function SplitMap(splits: seq<(Fragment, nat)>): (m: map<Fragment, nat>)
  {
    if splits == [] then map[]
    else SplitMap(splits[..|splits|-1])[splits[|splits|-1].0 := splits[|splits|-1].1]
  }

  /** ci->i_fragtree */
  class Tree {
    var nodes: seq<FragNode>

    /** __ceph_find_frag: the node's place, or where it would go. Any node still in range may be
        the root of the subtree looked at, so this holds for every shape of the tree. */
    method FindFrag(f: Fragment) returns (found: bool, pos: nat)
      requires Sorted(nodes)
      ensures pos <= |nodes| && (found <==> f in AsMap(nodes)) && (found ==> pos < |nodes| && nodes[pos].frag == f)
      ensures forall j :: 0 <= j < pos ==> Compare(nodes[j].frag, f) < 0
      ensures forall j :: pos <= j < |nodes| ==>
          (if found && j == pos then nodes[j].frag == f else Compare(f, nodes[j].frag) < 0)
    {
      var lo, hi := 0, |nodes|;
      while lo < hi
        invariant 0 <= lo <= hi <= |nodes|
        invariant forall j :: 0 <= j < lo ==> Compare(nodes[j].frag, f) < 0
        invariant forall j :: hi <= j < |nodes| ==> Compare(f, nodes[j].frag) < 0
      {
        var mid: nat :| lo <= mid < hi;
        var c := Compare(f, nodes[mid].frag);
        BelowAbove(nodes, mid, f);
        if c < 0 {
          hi := mid;
        } else if c > 0 {
          lo := mid + 1;
        } else {
          AsMapAt(nodes, mid);
          return true, mid;
        }
      }
      assert f !in AsMap(nodes) by {
        if f in AsMap(nodes) {
          var i := AsMapKey(nodes, f);
          CompareOrder(f, f, f);
        }
      }
      return false, lo;
    }

    /** __ceph_choose_frag: descend from the root to the leaf that contains v. */
    method ChooseFrag(v: Word) returns (t: Fragment, found: bool)
      requires Sorted(nodes) && WellFormed(AsMap(nodes))
      ensures t == Descend(AsMap(nodes), Root(), v)
      ensures LeafUnder(AsMap(nodes), Root(), t) && Contains(t, v)
      ensures found <==> t in AsMap(nodes)
    {
      t := Root();
      ghost var m := AsMap(nodes);
      RootContainsAll(v);
      LeavesPartition(m, v);
      while true
        invariant Canonical(t) && Contains(t, v) && Descend(m, t, v) == Descend(m, Root(), v)
        decreases WIDTH - t.bits
      {
        var pos;
        found, pos := FindFrag(t);
        if !found {
          return;
        }
        AsMapAt(nodes, pos);
        var splitBy := nodes[pos].splitBy;
        if splitBy == 0 {
          return;
        }
        ChildCanonical(t, splitBy, ChildIndex(t, splitBy, v));
        t := ChooseChild(t, splitBy, v);
      }
    }

    /** The loop over the children of a split: the BUG_ON after it does not fire. */
    method ChooseChild(t: Fragment, splitBy: nat, v: Word) returns (n: Fragment)
      requires Canonical(t) && Contains(t, v) && t.bits + splitBy <= WIDTH
      ensures n == MakeChild(t, splitBy, ChildIndex(t, splitBy, v)) && n.bits <= WIDTH && Contains(n, v)
    {
      var nway := Pow2(splitBy);
      ghost var k := ChildIndex(t, splitBy, v);
      ChildContains(t, splitBy, k, v);
      ChildCanonical(t, splitBy, k);
      var i := 0;
      n := MakeChild(t, splitBy, 0);
      ChildCanonical(t, splitBy, 0);
      while !Contains(n, v)
        invariant 0 <= i <= k && n == MakeChild(t, splitBy, i) && n.bits <= WIDTH
        decreases k - i
      {
        i := i + 1;
        n := MakeChild(t, splitBy, i);
        ChildCanonical(t, splitBy, i);
      }
      ChildContains(t, splitBy, i, v);
    }

    /** __get_or_create_frag; cur is a cursor into the tree that the new node, if any, lands before. */
    method GetOrCreateFrag(f: Fragment, cur: nat) returns (pos: nat, next: nat)
      requires Sorted(nodes) && cur <= |nodes|
      requires forall j :: cur <= j < |nodes| ==> Compare(f, nodes[j].frag) < 0
      modifies this
      ensures Sorted(nodes) && cur <= next <= |nodes| && nodes[next..] == old(nodes)[cur..]
      ensures pos < next && nodes[pos].frag == f
      ensures f in AsMap(old(nodes)) ==> nodes == old(nodes) && next == cur
      ensures f !in AsMap(old(nodes)) ==> nodes[pos] == FragNode(f, 0, -1, 0)
      ensures AsMap(nodes[..next]) == AsMap(old(nodes)[..cur])[f := nodes[pos].splitBy]
    {
      var found;
      found, pos := FindFrag(f);
      next := cur;
      if found {
        FoundKeeps(nodes, pos, cur);
        return;
      }
      InsertFound(nodes, f, cur, pos);
      nodes := nodes[..pos] + [FragNode(f, 0, -1, 0)] + nodes[pos..];
      next := cur + 1;
    }

    /** The inner while loop of the merge: erase the nodes from the cursor on that come before id. */
    method EraseBelow(id: Fragment, cur: nat) returns (same: bool)
      requires Sorted(nodes) && cur <= |nodes|
      modifies this
      ensures Sorted(nodes) && cur <= |nodes| && nodes[..cur] == old(nodes)[..cur]
      ensures same <==> cur < |nodes| && nodes[cur].frag == id
      ensures forall j :: cur <= j < |nodes| && !(same && j == cur) ==> Compare(id, nodes[j].frag) < 0
    {
      same := false;
      while cur < |nodes|
        invariant Sorted(nodes) && cur <= |nodes| && nodes[..cur] == old(nodes)[..cur] && !same
        decreases |nodes|
      {
        BelowAbove(nodes, cur, id);
        CompareOrder(nodes[cur].frag, id, id);
        if Compare(nodes[cur].frag, id) >= 0 {
          same := nodes[cur].frag == id;
          return;
        }
        nodes := nodes[..cur] + nodes[cur+1..];
      }
    }

    /** The node for a reported id, with the cursor moved past it. */
    method SplitNode(id: Fragment, cur: nat) returns (pos: nat, next: nat)
      requires Sorted(nodes) && cur <= |nodes|
      modifies this
      ensures Sorted(nodes) && pos < next <= |nodes| && nodes[pos].frag == id
      ensures AsMap(nodes[..next]) == AsMap(old(nodes)[..cur])[id := nodes[pos].splitBy]
    {
      var same := EraseBelow(id, cur);
      if same {
        pos, next := cur, cur + 1;
        AsMapNext(nodes, cur);
      } else {
        pos, next := GetOrCreateFrag(id, cur);
      }
    }

    /** One reported split: step the cursor and store split_by. */
    method MergeSplit(id: Fragment, splitBy: nat, cur: nat) returns (next: nat)
      requires Sorted(nodes) && cur <= |nodes|
      modifies this
      ensures Sorted(nodes) && next <= |nodes|
      ensures AsMap(nodes[..next]) == AsMap(old(nodes)[..cur])[id := splitBy]
    {
      var pos;
      pos, next := SplitNode(id, cur);
      SetSplit(nodes, pos, next, splitBy);
      nodes := nodes[pos := nodes[pos].(splitBy := splitBy)];
    }

    /** ceph_fill_fragtree once it has decided to update: whatever the tree was, and in
        whatever order the ids come, the tree becomes exactly the reported splits. */
    method Replace(splits: seq<(Fragment, nat)>)
      requires Sorted(nodes)
      modifies this
      ensures Sorted(nodes) && AsMap(nodes) == SplitMap(splits)
    {
      var cur: nat := 0;
      for i := 0 to |splits|
        invariant Sorted(nodes) && cur <= |nodes| && AsMap(nodes[..cur]) == SplitMap(splits[..i])
      {
        cur := MergeSplit(splits[i].0, splits[i].1, cur);
        assert splits[..i+1][..i] == splits[..i];
      }
      assert splits[..|splits|] == splits;
      while cur < |nodes|
        invariant Sorted(nodes) && cur <= |nodes| && AsMap(nodes[..cur]) == SplitMap(splits)
        decreases |nodes|
      {
        ghost var before := nodes;
        nodes := nodes[..cur] + nodes[cur+1..];
        assert nodes[..cur] == before[..cur];
      }
      assert nodes[..cur] == nodes;
    }

    /** ceph_fill_fragtree: pick is the random index, dirinfo the frag of the reply's directory if any. */
    method FillFragtree(splits: seq<(Fragment, nat)>, pick: nat, dirinfo: Option<Fragment>) returns (update: bool)
      requires Sorted(nodes) && WellFormed(AsMap(nodes)) && (splits != [] ==> pick < |splits|)
      modifies this
      ensures Sorted(nodes) && (!update ==> nodes == old(nodes)) && (update ==> AsMap(nodes) == SplitMap(splits))
      ensures update <==>
        || (splits != [] && splits[pick].0 !in old(AsMap(nodes)))
        || (splits == [] && !(old(AsMap(nodes)).Keys <= {Root()}))
        || (dirinfo.Some? && dirinfo.value != Descend(old(AsMap(nodes)), Root(), dirinfo.value.value))
    {
      update := false;
      if splits != [] {
        var found, _ := FindFrag(splits[pick].0);
        update := !found;
      } else {
        OnlyRoot(nodes);
        if nodes != [] {
          update := nodes[0].frag != Root() || |nodes| > 1;
        }
      }
      if !update && dirinfo.Some? {
        var t, _ := ChooseFrag(dirinfo.value.value);
        update := dirinfo.value != t;
      }
      if update {
        Replace(splits);
      }
    }
  }

  /** A frag below every node from cur on is missing exactly when it is missing before cur. */
  lemma PrefixKeys(nodes: seq<FragNode>, f: Fragment, cur: nat)
    requires Sorted(nodes) && cur <= |nodes|
    requires forall j :: cur <= j < |nodes| ==> Compare(f, nodes[j].frag) < 0
    ensures f in AsMap(nodes) <==> f in AsMap(nodes[..cur])
  {
    CompareOrder(f, f, f);
    if f in AsMap(nodes) {
      var i := AsMapKey(nodes, f);
      AsMapAt(nodes[..cur], i);
    }
    if f in AsMap(nodes[..cur]) {
      var i := AsMapKey(nodes[..cur], f);
      AsMapAt(nodes, i);
    }
  }

  lemma FoundKeeps(nodes: seq<FragNode>, pos: nat, cur: nat)
    requires Sorted(nodes) && cur <= |nodes| && pos < |nodes|
    requires forall j :: cur <= j < |nodes| ==> Compare(nodes[pos].frag, nodes[j].frag) < 0
    ensures pos < cur && AsMap(nodes[..cur]) == AsMap(nodes[..cur])[nodes[pos].frag := nodes[pos].splitBy]
  {
    CompareOrder(nodes[pos].frag, nodes[pos].frag, nodes[pos].frag);
    AsMapAt(nodes[..cur], pos);
    assert nodes[..cur][pos] == nodes[pos];
  }

  lemma FoundBefore(nodes: seq<FragNode>, f: Fragment, cur: nat, pos: nat)
    requires Sorted(nodes) && cur <= |nodes| && pos <= |nodes| && f !in AsMap(nodes)
    requires forall j :: cur <= j < |nodes| ==> Compare(f, nodes[j].frag) < 0
    requires forall j :: 0 <= j < pos ==> Compare(nodes[j].frag, f) < 0
    ensures pos <= cur && f !in AsMap(nodes[..cur])
  {
    PrefixKeys(nodes, f, cur);
    if cur < pos {
      CompareOrder(f, nodes[cur].frag, f);
    }
  }

  lemma AsMapNext(nodes: seq<FragNode>, cur: nat)
    requires cur < |nodes|
    ensures AsMap(nodes[..cur + 1]) == AsMap(nodes[..cur])[nodes[cur].frag := nodes[cur].splitBy]
  {
    assert nodes[..cur + 1][..cur] == nodes[..cur];
  }

  /** Storing split_by in a node before the cursor. */
  lemma SetSplit(nodes: seq<FragNode>, pos: nat, next: nat, splitBy: nat)
    requires Sorted(nodes) && pos < next <= |nodes|
    ensures Sorted(nodes[pos := nodes[pos].(splitBy := splitBy)])
    ensures AsMap(nodes[pos := nodes[pos].(splitBy := splitBy)][..next])
        == AsMap(nodes[..next])[nodes[pos].frag := splitBy]
  {
    var n := nodes[pos].(splitBy := splitBy);
    AsMapUpdate(nodes[..next], pos, n);
    assert nodes[pos := n][..next] == nodes[..next][pos := n];
  }

  /** Inserting before the cursor moves the cursor by one and adds one key. */
  lemma InsertBefore(nodes: seq<FragNode>, pos: nat, cur: nat, n: FragNode)
    requires pos <= cur <= |nodes| && n.frag !in AsMap(nodes[..cur])
    ensures var all := nodes[..pos] + [n] + nodes[pos..];
      AsMap(all[..cur + 1]) == AsMap(nodes[..cur])[n.frag := n.splitBy] && all[cur + 1..] == nodes[cur..]
  {
    var all := nodes[..pos] + [n] + nodes[pos..];
    AsMapInsert(nodes[..cur], pos, n);
    assert all[..cur + 1] == nodes[..cur][..pos] + [n] + nodes[..cur][pos..];
  }

  /** A new node where the search ended: the tree stays sorted and gains one key before the cursor. */
  lemma InsertFound(nodes: seq<FragNode>, f: Fragment, cur: nat, pos: nat)
    requires Sorted(nodes) && cur <= |nodes| && pos <= |nodes| && f !in AsMap(nodes)
    requires forall j :: cur <= j < |nodes| ==> Compare(f, nodes[j].frag) < 0
    requires forall j :: 0 <= j < pos ==> Compare(nodes[j].frag, f) < 0
    requires forall j :: pos <= j < |nodes| ==> Compare(f, nodes[j].frag) < 0
    ensures pos <= cur
    ensures var all := nodes[..pos] + [FragNode(f, 0, -1, 0)] + nodes[pos..];
      && Sorted(all) && all[cur + 1..] == nodes[cur..] && all[pos] == FragNode(f, 0, -1, 0)
      && AsMap(all[..cur + 1]) == AsMap(nodes[..cur])[f := 0]
  {
    FoundBefore(nodes, f, cur, pos);
    SortedInsert(nodes, pos, FragNode(f, 0, -1, 0));
    InsertBefore(nodes, pos, cur, FragNode(f, 0, -1, 0));
  }

  lemma SortedInsert(nodes: seq<FragNode>, pos: nat, n: FragNode)
    requires Sorted(nodes) && pos <= |nodes|
    requires forall j :: 0 <= j < pos ==> Compare(nodes[j].frag, n.frag) < 0
    requires forall j :: pos <= j < |nodes| ==> Compare(n.frag, nodes[j].frag) < 0
    ensures Sorted(nodes[..pos] + [n] + nodes[pos..])
  {
  }

  lemma OnlyRoot(nodes: seq<FragNode>)
    requires Sorted(nodes)
    ensures AsMap(nodes).Keys <= {Root()} <==> nodes == [] || (|nodes| == 1 && nodes[0].frag == Root())
  {
    if nodes != [] {
      AsMapAt(nodes, 0);
      AsMapAt(nodes, |nodes| - 1);
      CompareOrder(nodes[0].frag, nodes[|nodes|-1].frag, nodes[0].frag);
      if |nodes| == 1 {
        assert nodes[..0] == [];
      }
    }
  }

  /** The map of the reported splits holds the last report for each id … */
  lemma {:induction false} SplitMapLast(splits: seq<(Fragment, nat)>, i: nat)
    requires i < |splits| && forall j :: i < j < |splits| ==> splits[j].0 != splits[i].0
    ensures splits[i].0 in SplitMap(splits) && SplitMap(splits)[splits[i].0] == splits[i].1
  {
    if i < |splits| - 1 {
      SplitMapLast(splits[..|splits|-1], i);
      assert splits[|splits|-1].0 != splits[i].0;
    }
  }

  /** … and nothing else. */
  lemma {:induction false} SplitMapKey(splits: seq<(Fragment, nat)>, f: Fragment) returns (i: nat)
    requires f in SplitMap(splits)
    ensures i < |splits| && splits[i].0 == f && SplitMap(splits)[f] == splits[i].1
    ensures forall j :: i < j < |splits| ==> splits[j].0 != f
  {
    if splits[|splits|-1].0 == f {
      i := |splits| - 1;
    } else {
      i := SplitMapKey(splits[..|splits|-1], f);
    }
  }

  /** Where a frag lies relative to one node decides where it lies relative to the nodes on one side. */
  lemma BelowAbove(nodes: seq<FragNode>, mid: nat, f: Fragment)
    requires Sorted(nodes) && mid < |nodes|
    ensures Compare(f, nodes[mid].frag) == 0 <==> f == nodes[mid].frag
    ensures Compare(f, nodes[mid].frag) <= 0 ==> forall j :: mid < j < |nodes| ==> Compare(f, nodes[j].frag) < 0
    ensures Compare(f, nodes[mid].frag) >= 0 ==> forall j :: 0 <= j < mid ==> Compare(nodes[j].frag, f) < 0
    ensures Compare(f, nodes[mid].frag) > 0 ==> Compare(nodes[mid].frag, f) < 0
  {
    CompareOrder(f, nodes[mid].frag, f);
    forall j | 0 <= j < |nodes|
      ensures j > mid && Compare(f, nodes[mid].frag) <= 0 ==> Compare(f, nodes[j].frag) < 0
      ensures j < mid && Compare(f, nodes[mid].frag) >= 0 ==> Compare(nodes[j].frag, f) < 0
    {
      CompareOrder(f, nodes[mid].frag, nodes[j].frag);
      CompareOrder(nodes[j].frag, nodes[mid].frag, f);
    }
  }
}
