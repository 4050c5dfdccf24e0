/** Directory fragments: the 24-bit prefix arithmetic of ceph_frag.h. A 24-bit quantity is
    its bit string, most significant bit first; masks and shifts act on the bits. */
module Frag {
  import opened Common

  const WIDTH: nat := 24

  type Word = w: seq<bool> | |w| == WIDTH
    witness [false, false, false, false, false, false, false, false, false, false, false, false,
     false, false, false, false, false, false, false, false, false, false, false, false]

  /** An encoded frag: the upper 8 bits and the lower 24. */
  datatype Fragment = Fragment(bits: nat, value: Word)

  // ----- bit strings and numbers -------------------------------------------

  function Zeros(n: nat): (z: seq<bool>)
    ensures |z| == n && forall i :: 0 <= i < n ==> !z[i]
  {
    seq(n, i => false)
  }

  function And(a: Word, b: Word): (r: Word)
  {
    seq(24, i requires 0 <= i < 24 => a[i] && b[i])
  }

  function Or(a: Word, b: Word): (r: Word)
  {
    seq(24, i requires 0 <= i < 24 => a[i] || b[i])
  }

  /** Shift left; bits beyond the 24 are dropped, as every shift is masked. */
  function Shl(a: Word, k: nat): (r: Word)
    requires k <= WIDTH
  {
    a[k..] + Zeros(k)
  }

  function Ones(n: nat): (z: seq<bool>)
    ensures |z| == n && forall i :: 0 <= i < n ==> z[i]
  {
    seq(n, i => true)
  }

  /** The number a bit string stands for. */
  function Num(s: seq<bool>): (n: nat)
  {
    if s == [] then 0 else 2 * Num(s[..|s|-1]) + if s[|s|-1] then 1 else 0
  }

  lemma {:induction false} NumBound(s: seq<bool>)
    ensures Num(s) < Pow2(|s|)
  {
    if s != [] {
      NumBound(s[..|s|-1]);
    }
  }

  /** The low n bits of a number. */
  function Low(i: nat, n: nat): (s: seq<bool>)
    ensures |s| == n
  {
    if n == 0 then [] else Low(i / 2, n - 1) + [i % 2 == 1]
  }

  lemma {:induction false} NumLow(i: nat, n: nat)
    requires i < Pow2(n)
    ensures Num(Low(i, n)) == i
  {
    if n > 0 {
      NumLow(i / 2, n - 1);
      assert Low(i, n)[..n-1] == Low(i / 2, n - 1);
    }
  }

  lemma HalfNum(n: nat, last: bool)
    ensures (2 * n + if last then 1 else 0) / 2 == n && ((2 * n + if last then 1 else 0) % 2 == 1 <==> last)
  {
  }

  lemma {:induction false} LowNum(s: seq<bool>)
    ensures Low(Num(s), |s|) == s
  {
    if s != [] {
      var t, last := s[..|s|-1], s[|s|-1];
      LowNum(t);
      assert s == t + [last];
      HalfNum(Num(t), last);
    }
  }

  lemma {:induction false} LowPadded(i: nat, n: nat, m: nat)
    requires i < Pow2(n) && n <= m
    ensures Low(i, m) == Zeros(m - n) + Low(i, n)
    decreases m
  {
    if n == 0 {
      LowZero(m);
    } else {
      LowPadded(i / 2, n - 1, m - 1);
    }
  }

  lemma {:induction false} LowZero(m: nat)
    ensures Low(0, m) == Zeros(m)
  {
    if m > 0 {
      LowZero(m - 1);
    }
  }

  /** n * 2^k */
  function Scale(n: nat, k: nat): (r: nat)
  {
    if k == 0 then n else 2 * Scale(n, k - 1)
  }

  lemma {:induction false} NumConcat(a: seq<bool>, b: seq<bool>)
    ensures Num(a + b) == Scale(Num(a), |b|) + Num(b)
    decreases |b|
  {
    if b == [] {
      assert a + b == a;
    } else {
      assert (a + b)[..|a + b|-1] == a + b[..|b|-1];
      NumConcat(a, b[..|b|-1]);
    }
  }

  lemma {:induction false} ScaleNext(n: nat, k: nat)
    ensures Scale(n + 1, k) == Scale(n, k) + Pow2(k)
  {
    if k > 0 {
      ScaleNext(n, k - 1);
    }
  }

  lemma {:induction false} ScaleMonotone(m: nat, n: nat, k: nat)
    requires m <= n
    ensures Scale(m, k) <= Scale(n, k)
  {
    if k > 0 {
      ScaleMonotone(m, n, k - 1);
    }
  }

  lemma {:induction false} LowScale(n: nat, m: nat, k: nat)
    ensures Low(Scale(n, k), m + k) == Low(n, m) + Zeros(k)
  {
    if k > 0 {
      LowScale(n, m, k - 1);
      assert Zeros(k - 1) + [false] == Zeros(k);
    } else {
      assert Low(n, m) + Zeros(0) == Low(n, m);
    }
  }

  lemma {:induction false} NumOnes(s: seq<bool>)
    ensures Num(s) + 1 == Pow2(|s|) <==> s == Ones(|s|)
  {
    if s != [] {
      var t := s[..|s|-1];
      NumOnes(t);
      NumBound(t);
      assert s == t + [s[|s|-1]];
      assert Ones(|s|) == Ones(|t|) + [true];
    }
  }

  lemma {:induction false} NumZeros(n: nat)
    ensures Num(Zeros(n)) == 0
  {
    if n > 0 {
      assert Zeros(n)[..n-1] == Zeros(n - 1);
      NumZeros(n - 1);
    }
  }

  // ----- ceph_frag.h -------------------------------------------------------

  /** The mask of a frag with b bits: 0xffffff << (24 - b). */
  function MaskOf(b: nat): (m: Word)
    requires b <= WIDTH
  {
    Shl(Ones(WIDTH), WIDTH - b)
  }

  /** ceph_frag_make */
  function Make(b: nat, v: Word): (f: Fragment)
    requires b <= WIDTH
  {
    Fragment(b, And(v, MaskOf(b)))
  }

  /** No value bits outside the mask. */
  predicate Canonical(f: Fragment)
  {
    f.bits <= WIDTH && f.value[f.bits..] == Zeros(WIDTH - f.bits)
  }

  /** ceph_frag_contains_value, of the low 24 bits of a value */
  predicate Contains(f: Fragment, v: Word)
    requires f.bits <= WIDTH
  {
    And(v, MaskOf(f.bits)) == f.value
  }

  /** ceph_frag_make_child */
  function MakeChild(f: Fragment, n: nat, i: nat): (c: Fragment)
    requires f.bits + n <= WIDTH
  {
    Make(f.bits + n, Or(f.value, Shl(Low(i, WIDTH), WIDTH - (f.bits + n))))
  }

  function Root(): (f: Fragment)
  {
    Make(0, Zeros(WIDTH))
  }

  /** The frag with a given prefix. */
  function OfPrefix(a: seq<bool>): (f: Fragment)
    requires |a| <= WIDTH
  {
    Fragment(|a|, a + Zeros(WIDTH - |a|))
  }

  function Prefix(f: Fragment): (a: seq<bool>)
    requires f.bits <= WIDTH
  {
    f.value[..f.bits]
  }

  lemma CanonicalIs(f: Fragment)
    requires Canonical(f)
    ensures f == OfPrefix(Prefix(f))
  {
    assert f.value == f.value[..f.bits] + f.value[f.bits..];
  }

  /** ceph_frag_make cuts a prefix. */
  lemma MakeIs(b: nat, v: Word)
    requires b <= WIDTH
    ensures Make(b, v) == OfPrefix(v[..b])
  {
    assert MaskOf(b) == Ones(b) + Zeros(WIDTH - b);
    assert And(v, MaskOf(b)) == v[..b] + Zeros(WIDTH - b);
  }

  /** A frag contains exactly the values that start with its prefix. */
  lemma ContainsIs(a: seq<bool>, v: Word)
    requires |a| <= WIDTH
    ensures Contains(OfPrefix(a), v) <==> a <= v
  {
    MakeIs(|a|, v);
    var w := v[..|a|];
    assert Contains(OfPrefix(a), v) <==> OfPrefix(w).value == OfPrefix(a).value;
    SameParts(w, Zeros(WIDTH - |a|), a, Zeros(WIDTH - |a|));
  }

  lemma SameParts(a: seq<bool>, b: seq<bool>, c: seq<bool>, d: seq<bool>)
    requires |a| == |c|
    ensures a + b == c + d <==> a == c && b == d
  {
    if a + b == c + d {
      assert a == (a + b)[..|a|] && b == (a + b)[|a|..];
    }
  }

  lemma ShiftedLow(i: nat, n: nat, b: nat)
    requires n <= b <= WIDTH && i < Pow2(n)
    ensures Shl(Low(i, WIDTH), WIDTH - b)[..b] == Zeros(b - n) + Low(i, n)
  {
    LowPadded(i, n, WIDTH);
  }

  lemma OrDisjoint(a: seq<bool>, c: seq<bool>, w: Word)
    requires |a| + |c| <= WIDTH && w[..|a| + |c|] == Zeros(|a|) + c
    ensures Or(OfPrefix(a).value, w)[..|a| + |c|] == a + c
  {
    var b := |a| + |c|;
    forall k | 0 <= k < b
      ensures Or(OfPrefix(a).value, w)[k] == (a + c)[k]
    {
      assert w[k] == w[..b][k] == (Zeros(|a|) + c)[k];
    }
  }

  /** Child i's prefix is the parent's followed by i in n bits. */
  lemma ChildIs(a: seq<bool>, n: nat, i: nat)
    requires |a| + n <= WIDTH && i < Pow2(n)
    ensures MakeChild(OfPrefix(a), n, i) == OfPrefix(a + Low(i, n))
  {
    var w := Shl(Low(i, WIDTH), WIDTH - (|a| + n));
    ShiftedLow(i, n, |a| + n);
    OrDisjoint(a, Low(i, n), w);
    MakeIs(|a| + n, Or(OfPrefix(a).value, w));
  }

  lemma PrefixOfTwo(a: seq<bool>, c: seq<bool>, v: seq<bool>)
    requires |a| + |c| <= |v|
    ensures a + c <= v <==> a <= v && v[|a|..|a| + |c|] == c
  {
    assert v[..|a| + |c|] == v[..|a|] + v[|a|..|a| + |c|];
    SameParts(v[..|a|], v[|a|..|a| + |c|], a, c);
  }

  /** Among the 2^n children of a split, exactly the one numbered by the next n bits of a value contains it. */
  lemma ChildContains(f: Fragment, n: nat, i: nat, v: Word)
    requires Canonical(f) && f.bits + n <= WIDTH && i < Pow2(n)
    ensures Contains(MakeChild(f, n, i), v) <==> Contains(f, v) && i == Num(v[f.bits..f.bits + n])
  {
    var a, next := Prefix(f), v[f.bits..f.bits + n];
    CanonicalIs(f);
    ChildIs(a, n, i);
    ContainsIs(a, v);
    ContainsIs(a + Low(i, n), v);
    PrefixOfTwo(a, Low(i, n), v);
    NumLow(i, n);
    LowNum(next);
  }

  // ----- ranges ------------------------------------------------------------

  /** First value of a frag, and one past the last. */
  function Begin(f: Fragment): (n: nat)
  {
    Num(f.value)
  }

  function End(f: Fragment): (n: nat)
    requires f.bits <= WIDTH
  {
    Num(f.value) + Pow2(WIDTH - f.bits)
  }

  lemma NumShifted(a: seq<bool>, k: nat)
    ensures Num(a + Zeros(k)) == Scale(Num(a), k)
  {
    NumConcat(a, Zeros(k));
    NumZeros(k);
  }

  /** Blocks of 2^k consecutive numbers do not overlap. */
  lemma SameBlock(p: nat, q: nat, k: nat, r: nat)
    requires r < Pow2(k)
    ensures p == q <==> Scale(p, k) <= Scale(q, k) + r < Scale(p, k) + Pow2(k)
  {
    ScaleNext(p, k);
    ScaleNext(q, k);
    if p < q {
      ScaleMonotone(p + 1, q, k);
    } else if q < p {
      ScaleMonotone(q + 1, p, k);
    }
  }

  lemma NumInjective(a: seq<bool>, b: seq<bool>)
    requires |a| == |b|
    ensures Num(a) == Num(b) <==> a == b
  {
    LowNum(a);
    LowNum(b);
  }

  lemma PrefixRange(a: seq<bool>, v: seq<bool>, k: nat)
    requires |v| == |a| + k
    ensures a <= v <==> Scale(Num(a), k) <= Num(v) < Scale(Num(a), k) + Pow2(k)
  {
    var c, r := v[..|a|], v[|a|..];
    assert v == c + r;
    NumConcat(c, r);
    NumBound(r);
    NumInjective(a, c);
    SameBlock(Num(a), Num(c), k, Num(r));
  }

  lemma BeginOf(a: seq<bool>, k: nat)
    requires |a| + k == WIDTH
    ensures Begin(OfPrefix(a)) == Scale(Num(a), k) && End(OfPrefix(a)) == Scale(Num(a), k) + Pow2(k)
  {
    NumShifted(a, k);
  }

  /** As numbers, a frag's values are the interval [Begin, End). */
  lemma ContainsRange(f: Fragment, v: Word)
    requires Canonical(f)
    ensures Contains(f, v) <==> Begin(f) <= Num(v) < End(f)
  {
    var a, k := Prefix(f), WIDTH - f.bits;
    CanonicalIs(f);
    ContainsIs(a, v);
    BeginOf(a, k);
    PrefixRange(a, v, k);
  }

  predicate Rightmost(f: Fragment)
    requires f.bits <= WIDTH
  {
    f.value == MaskOf(f.bits)
  }

  /** ceph_frag_next: add 0x1000000 >> bits and mask again. */
  function Next(f: Fragment): (g: Fragment)
    requires f.bits <= WIDTH
  {
    Make(f.bits, Low(Num(f.value) + Pow2(WIDTH - f.bits), WIDTH))
  }

  /** Adding 2^k to a word whose low k bits are clear increments the bits above. */
  lemma IncrementAbove(a: seq<bool>, k: nat, width: nat)
    requires width == |a| + k
    ensures Low(Num(a + Zeros(k)) + Pow2(k), width) == Low(Num(a) + 1, |a|) + Zeros(k)
  {
    NumShifted(a, k);
    ScaleNext(Num(a), k);
    LowScale(Num(a) + 1, |a|, k);
  }

  lemma NextIs(a: seq<bool>, k: nat)
    requires |a| + k == WIDTH
    ensures Next(OfPrefix(a)) == OfPrefix(Low(Num(a) + 1, |a|))
  {
    var w: Word := Low(Num(a + Zeros(k)) + Pow2(k), WIDTH);
    assert w[..|a|] == Low(Num(a) + 1, |a|) by {
      IncrementAbove(a, k, WIDTH);
    }
    MakeIs(|a|, w);
  }

  lemma NextBlock(a: seq<bool>, c: seq<bool>, k: nat)
    requires |a| + k == WIDTH && |c| == |a| && Num(c) == Num(a) + 1
    ensures Begin(OfPrefix(c)) == End(OfPrefix(a))
  {
    BeginOf(a, k);
    BeginOf(c, k);
    ScaleNext(Num(a), k);
  }

  lemma NotRightmost(a: seq<bool>, k: nat)
    requires |a| + k == WIDTH && !Rightmost(OfPrefix(a))
    ensures Num(a) + 1 < Pow2(|a|)
  {
    NumOnes(a);
    NumBound(a);
    assert MaskOf(|a|) == Ones(|a|) + Zeros(k);
  }

  /** The next frag of a frag that is not the rightmost starts exactly where that frag ends, and has
      the same width. */
  lemma NextStartsAtEnd(f: Fragment)
    requires Canonical(f) && !Rightmost(f)
    ensures Next(f).bits == f.bits && Begin(Next(f)) == End(f)
  {
    var k := WIDTH - f.bits;
    CanonicalIs(f);
    var a := Prefix(f);
    NotRightmost(a, k);
    NextIs(a, k);
    NumLow(Num(a) + 1, |a|);
    NextBlock(a, Low(Num(a) + 1, |a|), k);
  }
}
