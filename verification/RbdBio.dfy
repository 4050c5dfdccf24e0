/** Cloning byte ranges of bio chains, and handing an image request's data to its
    object requests. Memory is not copied: a byte of a bio is a place in a page. */
module RbdBio {
  import opened Common
  import opened RbdImage

  datatype Place = Place(page: nat, at: nat)
  datatype BioVec = BioVec(page: nat, offset: nat, len: nat)
  datatype Bio = Bio(sector: nat, vecs: seq<BioVec>, size: nat)
  const SECTOR_SIZE: nat := 512

  function VecPlaces(v: BioVec): (ps: seq<Place>)
    ensures |ps| == v.len
  {
    seq(v.len, i requires 0 <= i < v.len => Place(v.page, v.offset + i))
  }

  /** The memory a list of segments covers, byte by byte. */
  function Places(vecs: seq<BioVec>): (ps: seq<Place>)
  {
    if vecs == [] then [] else VecPlaces(vecs[0]) + Places(vecs[1..])
  }

  /** A data bio: its size is what its segments hold, and it holds something. */
  ghost predicate ValidBio(b: Bio)
  {
    b.size == |Places(b.vecs)| > 0
  }

  ghost predicate ValidChain(chain: seq<Bio>)
  {
    chain == [] || (ValidBio(chain[0]) && ValidChain(chain[1..]))
  }

  /** The memory a chain of bios covers. */
  function ChainPlaces(chain: seq<Bio>): (ps: seq<Place>)
  {
    if chain == [] then [] else Places(chain[0].vecs) + ChainPlaces(chain[1..])
  }

  lemma {:induction false} PlacesConcat(a: seq<BioVec>, b: seq<BioVec>)
    ensures Places(a + b) == Places(a) + Places(b)
  {
    if a == [] {
      assert a + b == b;
    } else {
      assert (a + b)[1..] == a[1..] + b;
      PlacesConcat(a[1..], b);
    }
  }

  lemma {:induction false} ChainConcat(a: seq<Bio>, b: seq<Bio>)
    ensures ChainPlaces(a + b) == ChainPlaces(a) + ChainPlaces(b)
  {
    if a == [] {
      assert a + b == b;
    } else {
      assert (a + b)[1..] == a[1..] + b;
      ChainConcat(a[1..], b);
    }
  }

  lemma PlacesOne(v: BioVec)
    ensures Places([v]) == VecPlaces(v)
  {
    assert Places([v]) == VecPlaces(v) + Places([]);
  }

  lemma PlacesSnoc(vecs: seq<BioVec>, i: nat)
    requires i < |vecs|
    ensures Places(vecs[..i+1]) == Places(vecs[..i]) + VecPlaces(vecs[i])
  {
    assert vecs[..i+1] == vecs[..i] + [vecs[i]];
    PlacesConcat(vecs[..i], [vecs[i]]);
    PlacesOne(vecs[i]);
  }

  lemma PlacesSplit(vecs: seq<BioVec>, i: nat)
    requires i <= |vecs|
    ensures Places(vecs) == Places(vecs[..i]) + Places(vecs[i..])
  {
    assert vecs == vecs[..i] + vecs[i..];
    PlacesConcat(vecs[..i], vecs[i..]);
  }

  /** Trimming the first and the last of the segments vecs[idx..end] as bio_clone_range does. */
  function Trimmed(vecs: seq<BioVec>, idx: nat, end: nat, voff: nat, resid: nat): (r: seq<BioVec>)
    requires idx <= end < |vecs| && voff <= vecs[idx].len && (idx == end ==> voff <= resid)
  {
    if idx == end then
      [vecs[idx].(offset := vecs[idx].offset + voff, len := resid - voff)]
    else
      [vecs[idx].(offset := vecs[idx].offset + voff, len := vecs[idx].len - voff)]
        + vecs[idx+1..end] + [vecs[end].(len := resid)]
  }

  lemma VecTail(v: BioVec, voff: nat)
    requires voff <= v.len
    ensures VecPlaces(v.(offset := v.offset + voff, len := v.len - voff)) == VecPlaces(v)[voff..]
  {
  }

  lemma VecHead(v: BioVec, n: nat)
    requires n <= v.len
    ensures VecPlaces(v.(len := n)) == VecPlaces(v)[..n]
  {
  }

  lemma SliceOne<T>(p: seq<T>, a: seq<T>, s: seq<T>, i: nat, j: nat)
    requires i <= j <= |a|
    ensures (p + (a + s))[|p| + i..|p| + j] == a[i..j]
  {
  }

  lemma SliceTwo<T>(p: seq<T>, m: seq<T>, z: seq<T>, s: seq<T>, i: nat, j: nat)
    requires i <= |m| && j <= |z|
    ensures (p + (m + (z + s)))[|p| + i..|p| + |m| + j] == m[i..] + z[..j]
  {
    var all := p + (m + (z + s));
    assert all[|p| + i..|p| + |m|] == m[i..];
    assert all[|p| + |m|..|p| + |m| + j] == z[..j];
  }

  lemma PlacesAt(vecs: seq<BioVec>, i: nat)
    requires i < |vecs|
    ensures Places(vecs) == Places(vecs[..i]) + (VecPlaces(vecs[i]) + Places(vecs[i+1..]))
  {
    PlacesSplit(vecs, i);
    assert vecs[i..][0] == vecs[i] && vecs[i..][1..] == vecs[i+1..];
  }

  lemma TrimmedOne(vecs: seq<BioVec>, idx: nat, voff: nat, resid: nat)
    requires idx < |vecs| && voff <= resid <= vecs[idx].len
    ensures |Places(vecs[..idx])| + resid <= |Places(vecs)|
    ensures Places(Trimmed(vecs, idx, idx, voff, resid))
         == Places(vecs)[|Places(vecs[..idx])| + voff..|Places(vecs[..idx])| + resid]
  {
    var v := Trimmed(vecs, idx, idx, voff, resid)[0];
    PlacesAt(vecs, idx);
    PlacesOne(v);
    assert VecPlaces(v) == VecPlaces(vecs[idx])[voff..resid];
    SliceOne(Places(vecs[..idx]), VecPlaces(vecs[idx]), Places(vecs[idx+1..]), voff, resid);
  }

  lemma EndsPlaces(a: BioVec, mid: seq<BioVec>, z: BioVec, voff: nat, resid: nat)
    requires voff <= a.len && resid <= z.len
    ensures Places([a.(offset := a.offset + voff, len := a.len - voff)] + mid + [z.(len := resid)])
         == (VecPlaces(a) + Places(mid))[voff..] + VecPlaces(z)[..resid]
  {
    var a', z' := a.(offset := a.offset + voff, len := a.len - voff), z.(len := resid);
    PlacesConcat([a'] + mid, [z']);
    PlacesConcat([a'], mid);
    PlacesOne(a');
    PlacesOne(z');
    VecTail(a, voff);
    VecHead(z, resid);
    assert (VecPlaces(a) + Places(mid))[voff..] == VecPlaces(a)[voff..] + Places(mid);
  }

  lemma PlacesBetween(vecs: seq<BioVec>, idx: nat, end: nat)
    requires idx < end < |vecs|
    ensures var m := VecPlaces(vecs[idx]) + Places(vecs[idx+1..end]);
      && Places(vecs[..end]) == Places(vecs[..idx]) + m
      && Places(vecs) == Places(vecs[..idx]) + (m + (VecPlaces(vecs[end]) + Places(vecs[end+1..])))
  {
    var a, mid := vecs[idx], vecs[idx+1..end];
    assert vecs[..end] == vecs[..idx] + ([a] + mid);
    PlacesConcat(vecs[..idx], [a] + mid);
    PlacesConcat([a], mid);
    PlacesOne(a);
    PlacesAt(vecs, end);
    Assoc(Places(vecs[..idx]), VecPlaces(a) + Places(mid), VecPlaces(vecs[end]) + Places(vecs[end+1..]));
  }

  lemma TrimmedMany(vecs: seq<BioVec>, idx: nat, end: nat, voff: nat, resid: nat)
    requires idx < end < |vecs| && voff <= vecs[idx].len && resid <= vecs[end].len
    ensures |Places(vecs[..idx])| + voff <= |Places(vecs[..end])|
    ensures |Places(vecs[..end])| + resid <= |Places(vecs)|
    ensures Places(Trimmed(vecs, idx, end, voff, resid))
         == Places(vecs)[|Places(vecs[..idx])| + voff..|Places(vecs[..end])| + resid]
  {
    var a, z, mid := vecs[idx], vecs[end], vecs[idx+1..end];
    var p, m, s := Places(vecs[..idx]), VecPlaces(a) + Places(mid), Places(vecs[end+1..]);
    PlacesBetween(vecs, idx, end);
    EndsPlaces(a, mid, z, voff, resid);
    SliceTwo(p, m, VecPlaces(z), s, voff, resid);
  }

  /** The segment that holds byte `offset`, and where in it. */
  method FirstSegment(vecs: seq<BioVec>, offset: nat) returns (idx: nat, resid: nat)
    requires offset < |Places(vecs)|
    ensures idx < |vecs| && resid < vecs[idx].len && |Places(vecs[..idx])| + resid == offset
  {
    assert vecs[..|vecs|] == vecs;
    idx, resid := 0, offset;
    while idx < |vecs| && resid >= vecs[idx].len
      invariant idx <= |vecs|
      invariant |Places(vecs[..idx])| + resid == offset
    {
      PlacesSnoc(vecs, idx);
      resid := resid - vecs[idx].len;
      idx := idx + 1;
    }
  }

  /** The segment that holds the last of `len` bytes starting voff into segment idx. */
  method LastSegment(vecs: seq<BioVec>, idx: nat, voff: nat, len: nat) returns (end: nat, resid: nat)
    requires idx < |vecs| && 0 < len && |Places(vecs[..idx])| + voff + len <= |Places(vecs)|
    ensures idx <= end < |vecs| && resid <= vecs[end].len && (end == idx ==> resid == voff + len)
    ensures |Places(vecs[..end])| + resid == |Places(vecs[..idx])| + voff + len
  {
    assert vecs[..|vecs|] == vecs;
    end, resid := idx, voff + len;
    while end < |vecs| && resid > vecs[end].len
      invariant idx <= end <= |vecs| && resid > 0 && (end == idx ==> resid == voff + len)
      invariant |Places(vecs[..end])| + resid == |Places(vecs[..idx])| + voff + len
    {
      PlacesSnoc(vecs, end);
      resid := resid - vecs[end].len;
      end := end + 1;
    }
  }

  /** bio_clone_range: clone `len` bytes of a bio from byte `offset` on. */
  method BioCloneRange(src: Bio, offset: nat, len: nat) returns (r: Option<Bio>)
    requires ValidBio(src)
    ensures r.Some? <==> len > 0 && offset + len <= src.size
    ensures r.Some? ==> ValidBio(r.value) && r.value.size == len
    ensures r.Some? ==> Places(r.value.vecs) == Places(src.vecs)[offset..offset + len]
    ensures r.Some? ==> r.value.sector == src.sector + offset / SECTOR_SIZE
  {
    if offset == 0 && len == src.size {
      assert Places(src.vecs)[0..len] == Places(src.vecs);
      return Some(src);
    }
    if len == 0 || len > src.size || offset > src.size - len {
      return None;
    }
    var idx, voff := FirstSegment(src.vecs, offset);
    var end, resid := LastSegment(src.vecs, idx, voff, len);
    if idx == end {
      TrimmedOne(src.vecs, idx, voff, resid);
    } else {
      TrimmedMany(src.vecs, idx, end, voff, resid);
    }
    r := Some(Bio(src.sector + offset / SECTOR_SIZE, Trimmed(src.vecs, idx, end, voff, resid), len));
  }

  /** A cursor into a chain: byte `off` of its first bio, and not past that bio's end. */
  ghost predicate ValidCursor(chain: seq<Bio>, off: nat)
  {
    ValidChain(chain) && if chain == [] then off == 0 else off < chain[0].size
  }

  /** The bytes from the cursor to the end of the chain. */
  ghost function Remaining(chain: seq<Bio>, off: nat): (ps: seq<Place>)
    requires ValidCursor(chain, off)
  {
    if chain == [] then [] else Places(chain[0].vecs)[off..] + ChainPlaces(chain[1..])
  }

  lemma StartCursor(chain: seq<Bio>)
    requires ValidChain(chain)
    ensures ValidCursor(chain, 0) && Remaining(chain, 0) == ChainPlaces(chain)
  {
  }

  lemma TakeFromFirst(chain: seq<Bio>, off: nat, n: nat)
    requires chain != [] && ValidCursor(chain, off) && off + n <= chain[0].size
    ensures var taken := Places(chain[0].vecs)[off..off + n];
      if off + n == chain[0].size
          then ValidCursor(chain[1..], 0) && taken + Remaining(chain[1..], 0) == Remaining(chain, off)
      else ValidCursor(chain, off + n) && taken + Remaining(chain, off + n) == Remaining(chain, off)
  {
    var here, beyond := Places(chain[0].vecs), ChainPlaces(chain[1..]);
    assert here[off..off + n] + here[off + n..] == here[off..];
    if off + n == |here| {
      StartCursor(chain[1..]);
      assert here[off..off + n] == here[off..];
    } else {
      Assoc(here[off..off + n], here[off + n..], beyond);
    }
  }

  /** The loop body of bio_chain_clone_range: up to `left` bytes of the first bio. */
  method CloneFromFirst(chain: seq<Bio>, offset: nat, left: nat) returns (bio: Bio, rest: seq<Bio>, off: nat)
    requires chain != [] && ValidCursor(chain, offset) && left > 0
    ensures ValidBio(bio) && bio.size <= left && ValidCursor(rest, off)
    ensures Places(bio.vecs) + Remaining(rest, off) == Remaining(chain, offset)
  {
    var bi := chain[0];
    var n := if bi.size - offset <= left then bi.size - offset else left;
    var r := BioCloneRange(bi, offset, n);
    bio := r.value;
    TakeFromFirst(chain, offset, n);
    rest, off := chain, offset + n;
    if off == bi.size {
      rest, off := chain[1..], 0;
    }
  }

  /** bio_chain_clone_range: clone `len` bytes of a chain from byte `offset` of its
      first bio on. `rest`/`off` are the in-out cursor on return: the clones are the
      next `len` bytes, and the cursor stands at the first byte not cloned. */
  method BioChainCloneRange(chain: seq<Bio>, offset: nat, len: nat)
    returns (r: Option<seq<Bio>>, rest: seq<Bio>, off: nat)
    requires ValidCursor(chain, offset)
    ensures r.Some? <==> 0 < len <= |Remaining(chain, offset)|
    ensures r.None? ==> rest == chain && off == offset
    ensures ValidCursor(rest, off)
    ensures r.Some? ==> |ChainPlaces(r.value)| == len
    ensures r.Some? ==> ChainPlaces(r.value) + Remaining(rest, off) == Remaining(chain, offset)
  {
    rest, off := chain, offset;
    if chain == [] || offset >= chain[0].size || len == 0 {
      return None, rest, off;
    }
    var clones: seq<Bio>, left: nat := [], len;
    while left > 0
      invariant ValidCursor(rest, off) && left <= len
      invariant |ChainPlaces(clones)| == len - left
      invariant ChainPlaces(clones) + Remaining(rest, off) == Remaining(chain, offset)
    {
      if rest == [] {
        return None, chain, offset;
      }
      var bio;
      bio, rest, off := CloneFromFirst(rest, off, left);
      ChainSnoc(clones, bio);
      Assoc(ChainPlaces(clones), Places(bio.vecs), Remaining(rest, off));
      clones := clones + [bio];
      left := left - bio.size;
    }
    r := Some(clones);
  }

  lemma Assoc<T>(a: seq<T>, b: seq<T>, c: seq<T>)
    ensures (a + b) + c == a + (b + c)
  {
  }

  lemma ChainSnoc(clones: seq<Bio>, bio: Bio)
    ensures ChainPlaces(clones + [bio]) == ChainPlaces(clones) + Places(bio.vecs)
  {
    ChainConcat(clones, [bio]);
    assert ChainPlaces([bio]) == Places(bio.vecs) + ChainPlaces([]);
  }

  // ----- data of a whole image request -------------------------------------

  /** The bytes of several chains, one after the other. */
  ghost function AllPlaces(data: seq<seq<Bio>>): (ps: seq<Place>)
  {
    if data == [] then [] else AllPlaces(data[..|data|-1]) + ChainPlaces(data[|data|-1])
  }

  /** How many bytes the first `k` requests have. */
  ghost function Total(reqs: seq<ObjRequest>, k: nat): (n: nat)
    requires k <= |reqs|
  {
    if k == 0 then 0 else Total(reqs, k - 1) + reqs[k-1].length
  }

  /** Each chain is as long as its request. */
  ghost predicate Fit(data: seq<seq<Bio>>, reqs: seq<ObjRequest>)
    requires |data| <= |reqs|
  {
    data == [] || (|ChainPlaces(data[|data|-1])| == reqs[|data|-1].length && Fit(data[..|data|-1], reqs))
  }

  lemma AddData(data: seq<seq<Bio>>, clones: seq<Bio>, reqs: seq<ObjRequest>)
    requires |data| < |reqs| && Fit(data, reqs) && |ChainPlaces(clones)| == reqs[|data|].length
    ensures Fit(data + [clones], reqs) && AllPlaces(data + [clones]) == AllPlaces(data) + ChainPlaces(clones)
  {
    assert (data + [clones])[..|data|] == data;
  }

  lemma {:induction false} FitAt(data: seq<seq<Bio>>, reqs: seq<ObjRequest>, i: nat)
    requires i < |data| <= |reqs| && Fit(data, reqs)
    ensures |ChainPlaces(data[i])| == reqs[i].length
  {
    if i < |data| - 1 {
      FitAt(data[..|data|-1], reqs, i);
    }
  }

  lemma {:induction false} TotalIsOffset(size: nat, off: nat, length: nat, reqs: seq<ObjRequest>, k: nat)
    requires size > 0 && length > 0 && Tiles(size, off, length, reqs) && k <= |reqs|
    ensures off + Total(reqs, k) == if k == |reqs| then off + length else reqs[k].imgOffset
  {
    if k > 0 {
      TotalIsOffset(size, off, length, reqs, k - 1);
      assert k < |reqs| ==> Adjacent(reqs, k - 1);
    }
  }

  lemma {:induction false} TotalMonotone(reqs: seq<ObjRequest>, j: nat, k: nat)
    requires j <= k <= |reqs|
    ensures Total(reqs, j) <= Total(reqs, k)
  {
    if j < k {
      TotalMonotone(reqs, j, k - 1);
    }
  }

  /** rbd_img_request_fill for a bio list: one clone chain per object request, as long
      as the request; the chains, in request order, are exactly the source bytes. */
  method FillBios(order: nat, off: nat, chain: seq<Bio>) returns (reqs: seq<ObjRequest>, data: seq<seq<Bio>>)
    requires ValidChain(chain) && chain != []
    ensures reqs == Split(Pow2(order), off, |ChainPlaces(chain)|)
    ensures |data| == |reqs|
    ensures forall i :: 0 <= i < |reqs| ==> |ChainPlaces(data[i])| == reqs[i].length
    ensures AllPlaces(data) == ChainPlaces(chain)
  {
    var length := ChainLength(chain);
    StartCursor(chain);
    reqs := ImgRequestFill(order, off, length);
    TotalIsOffset(Pow2(order), off, length, reqs, |reqs|);
    data := CloneAll(reqs, chain);
    forall i | 0 <= i < |reqs|
      ensures |ChainPlaces(data[i])| == reqs[i].length
    {
      FitAt(data, reqs, i);
    }
  }

  /** The clones of all object requests, each picking up where the last one stopped. */
  method CloneAll(reqs: seq<ObjRequest>, chain: seq<Bio>) returns (data: seq<seq<Bio>>)
    requires ValidCursor(chain, 0) && Total(reqs, |reqs|) == |Remaining(chain, 0)|
    requires forall i :: 0 <= i < |reqs| ==> 0 < reqs[i].length
    ensures |data| == |reqs| && Fit(data, reqs)
    ensures AllPlaces(data) == Remaining(chain, 0)
  {
    data := [];
    var rest, bioOffset := chain, 0;
    while |data| < |reqs|
      invariant |data| <= |reqs| && Fit(data, reqs) && ValidCursor(rest, bioOffset)
      invariant Handed(data, reqs, Remaining(rest, bioOffset), Remaining(chain, 0))
      decreases |reqs| - |data|
    {
      HandedRoom(data, reqs, Remaining(rest, bioOffset), Remaining(chain, 0));
      ghost var before := Remaining(rest, bioOffset);
      var clones;
      clones, rest, bioOffset := BioChainCloneRange(rest, bioOffset, reqs[|data|].length);
      HandOut(data, clones.value, reqs, before, Remaining(rest, bioOffset), Remaining(chain, 0));
      data := data + [clones.value];
    }
  }

  /** The clones so far and what remains make up everything. */
  ghost predicate Handed(data: seq<seq<Bio>>, reqs: seq<ObjRequest>, left: seq<Place>, all: seq<Place>)
    requires |data| <= |reqs|
  {
    AllPlaces(data) + left == all && |AllPlaces(data)| == Total(reqs, |data|) && |all| == Total(reqs, |reqs|)
  }

  lemma HandedRoom(data: seq<seq<Bio>>, reqs: seq<ObjRequest>, left: seq<Place>, all: seq<Place>)
    requires |data| < |reqs| && Handed(data, reqs, left, all)
    ensures reqs[|data|].length <= |left|
  {
    TotalMonotone(reqs, |data| + 1, |reqs|);
  }

  lemma HandOut(data: seq<seq<Bio>>, clones: seq<Bio>, reqs: seq<ObjRequest>, left: seq<Place>,
      left': seq<Place>, all: seq<Place>)
    requires |data| < |reqs| && Fit(data, reqs) && Handed(data, reqs, left, all)
    requires |ChainPlaces(clones)| == reqs[|data|].length && ChainPlaces(clones) + left' == left
    ensures Fit(data + [clones], reqs) && Handed(data + [clones], reqs, left', all)
  {
    AddData(data, clones, reqs);
    Assoc(AllPlaces(data), ChainPlaces(clones), left');
  }

  method ChainLength(chain: seq<Bio>) returns (n: nat)
    requires ValidChain(chain)
    ensures n == |ChainPlaces(chain)|
  {
    n := 0;
    var i := 0;
    while i < |chain|
      invariant 0 <= i <= |chain| && ValidChain(chain[i..])
      invariant n + |ChainPlaces(chain[i..])| == |ChainPlaces(chain)|
    {
      assert chain[i..][1..] == chain[i+1..];
      n := n + chain[i].size;
      i := i + 1;
    }
  }
}
