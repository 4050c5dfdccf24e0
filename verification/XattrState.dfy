/** The xattr state of an inode (i_xattrs): index, counters, versions, blob and preallocated
    blob; its steps; what a sequence of calls does to the map from names to values; and the
    runs in which the inode lock is dropped while memory is allocated. */
module XattrState {
  import opened Common
  import opened XattrIndex

  datatype Errno = Success | Exists | NoData | Io

  /** capDirty: XATTR_EXCL is among the inode's dirty or flushing caps. prealloc is the allocated
      length of prealloc_blob. */
  datatype Xattrs = Xattrs(
    index: seq<Attr>,
    count: int,
    namesSize: int,
    valsSize: int,
    version: nat,
    indexVersion: nat,
    dirty: bool,
    capDirty: bool,
    blob: Option<seq<Byte>>,
    prealloc: Option<nat>)

  /** A local change; a missing value asks for removal by way of ceph_setxattr. */
  datatype Change =
    | Store(name: Name, val: Option<seq<Byte>>, create: bool, replace: bool)
    | Remove(name: Name)

  // ----- steps -------------------------------------------------------------

  /** __remove_xattr */
  function RemoveAttr(x: Xattrs, name: Name): (r: Xattrs)
    requires name in AsMap(x.index)
  {
    x.(index := Del(x.index, name), count := x.count - 1,
       namesSize := x.namesSize - |name|, valsSize := x.valsSize - |AsMap(x.index)[name]|)
  }

  /** __set_xattr past its flag tests, storing a value */
  function StoreAttr(x: Xattrs, a: Attr): (r: Xattrs)
  {
    var m := AsMap(x.index);
    var y := if a.name in m then x.(namesSize := x.namesSize - |a.name|, valsSize := x.valsSize - |m[a.name]|)
             else x.(count := x.count + 1);
    y.(index := Put(x.index, a), namesSize := y.namesSize + |a.name|, valsSize := y.valsSize + |a.val|)
  }

  function ChangeError(x: Xattrs, ch: Change): (e: Errno)
  {
    var found := ch.name in AsMap(x.index);
    match ch
    case Store(_, _, create, replace) =>
      if found && create then Exists else if !found && replace then NoData else Success
    case Remove(_) => if found then Success else NoData
  }

  /** The index part of a change. */
  function ChangeIndex(x: Xattrs, ch: Change): (r: Xattrs)
  {
    if ChangeError(x, ch) != Success then x
    else if ch.Store? && ch.val.Some? then StoreAttr(x, Attr(ch.name, ch.val.value))
    else if ch.name in AsMap(x.index) then RemoveAttr(x, ch.name)
    else x
  }

  /** A change under the lock: a failed store leaves dirty alone, a failed removal does not. */
  function ApplyChange(x: Xattrs, ch: Change): (r: Xattrs)
  {
    var y := ChangeIndex(x, ch);
    if ch.Store? && ChangeError(x, ch) != Success then y else y.(dirty := true, capDirty := true)
  }

  /** __ceph_destroy_xattrs */
  function Destroy(x: Xattrs): (r: Xattrs)
  {
    x.(index := [], count := 0, namesSize := 0, valsSize := 0, indexVersion := 0)
  }

  function Finish(x: Xattrs): (r: Xattrs)
  {
    x.(indexVersion := x.version, dirty := false)
  }

  function StoreAll(x: Xattrs, s: seq<Attr>): (r: Xattrs)
    decreases |s|
  {
    if s == [] then x else StoreAll(StoreAttr(x, s[0]), s[1..])
  }

  /** The second half of __build_xattrs on a good blob, once the nodes are allocated. */
  function Load(x: Xattrs): (r: Xattrs)
  {
    Finish(StoreAll(x, Decode(x.blob).attrs))
  }

  /** behind is the memory that follows the blob, as far as an overlong value reaches. */
  predicate Reaches(blob: Option<seq<Byte>>, behind: seq<Byte>)
  {
    var e := Decode(blob).ending;
    e.Overrun? ==> |e.part| <= e.len && |behind| == e.len - |e.part|
  }

  /** The second half on any blob: a malformed one stops the loop and leaves names_size 0; an
      overlong value is stored with whatever follows the blob, and stops the loop only if more
      attributes were to come. */
  function LoadAny(x: Xattrs, behind: seq<Byte>): (r: Xattrs)
  {
    var y := StoreAll(x, Decode(x.blob).attrs);
    match Decode(x.blob).ending
    case Done => Finish(y)
    case Bad => y.(namesSize := 0)
    case Overrun(name, part, _, last) =>
      var z := StoreAttr(y, Attr(name, part + behind));
      if last then Finish(z) else z.(namesSize := 0)
  }

  /** __get_required_blob_size */
  function Need(x: Xattrs): (n: int)
  {
    4 + x.count * (4 + 4) + x.namesSize + x.valsSize
  }

  function NeedFor(x: Xattrs, ch: Change): (n: int)
  {
    if ch.Store? && |ch.name| > 0 then
      Need(x) + 4 + 4 + |ch.name| + (if ch.val.Some? then |ch.val.value| else 0)
    else Need(x)
  }

  /** __ceph_build_xattrs_blob */
  function BuildBlob(x: Xattrs): (r: Xattrs)
  {
    if x.dirty then
      x.(blob := Some(Encode(x.index)), prealloc := None, dirty := false, version := x.version + 1)
    else x
  }

  /** The test of the BUG_ON in __ceph_build_xattrs_blob. */
  predicate Fits(x: Xattrs)
  {
    x.dirty ==> x.prealloc.Some? && Need(x) <= x.prealloc.value
  }

  // ----- the counters are exact --------------------------------------------

  ghost predicate Exact(x: Xattrs)
  {
    && Sorted(x.index)
    && x.count == |x.index| && x.namesSize == NamesSize(x.index) && x.valsSize == ValsSize(x.index)
  }

  lemma StoreExact(x: Xattrs, a: Attr)
    requires Exact(x) && NulFree(a.name)
    ensures Exact(StoreAttr(x, a)) && AsMap(StoreAttr(x, a).index) == AsMap(x.index)[a.name := a.val]
    ensures Need(StoreAttr(x, a)) <= Need(x) + 8 + |a.name| + |a.val|
  {
    PutMap(x.index, a);
    PutSizes(x.index, a);
  }

  lemma RemoveExact(x: Xattrs, name: Name)
    requires Exact(x) && name in AsMap(x.index)
    ensures Exact(RemoveAttr(x, name)) && AsMap(RemoveAttr(x, name).index) == AsMap(x.index) - {name}
    ensures Need(RemoveAttr(x, name)) <= Need(x)
  {
    DelMap(x.index, name);
    DelSizes(x.index, name);
  }

  lemma {:induction false} StoreAllExact(x: Xattrs, s: seq<Attr>)
    requires Exact(x) && NamesOk(s)
    ensures Exact(StoreAll(x, s))
    ensures StoreAll(x, s) == x.(index := PutAll(x.index, s), count := StoreAll(x, s).count,
                                 namesSize := StoreAll(x, s).namesSize, valsSize := StoreAll(x, s).valsSize)
    decreases |s|
  {
    if s != [] {
      StoreExact(x, s[0]);
      StoreAllExact(StoreAttr(x, s[0]), s[1..]);
    }
  }

  predicate ValidName(name: Name)
  {
    |name| > 0 && NulFree(name)
  }

  /** A change, as an operation on a map. */
  function ChangeMap(m: map<Name, seq<Byte>>, ch: Change): (r: map<Name, seq<Byte>>)
  {
    match ch
    case Store(name, val, create, replace) =>
      if (name in m && create) || (name !in m && replace) then m
      else if val.Some? then m[name := val.value]
      else m - {name}
    case Remove(name) => m - {name}
  }

  /** The error code, in terms of the attributes before: EEXIST exactly if an exclusive create finds
      the name, ENODATA exactly if a replace or a removal does not, else success. */
  ghost predicate Reports(m: map<Name, seq<Byte>>, ch: Change, err: Errno)
  {
    && (err == Exists <==> ch.name in m && ch.Store? && ch.create)
    && (err == NoData <==> ch.name !in m && (ch.Remove? || ch.replace))
    && err != Io
  }

  /** The attributes after: a failed change leaves them alone, any other touches only its name, which
      then has the value, or is gone if there is none. */
  ghost predicate Changes(m: map<Name, seq<Byte>>, ch: Change, err: Errno, m': map<Name, seq<Byte>>)
  {
    && (err != Success ==> m' == m)
    && (forall n :: n != ch.name ==> (n in m' <==> n in m) && (n in m ==> m'[n] == m[n]))
    && (err == Success ==>
          if ch.Store? && ch.val.Some? then ch.name in m' && m'[ch.name] == ch.val.value else ch.name !in m')
  }

  lemma ChangeMapIs(x: Xattrs, ch: Change)
    ensures Reports(AsMap(x.index), ch, ChangeError(x, ch))
    ensures Changes(AsMap(x.index), ch, ChangeError(x, ch), ChangeMap(AsMap(x.index), ch))
  {
  }

  lemma ChangeExact(x: Xattrs, ch: Change)
    requires Exact(x) && ValidName(ch.name)
    ensures Exact(ApplyChange(x, ch)) && AsMap(ApplyChange(x, ch).index) == ChangeMap(AsMap(x.index), ch)
    ensures Changes(AsMap(x.index), ch, ChangeError(x, ch), AsMap(ApplyChange(x, ch).index))
    ensures Need(ApplyChange(x, ch)) <= NeedFor(x, ch)
  {
    if ChangeError(x, ch) == Success {
      if ch.Store? && ch.val.Some? {
        StoreExact(x, Attr(ch.name, ch.val.value));
      } else if ch.name in AsMap(x.index) {
        RemoveExact(x, ch.name);
      }
    }
  }

  // ----- the map a reader sees ---------------------------------------------

  /** A blob the MDS may send, or the client may encode. */
  predicate GoodBlob(blob: Option<seq<Byte>>)
  {
    Decode(blob).ending == Done && NamesOk(Decode(blob).attrs)
  }

  function BlobIndex(blob: Option<seq<Byte>>): (s: seq<Attr>)
  {
    PutAll([], Decode(blob).attrs)
  }

  predicate Loaded(x: Xattrs)
  {
    x.indexVersion >= x.version
  }

  /** The attributes: the index if it is up to date, else what the blob holds. */
  function Logical(x: Xattrs): (m: map<Name, seq<Byte>>)
  {
    if Loaded(x) then AsMap(x.index) else AsMap(BlobIndex(x.blob))
  }

  ghost predicate Good(x: Xattrs)
  {
    && Exact(x) && GoodBlob(x.blob) && Fits(x)
    && (x.prealloc.Some? ==> x.prealloc.value < U32)
    && (x.dirty ==> Loaded(x) && x.capDirty && x.version > 0) && x.indexVersion <= x.version
    // a change that is not in the blob yet is marked dirty
    && (Loaded(x) && !x.dirty ==> AsMap(x.index) == AsMap(BlobIndex(x.blob)))
  }

  /** __build_xattrs when the lock is not contended */
  function Build(x: Xattrs): (r: Xattrs)
  {
    if Loaded(x) then x
    else
      var y := Destroy(x);
      if y.blob.Some? && |y.blob.value| > 4 then Load(y) else Finish(y)
  }

  /** __build_xattrs on any blob */
  function BuildAny(x: Xattrs, behind: seq<Byte>): (r: Xattrs)
  {
    if Loaded(x) then x
    else
      var y := Destroy(x);
      if y.blob.Some? && |y.blob.value| > 4 then LoadAny(y, behind) else Finish(y)
  }

  /** The error it returns is lost once an attribute has been stored. */
  function BuildError(x: Xattrs): (e: Errno)
  {
    if Loaded(x) || x.blob.None? || |x.blob.value| <= 4 then Success
    else if Decode(x.blob).attrs == [] && !Decode(x.blob).ending.Overrun? then Io
    else Success
  }

  predicate AnyNamesOk(r: Reading)
  {
    NamesOk(r.attrs) && (r.ending.Overrun? ==> NulFree(r.ending.name))
  }

  /** No attribute that a blob yields has a name to count. */
  predicate NoNames(r: Reading)
  {
    NamesSize(r.attrs) == 0 && (r.ending.Overrun? ==> r.ending.name == [])
  }

  /** What a malformed blob leaves: an index that counts as not loaded, so the next call starts
      over, and counters that are exact only if the blob yields no name. */
  lemma BuildAnyExact(x: Xattrs, behind: seq<Byte>)
    requires Exact(x) && AnyNamesOk(Decode(x.blob)) && !Loaded(x)
    ensures var r := BuildAny(x, behind);
      && (Loaded(r) <==> BlobEnds(x.blob))
      && (Exact(r) <==> BlobEnds(x.blob) || NoNames(Decode(x.blob)))
      && (GoodBlob(x.blob) ==> r == Build(x))
  {
    var y, s, e := Destroy(x), Decode(x.blob).attrs, Decode(x.blob).ending;
    StoreAllExact(y, s);
    PutAllNames([], s);
    if e.Overrun? {
      var a := Attr(e.name, e.part + behind);
      StoreExact(StoreAll(y, s), a);
      PutNames(StoreAll(y, s).index, a);
    }
  }

  /** The parse reaches the end of the loop. */
  predicate BlobEnds(blob: Option<seq<Byte>>)
  {
    var e := Decode(blob).ending;
    e == Done || (e.Overrun? && e.last)
  }

  lemma BuildKeeps(x: Xattrs)
    requires Exact(x) && GoodBlob(x.blob)
    ensures Exact(Build(x)) && Loaded(Build(x)) && Build(x).blob == x.blob && Build(x).prealloc == x.prealloc
    ensures Logical(Build(x)) == Logical(x)
    ensures x.indexVersion <= x.version ==> Build(x).indexVersion <= Build(x).version
    ensures Build(x).version == x.version && Build(x).capDirty == x.capDirty
    ensures Loaded(x) ==> Build(x) == x
    ensures !Loaded(x) ==> !Build(x).dirty && Build(x).index == BlobIndex(x.blob)
  {
    if !Loaded(x) {
      StoreAllExact(Destroy(x), Decode(x.blob).attrs);
    }
  }

  /** Encoding the dirty index leaves the attributes as they were, although the index must be
      rebuilt from the blob afterwards. */
  lemma FlushKeeps(x: Xattrs)
    requires Good(x)
    ensures Good(BuildBlob(x)) && Logical(BuildBlob(x)) == Logical(x)
  {
    if x.dirty {
      EncodeSize(x.index);
      DecodeEncoded(x.index);
      RoundTrip(x.index);
      SortedNames(x.index);
    }
  }

  /** The preallocation loop with nobody else around. */
  function Preallocate(x: Xattrs, ch: Change): (r: Xattrs)
  {
    var n := NeedFor(x, ch);
    if n >= 0 && (x.prealloc.None? || n > x.prealloc.value) then x.(prealloc := Some(n)) else x
  }

  /** The whole of ceph_setxattr or ceph_removexattr on the local path. */
  function Alter(x: Xattrs, ch: Change): (r: Xattrs)
  {
    ApplyChange(Preallocate(Build(x), ch), ch)
  }

  /** excl: XATTR_EXCL is issued or implemented. Acked: the caps that were flushing are clean. */
  datatype Op =
    | Alteration(ch: Change, excl: bool)
    | Lookup
    | Flush
    | Acked
    | Fill(version: nat, blob: Option<seq<Byte>>, excl: bool)

  /** The test in ceph_setxattr and ceph_removexattr; otherwise the call is passed on to the MDS. */
  predicate Local(x: Xattrs, excl: bool)
  {
    x.version != 0 && excl
  }

  /** The test in fill_inode and handle_cap_grant: dirty caps count as issued. */
  predicate Replaces(x: Xattrs, version: nat, excl: bool)
  {
    (x.version == 0 || !(excl || x.capDirty)) && version > x.version
  }

  function Do(x: Xattrs, op: Op): (r: Xattrs)
  {
    match op
    case Alteration(ch, excl) => if Local(x, excl) then Alter(x, ch) else x
    case Lookup => Build(x)
    case Flush => BuildBlob(x)
    case Acked => if x.dirty then x else x.(capDirty := false)
    case Fill(version, blob, excl) => if Replaces(x, version, excl) then x.(version := version, blob := blob) else x
  }

  /** The MDS sends good blobs, and one of 4 GiB or more cannot be allocated. */
  predicate Allowed(x: Xattrs, op: Op)
  {
    match op
    case Alteration(ch, excl) => ValidName(ch.name) && NeedFor(Build(x), ch) < U32
    case Fill(_, blob, _) => GoodBlob(blob)
    case _ => true
  }

  /** What an operation should do to the attributes. */
  function Meaning(x: Xattrs, m: map<Name, seq<Byte>>, op: Op): (r: map<Name, seq<Byte>>)
  {
    match op
    case Alteration(ch, excl) => if Local(x, excl) then ChangeMap(m, ch) else m
    case Fill(version, blob, excl) => if Replaces(x, version, excl) then AsMap(BlobIndex(blob)) else m
    case _ => m
  }

  lemma ChangeFits(x: Xattrs, ch: Change)
    requires Exact(x) && ValidName(ch.name) && Loaded(x) && x.indexVersion <= x.version && x.version > 0
    requires GoodBlob(x.blob)
    requires if x.dirty then x.capDirty else AsMap(x.index) == AsMap(BlobIndex(x.blob))
    requires x.prealloc.Some? && NeedFor(x, ch) <= x.prealloc.value < U32
    ensures Good(ApplyChange(x, ch)) && Logical(ApplyChange(x, ch)) == ChangeMap(Logical(x), ch)
  {
    ChangeExact(x, ch);
  }

  lemma AlterRefines(x: Xattrs, ch: Change)
    requires Good(x) && x.version != 0 && Allowed(x, Alteration(ch, true))
    ensures Good(Alter(x, ch)) && Logical(Alter(x, ch)) == ChangeMap(Logical(x), ch)
  {
    BuildKeeps(x);
    var y := Build(x);
    var z := Preallocate(y, ch);
    assert NeedFor(z, ch) == NeedFor(y, ch) >= Need(y) >= 4;
    ChangeFits(z, ch);
  }

  /** Every operation does to the attributes what it should, an MDS update that arrives while this
      client has dirty ones included: it is refused. */
  lemma DoRefines(x: Xattrs, op: Op)
    requires Good(x) && Allowed(x, op)
    ensures Good(Do(x, op)) && Logical(Do(x, op)) == Meaning(x, Logical(x), op)
    ensures op.Fill? && x.dirty ==> Do(x, op) == x
    ensures op.Fill? && op.version > x.version && (x.version == 0 || !(op.excl || x.capDirty)) ==>
      Do(x, op).version == op.version && Logical(Do(x, op)) == AsMap(BlobIndex(op.blob))
    ensures op.Fill? && (op.version <= x.version || (x.version != 0 && (op.excl || x.capDirty))) ==> Do(x, op) == x
    ensures op.Alteration? && !(x.version != 0 && op.excl) ==> Do(x, op) == x
  {
    match op
    case Alteration(ch, excl) => if Local(x, excl) { AlterRefines(x, ch); }
    case Lookup => BuildKeeps(x);
    case Flush => FlushKeeps(x);
    case Acked =>
    case Fill(_, _, _) =>
  }

  function DoAll(x: Xattrs, ops: seq<Op>): (r: Xattrs)
    decreases |ops|
  {
    if ops == [] then x else DoAll(Do(x, ops[0]), ops[1..])
  }

  ghost predicate AllAllowed(x: Xattrs, ops: seq<Op>)
    decreases |ops|
  {
    ops == [] || (Allowed(x, ops[0]) && AllAllowed(Do(x, ops[0]), ops[1..]))
  }

  /** What a list of operations should do to the attributes. */
  function MeaningAll(x: Xattrs, m: map<Name, seq<Byte>>, ops: seq<Op>): (r: map<Name, seq<Byte>>)
    decreases |ops|
  {
    if ops == [] then m else MeaningAll(Do(x, ops[0]), Meaning(x, m, ops[0]), ops[1..])
  }

  /** In every sequence of calls the attributes change as a map from names to bytes would,
      the counters stay exact and the preallocated blob is large enough. */
  lemma {:induction false} RunRefines(x: Xattrs, ops: seq<Op>)
    requires Good(x) && AllAllowed(x, ops)
    ensures Good(DoAll(x, ops)) && Logical(DoAll(x, ops)) == MeaningAll(x, Logical(x), ops)
    decreases |ops|
  {
    if ops != [] {
      DoRefines(x, ops[0]);
      RunRefines(Do(x, ops[0]), ops[1..]);
    }
  }

  /** ceph_alloc_inode */
  function Fresh(): (x: Xattrs)
  {
    Xattrs([], 0, 0, 0, 0, 0, false, false, None, None)
  }

  lemma FreshGood()
    ensures Good(Fresh()) && Logical(Fresh()) == map[]
  {
  }

  /** A blob that announces two attributes and holds one. */
  function ShortBlob(): (b: seq<Byte>)
  {
    Le32(2) + EncodeAttr(Attr([97], []))
  }

  lemma ShortBlobRead()
    ensures |ShortBlob()| > 4 && Decode(Some(ShortBlob())) == Reading(Bad, [Attr([97], [])])
  {
    var a := Attr([97], []);
    Le32Back(2, EncodeAttr(a));
    ReadOne(a, [], 2);
    assert EncodeAttr(a) + [] == EncodeAttr(a);
  }

  /** Reading it reports success and leaves a name that names_size does not count. */
  lemma ShortBlobMiscounts(x: Xattrs)
    requires x == Fresh().(version := 1, blob := Some(ShortBlob()))
    ensures var r := BuildAny(x, []);
      BuildError(x) == Success && r.namesSize == 0 && NamesSize(r.index) == 1 && !Exact(r) && !Loaded(r)
  {
    ShortBlobRead();
    var a := Attr([97], []);
    assert [97][1..] == [] && [a][1..] == [];
    StoreAllExact(Destroy(x), [a]);
    assert PutAll([], [a]) == [a];
    assert NamesSize([a]) == 1;
  }
}
