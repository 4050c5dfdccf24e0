/** The xattr code itself, updating i_xattrs in place. The red-black tree is its in-order
    sequence; a search may take any node still in range as the next one, so it stands for every
    shape of the tree. Each method is tied to its step in XattrState. */
module XattrCode {
  import opened Common
  import opened XattrIndex
  import opened XattrState

  /** struct ceph_inode_xattrs_info */
  class XattrsInfo {
    var index: seq<Attr>
    var count: int
    var namesSize: int
    var valsSize: int
    var version: nat
    var indexVersion: nat
    var dirty: bool
    var capDirty: bool
    var blob: Option<seq<Byte>>
    var prealloc: array?<Byte>

    function Model(): (x: Xattrs)
      reads this
    {
      Xattrs(index, count, namesSize, valsSize, version, indexVersion, dirty, capDirty, blob,
             if prealloc == null then None else Some(prealloc.Length))
    }

    /** The search in __set_xattr. */
    method FindToSet(name: Name) returns (found: bool, pos: nat)
      requires Sorted(index) && NulFree(name)
      ensures found <==> name in AsMap(index)
      ensures pos <= |index| && BelowTo(index, pos, name)
      ensures found ==> pos < |index| && index[pos].name == name
      ensures !found ==> pos == |index| || Lex(name, index[pos].name) < 0
    {
      var lo: nat, hi: nat := 0, |index|;
      while lo < hi
        invariant lo <= hi <= |index| && BelowTo(index, lo, name)
        invariant hi == |index| || Lex(name, index[hi].name) < 0
      {
        var mid: nat :| lo <= mid < hi;
        var c := SetCompare(name, index[mid].name);
        BelowMid(index, mid, name);
        SetIsLex(name, index[mid].name);
        LexOrder(name, index[mid].name, name);
        if c < 0 {
          hi := mid;
        } else if c > 0 {
          lo := mid + 1;
        } else {
          return true, mid;
        }
      }
      BetweenMissing(index, lo, name);
      return false, lo;
    }

    /** __get_xattr */
    method GetXattr(name: Name) returns (found: bool, pos: nat)
      requires Sorted(index) && NulFree(name)
      ensures found <==> name in AsMap(index)
      ensures found ==> pos < |index| && BelowTo(index, pos, name) && index[pos] == Attr(name, AsMap(index)[name])
    {
      var lo: nat, hi: nat := 0, |index|;
      while lo < hi
        invariant lo <= hi <= |index| && BelowTo(index, lo, name)
        invariant hi == |index| || Lex(name, index[hi].name) < 0
      {
        var mid: nat :| lo <= mid < hi;
        var c := GetCompare(name, index[mid].name);
        BelowMid(index, mid, name);
        GetIsLex(name, index[mid].name);
        LexOrder(name, index[mid].name, name);
        if c < 0 {
          hi := mid;
        } else if c > 0 {
          lo := mid + 1;
        } else {
          return true, mid;
        }
      }
      BetweenMissing(index, lo, name);
      return false, lo;
    }

    /** __remove_xattr on the node at pos */
    method EraseAt(pos: nat)
      requires Sorted(index) && pos < |index| && BelowTo(index, pos, index[pos].name)
      modifies this
      ensures old(index)[pos].name in AsMap(old(index))
      ensures Model() == RemoveAttr(old(Model()), old(index)[pos].name)
    {
      BelowMid(index, pos, index[pos].name);
      DelAt(index, pos);
      namesSize := namesSize - |index[pos].name|;
      valsSize := valsSize - |index[pos].val|;
      count := count - 1;
      index := index[..pos] + index[pos+1..];
    }

    /** __remove_xattr_by_name */
    method RemoveByName(name: Name) returns (err: Errno)
      requires Sorted(index) && NulFree(name)
      modifies this
      ensures err == ChangeError(old(Model()), Remove(name))
      ensures Model() == ChangeIndex(old(Model()), Remove(name))
      ensures Reports(AsMap(old(index)), Remove(name), err)
      ensures Changes(AsMap(old(index)), Remove(name), err, AsMap(index))
    {
      IndexChanges(Model(), Remove(name));
      var found, pos := GetXattr(name);
      if !found {
        return NoData;
      }
      EraseAt(pos);
      return Success;
    }

    /** __set_xattr from the flag tests on, with a value: insert the node at pos or reuse it. */
    method StoreAt(a: Attr, found: bool, pos: nat)
      requires Sorted(index) && pos <= |index| && BelowTo(index, pos, a.name)
      requires found <==> a.name in AsMap(index)
      requires found ==> pos < |index| && index[pos].name == a.name
      requires !found ==> pos == |index| || Lex(a.name, index[pos].name) < 0
      modifies this
      ensures Model() == StoreAttr(old(Model()), a)
    {
      PutAt(index, a, pos);
      if !found {
        count := count + 1;
      } else {
        BelowMid(index, pos, a.name);
        namesSize := namesSize - |index[pos].name|;
        valsSize := valsSize - |index[pos].val|;
      }
      namesSize := namesSize + |a.name|;
      valsSize := valsSize + |a.val|;
      if !found {
        index := index[..pos] + [a] + index[pos..];
      } else {
        index := index[pos := a];
      }
    }

    /** __set_xattr on behalf of a user (update_xattr is 1 with a value, -1 without) */
    method SetXattr(name: Name, val: Option<seq<Byte>>, create: bool, replace: bool) returns (err: Errno)
      requires Sorted(index) && NulFree(name)
      modifies this
      ensures err == ChangeError(old(Model()), Store(name, val, create, replace))
      ensures Model() == ChangeIndex(old(Model()), Store(name, val, create, replace))
      ensures Reports(AsMap(old(index)), Store(name, val, create, replace), err)
      ensures Changes(AsMap(old(index)), Store(name, val, create, replace), err, AsMap(index))
    {
      IndexChanges(Model(), Store(name, val, create, replace));
      var found, pos := FindToSet(name);
      err := Success;
      if found && create {
        err := Exists;
      } else if !found && replace {
        err := NoData;
      }
      if err != Success {
        return;
      }
      if val.None? {
        if found {
          EraseAt(pos);
        }
        return;
      }
      StoreAt(Attr(name, val.value), found, pos);
    }

    /** __set_xattr on behalf of the parser (update_xattr is 0) */
    method SetParsed(a: Attr)
      requires Sorted(index) && NulFree(a.name)
      modifies this
      ensures Model() == StoreAttr(old(Model()), a)
    {
      var found, pos := FindToSet(a.name);
      StoreAt(a, found, pos);
    }

    /** __ceph_destroy_xattrs */
    method DestroyXattrs()
      modifies this
      ensures Model() == Destroy(old(Model()))
    {
      while index != []
        invariant Model() == old(Model()).(index := index)
        decreases |index|
      {
        index := index[1..];
      }
      namesSize, valsSize, indexVersion, count := 0, 0, 0, 0;
    }

    /** One round of decoding in the parse loop. */
    method DecodeAttr(rest: seq<Byte>, numattr: nat) returns (ending: Ending, a: Attr, tail: seq<Byte>)
      requires numattr > 0
      ensures Read(rest, numattr) ==
        if ending == Done then Reading(Read(tail, numattr - 1).ending, [a] + Read(tail, numattr - 1).attrs)
        else Reading(ending, [])
    {
      a, tail := Attr([], []), rest;
      if |rest| < 4 {
        return Bad, a, tail;
      }
      var namelen := De32(rest);
      if |rest| < 8 + namelen {
        return Bad, a, tail;
      }
      var len := De32(rest[4 + namelen..]);
      if |rest| < 8 + namelen + len {
        return Overrun(rest[4..4 + namelen], rest[8 + namelen..], len, numattr == 1), a, tail;
      }
      a := Attr(rest[4..4 + namelen], rest[8 + namelen..8 + namelen + len]);
      return Done, a, rest[8 + namelen + len..];
    }

    /** One round of the parse loop: decode and store. */
    method ParseNext(rest: seq<Byte>, numattr: nat) returns (ending: Ending, tail: seq<Byte>)
      requires Sorted(index) && numattr > 0 && NamesOk(Read(rest, numattr).attrs)
      modifies this
      ensures ending != Done ==> Model() == old(Model()) && Read(rest, numattr) == Reading(ending, [])
      ensures ending == Done ==>
        && Read(tail, numattr - 1).ending == Read(rest, numattr).ending
        && |Read(tail, numattr - 1).attrs| == |Read(rest, numattr).attrs| - 1
        && NamesOk(Read(tail, numattr - 1).attrs)
      ensures Sorted(index)
      ensures ending == Done ==>
        StoreAll(Model(), Read(tail, numattr - 1).attrs) == StoreAll(old(Model()), Read(rest, numattr).attrs)
    {
      var a;
      ending, a, tail := DecodeAttr(rest, numattr);
      if ending == Done {
        StoreNext(Model(), a, Read(tail, numattr - 1).attrs);
        SetParsed(a);
      }
    }

    /** The parse loop of __build_xattrs; the error is lost once an attribute has been stored. */
    method ParseLoop(start: seq<Byte>, n: nat) returns (err: Errno, ending: Ending)
      requires Sorted(index) && NamesOk(Read(start, n).attrs)
      modifies this
      ensures ending == Read(start, n).ending && Model() == StoreAll(old(Model()), Read(start, n).attrs)
      ensures err == if Read(start, n).attrs == [] then Io else Success
    {
      var rest, numattr := start, n;
      err, ending := Io, Done;
      ghost var all := Read(start, n);
      ghost var todo := all;
      ghost var goal := StoreAll(Model(), all.attrs);
      while numattr > 0
        invariant Sorted(index) && Read(rest, numattr) == todo && todo.ending == all.ending && NamesOk(todo.attrs)
        invariant StoreAll(Model(), todo.attrs) == goal
        invariant err == (if |todo.attrs| == |all.attrs| then Io else Success) && |todo.attrs| <= |all.attrs|
        invariant ending == Done
      {
        ending, rest := ParseNext(rest, numattr);
        if ending != Done {
          break;
        }
        numattr := numattr - 1;
        todo := Read(rest, numattr);
        err := Success;
      }
      assert todo.attrs == [];
    }

    /** What follows the parse loop: the end, or the bad label. An overlong value has been stored. */
    method EndParse(ending: Ending, behind: seq<Byte>)
      requires Sorted(index) && (ending.Overrun? ==> NulFree(ending.name))
      modifies this
      ensures var x := old(Model());
        match ending
        case Done => Model() == Finish(x)
        case Bad => Model() == x.(namesSize := 0)
        case Overrun(name, part, _, last) =>
          var z := StoreAttr(x, Attr(name, part + behind));
          Model() == if last then Finish(z) else z.(namesSize := 0)
    {
      if ending.Overrun? {
        SetParsed(Attr(ending.name, ending.part + behind));
      }
      if ending == Done || (ending.Overrun? && ending.last) {
        indexVersion := version;
        dirty := false;
      } else {
        namesSize := 0;
      }
    }

    /** The part of __build_xattrs that reads a blob, whatever it holds. */
    method ParseBlob(behind: seq<Byte>) returns (err: Errno)
      requires Sorted(index) && blob.Some? && |blob.value| > 4 && AnyNamesOk(Decode(blob)) && Reaches(blob, behind)
      modifies this
      ensures Model() == LoadAny(old(Model()), behind)
      ensures err == if Decode(old(blob)).attrs == [] && !Decode(old(blob)).ending.Overrun? then Io else Success
    {
      StoreAllSorted(Model(), Decode(blob).attrs);
      var ending;
      err, ending := ParseLoop(blob.value[4..], De32(blob.value));
      if ending.Overrun? {
        err := Success;
      }
      EndParse(ending, behind);
    }

    /** __build_xattrs with the lock held throughout. From a good blob it rebuilds the index without
        changing the attributes; any other blob leaves what LoadAny says. */
    method BuildXattrs(behind: seq<Byte>) returns (err: Errno)
      requires Exact(Model()) && AnyNamesOk(Decode(blob)) && Reaches(blob, behind)
      modifies this
      ensures Model() == BuildAny(old(Model()), behind) && err == BuildError(old(Model()))
      ensures err == Io || err == Success
      ensures err == Io <==>
        && old(indexVersion) < old(version) && old(blob).Some? && |old(blob).value| > 4
        && Decode(old(blob)).attrs == [] && !Decode(old(blob)).ending.Overrun?
      ensures GoodBlob(old(blob)) ==>
        Model() == Build(old(Model())) && Exact(Model()) && Loaded(Model()) && Logical(Model()) == Logical(old(Model()))
    {
      if !Loaded(Model()) {
        BuildAnyExact(Model(), behind);
      }
      if GoodBlob(blob) {
        BuildKeeps(Model());
      }
      err := Success;
      if indexVersion >= version {
        return;
      }
      DestroyXattrs();
      if blob.Some? && |blob.value| > 4 {
        err := ParseBlob(behind);
      } else {
        indexVersion := version;
        dirty := false;
      }
    }

    /** From the retry label up to the size test: build the index and work out the blob size. */
    method Prepare(ch: Change) returns (required: nat)
      requires Exact(Model()) && GoodBlob(blob)
      modifies this
      ensures Model() == Build(old(Model()))
      ensures Exact(Model()) && Loaded(Model()) && required == NeedFor(Model(), ch)
    {
      var err := BuildXattrs([]);
      required := 4 + count * (4 + 4) + namesSize + valsSize;
      if ch.Store? && |ch.name| > 0 {
        required := required + 4 + 4 + |ch.name|;
        if ch.val.Some? {
          required := required + |ch.val.value|;
        }
      }
    }

    /** The preallocation loop: a second round finds the blob large enough. */
    method PreallocBlob(ch: Change)
      requires Exact(Model()) && GoodBlob(blob)
      modifies this
      ensures Model() == Preallocate(Build(old(Model())), ch)
    {
      var required := Prepare(ch);
      if prealloc == null || required > prealloc.Length {
        prealloc := new Byte[required];
      }
    }

    /** The change itself and the dirty mark, still under the lock. */
    method ChangeNow(ch: Change) returns (err: Errno)
      requires Sorted(index) && NulFree(ch.name)
      modifies this
      ensures Model() == ApplyChange(old(Model()), ch) && err == ChangeError(old(Model()), ch)
    {
      if ch.Remove? {
        err := RemoveByName(ch.name);
        dirty, capDirty := true, true;
      } else {
        err := SetXattr(ch.name, ch.val, ch.create, ch.replace);
        if err == Success {
          dirty, capDirty := true, true;
        }
      }
    }

    /** ceph_setxattr and ceph_removexattr from the retry label, when the call is handled locally:
        the attributes change as a map would, and the next encoding fits. */
    method ChangeXattr(ch: Change) returns (err: Errno)
      requires Good(Model()) && version != 0 && Allowed(Model(), Alteration(ch, true))
      modifies this
      ensures Good(Model()) && Logical(Model()) == ChangeMap(Logical(old(Model())), ch)
      ensures Reports(Logical(old(Model())), ch, err) && Changes(Logical(old(Model())), ch, err, Logical(Model()))
      ensures dirty <==> old(dirty) || ch.Remove? || err == Success
    {
      AlterRefines(Model(), ch);
      BuildKeeps(Model());
      ChangeMapIs(Build(Model()), ch);
      PreallocBlob(ch);
      err := ChangeNow(ch);
    }

    /** memcpy to the preallocated blob */
    method Write(dest: nat, bytes: seq<Byte>) returns (next: nat)
      requires prealloc != null && dest + |bytes| <= prealloc.Length
      modifies prealloc
      ensures next == dest + |bytes| && prealloc[..next] == old(prealloc[..dest]) + bytes
    {
      forall i | 0 <= i < |bytes| {
        prealloc[dest + i] := bytes[i];
      }
      next := dest + |bytes|;
    }

    method WriteAttr(dest: nat, a: Attr) returns (next: nat)
      requires prealloc != null && dest + |EncodeAttr(a)| <= prealloc.Length
      modifies prealloc
      ensures next == dest + |EncodeAttr(a)| && prealloc[..next] == old(prealloc[..dest]) + EncodeAttr(a)
    {
      ghost var start := prealloc[..dest];
      next := Write(dest, Le32(|a.name|));
      next := Write(next, a.name);
      next := Write(next, Le32(|a.val|));
      next := Write(next, a.val);
      assert prealloc[..next] == start + EncodeAttr(a);
    }

    /** One round of the loop of __ceph_build_xattrs_blob. */
    method WriteNext(i: nat, dest: nat, ghost before: seq<Byte>) returns (next: nat)
      requires prealloc != null && |before| + |EncodeAttrs(index)| <= prealloc.Length && i < |index|
      requires dest <= prealloc.Length && prealloc[..dest] == before + EncodeAttrs(index[..i])
      modifies prealloc
      ensures next <= prealloc.Length && prealloc[..next] == before + EncodeAttrs(index[..i+1])
    {
      EncodePart(index, i);
      ghost var part, one := EncodeAttrs(index[..i]), EncodeAttr(index[i]);
      assert before + (part + one) == before + part + one;
      next := WriteAttr(dest, index[i]);
    }

    /** The loop of __ceph_build_xattrs_blob. */
    method WriteAttrs(start: nat) returns (dest: nat)
      requires prealloc != null && start + |EncodeAttrs(index)| <= prealloc.Length
      modifies prealloc
      ensures dest <= prealloc.Length && prealloc[..dest] == old(prealloc[..start]) + EncodeAttrs(index)
    {
      dest := start;
      var i := 0;
      ghost var before := prealloc[..start];
      assert index[..0] == [];
      while i < |index|
        invariant 0 <= i <= |index| && dest <= prealloc.Length
        invariant prealloc[..dest] == before + EncodeAttrs(index[..i])
      {
        dest := WriteNext(i, dest, before);
        i := i + 1;
      }
      assert index[..i] == index;
    }

    /** __ceph_build_xattrs_blob: no write leaves the buffer, and all of the required size is used. */
    method BuildXattrsBlob()
      requires Exact(Model()) && Fits(Model())
      modifies this, prealloc
      ensures Model() == BuildBlob(old(Model()))
      ensures old(dirty) ==> blob.Some? && |blob.value| == Need(old(Model()))
    {
      if dirty {
        EncodeSize(index);
        var dest := Write(0, Le32(count));
        dest := WriteAttrs(dest);
        assert prealloc[..dest] == Encode(index);
        blob := Some(prealloc[..dest]);
        prealloc := null;
        dirty := false;
        version := version + 1;
      }
    }
  }

  lemma IndexChanges(x: Xattrs, ch: Change)
    requires Sorted(x.index) && NulFree(ch.name)
    ensures Reports(AsMap(x.index), ch, ChangeError(x, ch))
    ensures Changes(AsMap(x.index), ch, ChangeError(x, ch), AsMap(ChangeIndex(x, ch).index))
  {
    ChangeMapIs(x, ch);
    if ch.Store? && ch.val.Some? {
      PutMap(x.index, Attr(ch.name, ch.val.value));
    } else {
      if ch.name in AsMap(x.index) {
        DelMap(x.index, ch.name);
      }
    }
  }

  lemma {:induction false} StoreAllSorted(x: Xattrs, s: seq<Attr>)
    requires Sorted(x.index) && NamesOk(s)
    ensures Sorted(StoreAll(x, s).index) && StoreAll(x, s).version == x.version && StoreAll(x, s).blob == x.blob
    decreases |s|
  {
    if s != [] {
      PutMap(x.index, s[0]);
      StoreAllSorted(StoreAttr(x, s[0]), s[1..]);
    }
  }

  lemma StoreNext(x: Xattrs, a: Attr, more: seq<Attr>)
    requires Sorted(x.index) && NamesOk([a] + more)
    ensures StoreAll(x, [a] + more) == StoreAll(StoreAttr(x, a), more)
    ensures NulFree(a.name) && NamesOk(more) && Sorted(StoreAttr(x, a).index)
  {
    assert ([a] + more)[1..] == more;
    PutMap(x.index, a);
  }

  /** The encoding of one more attribute, and that it is a prefix of the whole. */
  lemma EncodePart(s: seq<Attr>, i: nat)
    requires i < |s|
    ensures EncodeAttrs(s[..i+1]) == EncodeAttrs(s[..i]) + EncodeAttr(s[i])
    ensures |EncodeAttrs(s[..i+1])| <= |EncodeAttrs(s)|
  {
    EncodeAttrsAppend(s[..i], s[i]);
    assert s[..i+1] == s[..i] + [s[i]];
    EncodePrefix(s, i + 1);
  }

  lemma {:induction false} EncodePrefix(s: seq<Attr>, i: nat)
    requires i <= |s|
    ensures |EncodeAttrs(s[..i])| <= |EncodeAttrs(s)|
  {
    if i > 0 {
      EncodePrefix(s[1..], i - 1);
      assert s[..i][1..] == s[1..][..i-1];
    }
  }
}
