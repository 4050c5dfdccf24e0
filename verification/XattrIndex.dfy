/** Extended attributes of an inode: the order on names, the index from names to values as
    the in-order sequence of its search tree, and the wire encoding of the index. */
module XattrIndex {
  import opened Common

  type Name = seq<Byte>

  datatype Attr = Attr(name: Name, val: seq<Byte>)

  // ----- two comparisons ---------------------------------------------------

  predicate NulFree(a: Name)
  {
    a == [] || (a[0] != 0 && NulFree(a[1..]))
  }

  /** The byte at the head of a C string; the terminator follows the last byte. */
  function Head(a: Name): (c: Byte)
  {
    if a == [] then 0 else a[0]
  }

  /** strncmp on unsigned bytes */
  function Strncmp(a: Name, b: Name, n: nat): (c: int)
  {
    if n == 0 then 0
    else if Head(a) < Head(b) then -1
    else if Head(a) > Head(b) then 1
    else if Head(a) == 0 then 0
    else Strncmp(a[1..], b[1..], n - 1)
  }

  function Min(a: int, b: int): (m: int)
  {
    if a < b then a else b
  }

  function Sign(a: int): (c: int)
  {
    if a < 0 then -1 else if a > 0 then 1 else 0
  }

  /** The comparison in __set_xattr. */
  function SetCompare(name: Name, node: Name): (c: int)
  {
    var c := Strncmp(name, node, Min(|name|, |node|));
    if c != 0 then c else Sign(|name| - |node|)
  }

  /** The comparison in __get_xattr. */
  function GetCompare(name: Name, node: Name): (c: int)
  {
    var c := Strncmp(name, node, |node|);
    if c == 0 && |name| > |node| then 1 else c
  }

  /** Lexicographic order, the order both are meant to be. */
  function Lex(a: Name, b: Name): (c: int)
  {
    if a == [] || b == [] then Sign(|a| - |b|)
    else if a[0] != b[0] then (if a[0] < b[0] then -1 else 1)
    else Lex(a[1..], b[1..])
  }

  lemma {:induction false} SetIsLex(a: Name, b: Name)
    requires NulFree(a) && NulFree(b)
    ensures SetCompare(a, b) == Lex(a, b)
  {
    if a != [] && b != [] && a[0] == b[0] {
      SetIsLex(a[1..], b[1..]);
    }
  }

  lemma {:induction false} GetIsLex(a: Name, b: Name)
    requires NulFree(a) && NulFree(b)
    ensures GetCompare(a, b) == Lex(a, b)
  {
    if a != [] && b != [] && a[0] == b[0] {
      GetIsLex(a[1..], b[1..]);
    }
  }

  /** For a name with no NUL, the two comparisons differ exactly on nodes whose name continues
      the given one with a NUL. */
  lemma {:induction false} ComparesAgree(a: Name, b: Name)
    requires NulFree(a)
    ensures SetCompare(a, b) == GetCompare(a, b) <==> !(|a| < |b| && a <= b && b[|a|] == 0)
  {
    if a != [] && b != [] && a[0] == b[0] {
      ComparesAgree(a[1..], b[1..]);
      assert a <= b <==> a[1..] <= b[1..];
    }
  }

  /** Looking up "a" stops at a node named "a", NUL, "b", which setting "a" would pass by. */
  lemma NulDiffers()
    ensures GetCompare([97], [97, 0, 98]) == 0 && SetCompare([97], [97, 0, 98]) == -1
  {
    assert [97][1..] == [] && [97, 0, 98][1..] == [0, 98];
    assert Strncmp([], [0, 98], 2) == 0 && Strncmp([], [0, 98], 0) == 0;
  }

  lemma {:induction false} LexOrder(a: Name, b: Name, c: Name)
    ensures Lex(a, b) == 0 <==> a == b
    ensures Lex(a, b) == -Lex(b, a)
    ensures Lex(a, b) < 0 && Lex(b, c) < 0 ==> Lex(a, c) < 0
  {
    if a != [] && b != [] {
      assert a == [a[0]] + a[1..] && b == [b[0]] + b[1..];
      if c != [] {
        LexOrder(a[1..], b[1..], c[1..]);
      } else {
        LexOrder(a[1..], b[1..], []);
      }
    }
  }

  // ----- the index ---------------------------------------------------------

  /** Every name in s comes after n. */
  predicate Above(n: Name, s: seq<Attr>)
  {
    s == [] || (Lex(n, s[0].name) < 0 && Above(n, s[1..]))
  }

  predicate Sorted(s: seq<Attr>)
  {
    s == [] || (NulFree(s[0].name) && Above(s[0].name, s[1..]) && Sorted(s[1..]))
  }

  function AsMap(s: seq<Attr>): (m: map<Name, seq<Byte>>)
  {
    if s == [] then map[] else AsMap(s[1..])[s[0].name := s[0].val]
  }

  function NamesSize(s: seq<Attr>): (n: nat)
  {
    if s == [] then 0 else |s[0].name| + NamesSize(s[1..])
  }

  function ValsSize(s: seq<Attr>): (n: nat)
  {
    if s == [] then 0 else |s[0].val| + ValsSize(s[1..])
  }

  /** Add or replace. */
  function Put(s: seq<Attr>, a: Attr): (r: seq<Attr>)
  {
    if s == [] then [a]
    else if Lex(a.name, s[0].name) < 0 then [a] + s
    else if a.name == s[0].name then [a] + s[1..]
    else [s[0]] + Put(s[1..], a)
  }

  function Del(s: seq<Attr>, name: Name): (r: seq<Attr>)
  {
    if s == [] then []
    else if s[0].name == name then s[1..]
    else [s[0]] + Del(s[1..], name)
  }

  lemma {:induction false} AboveAll(n: Name, s: seq<Attr>, k: Name)
    requires Above(n, s)
    ensures k in AsMap(s) ==> Lex(n, k) < 0
    ensures Lex(k, n) <= 0 ==> Above(k, s)
    ensures n !in AsMap(s)
  {
    if s != [] {
      AboveAll(n, s[1..], k);
      LexOrder(k, n, s[0].name);
      LexOrder(n, n, n);
    }
  }

  lemma {:induction false} AbovePut(n: Name, s: seq<Attr>, a: Attr)
    requires Above(n, s) && Lex(n, a.name) < 0
    ensures Above(n, Put(s, a))
  {
    if s != [] {
      AbovePut(n, s[1..], a);
      var r := Put(s, a);
      assert r[1..] == s || r[1..] == s[1..] || r[1..] == Put(s[1..], a);
    } else {
      assert Put(s, a)[1..] == [];
    }
  }

  lemma {:induction false} AboveDel(n: Name, s: seq<Attr>, name: Name)
    requires Above(n, s)
    ensures Above(n, Del(s, name))
  {
    if s != [] && s[0].name != name {
      AboveDel(n, s[1..], name);
      assert Del(s, name)[1..] == Del(s[1..], name);
    }
  }

  /** What add-or-replace does to the map. */
  lemma {:induction false} PutMap(s: seq<Attr>, a: Attr)
    requires Sorted(s) && NulFree(a.name)
    ensures Sorted(Put(s, a)) && AsMap(Put(s, a)) == AsMap(s)[a.name := a.val]
  {
    var r := Put(s, a);
    if s == [] {
      assert r[1..] == [];
    } else {
      LexOrder(a.name, s[0].name, a.name);
      AboveAll(s[0].name, s[1..], a.name);
      if Lex(a.name, s[0].name) < 0 {
        assert r[1..] == s;
      } else if a.name == s[0].name {
        assert r[1..] == s[1..];
      } else {
        assert r[1..] == Put(s[1..], a);
        PutMap(s[1..], a);
        AbovePut(s[0].name, s[1..], a);
      }
    }
  }

  /** The sizes after add-or-replace. */
  lemma {:induction false} PutSizes(s: seq<Attr>, a: Attr)
    requires Sorted(s)
    ensures var r := Put(s, a); var was := AsMap(s);
      if a.name in was then
        |r| == |s| && NamesSize(r) == NamesSize(s) && ValsSize(r) == ValsSize(s) - |was[a.name]| + |a.val|
      else
        |r| == |s| + 1 && NamesSize(r) == NamesSize(s) + |a.name| && ValsSize(r) == ValsSize(s) + |a.val|
  {
    var r := Put(s, a);
    if s == [] {
      assert r[1..] == [];
    } else {
      AboveAll(s[0].name, s[1..], a.name);
      LexOrder(a.name, s[0].name, a.name);
      if Lex(a.name, s[0].name) < 0 {
        assert r[1..] == s;
      } else if a.name == s[0].name {
        assert r[1..] == s[1..];
      } else {
        assert r[1..] == Put(s[1..], a);
        PutSizes(s[1..], a);
      }
    }
  }

  lemma {:induction false} DelMap(s: seq<Attr>, name: Name)
    requires Sorted(s)
    ensures Sorted(Del(s, name)) && AsMap(Del(s, name)) == AsMap(s) - {name}
  {
    if s != [] {
      AboveAll(s[0].name, s[1..], name);
      if s[0].name != name {
        assert Del(s, name)[1..] == Del(s[1..], name);
        DelMap(s[1..], name);
        AboveDel(s[0].name, s[1..], name);
      }
    }
  }

  lemma {:induction false} DelSizes(s: seq<Attr>, name: Name)
    requires Sorted(s) && name in AsMap(s)
    ensures var r := Del(s, name);
      |r| == |s| - 1 && NamesSize(r) == NamesSize(s) - |name| && ValsSize(r) == ValsSize(s) - |AsMap(s)[name]|
  {
    if s[0].name != name {
      assert Del(s, name)[1..] == Del(s[1..], name);
      DelSizes(s[1..], name);
    }
  }

  /** The map determines the index. */
  lemma {:induction false} Canonical(s: seq<Attr>, t: seq<Attr>)
    requires Sorted(s) && Sorted(t) && AsMap(s) == AsMap(t)
    ensures s == t
  {
    if s == [] || t == [] {
      assert |AsMap(s)| == 0;
    } else {
      assert s[0].name in AsMap(t) && t[0].name in AsMap(s);
      AboveAll(s[0].name, s[1..], t[0].name);
      AboveAll(t[0].name, t[1..], s[0].name);
      LexOrder(s[0].name, t[0].name, s[0].name);
      assert s[0].name == t[0].name;
      assert AsMap(s[1..]) == AsMap(s) - {s[0].name};
      assert AsMap(t[1..]) == AsMap(t) - {s[0].name};
      Canonical(s[1..], t[1..]);
      assert s == [s[0]] + s[1..] && t == [t[0]] + t[1..];
    }
  }

  // ----- positions ---------------------------------------------------------

  /** Every name before pos comes before name. */
  predicate BelowTo(s: seq<Attr>, pos: nat, name: Name)
    requires pos <= |s|
  {
    pos == 0 || (Lex(s[0].name, name) < 0 && BelowTo(s[1..], pos - 1, name))
  }

  lemma {:induction false} PutAt(s: seq<Attr>, a: Attr, pos: nat)
    requires pos <= |s| && BelowTo(s, pos, a.name)
    ensures pos < |s| && s[pos].name == a.name ==> Put(s, a) == s[pos := a]
    ensures pos == |s| || Lex(a.name, s[pos].name) < 0 ==> Put(s, a) == s[..pos] + [a] + s[pos..]
  {
    if pos > 0 {
      LexOrder(s[0].name, a.name, s[0].name);
      PutAt(s[1..], a, pos - 1);
      assert s == [s[0]] + s[1..];
    } else if s != [] {
      LexOrder(a.name, s[0].name, a.name);
    }
  }

  lemma {:induction false} DelAt(s: seq<Attr>, pos: nat)
    requires pos < |s| && BelowTo(s, pos, s[pos].name)
    ensures Del(s, s[pos].name) == s[..pos] + s[pos+1..]
  {
    if pos > 0 {
      LexOrder(s[0].name, s[pos].name, s[0].name);
      DelAt(s[1..], pos - 1);
    }
  }

  /** Moving the left bound of a search up to a node that comes before the name. */
  lemma {:induction false} BelowMid(s: seq<Attr>, mid: nat, name: Name)
    requires Sorted(s) && mid < |s|
    ensures Lex(s[mid].name, name) < 0 ==> BelowTo(s, mid + 1, name)
    ensures s[mid].name == name ==> BelowTo(s, mid, name) && name in AsMap(s) && AsMap(s)[name] == s[mid].val
    ensures s[mid].name in AsMap(s) && NulFree(s[mid].name)
  {
    if mid > 0 {
      BelowMid(s[1..], mid - 1, name);
      assert s[1..][mid-1] == s[mid];
      AboveAll(s[0].name, s[1..], s[mid].name);
      LexOrder(s[0].name, s[mid].name, name);
    }
  }

  /** A name that falls between two neighbours is not in the index. */
  lemma {:induction false} BetweenMissing(s: seq<Attr>, pos: nat, name: Name)
    requires Sorted(s) && pos <= |s| && BelowTo(s, pos, name) && (pos == |s| || Lex(name, s[pos].name) < 0)
    ensures name !in AsMap(s)
  {
    if pos > 0 {
      BetweenMissing(s[1..], pos - 1, name);
      LexOrder(s[0].name, name, s[0].name);
    } else if s != [] {
      LexOrder(name, s[0].name, name);
      AboveAll(s[0].name, s[1..], name);
    }
  }

  // ----- wire format -------------------------------------------------------

  const U32 := 0x1_0000_0000

  /** ceph_encode_32: little endian, keeping the low 32 bits. */
  function Le32(n: nat): (b: seq<Byte>)
    ensures |b| == 4
  {
    [n % 256, n / 0x100 % 256, n / 0x1_0000 % 256, n / 0x100_0000 % 256]
  }

  function De32(b: seq<Byte>): (n: nat)
    requires |b| >= 4
  {
    var b0: int, b1: int, b2: int, b3: int := b[0], b[1], b[2], b[3];
    b0 + 0x100 * b1 + 0x1_0000 * b2 + 0x100_0000 * b3
  }

  lemma FourDigits(n: nat)
    requires n < U32
    ensures n == n % 256 + 0x100 * (n / 0x100 % 256) + 0x1_0000 * (n / 0x1_0000 % 256)
        + 0x100_0000 * (n / 0x100_0000 % 256)
  {
    var n1 := n / 0x100;
    var n2 := n1 / 0x100;
    assert n / 0x1_0000 == n2;
    assert n / 0x100_0000 == n2 / 0x100;
  }

  lemma Le32Back(n: nat, rest: seq<Byte>)
    requires n < U32
    ensures De32(Le32(n) + rest) == n && (Le32(n) + rest)[4..] == rest
  {
    FourDigits(n);
  }

  function EncodeAttr(a: Attr): (b: seq<Byte>)
  {
    Le32(|a.name|) + a.name + Le32(|a.val|) + a.val
  }

  function EncodeAttrs(s: seq<Attr>): (b: seq<Byte>)
  {
    if s == [] then [] else EncodeAttr(s[0]) + EncodeAttrs(s[1..])
  }

  function Encode(s: seq<Attr>): (b: seq<Byte>)
  {
    Le32(|s|) + EncodeAttrs(s)
  }

  /** __get_required_blob_size, without a further attribute. */
  function Required(s: seq<Attr>): (n: nat)
  {
    4 + |s| * 8 + NamesSize(s) + ValsSize(s)
  }

  /** The encoder writes exactly the required size. */
  lemma {:induction false} EncodeSize(s: seq<Attr>)
    ensures |Encode(s)| == Required(s)
  {
    if s != [] {
      EncodeSize(s[1..]);
    }
  }

  /** The four bytes from `at` on are the number, least significant byte first. */
  ghost predicate WordAt(b: seq<Byte>, at: nat, n: int)
  {
    && at + 4 <= |b|
    && var b0: int, b1: int, b2: int, b3: int := b[at], b[at+1], b[at+2], b[at+3];
       n == b0 + 0x100 * b1 + 0x1_0000 * b2 + 0x100_0000 * b3
  }

  /** An attribute from `at` on: the length of its name, the name, the length of its value, the value. */
  ghost predicate AttrAt(b: seq<Byte>, at: nat, a: Attr)
  {
    var nl, vl := |a.name|, |a.val|;
    && at + 8 + nl + vl <= |b|
    && WordAt(b, at, nl) && b[at + 4..at + 4 + nl] == a.name
    && WordAt(b, at + 4 + nl, vl) && b[at + 8 + nl..at + 8 + nl + vl] == a.val
  }

  lemma WordFrom(b: seq<Byte>, at: nat, n: nat)
    requires n < U32 && at + 4 <= |b| && b[at..at + 4] == Le32(n)
    ensures WordAt(b, at, n)
  {
    FourDigits(n);
    var w := b[at..at + 4];
    assert w[0] == b[at] && w[1] == b[at+1] && w[2] == b[at+2] && w[3] == b[at+3];
  }

  /** Four pieces somewhere in a sequence. */
  lemma Pieces(before: seq<Byte>, p: seq<Byte>, q: seq<Byte>, r: seq<Byte>, t: seq<Byte>, after: seq<Byte>)
    ensures var b := before + (p + q + r + t) + after; var at := |before|;
      && b[at..at + |p|] == p && b[at + |p|..at + |p| + |q|] == q
      && b[at + |p| + |q|..at + |p| + |q| + |r|] == r
      && b[at + |p| + |q| + |r|..at + |p| + |q| + |r| + |t|] == t
  {
  }

  lemma AttrWithin(before: seq<Byte>, a: Attr, after: seq<Byte>)
    requires |a.name| < U32 && |a.val| < U32
    ensures AttrAt(before + EncodeAttr(a) + after, |before|, a)
  {
    var b := before + EncodeAttr(a) + after;
    Pieces(before, Le32(|a.name|), a.name, Le32(|a.val|), a.val, after);
    WordFrom(b, |before|, |a.name|);
    WordFrom(b, |before| + 4 + |a.name|, |a.val|);
  }

  lemma Assoc(a: seq<Byte>, b: seq<Byte>, c: seq<Byte>)
    ensures a + (b + c) == (a + b) + c
  {
  }

  lemma {:induction false} EncodeConcat(s: seq<Attr>, t: seq<Attr>)
    ensures EncodeAttrs(s + t) == EncodeAttrs(s) + EncodeAttrs(t)
  {
    if s == [] {
      assert s + t == t;
    } else {
      assert (s + t)[1..] == s[1..] + t;
      EncodeConcat(s[1..], t);
      Assoc(EncodeAttr(s[0]), EncodeAttrs(s[1..]), EncodeAttrs(t));
    }
  }

  lemma EncodeAttrsAppend(s: seq<Attr>, a: Attr)
    ensures EncodeAttrs(s + [a]) == EncodeAttrs(s) + EncodeAttr(a)
  {
    EncodeConcat(s, [a]);
    assert |[a][1..]| == 0;
    assert EncodeAttrs([a]) == EncodeAttr(a) + EncodeAttrs([]);
  }

  /** The layout of the encoding: the number of attributes, then each at the offset that is the
      required size of those before it. */
  lemma EncodeLayout(s: seq<Attr>, i: nat)
    requires |s| < U32 && i < |s| && |s[i].name| < U32 && |s[i].val| < U32
    ensures WordAt(Encode(s), 0, |s|) && AttrAt(Encode(s), Required(s[..i]), s[i])
  {
    var front, rest := s[..i], s[i + 1..];
    assert s == front + ([s[i]] + rest);
    EncodeConcat(front, [s[i]] + rest);
    assert ([s[i]] + rest)[1..] == rest;
    var head, one, after := EncodeAttrs(front), EncodeAttr(s[i]), EncodeAttrs(rest);
    Regroup(Le32(|s|), head, one, after);
    EncodeSize(front);
    AttrWithin(Le32(|s|) + head, s[i], after);
    WordFrom(Encode(s), 0, |s|);
  }

  lemma Regroup(a: seq<Byte>, b: seq<Byte>, c: seq<Byte>, d: seq<Byte>)
    ensures a + (b + (c + d)) == (a + b) + c + d
  {
  }

  /** How reading a blob ends. Bad: no room for a length word. Overrun: the value of an attribute,
      len bytes long, reaches past the end of the blob, which has only the first part of it; last
      says whether it was the last attribute to read. */
  datatype Ending = Done | Bad | Overrun(name: Name, part: seq<Byte>, len: nat, last: bool)

  /** The attributes read from a blob, in blob order. */
  datatype Reading = Reading(ending: Ending, attrs: seq<Attr>)

  /** n attributes still to be read from rest */
  function Read(rest: seq<Byte>, n: nat): (r: Reading)
    decreases n
  {
    if n == 0 then Reading(Done, [])
    else if |rest| < 4 then Reading(Bad, [])
    else
      var nl := De32(rest);
      if |rest| < 8 + nl then Reading(Bad, [])
      else
        var vl := De32(rest[4 + nl..]);
        if |rest| < 8 + nl + vl then Reading(Overrun(rest[4..4 + nl], rest[8 + nl..], vl, n == 1), [])
        else
          var r := Read(rest[8 + nl + vl..], n - 1);
          Reading(r.ending, [Attr(rest[4..4 + nl], rest[8 + nl..8 + nl + vl])] + r.attrs)
  }

  lemma ReadOne(a: Attr, rest: seq<Byte>, n: nat)
    requires |a.name| < U32 && |a.val| < U32 && n > 0
    ensures Read(EncodeAttr(a) + rest, n) == Reading(Read(rest, n - 1).ending, [a] + Read(rest, n - 1).attrs)
  {
    var nl, vl := |a.name|, |a.val|;
    var all := EncodeAttr(a) + rest;
    Le32Back(nl, a.name + Le32(vl) + a.val + rest);
    assert all == Le32(nl) + (a.name + Le32(vl) + a.val + rest);
    assert all[4..4 + nl] == a.name;
    Le32Back(vl, a.val + rest);
    assert all[4 + nl..] == Le32(vl) + (a.val + rest);
    assert all[8 + nl..8 + nl + vl] == a.val;
    assert all[8 + nl + vl..] == rest;
  }

  lemma ReadMore(all: seq<Byte>, a: Attr, rest: seq<Byte>, n: nat, tail: seq<Attr>)
    requires |a.name| < U32 && |a.val| < U32 && n > 0 && all == EncodeAttr(a) + rest
    requires Read(rest, n - 1) == Reading(Done, tail)
    ensures Read(all, n) == Reading(Done, [a] + tail)
  {
    ReadOne(a, rest, n);
  }

  lemma FirstFits(s: seq<Attr>)
    requires Required(s) < U32 && s != []
    ensures |s[0].name| < U32 && |s[0].val| < U32 && Required(s[1..]) < U32
  {
  }

  lemma {:induction false} ReadEncoded(s: seq<Attr>, all: seq<Byte>, n: nat)
    requires Required(s) < U32 && all == EncodeAttrs(s) && n == |s|
    ensures Read(all, n) == Reading(Done, s)
  {
    if s != [] {
      var a, more, rest := s[0], s[1..], EncodeAttrs(s[1..]);
      FirstFits(s);
      ReadEncoded(more, rest, n - 1);
      ReadMore(all, a, rest, n, more);
      assert s == [a] + more;
    }
  }

  /** What a blob holds; only a blob longer than its count word is read. */
  function Decode(blob: Option<seq<Byte>>): (r: Reading)
  {
    if blob.Some? && |blob.value| > 4 then Read(blob.value[4..], De32(blob.value)) else Reading(Done, [])
  }

  /** Reading an encoded index gives back its attributes. */
  lemma DecodeEncoded(s: seq<Attr>)
    requires Required(s) < U32
    ensures Decode(Some(Encode(s))) == Reading(Done, s)
  {
    Le32Back(|s|, EncodeAttrs(s));
    ReadEncoded(s, EncodeAttrs(s), |s|);
    EncodeSize(s);
  }

  // ----- loading a list of attributes into an index ------------------------

  function PutAll(index: seq<Attr>, s: seq<Attr>): (r: seq<Attr>)
    decreases |s|
  {
    if s == [] then index else PutAll(Put(index, s[0]), s[1..])
  }

  predicate NamesOk(s: seq<Attr>)
  {
    s == [] || (NulFree(s[0].name) && NamesOk(s[1..]))
  }

  lemma {:induction false} SortedNames(s: seq<Attr>)
    requires Sorted(s)
    ensures NamesOk(s)
  {
    if s != [] {
      SortedNames(s[1..]);
    }
  }

  lemma MergeStep<K, V>(m: map<K, V>, n: map<K, V>, k: K, v: V)
    ensures m[k := v] + n == m + (map[k := v] + n)
  {
  }

  /** Loading into an index that is not empty merges the maps, the list winning. */
  lemma {:induction false} PutAllMap(index: seq<Attr>, s: seq<Attr>)
    requires Sorted(index) && NamesOk(s)
    ensures Sorted(PutAll(index, s)) && Sorted(PutAll([], s))
    ensures AsMap(PutAll(index, s)) == AsMap(index) + AsMap(PutAll([], s))
    decreases |s|
  {
    if s != [] {
      PutMap(index, s[0]);
      PutMap([], s[0]);
      PutAllMap(Put(index, s[0]), s[1..]);
      PutAllMap(Put([], s[0]), s[1..]);
      MergeStep(AsMap(index), AsMap(PutAll([], s[1..])), s[0].name, s[0].val);
    }
  }

  lemma {:induction false} NameBound(s: seq<Attr>, name: Name)
    requires name in AsMap(s)
    ensures |name| <= NamesSize(s)
  {
    if s[0].name != name {
      NameBound(s[1..], name);
    }
  }

  lemma PutNames(s: seq<Attr>, a: Attr)
    requires Sorted(s)
    ensures NamesSize(Put(s, a)) == 0 <==> NamesSize(s) == 0 && a.name == []
  {
    PutSizes(s, a);
    if a.name in AsMap(s) {
      NameBound(s, a.name);
    }
  }

  /** An index has no name to count after a load exactly if it and the list had none. */
  lemma {:induction false} PutAllNames(index: seq<Attr>, s: seq<Attr>)
    requires Sorted(index) && NamesOk(s)
    ensures NamesSize(PutAll(index, s)) == 0 <==> NamesSize(index) == 0 && NamesSize(s) == 0
    decreases |s|
  {
    if s != [] {
      PutMap(index, s[0]);
      PutNames(index, s[0]);
      PutAllNames(Put(index, s[0]), s[1..]);
    }
  }

  /** Loading a sorted list into an empty index gives that list. */
  lemma {:induction false} PutAllSorted(s: seq<Attr>)
    requires Sorted(s)
    ensures PutAll([], s) == s
  {
    SortedNames(s);
    PutAllMap([], s);
    if s != [] {
      PutAllSorted(s[1..]);
      PutMap([], s[0]);
      PutAllMap(Put([], s[0]), s[1..]);
      AboveAll(s[0].name, s[1..], s[0].name);
    }
    Canonical(PutAll([], s), s);
  }

  /** Round trip: loading the encoding of an index rebuilds that index. */
  lemma RoundTrip(s: seq<Attr>)
    requires Sorted(s) && Required(s) < U32
    ensures Decode(Some(Encode(s))).ending == Done && PutAll([], Decode(Some(Encode(s))).attrs) == s
  {
    DecodeEncoded(s);
    PutAllSorted(s);
  }

  /** A load that starts from leftovers ends with exactly the blob's attributes if and only if
      each leftover name is one the blob holds too. */
  lemma LoadExact(index: seq<Attr>, s: seq<Attr>)
    requires Sorted(index) && NamesOk(s)
    ensures PutAll(index, s) == PutAll([], s) <==> AsMap(index).Keys <= AsMap(PutAll([], s)).Keys
  {
    PutAllMap(index, s);
    var whole := AsMap(PutAll([], s));
    if AsMap(index).Keys <= whole.Keys {
      assert AsMap(index) + whole == whole;
      Canonical(PutAll(index, s), PutAll([], s));
    } else {
      var k :| k in AsMap(index) && k !in whole;
      assert k in AsMap(PutAll(index, s));
    }
  }
}
