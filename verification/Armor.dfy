/** The base64 armor of keys: section 4 of RFC 4648, with a newline after every 64 characters. */
module Armor {
  import opened Common

  /** Six bits. */
  type Digit = x: int | 0 <= x < 64

  // ----- the alphabet ------------------------------------------------------

  // Text is a sequence of ASCII codes.
  const NEWLINE: Byte := 10
  const PAD: Byte := 61

  /** pem_key */
  const ALPHABET := "ABCDEFGHIJKLMNOP" + "QRSTUVWXYZabcdef" + "ghijklmnopqrstuv" + "wxyz0123456789+/"

  /** encode_bits: the character's code */
  function EncodeBits(c: Digit): (ch: Byte)
  {
    if c < 26 then 65 + c             // A-Z
    else if c < 52 then 97 + (c - 26) // a-z
    else if c < 62 then 48 + (c - 52) // 0-9
    else if c == 62 then 43           // +
    else 47                           // /
  }

  /** decode_bits; None stands for -EINVAL */
  function DecodeBits(ch: Byte): (r: Option<Digit>)
  {
    if 65 <= ch <= 90 then Some(ch - 65)
    else if 97 <= ch <= 122 then Some(ch - 97 + 26)
    else if 48 <= ch <= 57 then Some(ch - 48 + 52)
    else if ch == 43 then Some(62)
    else if ch == 47 then Some(63)
    else if ch == PAD then Some(0)
    else None
  }

  lemma DecodeEncoded(c: Digit)
    ensures DecodeBits(EncodeBits(c)) == Some(c) && EncodeBits(c) != PAD && EncodeBits(c) != NEWLINE
  {
  }

  lemma EncodeIsTable(c: Digit)
    ensures |ALPHABET| == 64 && EncodeBits(c) == ALPHABET[c] as int
  {
  }

  /** The character stands for six bits; a pad character stands for zeros. */
  ghost predicate StandsFor(ch: Byte, c: int)
  {
    if ch == PAD then c == 0 else 0 <= c < 64 && ch == EncodeBits(c)
  }

  /** A character is accepted exactly if it stands for six bits, and then as those. */
  lemma DecodeIs(ch: Byte)
    ensures DecodeBits(ch).Some? <==> exists c :: StandsFor(ch, c)
    ensures forall c :: StandsFor(ch, c) <==> DecodeBits(ch).Some? && DecodeBits(ch).value == c
  {
    if DecodeBits(ch).Some? {
      assert StandsFor(ch, DecodeBits(ch).value);
    }
  }

  // ----- encoding ----------------------------------------------------------

  /** The four characters for the next one, two or three bytes. */
  function Quad(src: seq<Byte>): (q: seq<Byte>)
    requires src != []
    ensures |q| == 4
  {
    var a := src[0];
    if |src| == 1 then
      [EncodeBits(a / 4), EncodeBits(a % 4 * 16), PAD, PAD]
    else
      var b := src[1];
      if |src| == 2 then
        [EncodeBits(a / 4), EncodeBits(a % 4 * 16 + b / 16), EncodeBits(b % 16 * 4), PAD]
      else
        var c := src[2];
        [EncodeBits(a / 4), EncodeBits(a % 4 * 16 + b / 16), EncodeBits(b % 16 * 4 + c / 64), EncodeBits(c % 64)]
  }

  function Min(a: int, b: int): (m: int)
  {
    if a < b then a else b
  }

  /** One round of ceph_armor, when line characters of the current line are already out. */
  function Piece(src: seq<Byte>, line: nat): (text: seq<Byte>)
    requires src != []
  {
    if line + 4 == 64 then Quad(src) + [NEWLINE] else Quad(src)
  }

  function NextLine(line: nat): (n: nat)
  {
    if line + 4 == 64 then 0 else line + 4
  }

  function Rest(src: seq<Byte>): (r: seq<Byte>)
    requires src != []
    ensures |r| < |src|
  {
    src[Min(3, |src|)..]
  }

  /** What ceph_armor writes. */
  function Armored(src: seq<Byte>, line: nat): (text: seq<Byte>)
  {
    if src == [] then [] else Piece(src, line) + Armored(Rest(src), NextLine(line))
  }

  /** 4 characters for every 3 bytes, rounded up, and a newline for every 64 of them. */
  lemma {:induction false} ArmoredLength(src: seq<Byte>, line: nat)
    requires line % 4 == 0 && line < 64
    ensures |Armored(src, line)| == 4 * ((|src| + 2) / 3) + (line + 4 * ((|src| + 2) / 3)) / 64
  {
    if src != [] {
      assert (|src| + 2) / 3 == 1 + (|Rest(src)| + 2) / 3;
      ArmoredLength(Rest(src), NextLine(line));
    }
  }

  lemma QuadLine(src: seq<Byte>)
    requires src != []
    ensures forall k :: 0 <= k < 4 ==> Quad(src)[k] != NEWLINE
  {
  }

  lemma PieceAt(src: seq<Byte>, line: nat, k: nat)
    requires src != [] && k < |Piece(src, line)| && line % 4 == 0 && line < 64
    ensures Piece(src, line)[k] == NEWLINE <==> (line + k) % 65 == 64
  {
    QuadLine(src);
  }

  /** The place in the line, after a round. */
  lemma NextPlace(line: nat, n: nat, k: nat)
    requires line % 4 == 0 && line < 64 && n == (if line + 4 == 64 then 5 else 4) && k >= n
    ensures NextLine(line) % 4 == 0 && NextLine(line) < 64
    ensures (NextLine(line) + (k - n)) % 65 == (line + k) % 65
  {
  }

  /** Every 65th character, counting from the start of the line, is a newline, and no other. */
  lemma {:induction false} NewlinesAt(src: seq<Byte>, line: nat, k: nat)
    requires line % 4 == 0 && line < 64 && k < |Armored(src, line)|
    ensures Armored(src, line)[k] == NEWLINE <==> (line + k) % 65 == 64
  {
    var piece, rest := Piece(src, line), Armored(Rest(src), NextLine(line));
    assert Armored(src, line) == piece + rest;
    if k < |piece| {
      PieceAt(src, line, k);
    } else {
      NextPlace(line, |piece|, k);
      NewlinesAt(Rest(src), NextLine(line), k - |piece|);
    }
  }

  // ----- decoding ----------------------------------------------------------

  /** The bytes of four characters and whether a pad character ends the text. */
  datatype Group = Group(bytes: seq<Byte>, last: bool)

  function DecodeQuad(q: seq<Byte>): (r: Option<Group>)
    requires |q| >= 4
    ensures r.Some? ==> 1 <= |r.value.bytes| <= 3 && (!r.value.last ==> |r.value.bytes| == 3)
  {
    var a, b, c, d := DecodeBits(q[0]), DecodeBits(q[1]), DecodeBits(q[2]), DecodeBits(q[3]);
    if a.None? || b.None? || c.None? || d.None? then None
    else
      var x: Byte := a.value * 4 + b.value / 16;
      var y: Byte := b.value % 16 * 16 + c.value / 4;
      var z: Byte := c.value % 4 * 64 + d.value;
      if q[2] == PAD then Some(Group([x], true))
      else if q[3] == PAD then Some(Group([x, y], true))
      else Some(Group([x, y, z], false))
  }

  /** ceph_unarmor; None stands for -EINVAL */
  function Unarmored(src: seq<Byte>): (r: Option<seq<Byte>>)
  {
    if src == [] then Some([])
    else if src[0] == NEWLINE then Unarmored(src[1..])
    else if |src| < 4 then None
    else
      var g := DecodeQuad(src);
      if g.None? then None
      else if g.value.last then Some(g.value.bytes)
      else
        var r := Unarmored(src[4..]);
        if r.None? then None else Some(g.value.bytes + r.value)
  }

  /** Decoding four characters that are the digits of three bytes, the last ones maybe padded. */
  lemma DigitsBack(a: Byte, b: Byte, c: Byte, q: seq<Byte>)
    requires |q| >= 4 && q[0] == EncodeBits(a / 4) && q[1] == EncodeBits(a % 4 * 16 + b / 16)
    ensures q[0] != NEWLINE
    ensures q[2] == PAD && q[3] == PAD && b == 0 ==> DecodeQuad(q) == Some(Group([a], true))
    ensures q[2] == EncodeBits(b % 16 * 4 + c / 64) && q[3] == PAD && c == 0 ==>
        DecodeQuad(q) == Some(Group([a, b], true))
    ensures q[2] == EncodeBits(b % 16 * 4 + c / 64) && q[3] == EncodeBits(c % 64) ==>
        DecodeQuad(q) == Some(Group([a, b, c], false))
  {
    DecodeEncoded(a / 4);
    DecodeEncoded(a % 4 * 16 + b / 16);
    DecodeEncoded(b % 16 * 4 + c / 64);
    DecodeEncoded(c % 64);
    Bits(a, b, c);
  }

  lemma QuadBack(src: seq<Byte>, rest: seq<Byte>)
    requires src != []
    ensures DecodeQuad(Quad(src) + rest) == Some(Group(src[..Min(3, |src|)], |src| < 3))
    ensures Quad(src)[0] != NEWLINE
  {
    if |src| == 1 {
      assert src[..1] == [src[0]];
      DigitsBack(src[0], 0, 0, Quad(src) + rest);
    } else if |src| == 2 {
      assert src[..2] == [src[0], src[1]];
      DigitsBack(src[0], src[1], 0, Quad(src) + rest);
    } else {
      assert src[..3] == [src[0], src[1], src[2]];
      DigitsBack(src[0], src[1], src[2], Quad(src) + rest);
    }
  }

  /** The digits of three bytes put together again. */
  lemma Bits(a: Byte, b: Byte, c: Byte)
    ensures a / 4 * 4 + (a % 4 * 16 + b / 16) / 16 == a
    ensures (a % 4 * 16 + b / 16) % 16 * 16 + (b % 16 * 4 + c / 64) / 4 == b
    ensures (b % 16 * 4 + c / 64) % 4 * 64 + c % 64 == c
  {
  }

  /** Reading one piece back. */
  lemma PieceBack(src: seq<Byte>, line: nat, tail: seq<Byte>)
    requires src != []
    ensures |src| < 3 ==> Unarmored(Piece(src, line) + tail) == Some(src)
    ensures |src| >= 3 && Unarmored(tail).Some? ==>
        Unarmored(Piece(src, line) + tail) == Some(src[..3] + Unarmored(tail).value)
  {
    var more := if line + 4 == 64 then [NEWLINE] + tail else tail;
    var all := Quad(src) + more;
    assert Piece(src, line) + tail == all;
    QuadBack(src, more);
    assert all[4..] == more;
    assert line + 4 == 64 ==> more[1..] == tail;
    assert |src| < 3 ==> src[..|src|] == src;
  }

  /** Unarmor of armor returns the original bytes, wherever in a line the armor starts. */
  lemma {:induction false} RoundTrip(src: seq<Byte>, line: nat)
    ensures Unarmored(Armored(src, line)) == Some(src)
  {
    if src != [] {
      RoundTrip(Rest(src), NextLine(line));
      PieceBack(src, line, Armored(Rest(src), NextLine(line)));
      assert |src| >= 3 ==> src == src[..3] + Rest(src);
    }
  }

  // ----- which texts are accepted ------------------------------------------

  /** A part of an accepted text: a newline, or four characters that stand for something. */
  ghost predicate Part(p: seq<Byte>)
  {
    p == [NEWLINE] || (|p| == 4 && p[0] != NEWLINE && forall k :: 0 <= k < 4 ==> exists c :: StandsFor(p[k], c))
  }

  /** A pad character in third or fourth place ends the text, whatever follows. */
  predicate Ends(p: seq<Byte>)
  {
    |p| == 4 && (p[2] == PAD || p[3] == PAD)
  }

  function Flat(parts: seq<seq<Byte>>): (s: seq<Byte>)
  {
    if parts == [] then [] else parts[0] + Flat(parts[1..])
  }

  /** The text is made of these parts, up to one that ends it. */
  ghost predicate Splits(src: seq<Byte>, parts: seq<seq<Byte>>)
  {
    && (forall k :: 0 <= k < |parts| ==> Part(parts[k]))
    && (forall k :: 0 <= k < |parts| - 1 ==> !Ends(parts[k]))
    && Flat(parts) <= src
    && (Flat(parts) == src || (parts != [] && Ends(parts[|parts| - 1])))
  }

  /** Four digits in base 64. */
  function Number(a: int, b: int, c: int, d: int): (n: int)
  {
    0x4_0000 * a + 0x1000 * b + 0x40 * c + d
  }

  /** n is the number whose 24 bits the four characters stand for. */
  ghost predicate NumberOf(p: seq<Byte>, n: int)
    requires |p| == 4
  {
    exists a, b, c, d ::
      && StandsFor(p[0], a) && StandsFor(p[1], b) && StandsFor(p[2], c) && StandsFor(p[3], d)
      && n == Number(a, b, c, d)
  }

  /** The bytes of a part: those of its number, less those of pad characters. */
  ghost predicate PartBytes(p: seq<Byte>, bytes: seq<Byte>)
  {
    if |p| != 4 then bytes == []
    else
      var keep := if p[2] == PAD then 1 else if p[3] == PAD then 2 else 3;
      exists n ::
        && NumberOf(p, n) && 0 <= n < 0x100_0000
        && bytes == [n / 0x1_0000, n / 0x100 % 0x100, n % 0x100][..keep]
  }

  /** And of a text: part by part. */
  ghost predicate TextBytes(parts: seq<seq<Byte>>, bytes: seq<Byte>)
  {
    if parts == [] then bytes == []
    else exists n :: 0 <= n <= |bytes| && PartBytes(parts[0], bytes[..n]) && TextBytes(parts[1..], bytes[n..])
  }

  lemma QuadIs(q: seq<Byte>)
    requires |q| >= 4 && q[0] != NEWLINE
    ensures DecodeQuad(q).Some? <==> Part(q[..4])
    ensures DecodeQuad(q).Some? ==>
      PartBytes(q[..4], DecodeQuad(q).value.bytes) && DecodeQuad(q).value.last == Ends(q[..4])
  {
    var p := q[..4];
    DecodeIs(p[0]);
    DecodeIs(p[1]);
    DecodeIs(p[2]);
    DecodeIs(p[3]);
    if DecodeQuad(q).Some? {
      var a, b, c, d := DecodeBits(p[0]).value, DecodeBits(p[1]).value, DecodeBits(p[2]).value, DecodeBits(p[3]).value;
      var n := Number(a, b, c, d);
      NumberBytes(a, b, c, d);
      assert NumberOf(p, n);
    }
  }

  lemma NumberBytes(a: Digit, b: Digit, c: Digit, d: Digit)
    ensures var n := Number(a, b, c, d);
      && 0 <= n < 0x100_0000
      && n / 0x1_0000 == a * 4 + b / 16 && n / 0x100 % 0x100 == b % 16 * 16 + c / 4
      && n % 0x100 == c % 4 * 64 + d
  {
    var x, y, z: int := a * 4 + b / 16, b % 16 * 16 + c / 4, c % 4 * 64 + d;
    assert Number(a, b, c, d) == 0x1_0000 * x + 0x100 * y + z;
    ThreeBytes(x, y, z);
  }

  lemma BytesMore(p: seq<Byte>, parts: seq<seq<Byte>>, first: seq<Byte>, more: seq<Byte>)
    requires PartBytes(p, first) && TextBytes(parts, more)
    ensures TextBytes([p] + parts, first + more)
  {
    var bytes := first + more;
    assert bytes[..|first|] == first && bytes[|first|..] == more && ([p] + parts)[1..] == parts;
  }

  lemma SplitsMore(p: seq<Byte>, src: seq<Byte>, parts: seq<seq<Byte>>)
    requires Part(p) && !Ends(p)
    ensures Splits(p + src, [p] + parts) <==> Splits(src, parts)
  {
    var all := [p] + parts;
    assert all[1..] == parts && Flat(all) == p + Flat(parts);
    assert forall k :: 0 <= k < |parts| ==> parts[k] == all[k + 1];
    assert Flat(all) <= p + src <==> Flat(parts) <= src by {
      if p + Flat(parts) <= p + src {
        assert (p + src)[|p|..] == src && (p + Flat(parts))[|p|..] == Flat(parts);
      }
    }
    assert p + Flat(parts) == p + src ==> Flat(parts) == src by {
      assert (p + src)[|p|..] == src && (p + Flat(parts))[|p|..] == Flat(parts);
    }
  }

  /** Every accepted text is made of such parts, and its bytes are theirs. */
  lemma {:induction false} UnarmoredSplits(src: seq<Byte>) returns (parts: seq<seq<Byte>>)
    requires Unarmored(src).Some?
    ensures Splits(src, parts) && TextBytes(parts, Unarmored(src).value)
    decreases |src|
  {
    if src == [] {
      return [];
    }
    var n := if src[0] == NEWLINE then 1 else 4;
    var p := src[..n];
    assert src == p + src[n..];
    if n == 4 {
      QuadIs(src);
    }
    var g := if n == 4 then DecodeQuad(src).value else Group([], false);
    if g.last {
      parts := [p];
      assert |parts[1..]| == 0 && Flat(parts) == p;
      BytesMore(p, [], g.bytes, []);
      assert [p] + [] == parts && g.bytes + [] == g.bytes;
      return;
    }
    var rest := UnarmoredSplits(src[n..]);
    SplitsMore(p, src[n..], rest);
    BytesMore(p, rest, g.bytes, Unarmored(src[n..]).value);
    assert n == 1 ==> g.bytes + Unarmored(src[n..]).value == Unarmored(src[n..]).value;
    parts := [p] + rest;
  }

  /** And every text made of such parts is accepted. */
  lemma {:induction false} SplitsUnarmored(src: seq<Byte>, parts: seq<seq<Byte>>)
    requires Splits(src, parts)
    ensures Unarmored(src).Some?
    decreases |parts|
  {
    if parts != [] {
      var p, rest := parts[0], parts[1..];
      var n := |p|;
      assert src[..n] == p by { assert Flat(parts)[..n] == p; }
      assert src == p + src[n..] && parts == [p] + rest;
      if n == 4 {
        QuadIs(src);
      }
      if !Ends(p) {
        SplitsMore(p, src[n..], rest);
        SplitsUnarmored(src[n..], rest);
      }
    }
  }

  /** ceph_unarmor accepts a text exactly if it is newlines and groups of four characters of the
      alphabet or pads, up to a group with a pad in third or fourth place. */
  lemma UnarmorExact(src: seq<Byte>)
    ensures Unarmored(src).Some? <==> exists parts :: Splits(src, parts)
    ensures Unarmored(src).Some? ==> exists parts :: Splits(src, parts) && TextBytes(parts, Unarmored(src).value)
  {
    if Unarmored(src).Some? {
      var parts := UnarmoredSplits(src);
    }
    forall parts | Splits(src, parts) ensures Unarmored(src).Some? {
      SplitsUnarmored(src, parts);
    }
  }

  lemma ThreeBytes(x: Byte, y: Byte, z: Byte)
    ensures var n := 0x1_0000 * x + 0x100 * y + z;
      n / 0x1_0000 == x && n / 0x100 % 0x100 == y && n % 0x100 == z
  {
  }

  // ----- code --------------------------------------------------------------

  method Write(dst: array<Byte>, at: nat, bytes: seq<Byte>) returns (next: nat)
    requires at + |bytes| <= dst.Length
    modifies dst
    ensures next == at + |bytes| && dst[..next] == old(dst[..at]) + bytes
  {
    forall i | 0 <= i < |bytes| {
      dst[at + i] := bytes[i];
    }
    next := at + |bytes|;
  }

  /** One round of ceph_armor: what is out and what is left to write stay the same text. */
  method EncodeRound(dst: array<Byte>, todo: seq<Byte>, line: nat, olen: nat) returns (next: nat)
    requires todo != [] && olen + |Armored(todo, line)| <= dst.Length
    modifies dst
    ensures next + |Armored(Rest(todo), NextLine(line))| == olen + |Armored(todo, line)|
    ensures dst[..next] + Armored(Rest(todo), NextLine(line)) == old(dst[..olen]) + Armored(todo, line)
  {
    ghost var before, tail := dst[..olen], Armored(Rest(todo), NextLine(line));
    var piece := Piece(todo, line);
    assert before + (piece + tail) == before + piece + tail;
    next := Write(dst, olen, piece);
  }

  /** ceph_armor */
  method EncodeArmor(dst: array<Byte>, src: seq<Byte>) returns (olen: nat)
    requires dst.Length >= |Armored(src, 0)|
    modifies dst
    ensures olen == |Armored(src, 0)| && dst[..olen] == Armored(src, 0)
  {
    olen := 0;
    var line: nat, todo := 0, src;
    ghost var all := Armored(src, 0);
    while todo != []
      invariant olen + |Armored(todo, line)| == |all| <= dst.Length && dst[..olen] + Armored(todo, line) == all
      decreases |todo|
    {
      olen := EncodeRound(dst, todo, line, olen);
      todo, line := Rest(todo), NextLine(line);
    }
  }

  /** ceph_unarmor into a buffer of three quarters of the text's length, rounded down, as its
      caller allocates: no write is out of bounds, whatever the text. */
  method DecodeArmor(dst: array<Byte>, src: seq<Byte>) returns (ok: bool, olen: nat)
    requires dst.Length >= |src| * 3 / 4
    modifies dst
    ensures ok <==> Unarmored(src).Some?
    ensures 4 * olen <= 3 * |src| && olen <= dst.Length
    ensures ok ==> dst[..olen] == Unarmored(src).value
  {
    olen := 0;
    var i := 0;
    assert src[0..] == src;
    ghost var all := Unarmored(src);
    ghost var left := all;
    assert all.Some? ==> dst[..0] + all.value == all.value;
    while i < |src|
      invariant 0 <= i <= |src| && 4 * olen <= 3 * i && olen <= dst.Length && left == Unarmored(src[i..])
      invariant all == if left.None? then None else Some(dst[..olen] + left.value)
      decreases |src| - i
    {
      var todo := src[i..];
      if todo[0] == NEWLINE {
        left := Unarmored(todo[1..]);
        i := i + 1;
        assert src[i..] == todo[1..];
      } else {
        if i + 4 > |src| {
          return false, olen;
        }
        var g := DecodeQuad(todo);
        if g.None? {
          return false, olen;
        }
        ghost var before := dst[..olen];
        ghost var more := Unarmored(todo[4..]);
        assert more.Some? ==> before + (g.value.bytes + more.value) == before + g.value.bytes + more.value;
        left := if g.value.last then Some([]) else more;
        olen := Write(dst, olen, g.value.bytes);
        if g.value.last {
          assert before + g.value.bytes + [] == before + g.value.bytes;
          return true, olen;
        }
        i := i + 4;
        assert src[i..] == todo[4..];
      }
    }
    ok := true;
  }
}
