/** RBD images: how a byte range of an image maps to backing objects, what a
    clone's bytes are when an object is missing, and the layered read path. */
module RbdImage {
  import opened Common

  /** A mapped image: objects of 2^order bytes, and possibly a parent image that
      supplies the bytes below `overlap` for objects the clone does not have. */
  datatype Image = Image(order: nat, objects: map<nat, seq<Byte>>, parent: Parent)
  datatype Parent = NoParent | Parent(image: Image, overlap: nat)

  /** One object request of an image request. */
  datatype ObjRequest = ObjRequest(objectNo: nat, offset: nat, length: nat, imgOffset: nat)

  /** Outcome of an OSD read: no such object, or the bytes present (possibly short). */
  datatype OsdRead = NoEnt | Data(bytes: seq<Byte>)

  function ObjBytes(img: Image): (n: nat)
    ensures n > 0
  {
    Pow2(img.order)
  }

  /** Every image of the chain keeps its objects within the object size. */
  ghost predicate Valid(img: Image)
  {
    && 9 <= img.order <= 30
    && (forall n :: n in img.objects ==> |img.objects[n]| <= ObjBytes(img))
    && (img.parent.Parent? ==> Valid(img.parent.image))
  }

  function PadByte(data: seq<Byte>, i: nat): (b: Byte)
  {
    if i < |data| then data[i] else 0
  }

  /** What byte `p` of the image is, for a parent chain of any depth: the object's
      own byte if the object exists (zero past its end), else the parent's byte
      below the overlap, else zero. */
  ghost function View(img: Image, p: nat): (b: Byte)
  {
    var n := SegmentNo(ObjBytes(img), p);
    if n in img.objects then PadByte(img.objects[n], SegmentOffset(ObjBytes(img), p))
    else if img.parent.Parent? && p < img.parent.overlap then View(img.parent.image, p)
    else 0
  }

  ghost predicate Shows(img: Image, off: nat, buf: seq<Byte>)
  {
    forall i :: 0 <= i < |buf| ==> buf[i] == View(img, off + i)
  }

  // ----- range splitting ---------------------------------------------------

  /** The number of the object holding byte `p`: p >> obj_order. */
  function SegmentNo(size: nat, p: nat): (n: nat)
    requires size > 0
    decreases p
  {
    if p < size then 0 else 1 + SegmentNo(size, p - size)
  }

  /** rbd_segment_offset: the low obj_order bits of `p`. */
  function SegmentOffset(size: nat, p: nat): (r: nat)
    requires size > 0
    ensures r < size && r <= p
    decreases p
  {
    if p < size then p else SegmentOffset(size, p - size)
  }

  /** rbd_segment_length: clip a length at the end of its first object. */
  function SegmentLength(size: nat, off: nat, length: nat): (r: nat)
    requires size > 0
    ensures SegmentOffset(size, off) + r <= size
    ensures r <= length && (length > 0 ==> r > 0)
    ensures r < length ==> SegmentOffset(size, off) + r == size
  {
    var o := SegmentOffset(size, off);
    if o + length > size then size - o else length
  }

  /** The shift and the mask are the quotient and the remainder by the object size. */
  lemma {:induction false} SegmentIsDivMod(size: nat, p: nat)
    requires size > 0
    ensures p == SegmentNo(size, p) * size + SegmentOffset(size, p)
    decreases p
  {
    if p >= size {
      SegmentIsDivMod(size, p - size);
      var n := SegmentNo(size, p - size);
      assert (1 + n) * size == size + n * size;
    }
  }

  /** Staying inside one object keeps the object number and moves the object offset. */
  lemma {:induction false} SameObject(size: nat, off: nat, k: nat)
    requires size > 0 && SegmentOffset(size, off) + k < size
    ensures SegmentNo(size, off + k) == SegmentNo(size, off)
    ensures SegmentOffset(size, off + k) == SegmentOffset(size, off) + k
    decreases off
  {
    if off >= size {
      SameObject(size, off - size, k);
      assert off + k - size == off - size + k;
    }
  }

  /** The end of an object is the start of the next one. */
  lemma {:induction false} NextObject(size: nat, off: nat)
    requires size > 0
    ensures SegmentNo(size, off + (size - SegmentOffset(size, off))) == SegmentNo(size, off) + 1
    ensures SegmentOffset(size, off + (size - SegmentOffset(size, off))) == 0
    decreases off
  {
    if off >= size {
      NextObject(size, off - size);
    }
  }

  /** The object requests for an image range, first one first. */
  function Split(size: nat, off: nat, length: nat): (reqs: seq<ObjRequest>)
    requires size > 0
    decreases length
  {
    if length == 0 then [] else
    var l := SegmentLength(size, off, length);
    [ObjRequest(SegmentNo(size, off), SegmentOffset(size, off), l, off)] + Split(size, off + l, length - l)
  }

  ghost predicate InOneObject(size: nat, q: ObjRequest)
    requires size > 0
  {
    && q.length > 0
    && q.objectNo == SegmentNo(size, q.imgOffset)
    && q.offset == SegmentOffset(size, q.imgOffset)
    && q.offset + q.length <= size
  }

  predicate Covers(q: ObjRequest, p: nat)
  {
    q.imgOffset <= p < q.imgOffset + q.length
  }

  /** The request after `i` starts where `i` ends, on the next object. */
  ghost predicate Adjacent(reqs: seq<ObjRequest>, i: nat)
    requires i + 1 < |reqs|
  {
    && reqs[i+1].imgOffset == reqs[i].imgOffset + reqs[i].length
    && reqs[i+1].objectNo == reqs[i].objectNo + 1
  }

  /** The requests tile [off, off+length): consecutive, starting and ending where
      the range does, each inside one object, each on the object after the last. */
  ghost predicate Tiles(size: nat, off: nat, length: nat, reqs: seq<ObjRequest>)
    requires size > 0 && length > 0
  {
    && reqs != []
    && (forall i :: 0 <= i < |reqs| ==> InOneObject(size, reqs[i]))
    && reqs[0].imgOffset == off
    && (forall i :: 0 <= i < |reqs| - 1 ==> Adjacent(reqs, i))
    && reqs[|reqs|-1].imgOffset + reqs[|reqs|-1].length == off + length
  }

  lemma TilesCons(size: nat, q: ObjRequest, length: nat, rest: seq<ObjRequest>)
    requires size > 0 && InOneObject(size, q) && length > q.length
    requires Tiles(size, q.imgOffset + q.length, length - q.length, rest)
    requires rest[0].objectNo == q.objectNo + 1
    ensures Tiles(size, q.imgOffset, length, [q] + rest)
  {
    var reqs := [q] + rest;
    forall i | 0 <= i < |reqs| - 1
      ensures Adjacent(reqs, i)
    {
      assert i > 0 ==> Adjacent(rest, i - 1);
    }
    assert reqs[|reqs|-1] == rest[|rest|-1];
  }

  /** Splitting an image range tiles it. */
  lemma {:induction false} SplitTiles(size: nat, off: nat, length: nat)
    requires size > 0 && length > 0
    ensures Tiles(size, off, length, Split(size, off, length))
    decreases length
  {
    var l := SegmentLength(size, off, length);
    var q := ObjRequest(SegmentNo(size, off), SegmentOffset(size, off), l, off);
    if l < length {
      var rest := Split(size, off + l, length - l);
      SplitTiles(size, off + l, length - l);
      assert rest[0].objectNo == q.objectNo + 1 by {
        NextObject(size, off);
        assert InOneObject(size, rest[0]);
      }
      TilesCons(size, q, length, rest);
    } else {
      assert Split(size, off, length) == [q];
    }
  }

  lemma {:induction false} SplitInside(size: nat, off: nat, length: nat, i: nat)
    requires size > 0 && i < |Split(size, off, length)|
    ensures var q := Split(size, off, length)[i];
      off <= q.imgOffset && q.length > 0 && q.imgOffset + q.length <= off + length
    decreases length
  {
    var l := SegmentLength(size, off, length);
    if i > 0 {
      SplitInside(size, off + l, length - l, i - 1);
    }
  }

  /** How many of the requests cover byte `p`. */
  ghost function CoverCount(reqs: seq<ObjRequest>, p: nat): (n: nat)
  {
    if reqs == [] then 0 else (if Covers(reqs[0], p) then 1 else 0) + CoverCount(reqs[1..], p)
  }

  /** Every byte of the range is in exactly one of the requests, and no other byte is in any. */
  lemma {:induction false} SplitCoversOnce(size: nat, off: nat, length: nat, p: nat)
    requires size > 0
    ensures CoverCount(Split(size, off, length), p) == if off <= p < off + length then 1 else 0
    decreases length
  {
    if length > 0 {
      var l := SegmentLength(size, off, length);
      SplitCoversOnce(size, off + l, length - l, p);
      assert Split(size, off, length)[1..] == Split(size, off + l, length - l);
    }
  }

  /** rbd_img_request_fill: the loop that cuts an image range into object requests. */
  method ImgRequestFill(order: nat, off: nat, length: nat) returns (reqs: seq<ObjRequest>)
    requires length > 0
    ensures reqs == Split(Pow2(order), off, length)
    ensures Tiles(Pow2(order), off, length, reqs)
  {
    var size := Pow2(order);
    reqs := [];
    var imgOffset, resid := off, length;
    while resid > 0
      invariant imgOffset + resid == off + length
      invariant reqs + Split(size, imgOffset, resid) == Split(size, off, length)
    {
      var l := SegmentLength(size, imgOffset, resid);
      var q := ObjRequest(SegmentNo(size, imgOffset), SegmentOffset(size, imgOffset), l, imgOffset);
      assert reqs + Split(size, imgOffset, resid) == (reqs + [q]) + Split(size, imgOffset + l, resid - l);
      reqs := reqs + [q];
      imgOffset := imgOffset + l;
      resid := resid - l;
    }
    SplitTiles(size, off, length);
  }

  // ----- reading -----------------------------------------------------------

  /** What the OSD answers to a read of an extent of object `n`. */
  function OsdReadExtent(objects: map<nat, seq<Byte>>, n: nat, offset: nat, length: nat): (r: OsdRead)
  {
    if n !in objects then NoEnt
    else
      var data := objects[n];
      if offset >= |data| then Data([])
      else Data(data[offset..if offset + length <= |data| then offset + length else |data|])
  }

  /** zero_bio_chain / zero_pages: everything from `start` on becomes zero. */
  function ZeroFrom(buf: seq<Byte>, start: nat): (r: seq<Byte>)
    ensures |r| == |buf|
    ensures forall i :: 0 <= i < |buf| ==> r[i] == if i < start then buf[i] else 0
  {
    seq(|buf|, i requires 0 <= i < |buf| => if i < start then buf[i] else 0)
  }

  /** Bytes read into the first part of a buffer of the given length. */
  function Received(bytes: seq<Byte>, length: nat): (r: seq<Byte>)
    requires |bytes| <= length
    ensures |r| == length && forall i :: 0 <= i < |bytes| ==> r[i] == bytes[i]
  {
    bytes + seq(length - |bytes|, i => 0)
  }

  /** Byte `p` of an object request's range, in terms of that one object. */
  ghost function ObjectByte(img: Image, q: ObjRequest, p: nat): (b: Byte)
    requires Covers(q, p)
  {
    if q.objectNo in img.objects then PadByte(img.objects[q.objectNo], q.offset + (p - q.imgOffset))
    else if img.parent.Parent? && p < img.parent.overlap then View(img.parent.image, p)
    else 0
  }

  lemma ObjectBytes(img: Image, q: ObjRequest)
    requires InOneObject(ObjBytes(img), q)
    ensures forall p: nat | Covers(q, p) :: View(img, p) == ObjectByte(img, q, p)
  {
    forall p: nat | Covers(q, p)
      ensures View(img, p) == ObjectByte(img, q, p)
    {
      SameObject(ObjBytes(img), q.imgOffset, p - q.imgOffset);
    }
  }

  /** One object request of a read: the OSD read, then either the parent read
      with everything beyond the overlap zeroed, or the hole and short-read fill. */
  method ReadObject(img: Image, q: ObjRequest) returns (buf: seq<Byte>)
    requires Valid(img) && InOneObject(ObjBytes(img), q)
    ensures |buf| == q.length && Shows(img, q.imgOffset, buf)
    decreases img, 0
  {
    match OsdReadExtent(img.objects, q.objectNo, q.offset, q.length) {
    case NoEnt =>
      if img.parent.Parent? && img.parent.overlap > 0 && q.imgOffset < img.parent.overlap {
        var parentBuf := ReadImage(img.parent.image, q.imgOffset, q.length);
        var xferred := q.length;
        if q.imgOffset + q.length > img.parent.overlap {
          xferred := img.parent.overlap - q.imgOffset;
        }
        buf := ZeroFrom(parentBuf, xferred);
      } else {
        buf := ZeroFrom(seq(q.length, i => 0), 0);
      }
    case Data(bytes) =>
      buf := ZeroFrom(Received(bytes, q.length), |bytes|);
    }
    ObjectBytes(img, q);
    forall i | 0 <= i < q.length
      ensures buf[i] == View(img, q.imgOffset + i)
    {
      assert Covers(q, q.imgOffset + i);
    }
  }

  /** A read of an image range: object requests in order, their buffers concatenated. */
  method ReadImage(img: Image, off: nat, length: nat) returns (buf: seq<Byte>)
    requires Valid(img) && length > 0
    ensures |buf| == length && Shows(img, off, buf)
    decreases img, 1
  {
    var reqs := ImgRequestFill(img.order, off, length);
    buf := [];
    var i := 0;
    while i < |reqs|
      invariant 0 <= i <= |reqs|
      invariant off + |buf| == if i < |reqs| then reqs[i].imgOffset else off + length
      invariant Shows(img, off, buf)
    {
      var piece := ReadObject(img, reqs[i]);
      assert i + 1 < |reqs| ==> Adjacent(reqs, i);
      forall k | |buf| <= k < |buf + piece|
        ensures (buf + piece)[k] == View(img, off + k)
      {
        assert (buf + piece)[k] == piece[k - |buf|];
      }
      buf := buf + piece;
      i := i + 1;
    }
  }
}
