/** The plane-packing loops of decoder/decoder.cpp: three strided planes into one flat buffer. */
module Decoder {
  import opened Algebra
  import opened Bytes

  /** A plane of `rows` rows of `width` samples, `linesize` octets apart. */
  datatype Plane = Plane(data: seq<byte>, linesize: nat, width: nat, rows: nat) {
    /** Every row lies inside the plane's memory. */
    ghost predicate Valid() {
      forall i :: 0 <= i < rows ==> i * linesize + width <= |data|
    }

    function Row(i: nat): (r: seq<byte>)
      requires Valid() && i < rows
      ensures |r| == width
    {
      RowInside(this, i);
      data[i * linesize..i * linesize + width]
    }
  }

  lemma RowInside(p: Plane, i: nat)
    requires p.Valid() && i < p.rows
    ensures 0 <= i * p.linesize && i * p.linesize + p.width <= |p.data|
  {
    MulMono(0, i, p.linesize);
  }

  /** The first n rows without the gaps between them. */
  function PackedTo(p: Plane, n: nat): (s: seq<byte>)
    requires p.Valid() && n <= p.rows
    ensures |s| == n * p.width
  {
    if n == 0 then []
    else
      assert n * p.width == (n - 1) * p.width + p.width;
      PackedTo(p, n - 1) + p.Row(n - 1)
  }

  function Packed(p: Plane): seq<byte>
    requires p.Valid()
  {
    PackedTo(p, p.rows)
  }

  lemma PackedSize(p: Plane)
    requires p.Valid()
    ensures |Packed(p)| == p.rows * p.width
  {
  }

  /** Sample x of row i stands at the row-major index. */
  lemma {:induction false} PackedAt(p: Plane, n: nat, i: nat, x: nat)
    requires p.Valid() && i < n <= p.rows && x < p.width
    ensures 0 <= i * p.width + x < n * p.width && 0 <= i * p.linesize + x < |p.data|
    ensures PackedTo(p, n)[i * p.width + x] == p.data[i * p.linesize + x]
    decreases n
  {
    RowInside(p, i);
    RowMajor(i, n, x, p.width);
    if i == n - 1 {
      assert PackedTo(p, n)[(n - 1) * p.width..] == p.Row(i);
    } else {
      PackedAt(p, n - 1, i, x);
    }
  }

  lemma RowMajor(i: nat, n: nat, x: nat, width: nat)
    requires i < n && x < width
    ensures 0 <= i * width + x < n * width
  {
    MulMono(i + 1, n, width);
    assert (i + 1) * width == i * width + width;
  }

  /** `before` with `s` written at `at`. */
  function Overwritten(before: seq<byte>, at: nat, s: seq<byte>): seq<byte>
    requires at + |s| <= |before|
  {
    before[..at] + s + before[at + |s|..]
  }

  lemma OverwriteBehind(before: seq<byte>, at: nat, s: seq<byte>, t: seq<byte>)
    requires at + |s| + |t| <= |before|
    ensures |Overwritten(before, at, s)| == |before|
    ensures Overwritten(Overwritten(before, at, s), at + |s|, t) == Overwritten(before, at, s + t)
  {
  }

  lemma OverwriteNothing(before: seq<byte>, at: nat)
    requires at <= |before|
    ensures Overwritten(before, at, []) == before
  {
  }

  /** One packing loop: the rows go to `a`, and nothing else in the buffer changes. */
  method PackPlane(buf: array<byte>, a: nat, p: Plane) returns (a': nat)
    requires p.Valid() && a + p.rows * p.width <= buf.Length
    modifies buf
    ensures a' == a + p.rows * p.width
    ensures buf[..] == Overwritten(old(buf[..]), a, Packed(p))
  {
    hide Overwritten, Plane.Valid, Plane.Row;
    ghost var before := buf[..];
    OverwriteNothing(before, a);
    a' := a;
    for i := 0 to p.rows
      invariant a' == a + i * p.width && a' <= buf.Length
      invariant buf[..] == Overwritten(before, a, PackedTo(p, i))
    {
      NextRow(i, p.rows, p.width);
      OverwriteBehind(before, a, PackedTo(p, i), p.Row(i));
      CopyRow(buf, a', p.Row(i));
      a' := a' + p.width;
    }
  }

  lemma NextRow(i: nat, rows: nat, width: nat)
    requires i < rows
    ensures i * width + width == (i + 1) * width <= rows * width
  {
    MulMono(i + 1, rows, width);
  }

  /** memcpy of one row */
  method CopyRow(buf: array<byte>, at: nat, row: seq<byte>)
    requires at + |row| <= buf.Length
    modifies buf
    ensures buf[..] == Overwritten(old(buf[..]), at, row)
  {
    forall x | 0 <= x < |row| {
      buf[at + x] := row[x];
    }
  }

  /** The octets of the three packed planes of a frame. */
  function FrameSize(width: nat, height: nat): int {
    width * height + width / 2 * (height / 2) + width / 2 * (height / 2)
  }

  /** The buffer: one and a half octets per pixel of the codec context. */
  function BufferSize(ctxWidth: nat, ctxHeight: nat): (size: nat) {
    MulMono(0, ctxHeight, ctxWidth);
    ctxHeight * ctxWidth * 3 / 2
  }

  /** Half the pixels more than the pixels, an odd octet dropped. */
  lemma BufferSizeIs(ctxWidth: nat, ctxHeight: nat)
    ensures var pixels, size := ctxHeight * ctxWidth, BufferSize(ctxWidth, ctxHeight);
            0 <= 2 * size <= 3 * pixels <= 2 * size + 1
  {
    MulMono(0, ctxHeight, ctxWidth);
  }

  /** A frame with no more pixels than the codec context fits the buffer. */
  lemma PlanesFit(width: nat, height: nat, ctxWidth: nat, ctxHeight: nat)
    requires height * width <= ctxHeight * ctxWidth
    ensures 0 <= FrameSize(width, height) <= BufferSize(ctxWidth, ctxHeight)
  {
    Commutes(width, height);
    QuarterPixels(width / 2, height / 2, width, height);
    HalfAgain(width * height, width / 2 * (height / 2), ctxHeight * ctxWidth);
  }

  lemma QuarterPixels(w: nat, h: nat, width: nat, height: nat)
    requires 2 * w <= width && 2 * h <= height
    ensures 0 <= 4 * (w * h) <= width * height
  {
    MulMono(0, w, h);
    MulMono(2 * w, width, 2 * h);
    MulMono(2 * h, height, width);
    assert 2 * w * (2 * h) == 4 * (w * h);
  }

  lemma HalfAgain(pixels: nat, chroma: nat, room: nat)
    requires 4 * chroma <= pixels <= room
    ensures pixels + chroma + chroma <= room * 3 / 2
  {
  }

  /** The frame as the decoder leaves it (YUV 4:2:0): chroma planes have half the width and height. */
  ghost predicate IsFrame(y: Plane, u: Plane, v: Plane, width: nat, height: nat) {
    && y.Valid() && u.Valid() && v.Valid()
    && y.width == width && y.rows == height
    && u.width == v.width == width / 2 && u.rows == v.rows == height / 2
  }

  /** The buffer, sized by the codec context, holds the three packed planes one behind the other. */
  method PackFrame(y: Plane, u: Plane, v: Plane, width: nat, height: nat, ctxWidth: nat, ctxHeight: nat)
    returns (buf: array<byte>)
    requires IsFrame(y, u, v, width, height) && FrameSize(width, height) <= BufferSize(ctxWidth, ctxHeight)
    ensures fresh(buf) && buf.Length == BufferSize(ctxWidth, ctxHeight)
    ensures Packed(y) + Packed(u) + Packed(v) <= buf[..]
  {
    hide Overwritten, Packed, Plane.Valid;
    Commutes(width, height);
    PackedSize(y);
    PackedSize(u);
    PackedSize(v);
    MulMono(0, ctxHeight, ctxWidth);
    var picSize := ctxHeight * ctxWidth;
    var newSize := picSize * 3 / 2;
    buf := new byte[newSize];
    ghost var before := buf[..];
    var a := PackPlane(buf, 0, y);
    OverwriteBehind(before, 0, Packed(y), Packed(u));
    a := PackPlane(buf, a, u);
    OverwriteBehind(before, 0, Packed(y) + Packed(u), Packed(v));
    a := PackPlane(buf, a, v);
    OverwrittenFront(before, Packed(y) + Packed(u) + Packed(v));
  }

  lemma OverwrittenFront(before: seq<byte>, s: seq<byte>)
    requires |s| <= |before|
    ensures s <= Overwritten(before, 0, s)
  {
  }

  lemma Commutes(width: nat, height: nat)
    ensures height * width == width * height && height / 2 * (width / 2) == width / 2 * (height / 2)
    ensures 0 <= width * height && 0 <= width / 2 * (height / 2)
  {
    MulMono(0, width, height);
    MulMono(0, width / 2, height / 2);
  }

  /** Where each sample of a plane stands in the packed planes, given what is packed in front of it. */
  lemma SampleAt(front: seq<byte>, p: Plane, back: seq<byte>, i: nat, x: nat)
    requires p.Valid() && i < p.rows && x < p.width
    ensures var at := |front| + (i * p.width + x);
            && |front| <= at < |front| + |Packed(p)|
            && 0 <= i * p.linesize + x < |p.data|
            && (front + Packed(p) + back)[at] == p.data[i * p.linesize + x]
  {
    hide Plane.Valid;
    PackedAt(p, p.rows, i, x);
  }

  /** Every luma sample and every chroma sample of the frame stands at its row-major index. */
  lemma FrameSamples(y: Plane, u: Plane, v: Plane, width: nat, height: nat, i: nat, x: nat)
    requires IsFrame(y, u, v, width, height) && i < height && x < width
    ensures var all := Packed(y) + Packed(u) + Packed(v);
            var chroma := height / 2 * (width / 2);
            && |all| == height * width + chroma + chroma
            && 0 <= i * width + x < |all| && 0 <= i * y.linesize + x < |y.data|
            && all[i * width + x] == y.data[i * y.linesize + x]
            && (i < height / 2 && x < width / 2 ==>
                  var at := height * width + (i * (width / 2) + x);
                  && 0 <= at < at + chroma < |all|
                  && 0 <= i * u.linesize + x < |u.data| && 0 <= i * v.linesize + x < |v.data|
                  && all[at] == u.data[i * u.linesize + x]
                  && all[at + chroma] == v.data[i * v.linesize + x])
  {
    hide Plane.Valid, Packed;
    PackedSize(y);
    PackedSize(u);
    PackedSize(v);
    var all := Packed(y) + Packed(u) + Packed(v);
    SampleAt([], y, Packed(u) + Packed(v), i, x);
    assert all == [] + Packed(y) + (Packed(u) + Packed(v));
    if i < height / 2 && x < width / 2 {
      SampleAt(Packed(y), u, Packed(v), i, x);
      SampleAt(Packed(y) + Packed(u), v, [], i, x);
      assert all == Packed(y) + Packed(u) + Packed(v) + [];
    }
  }
}
