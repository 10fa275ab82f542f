// In-place row reversal of an I420 buffer for bottom-up sources.
module VerticalFlip {
  import opened Basics
  import opened Yuv

  function RowOf(stride: nat, i: nat): nat {
    if stride == 0 then 0 else i / stride
  }

  lemma InRow(stride: nat, i: nat, r: nat)
    requires stride > 0
    ensures RowOf(stride, i) == r <==> r * stride <= i < r * stride + stride
  {
    if r * stride <= i < r * stride + stride {
      QuotientUnique(i, stride, r, i - r * stride);
    }
    assert i / stride * stride + i % stride == i;
  }

  lemma MirrorRow(stride: nat, rows: nat, i: nat)
    requires i < stride * rows
    ensures var r := RowOf(stride, i); var j := i + (rows - 1 - 2 * r) * stride;
      r < rows && 0 <= j < stride * rows && RowOf(stride, j) == rows - 1 - r
  {
    assert stride == 0 ==> stride * rows == 0;
    var r := RowOf(stride, i);
    InRow(stride, i, r);
    assert r >= rows ==> r * stride >= rows * stride;
    var s := rows - 1 - r;
    var j := i + (rows - 1 - 2 * r) * stride;
    assert (rows - 1 - 2 * r) * stride == s * stride - r * stride;
    assert s * stride + stride == (s + 1) * stride <= rows * stride;
    InRow(stride, j, s);
  }

  // Where entry i of a plane of rows x stride comes from when its rows are reversed.
  function Mirror(stride: nat, rows: nat, i: nat): (j: nat)
    requires i < stride * rows
    ensures j < stride * rows
  {
    MirrorRow(stride, rows, i);
    i + (rows - 1 - 2 * RowOf(stride, i)) * stride
  }

  // copy(plane[at:at+len(s)], s)
  method CopyRow(plane: array<Byte>, at: nat, s: seq<Byte>)
    requires at + |s| <= plane.Length
    modifies plane
    ensures plane[..] == old(plane[..])[..at] + s + old(plane[..])[at + |s|..]
  {
    ghost var was := plane[..];
    for i := 0 to |s|
      invariant plane[..] == was[..at] + s[..i] + was[at + i..]
    {
      plane[at + i] := s[i];
    }
  }

  // Rows above top and below bot have been exchanged, the rest is as it was.
  ghost predicate Flipping(was: seq<Byte>, now: seq<Byte>, from: nat, stride: nat, rows: nat, top: int, bot: int)
    requires from + stride * rows <= |was| == |now|
  {
    && (forall i :: 0 <= i < |was| && !(from <= i < from + stride * rows) ==> now[i] == was[i])
    && (forall i :: 0 <= i < stride * rows ==>
         var r := RowOf(stride, i);
         now[from + i] == was[from + if r < top || r > bot then Mirror(stride, rows, i) else i])
  }

  // before with the stretches of n entries at t and b exchanged
  ghost function Exchanged(before: seq<Byte>, t: nat, b: nat, n: nat): seq<Byte>
    requires t + n <= b && b + n <= |before|
  {
    before[..t] + before[b..b + n] + before[t + n..b] + before[t..t + n] + before[b + n..]
  }

  function RowStart(stride: nat, r: nat): nat {
    r * stride
  }

  lemma Scale(a: nat, b: nat, c: nat)
    requires a <= b
    ensures a * c <= b * c
  {
  }

  lemma RowSpan(stride: nat, rows: nat, top: nat, bot: nat)
    requires top < bot < rows
    ensures RowStart(stride, top) + stride <= RowStart(stride, bot)
    ensures RowStart(stride, bot) + stride <= stride * rows
  {
    assert (top + 1) * stride == top * stride + stride && (bot + 1) * stride == bot * stride + stride;
    Scale(top + 1, bot, stride);
    Scale(bot + 1, rows, stride);
  }

  // Entry i of row r comes from the same column of row rows-1-r.
  lemma MirrorIs(stride: nat, rows: nat, i: nat, r: nat)
    requires i < stride * rows && r < rows
    ensures RowOf(stride, i) == r <==> RowStart(stride, r) <= i < RowStart(stride, r) + stride
    ensures RowOf(stride, i) == r ==>
      Mirror(stride, rows, i) == i + RowStart(stride, rows - 1 - r) - RowStart(stride, r)
  {
    assert stride == 0 ==> stride * rows == 0;
    InRow(stride, i, r);
    assert (rows - 1 - 2 * r) * stride == (rows - 1 - r) * stride - r * stride;
  }

  lemma ExchangedSize(before: seq<Byte>, t: nat, b: nat, n: nat)
    requires t + n <= b && b + n <= |before|
    ensures |Exchanged(before, t, b, n)| == |before|
  {
  }

  // Entry j of the buffer after the exchange, in terms of the one before.
  lemma ExchangedAt(before: seq<Byte>, t: nat, b: nat, n: nat, j: nat)
    requires t + n <= b && b + n <= |before| && j < |before|
    ensures |Exchanged(before, t, b, n)| == |before|
    ensures Exchanged(before, t, b, n)[j] ==
            before[if t <= j < t + n then j + (b - t) else if b <= j < b + n then j - (b - t) else j]
  {
  }

  lemma FlippingAt(was: seq<Byte>, now: seq<Byte>, from: nat, stride: nat, rows: nat, top: int, bot: int, i: nat)
    requires from + stride * rows <= |was| == |now| && i < stride * rows
    requires Flipping(was, now, from, stride, rows, top, bot)
    ensures var r := RowOf(stride, i);
      now[from + i] == was[from + if r < top || r > bot then Mirror(stride, rows, i) else i]
  {
  }

  lemma SwapAt(was: seq<Byte>, before: seq<Byte>, from: nat, stride: nat, rows: nat, top: nat, i: nat)
    requires from + stride * rows <= |was| == |before| && i < stride * rows
    requires top < rows - 1 - top && Flipping(was, before, from, stride, rows, top, rows - 1 - top)
    ensures var bot := rows - 1 - top; var t0, b0, r := RowStart(stride, top), RowStart(stride, bot), RowOf(stride, i);
      t0 + stride <= b0 && b0 + stride <= stride * rows &&
      |Exchanged(before, from + t0, from + b0, stride)| == |before| &&
      Exchanged(before, from + t0, from + b0, stride)[from + i]
        == was[from + if r < top + 1 || r > bot - 1 then Mirror(stride, rows, i) else i]
  {
    hide RowOf, Mirror, RowStart, Exchanged, Flipping;
    var bot := rows - 1 - top;
    var t0, b0, r := RowStart(stride, top), RowStart(stride, bot), RowOf(stride, i);
    RowSpan(stride, rows, top, bot);
    ExchangedSize(before, from + t0, from + b0, stride);
    ExchangedAt(before, from + t0, from + b0, stride, from + i);
    MirrorIs(stride, rows, i, top);
    MirrorIs(stride, rows, i, bot);
    var j := if r == top then i + (b0 - t0) else if r == bot then i - (b0 - t0) else i;
    MirrorIs(stride, rows, j, bot);
    MirrorIs(stride, rows, j, top);
    FlippingAt(was, before, from, stride, rows, top, bot, j);
  }

  lemma SwapRows(was: seq<Byte>, before: seq<Byte>, from: nat, stride: nat, rows: nat, top: nat)
    requires from + stride * rows <= |was| == |before|
    requires top < rows - 1 - top && Flipping(was, before, from, stride, rows, top, rows - 1 - top)
    ensures var t0, b0 := RowStart(stride, top), RowStart(stride, rows - 1 - top);
      t0 + stride <= b0 && b0 + stride <= stride * rows &&
      |Exchanged(before, from + t0, from + b0, stride)| == |was| &&
      Flipping(was, Exchanged(before, from + t0, from + b0, stride), from, stride, rows, top + 1, rows - 2 - top)
  {
    hide RowOf, Mirror, RowStart, Exchanged;
    RowSpan(stride, rows, top, rows - 1 - top);
    var t0, b0, size := RowStart(stride, top), RowStart(stride, rows - 1 - top), stride * rows;
    var now := Exchanged(before, from + t0, from + b0, stride);
    ExchangedSize(before, from + t0, from + b0, stride);
    forall i | 0 <= i < size
      ensures var r := RowOf(stride, i);
        now[from + i] == was[from + if r < top + 1 || r > rows - 2 - top then Mirror(stride, rows, i) else i]
    {
      SwapAt(was, before, from, stride, rows, top, i);
    }
    forall i | 0 <= i < |was| && !(from <= i < from + size) ensures now[i] == was[i] {
      ExchangedAt(before, from + t0, from + b0, stride, i);
    }
  }

  // was with the row at b copied over the one at t, then the saved row copied over b
  lemma CopiedBoth(was: seq<Byte>, t: nat, b: nat, n: nat)
    requires t + n <= b && b + n <= |was|
    ensures var m := was[..t] + was[b..b + n] + was[t + n..];
      |m| == |was| && m[..b] + was[t..t + n] + m[b + n..] == Exchanged(was, t, b, n)
  {
    var m := was[..t] + was[b..b + n] + was[t + n..];
    assert m[..b] == was[..t] + was[b..b + n] + was[t + n..b];
    assert m[b + n..] == was[b + n..];
  }

  // The body of the loop: three copies through tmp.
  method ExchangeRows(plane: array<Byte>, t: nat, b: nat, stride: nat)
    requires t + stride <= b && b + stride <= plane.Length
    modifies plane
    ensures plane[..] == Exchanged(old(plane[..]), t, b, stride)
  {
    hide Exchanged;
    CopiedBoth(plane[..], t, b, stride);
    var tmp := plane[t..t + stride];
    CopyRow(plane, t, plane[b..b + stride]);
    CopyRow(plane, b, tmp);
  }

  // Nothing is exchanged at the start; at the end at most a middle row, its own mirror image, is left.
  lemma FlippingEnds(was: seq<Byte>, now: seq<Byte>, from: nat, stride: nat, rows: nat, top: nat, bot: int)
    requires from + stride * rows <= |was| == |now|
    requires bot == rows - 1 - top
    ensures top == 0 && now == was ==> Flipping(was, now, from, stride, rows, 0, rows - 1)
    ensures top >= bot && Flipping(was, now, from, stride, rows, top, bot) ==>
      Flipping(was, now, from, stride, rows, rows, -1)
  {
    forall i | 0 <= i < stride * rows
      ensures RowOf(stride, i) < rows
      ensures top == bot && RowOf(stride, i) == top ==> Mirror(stride, rows, i) == i
    {
      MirrorRow(stride, rows, i);
      assert 2 * top == rows - 1 ==> (rows - 1 - 2 * top) * stride == 0;
    }
  }

  method FlipPlane(plane: array<Byte>, from: nat, stride: nat, rows: nat)
    requires from + stride * rows <= plane.Length
    modifies plane
    ensures Flipping(old(plane[..]), plane[..], from, stride, rows, rows, -1)
  {
    hide RowOf, Mirror, Flipping, Exchanged;
    ghost var was := plane[..];
    var top, bot := 0, rows - 1;
    FlippingEnds(was, was, from, stride, rows, top, bot);
    while top < bot
      invariant 0 <= top && bot == rows - 1 - top && top <= bot + 2
      invariant Flipping(was, plane[..], from, stride, rows, top, bot)
    {
      SwapRows(was, plane[..], from, stride, rows, top);
      ExchangeRows(plane, from + RowStart(stride, top), from + RowStart(stride, bot), stride);
      top, bot := top + 1, bot - 1;
    }
    FlippingEnds(was, plane[..], from, stride, rows, top, bot);
  }

  // ---- the three planes ----

  // The cell in the same column of the row that mirrors it in its own plane.
  function FlipCell(h: nat, c: Cell): Cell
    requires c.y < if c.Y? then h else Half(h)
  {
    match c
    case Y(x, y) => Y(x, h - 1 - y)
    case U(x, y) => U(x, Half(h) - 1 - y)
    case V(x, y) => V(x, Half(h) - 1 - y)
  }

  // Where entry i of a flipped buffer comes from.
  function FlipPos(w: nat, h: nat, i: nat): (j: nat)
    ensures if i < YuvBufSize(w, h) then j < YuvBufSize(w, h) else j == i
  {
    if i < YuvBufSize(w, h) then
      CellThenPos(w, h, i);
      PosThenCell(w, h, FlipCell(h, CellAt(w, h, i)));
      Pos(w, h, FlipCell(h, CellAt(w, h, i)))
    else i
  }

  function Flipped(w: nat, h: nat, s: seq<Byte>): (r: seq<Byte>)
    requires |s| >= YuvBufSize(w, h)
    ensures |r| == |s|
    ensures forall i :: 0 <= i < |s| ==> r[i] == s[FlipPos(w, h, i)]
  {
    seq(|s|, i requires 0 <= i < |s| => s[FlipPos(w, h, i)])
  }

  lemma FlipPosTwice(w: nat, h: nat, i: nat)
    requires i < YuvBufSize(w, h)
    ensures FlipPos(w, h, FlipPos(w, h, i)) == i
  {
    hide CellAt, Pos, YuvBufSize;
    CellThenPos(w, h, i);
    PosThenCell(w, h, FlipCell(h, CellAt(w, h, i)));
  }

  // Flipping is its own inverse.
  lemma FlippedTwice(w: nat, h: nat, s: seq<Byte>)
    requires |s| >= YuvBufSize(w, h)
    ensures Flipped(w, h, Flipped(w, h, s)) == s
  {
    hide FlipPos, YuvBufSize;
    var once := Flipped(w, h, s);
    var twice := Flipped(w, h, once);
    forall i | 0 <= i < |s| ensures twice[i] == s[i] {
      if i < YuvBufSize(w, h) { FlipPosTwice(w, h, i); }
    }
  }

  lemma MirrorCoords(w: nat, h: nat, i: nat)
    requires i < w * h
    ensures w > 0 && i / w < h && Mirror(w, h, i) == (h - 1 - i / w) * w + i % w
  {
    RowMajorInverse(w, h, i);
    assert (h - 1 - 2 * (i / w)) * w == (h - 1 - i / w) * w - i / w * w;
  }

  // Mirroring a plane is what FlipPos does on its part of the buffer.
  lemma FlipPosIsMirror(w: nat, h: nat, i: nat)
    requires i < YuvBufSize(w, h)
    ensures var n, cw, ch := w * h, Half(w), Half(h);
      FlipPos(w, h, i) ==
        if i < n then Mirror(w, h, i)
        else if i < n + cw * ch then n + Mirror(cw, ch, i - n)
        else n + cw * ch + Mirror(cw, ch, i - n - cw * ch)
  {
    var n, cw, ch := w * h, Half(w), Half(h);
    CellThenPos(w, h, i);
    if i < n {
      MirrorCoords(w, h, i);
    } else if i < n + cw * ch {
      MirrorCoords(cw, ch, i - n);
    } else {
      MirrorCoords(cw, ch, i - n - cw * ch);
    }
  }

  // Entry i after one plane of the buffer has been flipped.
  function PlanePos(from: nat, stride: nat, rows: nat, i: nat): nat {
    if from <= i < from + stride * rows then from + Mirror(stride, rows, i - from) else i
  }

  ghost predicate PlaneFlipped(was: seq<Byte>, now: seq<Byte>, from: nat, stride: nat, rows: nat) {
    |now| == |was| && forall i :: 0 <= i < |was| ==>
      PlanePos(from, stride, rows, i) < |was| && now[i] == was[PlanePos(from, stride, rows, i)]
  }

  lemma FlippedPlane(was: seq<Byte>, now: seq<Byte>, from: nat, stride: nat, rows: nat)
    requires from + stride * rows <= |was| == |now|
    requires Flipping(was, now, from, stride, rows, rows, -1)
    ensures PlaneFlipped(was, now, from, stride, rows)
  {
    hide Mirror, RowOf;
    forall i | 0 <= i < |was|
      ensures PlanePos(from, stride, rows, i) < |was| && now[i] == was[PlanePos(from, stride, rows, i)]
    {
      if from <= i < from + stride * rows {
        MirrorRow(stride, rows, i - from);
        assert i == from + (i - from);
      }
    }
  }

  lemma ThreePositions(w: nat, h: nat, i: nat)
    ensures var n, cw, ch := w * h, Half(w), Half(h);
      var k := PlanePos(n + cw * ch, cw, ch, i);
      var j := PlanePos(n, cw, ch, k);
      FlipPos(w, h, i) == PlanePos(0, w, h, j)
  {
    hide FlipPos, Mirror, Half;
    if i < YuvBufSize(w, h) { FlipPosIsMirror(w, h, i); }
  }

  lemma ThreePlanes(w: nat, h: nat, a: seq<Byte>, b: seq<Byte>, c: seq<Byte>, d: seq<Byte>)
    requires YuvBufSize(w, h) <= |a| == |b| == |c| == |d|
    requires PlaneFlipped(a, b, 0, w, h)
    requires PlaneFlipped(b, c, w * h, Half(w), Half(h))
    requires PlaneFlipped(c, d, w * h + Half(w) * Half(h), Half(w), Half(h))
    ensures d == Flipped(w, h, a)
  {
    hide FlipPos, PlanePos, Half, YuvBufSize;
    forall i | 0 <= i < |a| ensures d[i] == a[FlipPos(w, h, i)] {
      ThreePositions(w, h, i);
    }
  }

  method FlipI420(yuv: array<Byte>, w: nat, h: nat)
    requires yuv.Length >= YuvBufSize(w, h)
    modifies yuv
    ensures yuv[..] == Flipped(w, h, old(yuv[..]))
  {
    hide FlipPos, Flipping, PlaneFlipped;
    ghost var a := yuv[..];
    var ySize, uvW, uvH := w * h, (w + 1) / 2, (h + 1) / 2;
    FlipPlane(yuv, 0, w, h);
    ghost var b := yuv[..];
    FlippedPlane(a, b, 0, w, h);
    FlipPlane(yuv, ySize, uvW, uvH);
    ghost var c := yuv[..];
    FlippedPlane(b, c, ySize, uvW, uvH);
    FlipPlane(yuv, ySize + uvW * uvH, uvW, uvH);
    FlippedPlane(c, yuv[..], ySize + uvW * uvH, uvW, uvH);
    ThreePlanes(w, h, a, b, c, yuv[..]);
  }

  // The luma of (x, y) is that of the mirrored row, and so is the chroma of block (cx, cy), for odd dimensions too.
  lemma FlippedLuma(w: nat, h: nat, s: seq<Byte>, x: nat, y: nat, i: nat, i': nat)
    requires |s| >= YuvBufSize(w, h) && x < w && y < h && i == y * w + x && i' == (h - 1 - y) * w + x
    ensures i < |s| && i' < |s| && Flipped(w, h, s)[i] == s[i']
  {
    hide CellAt, YuvBufSize;
    PosThenCell(w, h, Y(x, y));
    PosThenCell(w, h, Y(x, h - 1 - y));
  }

  lemma FlippedChroma(w: nat, h: nat, s: seq<Byte>, cx: nat, cy: nat, i: nat, j: nat, i': nat, j': nat)
    requires |s| >= YuvBufSize(w, h) && cy < (h + 1) / 2
    requires ChromaAt(w, h, cx, cy, i, j) && ChromaAt(w, h, cx, (h + 1) / 2 - 1 - cy, i', j')
    ensures i < |s| && j < |s| && i' < |s| && j' < |s|
    ensures Flipped(w, h, s)[i] == s[i'] && Flipped(w, h, s)[j] == s[j']
  {
    hide CellAt, YuvBufSize, Pos;
    ChromaPlaces(w, h, cx, cy);
    ChromaPlaces(w, h, cx, (h + 1) / 2 - 1 - cy);
  }

  // ---- flipping the output against flipping the source ----

  // g has the rows of f, bottom to top.
  ghost predicate RowsReversed(f: Source, g: Source) {
    && g.w == f.w && g.h == f.h && g.stride == f.stride && g.pf == f.pf
    && HoldsLastPixel(f) && HoldsLastPixel(g)
    && forall x, y :: 0 <= x < f.w && 0 <= y < f.h ==>
         Present(g, x, y) && Present(f, x, f.h - 1 - y) && At(g, x, y) == At(f, x, f.h - 1 - y)
  }

  lemma PlusReversed(f: Source, g: Source, a: Acc, x: nat, y: nat)
    requires RowsReversed(f, g) && y < f.h
    ensures Plus(g, a, x, y) == Plus(f, a, x, f.h - 1 - y)
  {
  }

  lemma PlusCommutes(f: Source, a: Acc, x0: nat, y0: nat, x1: nat, y1: nat)
    ensures Plus(f, Plus(f, a, x0, y0), x1, y1) == Plus(f, Plus(f, a, x1, y1), x0, y0)
  {
    hide Present, At, Cb, Cr;
  }

  predicate EvenOrOne(h: nat) {
    h % 2 == 0 || h == 1
  }

  lemma OneRow(f: Source, g: Source, cx: nat)
    requires RowsReversed(f, g) && f.h == 1
    ensures BlockSum(g, cx, 0) == BlockSum(f, cx, 0)
  {
    hide Cb, Cr;
  }

  // With an even height a block of the reversed frame has the pixels of the mirrored block.
  lemma BlockReversed(f: Source, g: Source, cx: nat, cy: nat)
    requires RowsReversed(f, g) && EvenOrOne(f.h) && cy < Half(f.h)
    ensures BlockSum(g, cx, cy) == BlockSum(f, cx, Half(f.h) - 1 - cy)
  {
    hide Plus, RowsReversed;
    if f.h == 1 {
      OneRow(f, g, cx);
      return;
    }
    var x, y, z := 2 * cx, 2 * cy, 2 * (Half(f.h) - 1 - cy);
    assert f.h - 1 - y == z + 1 && f.h - 1 - (y + 1) == z;
    var o := Acc(0, 0, 0);
    var g1 := Plus(g, o, x, y);
    var g2 := Plus(g, g1, x + 1, y);
    var g3 := Plus(g, g2, x, y + 1);
    PlusReversed(f, g, o, x, y);
    PlusReversed(f, g, g1, x + 1, y);
    PlusReversed(f, g, g2, x, y + 1);
    PlusReversed(f, g, g3, x + 1, y + 1);
    // the two rows of the block change places
    PlusCommutes(f, Plus(f, o, x, z + 1), x + 1, z + 1, x, z);
    PlusCommutes(f, o, x, z + 1, x, z);
    PlusCommutes(f, Plus(f, Plus(f, o, x, z), x, z + 1), x + 1, z + 1, x + 1, z);
    PlusCommutes(f, Plus(f, o, x, z), x, z + 1, x + 1, z);
  }

  lemma ValueReversed(f: Source, g: Source, c: Cell, was: Byte, was': Byte)
    requires RowsReversed(f, g) && EvenOrOne(f.h) && InFrame(f.w, f.h, c)
    ensures Value(f, FlipCell(f.h, c), was) == Value(g, c, was')
  {
    hide BlockSum;
    CompleteIff(f);
    CompleteIff(g);
    assert Stored(f, FlipCell(f.h, c)) && Stored(g, c);
    if !c.Y? { BlockReversed(f, g, c.x, c.y); }
  }

  lemma SameShape(f: Source, g: Source)
    requires RowsReversed(f, g)
    ensures g.w == f.w && g.h == f.h
  {
  }

  lemma Mirrored(w: nat, h: nat, i: nat)
    requires i < YuvBufSize(w, h)
    ensures InFrame(w, h, CellAt(w, h, i)) && FlipPos(w, h, i) < YuvBufSize(w, h)
    ensures CellAt(w, h, FlipPos(w, h, i)) == FlipCell(h, CellAt(w, h, i))
  {
    hide CellAt, Pos, YuvBufSize;
    CellThenPos(w, h, i);
    PosThenCell(w, h, FlipCell(h, CellAt(w, h, i)));
  }

  // For an even height and any width, flipping the converted frame is converting the flipped frame.
  lemma FlipCommutes(f: Source, g: Source, was: seq<Byte>, was': seq<Byte>)
    requires RowsReversed(f, g) && EvenOrOne(f.h)
    requires |was| >= YuvBufSize(f.w, f.h) && |was'| >= YuvBufSize(f.w, f.h)
    ensures Flipped(f.w, f.h, Converted(f, was))[..YuvBufSize(f.w, f.h)] == Converted(g, was')[..YuvBufSize(f.w, f.h)]
  {
    hide YuvBufSize, CellAt, Value, RowsReversed, Pos, InFrame;
    var w, h, n := f.w, f.h, YuvBufSize(f.w, f.h);
    SameShape(f, g);
    var a, b := Flipped(w, h, Converted(f, was)), Converted(g, was');
    forall i | 0 <= i < n ensures a[i] == b[i] {
      CellThenPos(w, h, i);
      var c := CellAt(w, h, i);
      Mirrored(w, h, i);
      ValueReversed(f, g, c, was[FlipPos(w, h, i)], was'[i]);
    }
  }

  // The two orders agree on every pair of frames of these dimensions.
  ghost predicate Commutes(w: nat, h: nat) {
    forall f: Source, g: Source, was: seq<Byte>, was': seq<Byte> ::
      RowsReversed(f, g) && f.w == g.w == w && f.h == g.h == h && |was| == |was'| == YuvBufSize(w, h) ==>
        Flipped(w, h, Converted(f, was)) == Converted(g, was')
  }

  // A frame that is black except for one blue row.
  function BlueRow(w: nat, h: nat, row: nat): (s: seq<Byte>)
    requires w > 0
    ensures |s| == h * (4 * w)
  {
    seq(h * (4 * w), i requires 0 <= i < h * (4 * w) => if i % 4 == 0 && i / (4 * w) == row then 255 else 0)
  }

  lemma FourTimes(y: nat, w: nat)
    ensures y * (4 * w) == 4 * (y * w)
  {
  }

  lemma BlueRowByte(w: nat, h: nat, row: nat, x: nat, y: nat, k: nat)
    requires x < w && y < h && k < 4
    ensures y * (4 * w) + x * 4 + k < h * (4 * w)
    ensures BlueRow(w, h, row)[y * (4 * w) + x * 4 + k] == if k == 0 && y == row then 255 else 0
  {
    var i := y * (4 * w) + x * 4 + k;
    assert (y + 1) * (4 * w) == y * (4 * w) + 4 * w;
    Scale(y + 1, h, 4 * w);
    QuotientUnique(i, 4 * w, y, x * 4 + k);
    FourTimes(y, w);
    QuotientUnique(i, 4, y * w + x, k);
  }

  function BlueFrame(w: nat, h: nat, row: nat): Source
    requires w > 0
  {
    Source(BlueRow(w, h, row), 4 * w, Argb, w, h)
  }

  lemma BlueRowAt(w: nat, h: nat, row: nat, x: nat, y: nat)
    requires x < w && y < h
    ensures Present(BlueFrame(w, h, row), x, y)
    ensures At(BlueFrame(w, h, row), x, y) == Rgb(0, 0, if y == row then 255 else 0)
  {
    hide BlueRow;
    BlueRowByte(w, h, row, x, y, 0);
    BlueRowByte(w, h, row, x, y, 1);
    BlueRowByte(w, h, row, x, y, 2);
    BlueRowByte(w, h, row, x, y, 3);
  }

  // What a pixel of such a frame adds to the sum of its block.
  lemma BluePlus(w: nat, h: nat, row: nat, a: Acc, x: nat, y: nat)
    requires w > 0
    ensures Plus(BlueFrame(w, h, row), a, x, y).n == a.n + if x < w && y < h then 1 else 0
    ensures Plus(BlueFrame(w, h, row), a, x, y).u == a.u + if x < w && y < h then if y == row then 240 else 128 else 0
  {
    hide At, BlueRow, Readable;
    if x < w && y < h { BlueRowAt(w, h, row, x, y); }
  }

  lemma BlueBlock(w: nat, h: nat, row: nat, y: nat)
    requires w > 0 && 2 * y < h && row < h
    ensures var a := BlockSum(BlueFrame(w, h, row), 0, y);
      a.n > 0 && a.u == if row / 2 != y then 128 * a.n else if 2 * y + 1 < h then 184 * a.n else 240 * a.n
  {
    hide Plus, BlueFrame;
    var f := BlueFrame(w, h, row);
    var o := Acc(0, 0, 0);
    var a1 := Plus(f, o, 0, 2 * y);
    var a2 := Plus(f, a1, 1, 2 * y);
    var a3 := Plus(f, a2, 0, 2 * y + 1);
    BluePlus(w, h, row, o, 0, 2 * y);
    BluePlus(w, h, row, a1, 1, 2 * y);
    BluePlus(w, h, row, a2, 0, 2 * y + 1);
    BluePlus(w, h, row, a3, 1, 2 * y + 1);
  }

  lemma LastHeld(w: nat, h: nat, row: nat)
    requires w > 0 && h > 0
    ensures HoldsLastPixel(BlueFrame(w, h, row))
  {
    hide BlueRow;
    BlueRowAt(w, h, row, w - 1, h - 1);
  }

  lemma BlueReversed(w: nat, h: nat)
    requires w > 0 && h >= 3
    ensures RowsReversed(BlueFrame(w, h, h - 2), BlueFrame(w, h, 1))
  {
    hide BlueRow, Present, At;
    var f, g := BlueFrame(w, h, h - 2), BlueFrame(w, h, 1);
    forall x, y | 0 <= x < w && 0 <= y < h
      ensures Present(g, x, y) && Present(f, x, h - 1 - y) && At(g, x, y) == At(f, x, h - 1 - y)
    {
      BlueRowAt(w, h, h - 2, x, h - 1 - y);
      BlueRowAt(w, h, 1, x, y);
    }
    LastHeld(w, h, h - 2);
    LastHeld(w, h, 1);
  }

  lemma MeanIs(a: Acc, m: int)
    requires a.n > 0 && a.u == m * a.n
    ensures a.u / a.n == m
  {
    MeanWithin(a.u, a.n, m, m);
  }

  // Below a blue row h-2 the last row is alone in its block; once the rows are reversed it shares one with the
  // blue row.
  lemma Disagreement(w: nat, h: nat, was: seq<Byte>)
    requires w > 0 && h >= 3 && h % 2 == 1 && |was| == YuvBufSize(w, h)
    ensures Flipped(w, h, Converted(BlueFrame(w, h, h - 2), was)) != Converted(BlueFrame(w, h, 1), was)
  {
    hide FlipPos, CellAt, Pos, BlockSum, BlueRow, YuvBufSize;
    var f, g := BlueFrame(w, h, h - 2), BlueFrame(w, h, 1);
    var i := Pos(w, h, U(0, 0));
    PosThenCell(w, h, U(0, 0));
    Mirrored(w, h, i);
    BlueBlock(w, h, h - 2, Half(h) - 1);
    BlueBlock(w, h, 1, 0);
    MeanIs(BlockSum(f, 0, Half(h) - 1), 128);
    MeanIs(BlockSum(g, 0, 0), 184);
    assert Flipped(w, h, Converted(f, was))[i] == 128 && Converted(g, was)[i] == 184;
  }

  lemma WholeBuffer(f: Source, g: Source, was: seq<Byte>, was': seq<Byte>)
    requires RowsReversed(f, g) && (f.w == 0 || EvenOrOne(f.h))
    requires |was| == |was'| == YuvBufSize(f.w, f.h)
    ensures Flipped(f.w, f.h, Converted(f, was)) == Converted(g, was')
  {
    hide FlipPos, CellAt, Value;
    var a, b, n := Flipped(f.w, f.h, Converted(f, was)), Converted(g, was'), YuvBufSize(f.w, f.h);
    if f.w == 0 {
      assert n == 0;
    } else {
      FlipCommutes(f, g, was, was');
      assert a == a[..n] && b == b[..n];
    }
  }

  // The two orders agree on all frames of exactly these dimensions.
  lemma CommutesIff(w: nat, h: nat)
    ensures Commutes(w, h) <==> w == 0 || h % 2 == 0 || h == 1
  {
    hide Flipped, Converted, YuvBufSize, RowsReversed;
    if w == 0 || EvenOrOne(h) {
      forall f: Source, g: Source, was: seq<Byte>, was': seq<Byte> |
        RowsReversed(f, g) && f.w == g.w == w && f.h == g.h == h && |was| == |was'| == YuvBufSize(w, h)
        ensures Flipped(w, h, Converted(f, was)) == Converted(g, was')
      {
        WholeBuffer(f, g, was, was');
      }
    } else {
      BlueReversed(w, h);
      Disagreement(w, h, seq(YuvBufSize(w, h), _ => 0));
    }
  }
}
