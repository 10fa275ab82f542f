// RGBA to NV12 on the GPU: the two kernels, their launch grids, and their agreement with the CPU conversion.
module GpuNv12 {
  import opened Basics
  import opened Yuv

  function Area(w: nat, h: nat): nat {
    w * h
  }

  // The point of a w x h area that a row-major position stands for, and the other way round.
  lemma PointAt(w: nat, h: nat, i: nat)
    requires i < Area(w, h)
    ensures w > 0 && var (x, y) := Coords(w, i); x < w && y < h && RowIndex(w, x, y) == i
  {
    RowMajorInverse(w, h, i);
  }

  lemma PositionOf(w: nat, h: nat, x: nat, y: nat)
    requires x < w && y < h
    ensures RowIndex(w, x, y) < Area(w, h) && Coords(w, RowIndex(w, x, y)) == (x, y)
  {
    RowMajor(w, h, x, y);
  }

  // ---- 32-bit registers ----

  const WORD := 0x1_0000_0000

  type U32 = x: int | 0 <= x < 0x1_0000_0000

  // mad.lo.u32 and shl.b32 keep the low 32 bits.
  function MadLo(a: U32, b: U32, c: U32): U32 {
    (a * b + c) % WORD
  }

  function Shl(a: U32, bits: nat): U32
    requires bits <= 2
  {
    (if bits == 2 then 4 * a else if bits == 1 then 2 * a else a) % WORD
  }

  // ---- launch grids ----

  // One thread: its block, and its place in the 16 x 16 block.
  datatype Thread = Thread(blockX: nat, blockY: nat, tidX: nat, tidY: nat)

  // cuLaunchKernel starts ceil(w/16) x ceil(h/16) blocks.
  ghost predicate InGrid(t: Thread, w: nat, h: nat) {
    t.tidX < 16 && t.tidY < 16 && t.blockX < (w + 15) / 16 && t.blockY < (h + 15) / 16
  }

  function XOf(t: Thread): nat { t.blockX * 16 + t.tidX }

  function YOf(t: Thread): nat { t.blockY * 16 + t.tidY }

  function ThreadFor(x: nat, y: nat): Thread {
    Thread(x / 16, y / 16, x % 16, y % 16)
  }

  // A thread that gets past the bounds test.
  ghost predicate Active(t: Thread, w: nat, h: nat) {
    InGrid(t, w, h) && XOf(t) < w && YOf(t) < h
  }

  // Every point of the w x h area belongs to exactly one thread of the grid, and that one does not exit early.
  lemma OneThreadEach(t: Thread, w: nat, h: nat, x: nat, y: nat)
    requires x < w && y < h
    ensures InGrid(t, w, h) && XOf(t) == x && YOf(t) == y <==> t == ThreadFor(x, y)
    ensures Active(ThreadFor(x, y), w, h)
  {
  }

  // In the kernels' registers the coordinates do not wrap for any size a C int can hold.
  lemma CoordinatesFit(t: Thread, w: nat, h: nat)
    requires InGrid(t, w, h) && w < 0x8000_0000 && h < 0x8000_0000
    ensures t.blockX < WORD && t.blockY < WORD && XOf(t) < WORD && YOf(t) < WORD
    ensures MadLo(t.blockX, 16, t.tidX) == XOf(t) && MadLo(t.blockY, 16, t.tidY) == YOf(t)
  {
  }

  // ---- addresses ----

  // The byte offset the kernels compute for pixel (x, y), with 32-bit wrap-around.
  function Offset4(w: U32, x: U32, y: U32): U32 {
    Shl(MadLo(y, w, x), 2)
  }

  ghost predicate AddressesExact(w: U32, h: U32) {
    forall x, y :: 0 <= x < w && 0 <= y < h ==> Offset4(w, x, y) == 4 * RowIndex(w, x, y)
  }

  lemma LowBits(n: nat)
    ensures n < WORD ==> n % WORD == n
  {
  }

  lemma IndexFits(w: U32, x: U32, y: U32)
    requires 4 * RowIndex(w, x, y) < WORD
    ensures MadLo(y, w, x) == RowIndex(w, x, y)
  {
    LowBits(y * w + x);
  }

  lemma OffsetFits(w: U32, x: U32, y: U32)
    requires 4 * RowIndex(w, x, y) < WORD
    ensures Offset4(w, x, y) == 4 * RowIndex(w, x, y)
  {
    hide MadLo, RowIndex;
    IndexFits(w, x, y);
  }

  lemma LastIndex(w: nat, h: nat)
    requires w > 0 && h > 0
    ensures RowIndex(w, w - 1, h - 1) == w * h - 1
  {
  }

  lemma LastTooFar(w: U32, h: U32)
    requires w > 0 && h > 0 && 4 * (w * h) > WORD
    requires RowIndex(w, w - 1, h - 1) == w * h - 1
    ensures Offset4(w, w - 1, h - 1) != 4 * RowIndex(w, w - 1, h - 1)
  {
    assert 4 * (w * h - 1) >= WORD;
  }

  // The addresses are exact for a whole frame if and only if the frame has at most 2^32 bytes.
  lemma AddressesExactIff(w: U32, h: U32)
    ensures AddressesExact(w, h) <==> 4 * (w * h) <= WORD
  {
    hide RowIndex, Coords, Offset4;
    if 4 * (w * h) <= WORD {
      forall x, y | 0 <= x < w && 0 <= y < h ensures Offset4(w, x, y) == 4 * RowIndex(w, x, y) {
        RowMajor(w, h, x, y);
        OffsetFits(w, x, y);
      }
    } else {
      assert w > 0 && h > 0 by { assert 0 * h == 0 && w * 0 == 0; }
      LastIndex(w, h);
      assert Offset4(w, w - 1, h - 1) < WORD;
      LastTooFar(w, h);
    }
  }

  // ---- the luma kernel ----

  // The pixel at a byte offset of a BGRA surface.
  function Bgra(src: seq<Byte>, off: nat): Rgb
    requires off + 2 < |src|
  {
    Rgb(src[off + 2], src[off + 1], src[off])
  }

  lemma PixelHeld(src: seq<Byte>, w: nat, h: nat, x: nat, y: nat)
    requires x < w && y < h && |src| >= 4 * Area(w, h)
    ensures 4 * RowIndex(w, x, y) + 3 < |src| && RowIndex(w, x, y) < Area(w, h)
  {
    RowMajor(w, h, x, y);
  }

  // The luma of a colour, in unsigned registers.
  method ConvertLuma(r: U32, g: U32, b: U32, ghost p: Rgb) returns (luma: Byte)
    requires p.r == r && p.g == g && p.b == b
    ensures luma == Luma(p)
  {
    StudioRange(p);
    var sum: U32 := r * 66;
    sum := g * 129 + sum;
    sum := b * 25 + sum;
    sum := sum + 128;
    sum := sum / 256 + 16;
    luma := sum;
  }

  // One thread of rgba_to_nv12_y.
  method LumaThread(t: Thread, src: seq<Byte>, dstY: array<Byte>, w: U32, h: U32)
    requires InGrid(t, w, h) && w < 0x8000_0000 && h < 0x8000_0000
    requires 4 * Area(w, h) <= WORD && |src| >= 4 * Area(w, h) && dstY.Length >= Area(w, h)
    modifies dstY
    ensures !Active(t, w, h) ==> dstY[..] == old(dstY[..])
    ensures Active(t, w, h) ==>
      var i := RowIndex(w, XOf(t), YOf(t));
      i < Area(w, h) && 4 * i + 3 < |src| && dstY[..] == old(dstY[..])[i := Luma(Bgra(src, 4 * i))]
  {
    hide RowIndex, MadLo, Area, Luma;
    CoordinatesFit(t, w, h);
    var x, y := MadLo(t.blockX, 16, t.tidX), MadLo(t.blockY, 16, t.tidY);
    if x >= w || y >= h {
      return;
    }
    PixelHeld(src, w, h, x, y);
    OffsetFits(w, x, y);
    IndexFits(w, x, y);
    var off1 := MadLo(y, w, x);
    var off4 := Shl(off1, 2);
    var b: U32, g: U32, r: U32 := src[off4], src[off4 + 1], src[off4 + 2];
    var luma := ConvertLuma(r, g, b, Bgra(src, off4));
    dstY[off1] := luma;
  }

  // The order in which the threads of a launch happen to run.
  ghost predicate Schedule(order: seq<Thread>, w: nat, h: nat) {
    forall t :: t in order <==> InGrid(t, w, h)
  }

  ghost predicate LumaSoFar(src: seq<Byte>, w: nat, h: nat, was: seq<Byte>, now: seq<Byte>, ran: seq<Thread>)
    requires |src| >= 4 * Area(w, h) && |was| >= Area(w, h)
  {
    && |now| == |was|
    && (forall i :: Area(w, h) <= i < |was| ==> now[i] == was[i])
    && (forall i :: 0 <= i < Area(w, h) ==>
         now[i] == if w > 0 && ThreadFor(Coords(w, i).0, Coords(w, i).1) in ran then Luma(Bgra(src, 4 * i)) else was[i])
  }

  lemma LumaStep(src: seq<Byte>, w: nat, h: nat, was: seq<Byte>, before: seq<Byte>, now: seq<Byte>,
                 ran: seq<Thread>, t: Thread)
    requires |src| >= 4 * Area(w, h) && |was| >= Area(w, h) && InGrid(t, w, h)
    requires LumaSoFar(src, w, h, was, before, ran)
    requires !Active(t, w, h) ==> now == before
    requires Active(t, w, h) ==>
      var i := RowIndex(w, XOf(t), YOf(t)); i < Area(w, h) && now == before[i := Luma(Bgra(src, 4 * i))]
    ensures LumaSoFar(src, w, h, was, now, ran + [t])
  {
    hide Area, RowIndex, Coords, Luma, ThreadFor, XOf, YOf, InGrid;
    forall i | 0 <= i < Area(w, h)
      ensures w > 0 && var (x, y) := Coords(w, i);
        x < w && y < h && (t == ThreadFor(x, y) <==> Active(t, w, h) && i == RowIndex(w, XOf(t), YOf(t)))
    {
      PointAt(w, h, i);
      var (x, y) := Coords(w, i);
      OneThreadEach(t, w, h, x, y);
      if Active(t, w, h) { PositionOf(w, h, XOf(t), YOf(t)); }
    }
  }

  // Every pixel has its luma, what lies behind the plane is untouched.
  ghost function LumaPlane(src: seq<Byte>, w: nat, h: nat, was: seq<Byte>): (now: seq<Byte>)
    requires |src| >= 4 * Area(w, h) && |was| >= Area(w, h)
    ensures |now| == |was|
    ensures forall i :: 0 <= i < |was| ==> now[i] == if i < Area(w, h) then Luma(Bgra(src, 4 * i)) else was[i]
  {
    seq(|was|, i requires 0 <= i < |was| => if i < Area(w, h) then Luma(Bgra(src, 4 * i)) else was[i])
  }

  lemma LumaEnds(src: seq<Byte>, w: nat, h: nat, was: seq<Byte>, now: seq<Byte>, ran: seq<Thread>)
    requires |src| >= 4 * Area(w, h) && |was| >= Area(w, h)
    ensures ran == [] && now == was ==> LumaSoFar(src, w, h, was, now, ran)
    ensures Schedule(ran, w, h) && LumaSoFar(src, w, h, was, now, ran) ==> now == LumaPlane(src, w, h, was)
  {
    hide Area, Luma, ThreadFor, Coords, InGrid;
    if Schedule(ran, w, h) && LumaSoFar(src, w, h, was, now, ran) {
      forall i | 0 <= i < Area(w, h) ensures now[i] == Luma(Bgra(src, 4 * i)) {
        PointAt(w, h, i);
        var (x, y) := Coords(w, i);
        OneThreadEach(ThreadFor(x, y), w, h, x, y);
        assert Active(ThreadFor(x, y), w, h);
      }
      assert now == LumaPlane(src, w, h, was);
    }
  }

  // A launch of the luma kernel, whatever order the threads run in.
  method LaunchLuma(src: seq<Byte>, dstY: array<Byte>, w: U32, h: U32, order: seq<Thread>)
    requires w < 0x8000_0000 && h < 0x8000_0000 && Schedule(order, w, h)
    requires 4 * Area(w, h) <= WORD && |src| >= 4 * Area(w, h) && dstY.Length >= Area(w, h)
    modifies dstY
    ensures dstY[..] == LumaPlane(src, w, h, old(dstY[..]))
  {
    hide Area, LumaSoFar, RowIndex, Active;
    ghost var was := dstY[..];
    LumaEnds(src, w, h, was, was, []);
    for k := 0 to |order|
      invariant LumaSoFar(src, w, h, was, dstY[..], order[..k])
    {
      ghost var before := dstY[..];
      assert order[k] in order;
      LumaThread(order[k], src, dstY, w, h);
      LumaStep(src, w, h, was, before, dstY[..], order[..k], order[k]);
      assert order[..k] + [order[k]] == order[..k + 1];
    }
    assert order[..|order|] == order;
    LumaEnds(src, w, h, was, dstY[..], order);
  }

  // A pixel of the frame as the CPU conversion reads it.
  lemma CpuPixel(src: seq<Byte>, w: nat, h: nat, x: nat, y: nat)
    requires x < w && y < h && |src| >= 4 * Area(w, h)
    ensures var f := Source(src, 4 * w, Argb, w, h); var i := RowIndex(w, x, y);
      4 * i + 3 < |src| && Present(f, x, y) && At(f, x, y) == Bgra(src, 4 * i)
  {
    PixelHeld(src, w, h, x, y);
    assert y * (4 * w) == 4 * (y * w);
  }

  // Both converters write the same luma plane.
  lemma SameLuma(src: seq<Byte>, w: nat, h: nat, was: seq<Byte>, was': seq<Byte>, x: nat, y: nat)
    requires x < w && y < h && |src| >= 4 * Area(w, h) && |was| >= Area(w, h) && |was'| >= YuvBufSize(w, h)
    ensures var i := Pos(w, h, Y(x, y));
      i < Area(w, h) && i < |was'| && LumaPlane(src, w, h, was)[i] == Converted(Source(src, 4 * w, Argb, w, h), was')[i]
  {
    hide Luma, RowIndex, CellAt, At, Present;
    PixelHeld(src, w, h, x, y);
    PosThenCell(w, h, Y(x, y));
    CpuPixel(src, w, h, x, y);
  }

  // ---- the chroma kernel ----

  // Registers of s32 type; that the sums below stay inside shows that none of them wraps.
  type S32 = x: int | -0x8000_0000 <= x < 0x8000_0000

  function Min(a: U32, b: U32): U32 {
    if a < b then a else b
  }

  function ClampS32(v: S32): Byte {
    var low := if v > 0 then v else 0;
    if low < 255 then low else 255
  }

  function Mean4(a: Byte, b: Byte, c: Byte, d: Byte): Byte {
    (a + b + c + d) / 4
  }

  function MeanPixel(a: Rgb, b: Rgb, c: Rgb, d: Rgb): Rgb {
    Rgb(Mean4(a.r, b.r, c.r, d.r), Mean4(a.g, b.g, c.g, d.g), Mean4(a.b, b.b, c.b, d.b))
  }

  // Pixel (x, y) of a tightly packed BGRA surface.
  function PixelOf(src: seq<Byte>, w: nat, h: nat, x: nat, y: nat): Rgb
    requires x < w && y < h && |src| >= 4 * Area(w, h)
  {
    PixelHeld(src, w, h, x, y);
    Bgra(src, 4 * RowIndex(w, x, y))
  }

  // The mean colour of a 2 x 2 block: the kernel averages first and converts once.
  function BlockMean(src: seq<Byte>, w: nat, h: nat, cx: nat, cy: nat): Rgb
    requires cx < w / 2 && cy < h / 2 && |src| >= 4 * Area(w, h)
  {
    MeanPixel(PixelOf(src, w, h, 2 * cx, 2 * cy), PixelOf(src, w, h, 2 * cx + 1, 2 * cy),
              PixelOf(src, w, h, 2 * cx, 2 * cy + 1), PixelOf(src, w, h, 2 * cx + 1, 2 * cy + 1))
  }

  // Three loads at the address of a pixel.
  method LoadPixel(src: seq<Byte>, w: U32, h: U32, x: U32, y: U32) returns (r: U32, g: U32, b: U32)
    requires x < w && y < h && 4 * Area(w, h) <= WORD && |src| >= 4 * Area(w, h)
    ensures var p := PixelOf(src, w, h, x, y); r == p.r && g == p.g && b == p.b
  {
    hide RowIndex, MadLo, Area;
    PixelHeld(src, w, h, x, y);
    OffsetFits(w, x, y);
    var off := MadLo(y, w, x);
    var off4 := Shl(off, 2);
    b, g, r := src[off4], src[off4 + 1], src[off4 + 2];
  }

  // Register values that need no wrapping.
  lemma DoubleFits(a: U32)
    ensures 2 * a < WORD ==> Shl(a, 1) == 2 * a
  {
  }

  // The corners of block (cx, cy); the clamps against the last row and column have no effect.
  method BlockCorners(w: U32, h: U32, cx: U32, cy: U32) returns (x0: U32, y0: U32, x1: U32, y1: U32)
    requires cx < w / 2 && cy < h / 2
    ensures x0 == 2 * cx && x1 == 2 * cx + 1 < w && y0 == 2 * cy && y1 == 2 * cy + 1 < h
  {
    hide Shl;
    DoubleFits(cx);
    DoubleFits(cy);
    var left, top, wm1, hm1 := Shl(cx, 1), Shl(cy, 1), w - 1, h - 1;
    x0, y0 := Min(left, wm1), Min(top, hm1);
    x1, y1 := Min(Min(left, wm1) + 1, wm1), Min(Min(top, hm1) + 1, hm1);
  }

  // The mean colour of a block as the kernel's registers hold it.
  method LoadBlock(src: seq<Byte>, w: U32, h: U32, cx: U32, cy: U32) returns (r: U32, g: U32, b: U32)
    requires cx < w / 2 && cy < h / 2 && 4 * Area(w, h) <= WORD && |src| >= 4 * Area(w, h)
    ensures var p := BlockMean(src, w, h, cx, cy); r == p.r && g == p.g && b == p.b
  {
    hide PixelOf, Area;
    var x0, y0, x1, y1 := BlockCorners(w, h, cx, cy);
    var r0, g0, b0 := LoadPixel(src, w, h, x0, y0);
    var r1, g1, b1 := LoadPixel(src, w, h, x1, y0);
    var r2, g2, b2 := LoadPixel(src, w, h, x0, y1);
    var r3, g3, b3 := LoadPixel(src, w, h, x1, y1);
    r, g, b := (r0 + r1 + r2 + r3) / 4, (g0 + g1 + g2 + g3) / 4, (b0 + b1 + b2 + b3) / 4;
  }

  // Both chroma samples of a colour, in signed registers.
  method ConvertChroma(r: U32, g: U32, b: U32, ghost p: Rgb) returns (u: Byte, v: Byte)
    requires p.r == r && p.g == g && p.b == b
    ensures u == Cb(p) && v == Cr(p)
  {
    StudioRange(p);
    var sr: S32, sg: S32, sb: S32 := r, g, b;
    var cb: S32 := (sr * -38 + sg * -74 + sb * 112 + 128) / 256 + 128;
    var cr: S32 := (sr * 112 + sg * -94 + sb * -18 + 128) / 256 + 128;
    u, v := ClampS32(cb), ClampS32(cr);
  }

  // A buffer before and after thread t of the chroma kernel.
  ghost predicate ChromaStores(t: Thread, src: seq<Byte>, w: nat, h: nat, before: seq<Byte>, now: seq<Byte>)
    requires |src| >= 4 * Area(w, h)
  {
    if Active(t, w / 2, h / 2) then
      var i := 2 * RowIndex(w / 2, XOf(t), YOf(t)); var p := BlockMean(src, w, h, XOf(t), YOf(t));
      i + 1 < |before| && now == before[i := Cb(p)][i + 1 := Cr(p)]
    else
      now == before
  }

  lemma Monotone(a: nat, b: nat, c: nat, d: nat)
    requires a <= b && c <= d
    ensures a * c <= b * d
  {
    assert a * c <= b * c && b * c <= b * d;
  }

  lemma HalfArea(w: nat, h: nat)
    ensures 4 * Area(w / 2, h / 2) <= Area(w, h)
  {
    var a, b := w / 2, h / 2;
    Monotone(2 * a, w, 2 * b, h);
    assert (2 * a) * (2 * b) == 4 * (a * b);
  }

  // One thread of rgba_to_nv12_uv.
  method ChromaThread(t: Thread, src: seq<Byte>, dstUv: array<Byte>, w: U32, h: U32)
    requires InGrid(t, w / 2, h / 2) && w < 0x8000_0000 && h < 0x8000_0000
    requires 4 * Area(w, h) <= WORD && |src| >= 4 * Area(w, h) && dstUv.Length >= 2 * Area(w / 2, h / 2)
    modifies dstUv
    ensures ChromaStores(t, src, w, h, old(dstUv[..]), dstUv[..])
  {
    hide RowIndex, MadLo, Area, BlockMean, Shl, Cb, Cr;
    var hw, hh := w / 2, h / 2;
    CoordinatesFit(t, hw, hh);
    var cx, cy := MadLo(t.blockX, 16, t.tidX), MadLo(t.blockY, 16, t.tidY);
    if cx >= hw || cy >= hh {
      return;
    }
    var r, g, b := LoadBlock(src, w, h, cx, cy);
    var u, v := ConvertChroma(r, g, b, BlockMean(src, w, h, cx, cy));
    PositionOf(hw, hh, cx, cy);
    HalfArea(w, h);
    IndexFits(hw, cx, cy);
    var off := MadLo(cy, hw, cx);
    DoubleFits(off);
    var off2 := Shl(off, 1);
    dstUv[off2] := u;
    dstUv[off2 + 1] := v;
  }

  // The interleaved pair of block i after the blocks of the threads in ran have been converted.
  ghost predicate PairDone(src: seq<Byte>, w: nat, h: nat, was: seq<Byte>, now: seq<Byte>, ran: seq<Thread>, i: nat)
    requires |src| >= 4 * Area(w, h)
  {
    && |was| == |now| && 2 * i + 1 < |was| && w / 2 > 0
    && var (cx, cy) := Coords(w / 2, i);
       && cx < w / 2 && cy < h / 2
       && (if ThreadFor(cx, cy) in ran then
             var p := BlockMean(src, w, h, cx, cy); now[2 * i] == Cb(p) && now[2 * i + 1] == Cr(p)
           else
             now[2 * i] == was[2 * i] && now[2 * i + 1] == was[2 * i + 1])
  }

  ghost predicate ChromaSoFar(src: seq<Byte>, w: nat, h: nat, was: seq<Byte>, now: seq<Byte>, ran: seq<Thread>)
    requires |src| >= 4 * Area(w, h) && |was| >= 2 * Area(w / 2, h / 2)
  {
    && |now| == |was|
    && (forall i :: 2 * Area(w / 2, h / 2) <= i < |was| ==> now[i] == was[i])
    && (forall i :: 0 <= i < Area(w / 2, h / 2) ==> PairDone(src, w, h, was, now, ran, i))
  }

  lemma ChromaStep(src: seq<Byte>, w: nat, h: nat, was: seq<Byte>, before: seq<Byte>, now: seq<Byte>,
                   ran: seq<Thread>, t: Thread)
    requires |src| >= 4 * Area(w, h) && |was| >= 2 * Area(w / 2, h / 2) && InGrid(t, w / 2, h / 2)
    requires ChromaSoFar(src, w, h, was, before, ran) && ChromaStores(t, src, w, h, before, now)
    ensures ChromaSoFar(src, w, h, was, now, ran + [t])
  {
    hide Area, RowIndex, Coords, Cb, Cr, ThreadFor, XOf, YOf, InGrid, BlockMean;
    var hw, hh := w / 2, h / 2;
    if Active(t, hw, hh) { PositionOf(hw, hh, XOf(t), YOf(t)); }
    forall i | 0 <= i < Area(hw, hh)
      ensures PairDone(src, w, h, was, now, ran + [t], i)
    {
      PointAt(hw, hh, i);
      var (x, y) := Coords(hw, i);
      OneThreadEach(t, hw, hh, x, y);
      assert PairDone(src, w, h, was, before, ran, i);
    }
  }

  // Every block has its pair of samples, what lies behind the plane is untouched.
  ghost predicate ChromaPlane(src: seq<Byte>, w: nat, h: nat, was: seq<Byte>, now: seq<Byte>)
    requires |src| >= 4 * Area(w, h) && |was| >= 2 * Area(w / 2, h / 2)
  {
    && |now| == |was|
    && (forall i :: 2 * Area(w / 2, h / 2) <= i < |was| ==> now[i] == was[i])
    && (forall cx, cy :: 0 <= cx < w / 2 && 0 <= cy < h / 2 ==>
         var i := 2 * RowIndex(w / 2, cx, cy); var p := BlockMean(src, w, h, cx, cy);
         i + 1 < |now| && now[i] == Cb(p) && now[i + 1] == Cr(p))
  }

  lemma ChromaStart(src: seq<Byte>, w: nat, h: nat, was: seq<Byte>)
    requires |src| >= 4 * Area(w, h) && |was| >= 2 * Area(w / 2, h / 2)
    ensures ChromaSoFar(src, w, h, was, was, [])
  {
    hide Area, Coords, ThreadFor;
    forall i | 0 <= i < Area(w / 2, h / 2)
      ensures PairDone(src, w, h, was, was, [], i)
    {
      PointAt(w / 2, h / 2, i);
    }
  }

  lemma ChromaEnd(src: seq<Byte>, w: nat, h: nat, was: seq<Byte>, now: seq<Byte>, ran: seq<Thread>)
    requires |src| >= 4 * Area(w, h) && |was| >= 2 * Area(w / 2, h / 2)
    requires Schedule(ran, w / 2, h / 2) && ChromaSoFar(src, w, h, was, now, ran)
    ensures ChromaPlane(src, w, h, was, now)
  {
    hide Area, RowIndex, Coords, Cb, Cr, ThreadFor, InGrid, BlockMean;
    var hw, hh := w / 2, h / 2;
    forall cx, cy | 0 <= cx < hw && 0 <= cy < hh
      ensures var i := 2 * RowIndex(hw, cx, cy); var p := BlockMean(src, w, h, cx, cy);
        i + 1 < |now| && now[i] == Cb(p) && now[i + 1] == Cr(p)
    {
      PositionOf(hw, hh, cx, cy);
      OneThreadEach(ThreadFor(cx, cy), hw, hh, cx, cy);
      assert Active(ThreadFor(cx, cy), hw, hh);
      assert PairDone(src, w, h, was, now, ran, RowIndex(hw, cx, cy));
    }
  }

  // A launch of the chroma kernel, whatever order the threads run in.
  method LaunchChroma(src: seq<Byte>, dstUv: array<Byte>, w: U32, h: U32, order: seq<Thread>)
    requires w < 0x8000_0000 && h < 0x8000_0000 && Schedule(order, w / 2, h / 2)
    requires 4 * Area(w, h) <= WORD && |src| >= 4 * Area(w, h) && dstUv.Length >= 2 * Area(w / 2, h / 2)
    modifies dstUv
    ensures ChromaPlane(src, w, h, old(dstUv[..]), dstUv[..])
  {
    hide Area, ChromaSoFar, ChromaStores, ChromaPlane, InGrid;
    ghost var was := dstUv[..];
    ChromaStart(src, w, h, was);
    for k := 0 to |order|
      invariant ChromaSoFar(src, w, h, was, dstUv[..], order[..k])
    {
      ghost var before := dstUv[..];
      assert order[k] in order;
      ChromaThread(order[k], src, dstUv, w, h);
      ChromaStep(src, w, h, was, before, dstUv[..], order[..k], order[k]);
      assert order[..k] + [order[k]] == order[..k + 1];
    }
    assert order[..|order|] == order;
    ChromaEnd(src, w, h, was, dstUv[..], order);
  }

  // The pair of block (cx, cy), Cb first, from the bytes of its four pixels, which begin at a and at b in two rows.
  lemma ChromaBytes(src: seq<Byte>, w: nat, h: nat, was: seq<Byte>, now: seq<Byte>, cx: nat, cy: nat,
                    i: nat, a: nat, b: nat)
    requires |src| >= 4 * Area(w, h) && |was| >= 2 * Area(w / 2, h / 2) && ChromaPlane(src, w, h, was, now)
    requires cx < w / 2 && cy < h / 2 && i == 2 * (cy * (w / 2) + cx)
    requires a == 4 * (2 * cy * w + 2 * cx) && b == a + 4 * w
    ensures i + 1 < |now| && a + 7 < |src| && b + 7 < |src|
    ensures var p := Rgb((src[a + 2] as int + src[a + 6] + src[b + 2] + src[b + 6]) / 4,
                         (src[a + 1] as int + src[a + 5] + src[b + 1] + src[b + 5]) / 4,
                         (src[a] as int + src[a + 4] + src[b] + src[b + 4]) / 4);
      now[i] == Cb(p) && now[i + 1] == Cr(p)
  {
    hide Area, Cb, Cr;
    PixelHeld(src, w, h, 2 * cx, 2 * cy);
    PixelHeld(src, w, h, 2 * cx + 1, 2 * cy);
    PixelHeld(src, w, h, 2 * cx, 2 * cy + 1);
    PixelHeld(src, w, h, 2 * cx + 1, 2 * cy + 1);
    assert (2 * cy + 1) * w == 2 * cy * w + w;
    assert RowIndex(w / 2, cx, cy) == cy * (w / 2) + cx;
  }

  // ---- the two converters compared ----

  // Averaging before converting instead of after moves a chroma sample by -1, 0, 1 or 2.
  lemma MeanThenConvert(a: Rgb, b: Rgb, c: Rgb, d: Rgb)
    ensures var p := MeanPixel(a, b, c, d);
      && -1 <= Cb(p) - (Cb(a) + Cb(b) + Cb(c) + Cb(d)) / 4 <= 2
      && -1 <= Cr(p) - (Cr(a) + Cr(b) + Cr(c) + Cr(d)) / 4 <= 2
  {
  }

  // How much averaging first moves Cb.
  function CbMove(a: Rgb, b: Rgb, c: Rgb, d: Rgb): int {
    Cb(MeanPixel(a, b, c, d)) - (Cb(a) + Cb(b) + Cb(c) + Cb(d)) / 4
  }

  lemma LowestMove()
    ensures CbMove(Rgb(189, 117, 20), Rgb(191, 120, 22), Rgb(191, 118, 21), Rgb(191, 117, 20)) == -1
  {
  }

  lemma HighestMove()
    ensures CbMove(Rgb(217, 81, 55), Rgb(100, 18, 209), Rgb(129, 182, 149), Rgb(225, 114, 251)) == 2
  {
  }

  // Neither bound can be improved.
  lemma BoundsAreReached()
    ensures exists a, b, c, d :: CbMove(a, b, c, d) == -1
    ensures exists a, b, c, d :: CbMove(a, b, c, d) == 2
  {
    LowestMove();
    HighestMove();
    hide CbMove;
    assert CbMove(Rgb(189, 117, 20), Rgb(191, 120, 22), Rgb(191, 118, 21), Rgb(191, 117, 20)) == -1;
    assert CbMove(Rgb(217, 81, 55), Rgb(100, 18, 209), Rgb(129, 182, 149), Rgb(225, 114, 251)) == 2;
  }

  // Sums of a block all of whose pixels are present.
  lemma FullBlock(src: seq<Byte>, w: nat, h: nat, cx: nat, cy: nat)
    requires cx < w / 2 && cy < h / 2 && |src| >= 4 * Area(w, h)
    ensures var s := BlockSum(Source(src, 4 * w, Argb, w, h), cx, cy);
      var a, b := PixelOf(src, w, h, 2 * cx, 2 * cy), PixelOf(src, w, h, 2 * cx + 1, 2 * cy);
      var c, d := PixelOf(src, w, h, 2 * cx, 2 * cy + 1), PixelOf(src, w, h, 2 * cx + 1, 2 * cy + 1);
      s.n == 4 && s.u == Cb(a) + Cb(b) + Cb(c) + Cb(d) && s.v == Cr(a) + Cr(b) + Cr(c) + Cr(d)
  {
    hide Area, RowIndex, Cb, Cr, At, Present, Bgra;
    CpuPixel(src, w, h, 2 * cx, 2 * cy);
    CpuPixel(src, w, h, 2 * cx + 1, 2 * cy);
    CpuPixel(src, w, h, 2 * cx, 2 * cy + 1);
    CpuPixel(src, w, h, 2 * cx + 1, 2 * cy + 1);
  }

  lemma CloseValues(src: seq<Byte>, w: nat, h: nat, cx: nat, cy: nat, was: Byte)
    requires cx < w / 2 && cy < h / 2 && |src| >= 4 * Area(w, h)
    ensures var f := Source(src, 4 * w, Argb, w, h); var p := BlockMean(src, w, h, cx, cy);
      -1 <= Cb(p) - Value(f, U(cx, cy), was) <= 2 && -1 <= Cr(p) - Value(f, V(cx, cy), was) <= 2
  {
    hide Area, Cb, Cr, PixelOf, BlockSum;
    FullBlock(src, w, h, cx, cy);
    ChromaRange(Source(src, 4 * w, Argb, w, h), cx, cy);
    MeanThenConvert(PixelOf(src, w, h, 2 * cx, 2 * cy), PixelOf(src, w, h, 2 * cx + 1, 2 * cy),
                    PixelOf(src, w, h, 2 * cx, 2 * cy + 1), PixelOf(src, w, h, 2 * cx + 1, 2 * cy + 1));
  }

  ghost predicate Close(gpu: seq<Byte>, i: nat, cpu: seq<Byte>, j: nat) {
    i < |gpu| && j < |cpu| && -1 <= gpu[i] as int - cpu[j] as int <= 2
  }

  // Every chroma sample the kernel stores is close to the one the CPU stores for the same block.
  lemma CloseChroma(src: seq<Byte>, w: nat, h: nat, was: seq<Byte>, uv: seq<Byte>, was': seq<Byte>, cx: nat, cy: nat)
    requires |src| >= 4 * Area(w, h) && |was| >= 2 * Area(w / 2, h / 2) && |was'| >= YuvBufSize(w, h)
    requires ChromaPlane(src, w, h, was, uv) && cx < w / 2 && cy < h / 2
    ensures var cpu := Converted(Source(src, 4 * w, Argb, w, h), was'); var i := 2 * RowIndex(w / 2, cx, cy);
      Close(uv, i, cpu, Pos(w, h, U(cx, cy))) && Close(uv, i + 1, cpu, Pos(w, h, V(cx, cy)))
  {
    hide Area, RowIndex, Cb, Cr, BlockMean, Value, CellAt, Pos, YuvBufSize;
    PosThenCell(w, h, U(cx, cy));
    PosThenCell(w, h, V(cx, cy));
    CloseValues(src, w, h, cx, cy, was'[Pos(w, h, U(cx, cy))]);
    CloseValues(src, w, h, cx, cy, was'[Pos(w, h, V(cx, cy))]);
  }

  // The kernel has a block for every chroma sample exactly when both dimensions are even (or there are none).
  lemma CoversChromaIff(w: nat, h: nat)
    ensures (forall cx, cy :: 0 <= cx < Half(w) && 0 <= cy < Half(h) ==> InFrame(w / 2, h / 2, Y(cx, cy)))
       <==> w == 0 || h == 0 || (w % 2 == 0 && h % 2 == 0)
  {
    if w > 0 && h > 0 && (w % 2 == 1 || h % 2 == 1) {
      assert !InFrame(w / 2, h / 2, Y(Half(w) - 1, Half(h) - 1));
    }
  }
}
