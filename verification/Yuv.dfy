// RGBA to planar YUV 4:2:0 on the CPU.
module Yuv {
  import opened Basics

  // The fourcc names give the register order; in memory ABGR is R,G,B,A and ARGB is B,G,R,A.
  datatype PixFmt = Abgr | Argb | OtherFmt

  // ---- one pixel ----

  datatype Rgb = Rgb(r: Byte, g: Byte, b: Byte)

  function Clamp8(v: int): Byte {
    if v < 0 then 0 else if v > 255 then 255 else v
  }

  function RawLuma(p: Rgb): int {
    (66 * p.r + 129 * p.g + 25 * p.b + 128) / 256 + 16
  }

  function Luma(p: Rgb): Byte {
    Clamp8(RawLuma(p))
  }

  function Cb(p: Rgb): int {
    (-38 * p.r - 74 * p.g + 112 * p.b + 128) / 256 + 128
  }

  function Cr(p: Rgb): int {
    (112 * p.r - 94 * p.g - 18 * p.b + 128) / 256 + 128
  }

  // Studio range: clamping never has anything to do.
  lemma StudioRange(p: Rgb)
    ensures 16 <= RawLuma(p) <= 235 && Luma(p) == RawLuma(p)
    ensures 16 <= Cb(p) <= 240 && 16 <= Cr(p) <= 240
  {
  }

  // The equations of the standard over exact reals: luma from the three primaries, chroma from the differences to it.
  function ExactGrey(p: Rgb): real {
    0.299 * p.r as real + 0.587 * p.g as real + 0.114 * p.b as real
  }

  function ExactLuma(p: Rgb): real {
    16.0 + 219.0 * ExactGrey(p) / 255.0
  }

  function ExactCb(p: Rgb): real {
    128.0 + 224.0 * ((p.b as real - ExactGrey(p)) / 1.772) / 255.0
  }

  function ExactCr(p: Rgb): real {
    128.0 + 224.0 * ((p.r as real - ExactGrey(p)) / 1.402) / 255.0
  }

  // Every sample of a pixel is less than one step away from its exact value.
  lemma NearStandard(p: Rgb)
    ensures -1.0 < RawLuma(p) as real - ExactLuma(p) < 1.0
    ensures -1.0 < Cb(p) as real - ExactCb(p) < 1.0
    ensures -1.0 < Cr(p) as real - ExactCr(p) < 1.0
  {
  }

  lemma GreyHasNoColour(v: Byte)
    ensures Cb(Rgb(v, v, v)) == 128 && Cr(Rgb(v, v, v)) == 128
  {
  }

  // ---- the planes of a w x h frame ----

  datatype Cell = Y(x: nat, y: nat) | U(x: nat, y: nat) | V(x: nat, y: nat)

  function Half(n: nat): nat { (n + 1) / 2 }

  function YuvBufSize(w: nat, h: nat): nat {
    w * h + 2 * (Half(w) * Half(h))
  }

  ghost predicate InFrame(w: nat, h: nat, c: Cell) {
    if c.Y? then c.x < w && c.y < h else c.x < Half(w) && c.y < Half(h)
  }

  function RowIndex(w: nat, x: nat, y: nat): nat {
    y * w + x
  }

  // Where the loops store a cell.
  function Pos(w: nat, h: nat, c: Cell): nat {
    match c
    case Y(x, y) => RowIndex(w, x, y)
    case U(x, y) => w * h + RowIndex(Half(w), x, y)
    case V(x, y) => w * h + Half(w) * Half(h) + RowIndex(Half(w), x, y)
  }

  // Row-major coordinates of position i in a plane of width w.
  function Coords(w: nat, i: nat): (nat, nat)
    requires w > 0
  {
    (i % w, i / w)
  }

  lemma Distribute(a: int, b: int, w: int)
    ensures (a - b) * w == a * w - b * w
  {
  }

  lemma WholeMultiple(d: int, w: nat)
    ensures d > 0 ==> d * w >= w
    ensures d < 0 ==> d * w + w <= 0
  {
  }

  lemma QuotientUnique(i: nat, w: nat, q: nat, r: nat)
    requires r < w && i == q * w + r
    ensures i / w == q && i % w == r
  {
    var d := i / w - q;
    assert i / w * w + i % w == i;
    assert d * w == r - i % w;
    WholeMultiple(d, w);
  }

  lemma RowMajor(w: nat, h: nat, x: nat, y: nat)
    requires x < w && y < h
    ensures RowIndex(w, x, y) < w * h && Coords(w, RowIndex(w, x, y)) == (x, y)
  {
    WholeMultiple(h - y, w);
    Distribute(h, y, w);
    QuotientUnique(y * w + x, w, y, x);
  }

  lemma RowMajorInverse(w: nat, h: nat, i: nat)
    requires i < w * h
    ensures w > 0 && var (x, y) := Coords(w, i); x < w && y < h && RowIndex(w, x, y) == i
  {
    assert w == 0 ==> w * h == 0;
    var y := i / w;
    assert i == y * w + i % w;
    assert y >= h ==> y * w >= h * w;
  }

  // The cell stored at position i.
  function CellAt(w: nat, h: nat, i: nat): Cell
    requires i < YuvBufSize(w, h)
  {
    var n, m := w * h, Half(w) * Half(h);
    if i < n then
      RowMajorInverse(w, h, i);
      var (x, y) := Coords(w, i); Y(x, y)
    else if i < n + m then
      RowMajorInverse(Half(w), Half(h), i - n);
      var (x, y) := Coords(Half(w), i - n); U(x, y)
    else
      RowMajorInverse(Half(w), Half(h), i - n - m);
      var (x, y) := Coords(Half(w), i - n - m); V(x, y)
  }

  // The three planes tile the buffer: cells and positions are in bijection.
  lemma PosThenCell(w: nat, h: nat, c: Cell)
    requires InFrame(w, h, c)
    ensures Pos(w, h, c) < YuvBufSize(w, h) && CellAt(w, h, Pos(w, h, c)) == c
  {
    hide Coords, Half, RowIndex;
    if c.Y? { RowMajor(w, h, c.x, c.y); } else { RowMajor(Half(w), Half(h), c.x, c.y); }
  }

  lemma CellThenPos(w: nat, h: nat, i: nat)
    requires i < YuvBufSize(w, h)
    ensures InFrame(w, h, CellAt(w, h, i)) && Pos(w, h, CellAt(w, h, i)) == i
  {
    hide Coords, Half, RowIndex;
    var n, m := w * h, Half(w) * Half(h);
    if i < n { RowMajorInverse(w, h, i); }
    else if i < n + m { RowMajorInverse(Half(w), Half(h), i - n); }
    else { RowMajorInverse(Half(w), Half(h), i - n - m); }
  }

  // ---- reading the source ----

  // Byte offset of pixel (x, y).
  function Offset(stride: nat, x: nat, y: nat): nat {
    y * stride + x * 4
  }

  function Readable(src: seq<Byte>, stride: nat, x: nat, y: nat): bool {
    Offset(stride, x, y) + 3 < |src|
  }

  function Pixel(src: seq<Byte>, stride: nat, pf: PixFmt, x: nat, y: nat): Rgb
    requires Readable(src, stride, x, y)
  {
    var off := Offset(stride, x, y);
    if pf == Argb then Rgb(src[off + 2], src[off + 1], src[off]) else Rgb(src[off], src[off + 1], src[off + 2])
  }

  datatype Source = Source(data: seq<Byte>, stride: nat, pf: PixFmt, w: nat, h: nat)

  // A pixel that exists and that the source is long enough to hold.
  function Present(f: Source, x: nat, y: nat): bool {
    x < f.w && y < f.h && Readable(f.data, f.stride, x, y)
  }

  function At(f: Source, x: nat, y: nat): Rgb
    requires Present(f, x, y)
  {
    Pixel(f.data, f.stride, f.pf, x, y)
  }

  // Sums over the present pixels of a 2x2 block: Cb, Cr and how many there are.
  datatype Acc = Acc(u: int, v: int, n: nat)

  function Plus(f: Source, a: Acc, x: nat, y: nat): Acc {
    if Present(f, x, y) then Acc(a.u + Cb(At(f, x, y)), a.v + Cr(At(f, x, y)), a.n + 1) else a
  }

  function BlockSum(f: Source, cx: nat, cy: nat): Acc {
    var x, y := 2 * cx, 2 * cy;
    Plus(f, Plus(f, Plus(f, Plus(f, Acc(0, 0, 0), x, y), x + 1, y), x, y + 1), x + 1, y + 1)
  }

  // Whether the conversion stores anything in a cell, and what.
  ghost predicate Stored(f: Source, c: Cell) {
    if c.Y? then Present(f, c.x, c.y) else BlockSum(f, c.x, c.y).n > 0
  }

  ghost function Value(f: Source, c: Cell, was: Byte): Byte {
    if !Stored(f, c) then was
    else match c
      case Y(x, y) => Luma(At(f, x, y))
      case U(x, y) => var a := BlockSum(f, x, y); Clamp8(a.u / a.n)
      case V(x, y) => var a := BlockSum(f, x, y); Clamp8(a.v / a.n)
  }

  // The buffer after the conversion: every cell has its value, what lies behind the planes is untouched.
  ghost function Converted(f: Source, was: seq<Byte>): (now: seq<Byte>)
    requires |was| >= YuvBufSize(f.w, f.h)
    ensures |now| == |was|
  {
    seq(|was|, i requires 0 <= i < |was| =>
      if i < YuvBufSize(f.w, f.h) then Value(f, CellAt(f.w, f.h, i), was[i]) else was[i])
  }

  // ---- the loops ----

  // One byte of the destination together with how often it has been stored.
  ghost predicate Cells(f: Source, was: seq<Byte>, now: seq<Byte>, hits: seq<nat>, done: Cell -> bool) {
    && |now| == |was| == |hits| && |was| >= YuvBufSize(f.w, f.h)
    && (forall i :: YuvBufSize(f.w, f.h) <= i < |was| ==> now[i] == was[i] && hits[i] == 0)
    && (forall i :: 0 <= i < YuvBufSize(f.w, f.h) ==>
         var c := CellAt(f.w, f.h, i);
         if done(c) then now[i] == Value(f, c, was[i]) && hits[i] == (if Stored(f, c) then 1 else 0)
         else now[i] == was[i] && hits[i] == 0)
  }

  // Storing one more cell.
  lemma StoreCell(f: Source, was: seq<Byte>, now: seq<Byte>, hits: seq<nat>, done: Cell -> bool, c: Cell,
                  next: Cell -> bool)
    requires Cells(f, was, now, hits, done) && InFrame(f.w, f.h, c) && !done(c)
    requires forall d :: InFrame(f.w, f.h, d) ==> (next(d) <==> done(d) || d == c)
    ensures Pos(f.w, f.h, c) < YuvBufSize(f.w, f.h)
    ensures Stored(f, c) ==> var i := Pos(f.w, f.h, c);
      Cells(f, was, now[i := Value(f, c, was[i])], hits[i := hits[i] + 1], next)
    ensures !Stored(f, c) ==> Cells(f, was, now, hits, next)
  {
    hide CellAt, Pos, BlockSum, Present, Luma, At, InFrame, YuvBufSize;
    PosThenCell(f.w, f.h, c);
    forall i | 0 <= i < YuvBufSize(f.w, f.h)
      ensures InFrame(f.w, f.h, CellAt(f.w, f.h, i)) && (CellAt(f.w, f.h, i) == c <==> i == Pos(f.w, f.h, c))
    {
      CellThenPos(f.w, f.h, i);
    }
  }

  lemma SameDone(f: Source, was: seq<Byte>, now: seq<Byte>, hits: seq<nat>, done: Cell -> bool, next: Cell -> bool)
    requires Cells(f, was, now, hits, done)
    requires forall d :: InFrame(f.w, f.h, d) ==> (done(d) <==> next(d))
    ensures Cells(f, was, now, hits, next)
  {
    hide CellAt, Value, Stored, InFrame, YuvBufSize;
    forall i | 0 <= i < YuvBufSize(f.w, f.h) ensures InFrame(f.w, f.h, CellAt(f.w, f.h, i)) {
      CellThenPos(f.w, f.h, i);
    }
  }

  // The cells finished before the loops turn to pixel (dx, dy) of block (col, row); dy == 2
  // stands for the two chroma samples at the end of the block.
  ghost predicate Before(c: Cell, col: nat, row: nat, dx: nat, dy: nat) {
    var (cx, cy) := if c.Y? then (c.x / 2, c.y / 2) else (c.x, c.y);
    cy < row || (cy == row && (cx < col || (cx == col && (
      match c
      case Y(x, y) => y % 2 < dy || (y % 2 == dy && x % 2 < dx)
      case U(_, _) => dy >= 2 && dx >= 1
      case V(_, _) => dy >= 2 && dx >= 2))))
  }

  // dst[i] = v, for the position and value of a cell.
  method Store(f: Source, dst: array<Byte>, i: nat, v: Byte, ghost c: Cell, ghost was: seq<Byte>, ghost hits: seq<nat>,
               ghost done: Cell -> bool, ghost next: Cell -> bool) returns (ghost hits': seq<nat>)
    requires Cells(f, was, dst[..], hits, done) && InFrame(f.w, f.h, c) && !done(c) && Stored(f, c)
    requires forall d :: InFrame(f.w, f.h, d) ==> (next(d) <==> done(d) || d == c)
    requires i == Pos(f.w, f.h, c) < YuvBufSize(f.w, f.h) && v == Value(f, c, was[i])
    modifies dst
    ensures Cells(f, was, dst[..], hits', next)
  {
    hide CellAt, Value, Stored, InFrame, YuvBufSize, Pos, BlockSum;
    StoreCell(f, was, dst[..], hits, done, c, next);
    ghost var before := dst[..];
    dst[i] := v;
    assert dst[..] == before[i := v];
    hits' := hits[i := hits[i] + 1];
  }

  lemma CellsSize(f: Source, was: seq<Byte>, now: seq<Byte>, hits: seq<nat>, done: Cell -> bool)
    requires Cells(f, was, now, hits, done)
    ensures |was| == |now| == |hits| && |was| >= YuvBufSize(f.w, f.h)
  {
  }

  // One pixel: its luma is stored and its chroma joins the sums of the block.
  method ConvertPixel(f: Source, dst: array<Byte>, col: nat, row: nat, dx: nat, dy: nat, a: Acc,
                      ghost was: seq<Byte>, ghost hits: seq<nat>) returns (a': Acc, ghost hits': seq<nat>)
    requires dx < 2 && dy < 2 && 2 * col + dx < f.w && 2 * row + dy < f.h
    requires Cells(f, was, dst[..], hits, c => Before(c, col, row, dx, dy))
    modifies dst
    ensures a' == Plus(f, a, 2 * col + dx, 2 * row + dy)
    ensures Cells(f, was, dst[..], hits', c => Before(c, col, row, dx + 1, dy))
  {
    hide CellAt, YuvBufSize, Cells;
    var x, y := 2 * col + dx, 2 * row + dy;
    ghost var start, end := c => Before(c, col, row, dx, dy), c => Before(c, col, row, dx + 1, dy);
    CellsSize(f, was, dst[..], hits, start);
    PosThenCell(f.w, f.h, Y(x, y));
    a', hits' := a, hits;
    var off := y * f.stride + x * 4;
    if off + 3 < |f.data| {
      var p := if f.pf == Argb then Rgb(f.data[off + 2], f.data[off + 1], f.data[off])
               else Rgb(f.data[off], f.data[off + 1], f.data[off + 2]);
      hits' := Store(f, dst, y * f.w + x, Clamp8(RawLuma(p)), Y(x, y), was, hits, start, end);
      a' := Acc(a.u + Cb(p), a.v + Cr(p), a.n + 1);
    } else {
      StoreCell(f, was, dst[..], hits, start, Y(x, y), end);
    }
  }

  // The chroma samples of a block, when any of its pixels was present.
  method StoreChroma(f: Source, dst: array<Byte>, col: nat, row: nat, a: Acc,
                     ghost was: seq<Byte>, ghost hits: seq<nat>) returns (ghost hits': seq<nat>)
    requires 2 * col < f.w && 2 * row < f.h && a == BlockSum(f, col, row)
    requires Cells(f, was, dst[..], hits, c => Before(c, col, row, 0, 2))
    modifies dst
    ensures Cells(f, was, dst[..], hits', c => Before(c, col + 1, row, 0, 0))
  {
    hide BlockSum, CellAt, YuvBufSize, Cells;
    ghost var start, middle := c => Before(c, col, row, 0, 2), c => Before(c, col, row, 1, 2);
    ghost var end := c => Before(c, col + 1, row, 0, 0);
    PosThenCell(f.w, f.h, U(col, row));
    PosThenCell(f.w, f.h, V(col, row));
    CellsSize(f, was, dst[..], hits, start);
    if a.n > 0 {
      var cw, ch := Half(f.w), Half(f.h);
      hits' := Store(f, dst, f.w * f.h + row * cw + col, Clamp8(a.u / a.n), U(col, row), was, hits, start, middle);
      hits' := Store(f, dst, f.w * f.h + cw * ch + row * cw + col, Clamp8(a.v / a.n), V(col, row),
                     was, hits', middle, end);
    } else {
      StoreCell(f, was, dst[..], hits, start, U(col, row), middle);
      StoreCell(f, was, dst[..], hits, middle, V(col, row), end);
      hits' := hits;
    }
  }

  // The sums after dx pixels of one row of a block, and after dy rows.
  function RowSum(f: Source, a: Acc, col: nat, y: nat, dx: nat): Acc {
    var b := if dx > 0 then Plus(f, a, 2 * col, y) else a;
    if dx > 1 then Plus(f, b, 2 * col + 1, y) else b
  }

  function RowsSum(f: Source, col: nat, row: nat, dy: nat): Acc {
    var b := if dy > 0 then RowSum(f, Acc(0, 0, 0), col, 2 * row, 2) else Acc(0, 0, 0);
    if dy > 1 then RowSum(f, b, col, 2 * row + 1, 2) else b
  }

  // Pixels outside the frame add nothing.
  lemma RowComplete(f: Source, a: Acc, col: nat, y: nat, dx: nat)
    requires dx <= 2 && (dx == 2 || 2 * col + dx >= f.w)
    ensures RowSum(f, a, col, y, dx) == RowSum(f, a, col, y, 2)
  {
  }

  lemma BlockComplete(f: Source, col: nat, row: nat, dy: nat)
    requires dy <= 2 && (dy == 2 || 2 * row + dy >= f.h)
    ensures RowsSum(f, col, row, dy) == BlockSum(f, col, row)
  {
  }

  // The two inner loops and the chroma of one block.
  method ConvertBlock(f: Source, dst: array<Byte>, col: nat, row: nat,
                      ghost was: seq<Byte>, ghost hits: seq<nat>) returns (ghost hits': seq<nat>)
    requires 2 * col < f.w && 2 * row < f.h
    requires Cells(f, was, dst[..], hits, c => Before(c, col, row, 0, 0))
    modifies dst
    ensures Cells(f, was, dst[..], hits', c => Before(c, col + 1, row, 0, 0))
  {
    hide Cells, Plus, BlockSum;
    hits' := hits;
    var a := Acc(0, 0, 0);
    var dy := 0;
    while dy < 2 && 2 * row + dy < f.h
      invariant 0 <= dy <= 2 && 2 * row + dy <= f.h
      invariant a == RowsSum(f, col, row, dy)
      invariant Cells(f, was, dst[..], hits', c => Before(c, col, row, 0, dy))
    {
      var dx := 0;
      while dx < 2 && 2 * col + dx < f.w
        invariant 0 <= dx <= 2 && 2 * col + dx <= f.w
        invariant a == RowSum(f, RowsSum(f, col, row, dy), col, 2 * row + dy, dx)
        invariant Cells(f, was, dst[..], hits', c => Before(c, col, row, dx, dy))
      {
        a, hits' := ConvertPixel(f, dst, col, row, dx, dy, a, was, hits');
        dx := dx + 1;
      }
      RowComplete(f, RowsSum(f, col, row, dy), col, 2 * row + dy, dx);
      SameDone(f, was, dst[..], hits', c => Before(c, col, row, dx, dy), c => Before(c, col, row, 0, dy + 1));
      dy := dy + 1;
    }
    BlockComplete(f, col, row, dy);
    SameDone(f, was, dst[..], hits', c => Before(c, col, row, 0, dy), c => Before(c, col, row, 0, 2));
    hits' := StoreChroma(f, dst, col, row, a, was, hits');
  }

  // rgbaLikeToI420. hits counts the stores into each byte.
  method RgbaLikeToI420(f: Source, dst: array<Byte>) returns (ghost hits: seq<nat>)
    requires dst.Length >= YuvBufSize(f.w, f.h)
    modifies dst
    ensures dst[..] == Converted(f, old(dst[..]))
    ensures |hits| == dst.Length
    ensures forall i :: 0 <= i < dst.Length ==>
      hits[i] == if i < YuvBufSize(f.w, f.h) && Stored(f, CellAt(f.w, f.h, i)) then 1 else 0
  {
    hide CellAt, YuvBufSize, Value, Stored;
    ghost var was := dst[..];
    hits := seq(dst.Length, _ => 0);
    var row := 0;
    SameDone(f, was, was, hits, c => false, c => Before(c, 0, 0, 0, 0));
    while 2 * row < f.h
      invariant Cells(f, was, dst[..], hits, c => Before(c, 0, row, 0, 0))
    {
      var col := 0;
      while 2 * col < f.w
        invariant Cells(f, was, dst[..], hits, c => Before(c, col, row, 0, 0))
      {
        hits := ConvertBlock(f, dst, col, row, was, hits);
        col := col + 1;
      }
      SameDone(f, was, dst[..], hits, c => Before(c, col, row, 0, 0), c => Before(c, 0, row + 1, 0, 0));
      row := row + 1;
    }
    SameDone(f, was, dst[..], hits, c => Before(c, 0, row, 0, 0), c => true);
    assert dst[..] == Converted(f, was);
  }

  // ---- what the conversion guarantees ----

  ghost predicate HoldsLastPixel(f: Source) {
    f.w == 0 || f.h == 0 || Readable(f.data, f.stride, f.w - 1, f.h - 1)
  }

  lemma HeldPixel(f: Source, x: nat, y: nat)
    requires HoldsLastPixel(f) && x < f.w && y < f.h
    ensures Present(f, x, y)
  {
    assert y * f.stride <= (f.h - 1) * f.stride;
  }

  lemma BlockCount(f: Source, cx: nat, cy: nat)
    ensures Present(f, 2 * cx, 2 * cy) ==> BlockSum(f, cx, cy).n > 0
  {
  }

  // Every byte of the three planes is stored, once, exactly when the source reaches its last pixel.
  lemma CompleteIff(f: Source)
    ensures (forall c :: InFrame(f.w, f.h, c) ==> Stored(f, c)) <==> HoldsLastPixel(f)
  {
    if HoldsLastPixel(f) {
      forall c | InFrame(f.w, f.h, c) ensures Stored(f, c) {
        if c.Y? {
          HeldPixel(f, c.x, c.y);
        } else {
          HeldPixel(f, 2 * c.x, 2 * c.y);
          BlockCount(f, c.x, c.y);
        }
      }
    } else {
      assert InFrame(f.w, f.h, Y(f.w - 1, f.h - 1));
      assert !Stored(f, Y(f.w - 1, f.h - 1));
    }
  }

  ghost predicate Within(a: Acc, low: int, high: int) {
    low * a.n <= a.u <= high * a.n && low * a.n <= a.v <= high * a.n
  }

  lemma PlusWithin(f: Source, a: Acc, x: nat, y: nat)
    requires Within(a, 16, 240)
    ensures Within(Plus(f, a, x, y), 16, 240)
  {
    if Present(f, x, y) { StudioRange(At(f, x, y)); }
  }

  lemma MeanWithin(sum: int, n: nat, low: int, high: int)
    requires n > 0 && low * n <= sum <= high * n
    ensures low <= sum / n <= high
  {
    var q := sum / n;
    WholeMultiple(q - high, n);
    WholeMultiple(q - low + 1, n);
    assert q * n <= sum < q * n + n;
    assert (q - high) * n == q * n - high * n && (q - low + 1) * n == q * n - low * n + n;
  }

  // Chroma stays in its studio range whatever part of a block is present, so neither clamp nor truncation bites.
  lemma ChromaRange(f: Source, cx: nat, cy: nat)
    requires BlockSum(f, cx, cy).n > 0
    ensures var a := BlockSum(f, cx, cy); 16 <= a.u / a.n <= 240 && 16 <= a.v / a.n <= 240
  {
    hide Present, Cb, Cr, At;
    var x, y := 2 * cx, 2 * cy;
    var a0 := Acc(0, 0, 0);
    var a1 := Plus(f, a0, x, y);
    var a2 := Plus(f, a1, x + 1, y);
    var a3 := Plus(f, a2, x, y + 1);
    PlusWithin(f, a0, x, y);
    PlusWithin(f, a1, x + 1, y);
    PlusWithin(f, a2, x, y + 1);
    PlusWithin(f, a3, x + 1, y + 1);
    var a := BlockSum(f, cx, cy);
    MeanWithin(a.u, a.n, 16, 240);
    MeanWithin(a.v, a.n, 16, 240);
  }

  lemma GreyStep(f: Source, a: Acc, x: nat, y: nat)
    requires Present(f, x, y) ==> var p := At(f, x, y); p.r == p.g == p.b
    requires Within(a, 128, 128)
    ensures Within(Plus(f, a, x, y), 128, 128)
  {
    if Present(f, x, y) { GreyHasNoColour(At(f, x, y).r); }
  }

  // A grey picture has neutral chroma everywhere.
  lemma GreyIsNeutral(f: Source, c: Cell, was: Byte)
    requires forall x, y :: Present(f, x, y) ==> var p := At(f, x, y); p.r == p.g == p.b
    requires !c.Y? && Stored(f, c)
    ensures Value(f, c, was) == 128
  {
    hide Present, At, Cb, Cr, RawLuma;
    var x, y := 2 * c.x, 2 * c.y;
    var a1 := Plus(f, Acc(0, 0, 0), x, y);
    var a2 := Plus(f, a1, x + 1, y);
    var a3 := Plus(f, a2, x, y + 1);
    GreyStep(f, Acc(0, 0, 0), x, y);
    GreyStep(f, a1, x + 1, y);
    GreyStep(f, a2, x, y + 1);
    GreyStep(f, a3, x + 1, y + 1);
    var a := BlockSum(f, c.x, c.y);
    MeanWithin(a.u, a.n, 128, 128);
    MeanWithin(a.v, a.n, 128, 128);
  }

  // ---- bytes in, bytes out ----

  // Byte y*w + x of the result is the luma of the four bytes at y*stride + 4*x of the source, which are R, G, B, A for
  // every format but ARGB and B, G, R, A for that; where the source is too short for them it stays as it was.
  lemma LumaSample(f: Source, was: seq<Byte>, x: nat, y: nat, off: nat, p: Rgb, i: nat)
    requires |was| >= YuvBufSize(f.w, f.h) && x < f.w && y < f.h
    requires off == y * f.stride + 4 * x && i == y * f.w + x
    requires off + 3 < |f.data| ==>
      p == if f.pf == Argb then Rgb(f.data[off + 2], f.data[off + 1], f.data[off])
           else Rgb(f.data[off], f.data[off + 1], f.data[off + 2])
    ensures i < |was| && Converted(f, was)[i] == if off + 3 < |f.data| then Luma(p) else was[i]
  {
    hide CellAt, Luma, BlockSum, YuvBufSize;
    PosThenCell(f.w, f.h, Y(x, y));
    assert Offset(f.stride, x, y) == off;
  }

  lemma ChromaPlaces(w: nat, h: nat, cx: nat, cy: nat)
    requires cx < (w + 1) / 2 && cy < (h + 1) / 2
    ensures var cw, ch := (w + 1) / 2, (h + 1) / 2; var i := w * h + cy * cw + cx;
      && Pos(w, h, U(cx, cy)) == i && Pos(w, h, V(cx, cy)) == i + cw * ch && i + cw * ch < YuvBufSize(w, h)
      && CellAt(w, h, i) == U(cx, cy) && CellAt(w, h, i + cw * ch) == V(cx, cy)
  {
    hide CellAt;
    PosThenCell(w, h, U(cx, cy));
    PosThenCell(w, h, V(cx, cy));
  }

  lemma SumsOfBlock(f: Source, cx: nat, cy: nat)
    ensures var a, x, y := BlockSum(f, cx, cy), 2 * cx, 2 * cy;
      && a.n == (if Present(f, x, y) then 1 else 0) + (if Present(f, x + 1, y) then 1 else 0)
              + (if Present(f, x, y + 1) then 1 else 0) + (if Present(f, x + 1, y + 1) then 1 else 0)
      && a.u == (if Present(f, x, y) then Cb(At(f, x, y)) else 0)
              + (if Present(f, x + 1, y) then Cb(At(f, x + 1, y)) else 0)
              + (if Present(f, x, y + 1) then Cb(At(f, x, y + 1)) else 0)
              + (if Present(f, x + 1, y + 1) then Cb(At(f, x + 1, y + 1)) else 0)
      && a.v == (if Present(f, x, y) then Cr(At(f, x, y)) else 0)
              + (if Present(f, x + 1, y) then Cr(At(f, x + 1, y)) else 0)
              + (if Present(f, x, y + 1) then Cr(At(f, x, y + 1)) else 0)
              + (if Present(f, x + 1, y + 1) then Cr(At(f, x + 1, y + 1)) else 0)
  {
    hide Present, At, Cb, Cr;
  }

  // Where the Cb and the Cr of block (cx, cy) are: behind the luma, and behind each other, row after row.
  ghost predicate ChromaAt(w: nat, h: nat, cx: nat, cy: nat, i: nat, j: nat) {
    && cx < (w + 1) / 2 && cy < (h + 1) / 2
    && i == w * h + cy * ((w + 1) / 2) + cx && j == i + (w + 1) / 2 * ((h + 1) / 2)
  }

  // The chroma of a block is the mean over those of its four pixels that are there. Without any, both samples stay as
  // they were.
  lemma ChromaSample(f: Source, was: seq<Byte>, cx: nat, cy: nat, i: nat, j: nat)
    requires |was| >= YuvBufSize(f.w, f.h) && ChromaAt(f.w, f.h, cx, cy, i, j)
    ensures i < |was| && j < |was|
    ensures var a, now := BlockSum(f, cx, cy), Converted(f, was);
      && (a.n > 0 ==> now[i] == a.u / a.n && now[j] == a.v / a.n)
      && (a.n == 0 ==> now[i] == was[i] && now[j] == was[j])
  {
    hide CellAt, BlockSum, YuvBufSize, Pos;
    ChromaPlaces(f.w, f.h, cx, cy);
    if BlockSum(f, cx, cy).n > 0 { ChromaRange(f, cx, cy); }
  }

  lemma SameMean(sum: int, n: nat, four: int)
    requires (n == 1 && four == 4 * sum) || (n == 2 && four == 2 * sum) || (n == 4 && four == sum)
    ensures sum / n == four / 4
  {
  }

  lemma EdgeSums(f: Source, cx: nat, cy: nat)
    requires 2 * cx < f.w && 2 * cy < f.h && HoldsLastPixel(f)
    ensures var x, y, a := 2 * cx, 2 * cy, BlockSum(f, cx, cy);
      var r, d := if x + 1 < f.w then x + 1 else x, if y + 1 < f.h then y + 1 else y;
      && Present(f, x, y) && Present(f, r, y) && Present(f, x, d) && Present(f, r, d) && a.n in {1, 2, 4}
      && (Cb(At(f, x, y)) + Cb(At(f, r, y)) + Cb(At(f, x, d)) + Cb(At(f, r, d))) * a.n == 4 * a.u
      && (Cr(At(f, x, y)) + Cr(At(f, r, y)) + Cr(At(f, x, d)) + Cr(At(f, r, d))) * a.n == 4 * a.v
  {
    hide At, Cb, Cr, BlockSum, Readable, HoldsLastPixel;
    var x, y := 2 * cx, 2 * cy;
    var r, d := if x + 1 < f.w then x + 1 else x, if y + 1 < f.h then y + 1 else y;
    HeldPixel(f, x, y);
    HeldPixel(f, r, y);
    HeldPixel(f, x, d);
    HeldPixel(f, r, d);
    SumsOfBlock(f, cx, cy);
  }

  // Blocks that stick out of the frame take their chroma as if the last column and the last row were repeated.
  lemma EdgesRepeat(f: Source, was: seq<Byte>, cx: nat, cy: nat, i: nat, j: nat)
    requires |was| >= YuvBufSize(f.w, f.h) && ChromaAt(f.w, f.h, cx, cy, i, j) && HoldsLastPixel(f)
    ensures i < |was| && j < |was|
    ensures var x, y, now := 2 * cx, 2 * cy, Converted(f, was);
      var r, d := if x + 1 < f.w then x + 1 else x, if y + 1 < f.h then y + 1 else y;
      && Present(f, x, y) && Present(f, r, y) && Present(f, x, d) && Present(f, r, d)
      && now[i] == (Cb(At(f, x, y)) + Cb(At(f, r, y)) + Cb(At(f, x, d)) + Cb(At(f, r, d))) / 4
      && now[j] == (Cr(At(f, x, y)) + Cr(At(f, r, y)) + Cr(At(f, x, d)) + Cr(At(f, r, d))) / 4
  {
    hide At, Cb, Cr, Converted, BlockSum, Present, YuvBufSize, HoldsLastPixel;
    var x, y, a := 2 * cx, 2 * cy, BlockSum(f, cx, cy);
    var r, d := if x + 1 < f.w then x + 1 else x, if y + 1 < f.h then y + 1 else y;
    EdgeSums(f, cx, cy);
    ChromaSample(f, was, cx, cy, i, j);
    SameMean(a.u, a.n, Cb(At(f, x, y)) + Cb(At(f, r, y)) + Cb(At(f, x, d)) + Cb(At(f, r, d)));
    SameMean(a.v, a.n, Cr(At(f, x, y)) + Cr(At(f, r, y)) + Cr(At(f, x, d)) + Cr(At(f, r, d)));
  }

  // The same picture in the other byte order: f as R, G, B, A and g as B, G, R, A.
  ghost predicate BytesExchanged(f: Source, g: Source) {
    && g.w == f.w && g.h == f.h && g.stride == f.stride && |g.data| == |f.data| && f.pf != Argb && g.pf == Argb
    && forall x, y :: 0 <= x < f.w && 0 <= y < f.h && Readable(f.data, f.stride, x, y) ==>
         var off := y * f.stride + 4 * x;
         g.data[off] == f.data[off + 2] && g.data[off + 1] == f.data[off + 1] && g.data[off + 2] == f.data[off]
  }

  lemma SamePixel(f: Source, g: Source, x: nat, y: nat)
    requires BytesExchanged(f, g)
    ensures Present(f, x, y) <==> Present(g, x, y)
    ensures Present(f, x, y) ==> At(f, x, y) == At(g, x, y)
  {
  }

  lemma SameValue(f: Source, g: Source, c: Cell, was: Byte)
    requires BytesExchanged(f, g)
    ensures Value(f, c, was) == Value(g, c, was)
  {
    hide At, Cb, Cr, Luma, Present, BytesExchanged;
    if c.Y? {
      SamePixel(f, g, c.x, c.y);
    } else {
      SamePixel(f, g, 2 * c.x, 2 * c.y);
      SamePixel(f, g, 2 * c.x + 1, 2 * c.y);
      SamePixel(f, g, 2 * c.x, 2 * c.y + 1);
      SamePixel(f, g, 2 * c.x + 1, 2 * c.y + 1);
    }
  }

  // Exchanging bytes 0 and 2 of every pixel together with the format changes nothing in the result.
  lemma FormatsAgree(f: Source, g: Source, was: seq<Byte>)
    requires BytesExchanged(f, g) && |was| >= YuvBufSize(f.w, f.h)
    ensures Converted(f, was) == Converted(g, was)
  {
    hide Value, CellAt, YuvBufSize;
    forall i | 0 <= i < YuvBufSize(f.w, f.h)
      ensures Value(f, CellAt(f.w, f.h, i), was[i]) == Value(g, CellAt(f.w, f.h, i), was[i])
    {
      SameValue(f, g, CellAt(f.w, f.h, i), was[i]);
    }
  }

  ghost predicate OneColour(f: Source, p: Rgb) {
    forall x, y :: 0 <= x < f.w && 0 <= y < f.h ==> Present(f, x, y) && At(f, x, y) == p
  }

  lemma SumsOfColour(f: Source, cx: nat, cy: nat, p: Rgb)
    requires OneColour(f, p) && 2 * cx < f.w && 2 * cy < f.h
    ensures var a := BlockSum(f, cx, cy); a.n > 0 && a.u == Cb(p) * a.n && a.v == Cr(p) * a.n
  {
    hide At, Cb, Cr, BlockSum, Readable;
    SumsOfBlock(f, cx, cy);
    assert Present(f, 2 * cx, 2 * cy);
  }

  // A frame of one colour: its luma, its Cb and its Cr fill the three planes, in this order.
  lemma PlanesOfColour(f: Source, was: seq<Byte>, p: Rgb, i: nat)
    requires OneColour(f, p) && YuvBufSize(f.w, f.h) <= |was| && i < |was|
    ensures var n, m := f.w * f.h, (f.w + 1) / 2 * ((f.h + 1) / 2);
      Converted(f, was)[i] ==
        if i < n then Luma(p) else if i < n + m then Cb(p) else if i < n + 2 * m then Cr(p) else was[i]
  {
    hide At, Cb, Cr, Luma, BlockSum;
    if i < YuvBufSize(f.w, f.h) {
      CellThenPos(f.w, f.h, i);
      var c := CellAt(f.w, f.h, i);
      if !c.Y? {
        StudioRange(p);
        SumsOfColour(f, c.x, c.y, p);
        var a := BlockSum(f, c.x, c.y);
        MeanWithin(a.u, a.n, Cb(p), Cb(p));
        MeanWithin(a.v, a.n, Cr(p), Cr(p));
      }
    }
  }

  // The bytes 255, 0, 0 are red in every format but ARGB, where they are blue.
  lemma RedOrBlue(f: Source, was: seq<Byte>, i: nat)
    requires forall x, y :: 0 <= x < f.w && 0 <= y < f.h ==>
      Readable(f.data, f.stride, x, y) &&
      var off := y * f.stride + 4 * x; f.data[off] == 255 && f.data[off + 1] == 0 && f.data[off + 2] == 0
    requires YuvBufSize(f.w, f.h) <= |was| && i < YuvBufSize(f.w, f.h)
    ensures var n, m := f.w * f.h, (f.w + 1) / 2 * ((f.h + 1) / 2);
      Converted(f, was)[i] ==
        if f.pf == Argb then (if i < n then 41 else if i < n + m then 240 else 110)
        else (if i < n then 82 else if i < n + m then 90 else 240)
  {
    hide Converted;
    var p := if f.pf == Argb then Rgb(0, 0, 255) else Rgb(255, 0, 0);
    PlanesOfColour(f, was, p, i);
  }

  // ---- the buffer as an image ----

  // ToYCbCr: three slices of one buffer, read with strides w, Half(w) and Half(w).
  datatype Planes = Planes(y: seq<Byte>, cb: seq<Byte>, cr: seq<Byte>)

  function ToYCbCr(bytes: seq<Byte>, w: nat, h: nat): Planes
    requires |bytes| >= YuvBufSize(w, h)
  {
    var n, m := w * h, Half(w) * Half(h);
    Planes(bytes[..n], bytes[n..n + m], bytes[n + m..n + 2 * m])
  }

  // A byte of the image: the plane the cell belongs to, at its row and column.
  ghost predicate ImageShows(p: Planes, w: nat, c: Cell, v: Byte) {
    match c
    case Y(x, y) => RowIndex(w, x, y) < |p.y| && p.y[RowIndex(w, x, y)] == v
    case U(x, y) => RowIndex(Half(w), x, y) < |p.cb| && p.cb[RowIndex(Half(w), x, y)] == v
    case V(x, y) => RowIndex(Half(w), x, y) < |p.cr| && p.cr[RowIndex(Half(w), x, y)] == v
  }

  // The image view cuts the buffer into its planes: first the luma, then Cb, then Cr.
  lemma ImageSlices(bytes: seq<Byte>, w: nat, h: nat, cx: nat, cy: nat, i: nat, j: nat, k: nat)
    requires |bytes| >= YuvBufSize(w, h) && ChromaAt(w, h, cx, cy, i, j) && k == cy * ((w + 1) / 2) + cx
    ensures var p := ToYCbCr(bytes, w, h);
      && |p.y| == w * h && p.y <= bytes
      && k < |p.cb| && i < |bytes| && p.cb[k] == bytes[i]
      && k < |p.cr| && j < |bytes| && p.cr[k] == bytes[j]
  {
    hide Coords;
    RowMajor(Half(w), Half(h), cx, cy);
  }

  // The image view of a converted buffer shows every cell with its value.
  lemma ImageOfConverted(f: Source, was: seq<Byte>, c: Cell)
    requires |was| >= YuvBufSize(f.w, f.h) && InFrame(f.w, f.h, c)
    ensures Pos(f.w, f.h, c) < |was|
    ensures ImageShows(ToYCbCr(Converted(f, was), f.w, f.h), f.w, c, Value(f, c, was[Pos(f.w, f.h, c)]))
  {
    hide RowIndex, Coords, Half, Value, CellAt;
    PosThenCell(f.w, f.h, c);
    if c.Y? { RowMajor(f.w, f.h, c.x, c.y); } else { RowMajor(Half(f.w), Half(f.h), c.x, c.y); }
  }
}
