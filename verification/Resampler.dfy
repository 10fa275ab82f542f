// Stereo resampling in 16.16 fixed point.
module Resampler {
  type Sample = x: int | -0x8000 <= x < 0x8000

  const ONE := 0x1_0000  // 1.0 in 16.16

  // Conversions to int32 and int16 keep the low bits.
  function Int32(x: int): (r: int)
    ensures -0x8000_0000 <= r < 0x8000_0000
  {
    (x + 0x8000_0000) % 0x1_0000_0000 - 0x8000_0000
  }

  function Int16(x: int): (r: Sample) {
    (x + 0x8000) % 0x1_0000 - 0x8000
  }

  // int16(l + ((r-l)*frac)>>16), the product in int32.
  function Lerp(l: Sample, r: Sample, frac: int): Sample {
    Int16(Int32(l + Int32((r - l) * frac) / ONE))
  }

  // ---- interpolation of one sample ----

  lemma FloorShift(p: int, wraps: int)
    ensures (p - wraps * 0x1_0000_0000) / ONE == p / ONE - wraps * ONE
  {
    assert p - wraps * 0x1_0000_0000 == (p / ONE - wraps * ONE) * ONE + p % ONE;
  }

  lemma FloorBetween(d: int, frac: int)
    requires 0 <= frac < ONE
    ensures d >= 0 ==> 0 <= d * frac / ONE <= d
    ensures d <= 0 ==> d <= d * frac / ONE <= 0
  {
    if d >= 0 {
      assert 0 <= d * frac <= d * ONE;
    } else {
      assert d * ONE <= d * frac <= 0;
    }
  }

  lemma WrapCount(p: int) returns (wraps: int)
    ensures Int32(p) == p - wraps * 0x1_0000_0000
  {
    wraps := (p + 0x8000_0000) / 0x1_0000_0000;
  }

  lemma SmallInt16(x: int)
    requires -0x8000 <= x < 0x8000
    ensures Int16(x) == x
  {
  }

  lemma InRange32(x: int)
    ensures -0x8000_0000 <= x < 0x8000_0000 <==> Int32(x) == x
  {
  }

  lemma Int16Period(x: int, k: int)
    ensures Int16(x - k * ONE) == Int16(x)
  {
    assert (x - k * ONE + 0x8000) % 0x1_0000 == (x + 0x8000) % 0x1_0000 by {
      var y := x + 0x8000;
      assert y - k * 0x1_0000 == (y / 0x1_0000 - k) * 0x1_0000 + y % 0x1_0000;
    }
  }

  lemma WrappedShift(l: Sample, p: int)
    requires -0x8000 <= l + p / ONE < 0x8000
    ensures Int16(Int32(l + Int32(p) / ONE)) == l + p / ONE
  {
    var wraps := WrapCount(p);
    var low := Int32(p);
    FloorShift(p, wraps);
    hide Int32, Int16;
    var shifted := low / ONE;
    assert -0x8000 <= shifted < 0x8000;
    InRange32(l + shifted);
    Int16Period(l + p / ONE, wraps);
    SmallInt16(l + p / ONE);
  }

  // Even when the 32-bit product wraps, the shift turns the lost 2^32 into a lost 2^16,
  // which the conversion back to 16 bits drops: the interpolated value is always exact.
  lemma LerpExact(l: Sample, r: Sample, frac: int)
    requires 0 <= frac < ONE
    ensures Lerp(l, r, frac) == l + (r - l) * frac / ONE
    ensures if l <= r then l <= Lerp(l, r, frac) <= r else r <= Lerp(l, r, frac) <= l
  {
    var d := r - l;
    FloorBetween(d, frac);
    WrappedShift(l, d * frac);
  }

  lemma MulMonotone(a: int, b: int, c: nat)
    requires a <= b
    ensures a * c <= b * c
  {
  }

  lemma ProductRange(d: int, frac: int)
    requires -0x8000 <= d <= 0x8000 && 0 <= frac < ONE
    ensures -0x8000_0000 <= d * frac < 0x8000_0000
  {
    var top := 0xFFFF;
    MulMonotone(d, 0x8000, frac);
    MulMonotone(-0x8000, d, frac);
    MulMonotone(frac, top, 0x8000);
  }

  // The 32-bit product itself is exact for every fraction just when the neighbours differ by at most 32768.
  lemma ProductFitsIff(d: int)
    ensures (forall frac :: 0 <= frac < ONE ==> Int32(d * frac) == d * frac) <==> -0x8000 <= d <= 0x8000
  {
    if -0x8000 <= d <= 0x8000 {
      forall frac | 0 <= frac < ONE ensures Int32(d * frac) == d * frac {
        ProductRange(d, frac);
        InRange32(d * frac);
      }
    } else {
      var worst := 0xFFFF;
      InRange32(d * worst);
      assert Int32(d * worst) != d * worst;
    }
  }

  // ---- positions ----

  // Step between output positions: floor(pairs * 2^16 / steps).
  function Ratio(pairs: nat, steps: nat): nat
    requires steps > 0
  {
    pairs * ONE / steps
  }

  lemma MulBound(a: nat, b: nat, n: nat)
    requires a < n && b < n
    ensures 0 <= a * b < n * n
  {
    assert a * b <= a * n;
    assert a * n <= (n - 1) * n;
  }

  // The k-th position lags k*pairs/steps by k*(remainder)/steps, which is below steps.
  lemma Lag(pairs: nat, steps: nat, k: nat)
    requires 0 < steps && k < steps
    ensures var exact, pos := k * (pairs * ONE), k * Ratio(pairs, steps);
      0 <= exact - pos * steps == k * ((pairs * ONE) % steps) < steps * steps
  {
    var t, rem := pairs * ONE, (pairs * ONE) % steps;
    var ratio := Ratio(pairs, steps);
    assert t == ratio * steps + rem;
    assert k * t == k * (ratio * steps) + k * rem;
    assert k * (ratio * steps) == (k * ratio) * steps;
    MulBound(k, rem, steps);
  }

  lemma PositionInside(pairs: nat, steps: nat, k: nat)
    requires 0 < steps && k < steps && pairs > 0
    ensures 0 <= k * Ratio(pairs, steps) / ONE < pairs
  {
    var pos, ratio := k * Ratio(pairs, steps), Ratio(pairs, steps);
    assert ratio * steps <= pairs * ONE;
    if ratio > 0 {
      assert pos < ratio * steps by { assert k * ratio < steps * ratio; }
    }
  }

  // ---- what the two loops write ----

  // Channel c (0 left, 1 right) of output pair k.
  function LinearAt(src: seq<Sample>, dstPairs: nat, k: nat, c: nat): Sample
    requires |src| >= 4 && dstPairs >= 2 && k < dstPairs && c < 2
  {
    if k == dstPairs - 1 then src[|src| - 2 + c] else
      var pos := k * Ratio(|src| / 2 - 1, dstPairs - 1);
      PositionInside(|src| / 2 - 1, dstPairs - 1, k);
      var idx := 2 * (pos / ONE);
      Lerp(src[idx + c], src[idx + 2 + c], pos % ONE)
  }

  function NearestAt(src: seq<Sample>, dstPairs: nat, k: nat, c: nat): Sample
    requires |src| >= 4 && dstPairs >= 2 && k < dstPairs && c < 2
  {
    var pos := k * Ratio(|src| / 2, dstPairs);
    PositionInside(|src| / 2, dstPairs, k);
    src[2 * (pos / ONE) + c]
  }

  datatype Algorithm = NearestPair | LinearBlend

  function PairAt(algo: Algorithm, src: seq<Sample>, dstPairs: nat, k: nat, c: nat): Sample
    requires |src| >= 4 && dstPairs >= 2 && k < dstPairs && c < 2
  {
    if algo == LinearBlend then LinearAt(src, dstPairs, k, c) else NearestAt(src, dstPairs, k, c)
  }

  // Entry i of the output: pairs in order, a lone pair on either side replicates the first
  // input pair, and nothing is written without a whole pair on both sides.
  function OutputAt(algo: Algorithm, src: seq<Sample>, was: seq<Sample>, i: nat): Sample
    requires i < |was|
  {
    if |src| < 2 || i >= |was| / 2 * 2 then was[i]
    else if |src| / 2 == 1 || |was| / 2 == 1 then src[i % 2]
    else PairAt(algo, src, |was| / 2, i / 2, i % 2)
  }

  // What the loops of Linear and Nearest have filled in after i pairs.
  ghost predicate Filled(was: seq<Sample>, now: seq<Sample>, algo: Algorithm, src: seq<Sample>, dstPairs: nat, i: nat)
    requires |src| >= 4 && 2 <= dstPairs && i <= dstPairs && 2 * dstPairs <= |was|
  {
    && |now| == |was|
    && (forall p :: 0 <= p < 2 * i ==> now[p] == PairAt(algo, src, dstPairs, p / 2, p % 2))
    && (forall p :: 2 * i <= p < |was| ==> now[p] == was[p])
  }

  lemma FillStep(was: seq<Sample>, before: seq<Sample>, algo: Algorithm, src: seq<Sample>, dstPairs: nat, i: nat)
    requires |src| >= 4 && 2 <= dstPairs && i < dstPairs && 2 * dstPairs <= |was|
    requires Filled(was, before, algo, src, dstPairs, i)
    ensures var l, r := PairAt(algo, src, dstPairs, i, 0), PairAt(algo, src, dstPairs, i, 1);
      var after := before[2 * i := l][2 * i + 1 := r];
      Filled(was, after, algo, src, dstPairs, i + 1)
  {
    hide PairAt;
  }

  method Replicate(dst: array<Sample>, dstPairs: nat, src: seq<Sample>)
    requires 2 * dstPairs <= dst.Length && |src| >= 2
    modifies dst
    ensures forall p :: 0 <= p < 2 * dstPairs ==> dst[p] == src[p % 2]
    ensures forall p :: 2 * dstPairs <= p < dst.Length ==> dst[p] == old(dst[p])
  {
    for i := 0 to dstPairs
      invariant forall p :: 0 <= p < 2 * i ==> dst[p] == src[p % 2]
      invariant forall p :: 2 * i <= p < dst.Length ==> dst[p] == old(dst[p])
    {
      dst[i * 2], dst[i * 2 + 1] := src[0], src[1];
    }
  }

  lemma LinearStep(src: seq<Sample>, dstPairs: nat, i: nat, pos: nat)
    requires |src| >= 4 && dstPairs >= 2 && i < dstPairs - 1
    requires pos == i * Ratio(|src| / 2 - 1, dstPairs - 1)
    ensures var idx, frac := pos / ONE * 2, pos % ONE;
      idx + 3 < |src| &&
      LinearAt(src, dstPairs, i, 0) == Lerp(src[idx], src[idx + 2], frac) &&
      LinearAt(src, dstPairs, i, 1) == Lerp(src[idx + 1], src[idx + 3], frac)
  {
    hide Lerp, Ratio;
    PositionInside(|src| / 2 - 1, dstPairs - 1, i);
  }

  lemma NextPosition(i: nat, ratio: nat)
    ensures (i + 1) * ratio == i * ratio + ratio
  {
  }

  lemma LastPair(src: seq<Sample>, dstPairs: nat)
    requires |src| >= 4 && dstPairs >= 2
    ensures LinearAt(src, dstPairs, dstPairs - 1, 0) == src[|src| - 2]
    ensures LinearAt(src, dstPairs, dstPairs - 1, 1) == src[|src| - 1]
  {
  }

  method Linear(dst: array<Sample>, nDst: nat, src: seq<Sample>)
    requires nDst <= dst.Length
    modifies dst
    ensures forall i :: 0 <= i < nDst ==> dst[i] == OutputAt(LinearBlend, src, old(dst[..nDst]), i)
    ensures forall i :: nDst <= i < dst.Length ==> dst[i] == old(dst[i])
  {
    hide LinearAt, NearestAt, Ratio, Lerp;
    ghost var was := dst[..];
    var nSrc := |src|;
    if nSrc < 2 || nDst < 2 {
      return;
    }
    var srcPairs, dstPairs := nSrc / 2, nDst / 2;
    if srcPairs == 1 || dstPairs == 1 {
      Replicate(dst, dstPairs, src);
      return;
    }
    var ratio := Ratio(srcPairs - 1, dstPairs - 1);
    var lastSrc := nSrc - 2;
    var i, pos := 0, 0;
    while i < dstPairs - 1
      invariant 0 <= i <= dstPairs - 1 && pos == i * ratio
      invariant Filled(was, dst[..], LinearBlend, src, dstPairs, i)
    {
      LinearStep(src, dstPairs, i, pos);
      FillStep(was, dst[..], LinearBlend, src, dstPairs, i);
      var idx := pos / ONE * 2;
      var di := i * 2;
      var frac := pos % ONE;
      dst[di] := Lerp(src[idx], src[idx + 2], frac);
      dst[di + 1] := Lerp(src[idx + 1], src[idx + 3], frac);
      NextPosition(i, ratio);
      i, pos := i + 1, pos + ratio;
    }
    var lastDst := (dstPairs - 1) * 2;
    LastPair(src, dstPairs);
    FillStep(was, dst[..], LinearBlend, src, dstPairs, dstPairs - 1);
    dst[lastDst], dst[lastDst + 1] := src[lastSrc], src[lastSrc + 1];
    assert Filled(was, dst[..], LinearBlend, src, dstPairs, dstPairs);
  }

  lemma NearestStep(src: seq<Sample>, dstPairs: nat, i: nat, pos: nat)
    requires |src| >= 4 && dstPairs >= 2 && i < dstPairs
    requires pos == i * Ratio(|src| / 2, dstPairs)
    ensures var si := pos / ONE * 2;
      si + 1 < |src| && NearestAt(src, dstPairs, i, 0) == src[si] && NearestAt(src, dstPairs, i, 1) == src[si + 1]
  {
    hide Ratio;
    PositionInside(|src| / 2, dstPairs, i);
  }

  method Nearest(dst: array<Sample>, nDst: nat, src: seq<Sample>)
    requires nDst <= dst.Length
    modifies dst
    ensures forall i :: 0 <= i < nDst ==> dst[i] == OutputAt(NearestPair, src, old(dst[..nDst]), i)
    ensures forall i :: nDst <= i < dst.Length ==> dst[i] == old(dst[i])
  {
    hide LinearAt, NearestAt, Ratio;
    ghost var was := dst[..];
    var nSrc := |src|;
    if nSrc < 2 || nDst < 2 {
      return;
    }
    var srcPairs, dstPairs := nSrc / 2, nDst / 2;
    if srcPairs == 1 || dstPairs == 1 {
      Replicate(dst, dstPairs, src);
      return;
    }
    var ratio := Ratio(srcPairs, dstPairs);
    var i, pos := 0, 0;
    while i < dstPairs
      invariant 0 <= i <= dstPairs && pos == i * ratio
      invariant Filled(was, dst[..], NearestPair, src, dstPairs, i)
    {
      NearestStep(src, dstPairs, i, pos);
      FillStep(was, dst[..], NearestPair, src, dstPairs, i);
      var si := pos / ONE * 2;
      var di := i * 2;
      dst[di], dst[di + 1] := src[si], src[si + 1];
      NextPosition(i, ratio);
      i, pos := i + 1, pos + ratio;
    }
  }

  // ---- what that output means ----

  // A channel of the input that never falls.
  ghost predicate Rising(src: seq<Sample>, c: nat)
    requires c < 2
  {
    forall p, q :: 0 <= p <= q < |src| / 2 ==> src[2 * p + c] <= src[2 * q + c]
  }

  lemma KeepsEnds(src: seq<Sample>, dstPairs: nat, c: nat)
    requires |src| >= 4 && |src| % 2 == 0 && dstPairs >= 2 && c < 2
    ensures LinearAt(src, dstPairs, 0, c) == src[c]
    ensures LinearAt(src, dstPairs, dstPairs - 1, c) == src[2 * (|src| / 2 - 1) + c]
  {
    hide Ratio, Lerp;
    assert 0 * Ratio(|src| / 2 - 1, dstPairs - 1) == 0;
    PositionInside(|src| / 2 - 1, dstPairs - 1, 0);
    LerpExact(src[c], src[2 + c], 0);
  }

  // The interval [src[p], src[p+1]] that output k falls into, and its fraction.
  lemma BetweenNeighbours(src: seq<Sample>, dstPairs: nat, k: nat, c: nat) returns (p: nat)
    requires |src| >= 4 && dstPairs >= 2 && k < dstPairs - 1 && c < 2
    ensures p == k * Ratio(|src| / 2 - 1, dstPairs - 1) / ONE && p + 1 < |src| / 2
    ensures var a, b, out := src[2 * p + c], src[2 * (p + 1) + c], LinearAt(src, dstPairs, k, c);
      if a <= b then a <= out <= b else b <= out <= a
  {
    hide Ratio, Lerp;
    var pos := k * Ratio(|src| / 2 - 1, dstPairs - 1);
    PositionInside(|src| / 2 - 1, dstPairs - 1, k);
    p := pos / ONE;
    LerpExact(src[2 * p + c], src[2 * (p + 1) + c], pos % ONE);
  }

  lemma FloorMonotone(a: int, b: int)
    requires a <= b
    ensures a / ONE <= b / ONE
  {
  }

  lemma LerpMonotone(l: Sample, r: Sample, f: int, g: int)
    requires l <= r && 0 <= f <= g < ONE
    ensures Lerp(l, r, f) <= Lerp(l, r, g)
  {
    LerpExact(l, r, f);
    LerpExact(l, r, g);
    var d: nat := r - l;
    MulMonotone(f, g, d);
    FloorMonotone(d * f, d * g);
  }

  lemma SameInterval(src: seq<Sample>, dstPairs: nat, k: nat, pos: nat, next: nat, c: nat)
    requires |src| >= 4 && dstPairs >= 2 && k + 1 < dstPairs - 1 && c < 2 && Rising(src, c)
    requires var ratio := Ratio(|src| / 2 - 1, dstPairs - 1); pos == k * ratio && next == (k + 1) * ratio
    requires pos <= next && pos / ONE == next / ONE
    ensures LinearAt(src, dstPairs, k, c) <= LinearAt(src, dstPairs, k + 1, c)
  {
    hide Lerp, Ratio, LinearAt;
    LinearStep(src, dstPairs, k, pos);
    LinearStep(src, dstPairs, k + 1, next);
    var p := pos / ONE;
    LerpMonotone(src[2 * p + c], src[2 * (p + 1) + c], pos % ONE, next % ONE);
  }

  // Interpolation never makes a rising channel fall.
  lemma StaysRising(src: seq<Sample>, dstPairs: nat, k: nat, c: nat)
    requires |src| >= 4 && |src| % 2 == 0 && dstPairs >= 2 && k + 1 < dstPairs && c < 2
    requires Rising(src, c)
    ensures LinearAt(src, dstPairs, k, c) <= LinearAt(src, dstPairs, k + 1, c)
  {
    hide Lerp, Ratio, LinearAt;
    var p := BetweenNeighbours(src, dstPairs, k, c);
    var n := |src| / 2;
    if k + 1 == dstPairs - 1 {
      KeepsEnds(src, dstPairs, c);
      assert src[2 * (p + 1) + c] <= src[2 * (n - 1) + c];
    } else {
      var q := BetweenNeighbours(src, dstPairs, k + 1, c);
      var ratio := Ratio(n - 1, dstPairs - 1);
      NextPosition(k, ratio);
      FloorMonotone(k * ratio, (k + 1) * ratio);
      if p == q {
        SameInterval(src, dstPairs, k, k * ratio, (k + 1) * ratio, c);
      } else {
        assert src[2 * (p + 1) + c] <= src[2 * q + c];
      }
    }
  }

  lemma {:induction false} NeverFalls(src: seq<Sample>, dstPairs: nat, j: nat, k: nat, c: nat)
    requires |src| >= 4 && |src| % 2 == 0 && dstPairs >= 2 && j <= k < dstPairs && c < 2
    requires Rising(src, c)
    ensures LinearAt(src, dstPairs, j, c) <= LinearAt(src, dstPairs, k, c)
    decreases k - j
  {
    hide Lerp, Ratio, LinearAt;
    if j < k {
      NeverFalls(src, dstPairs, j, k - 1, c);
      StaysRising(src, dstPairs, k - 1, c);
    }
  }

  lemma RatioSide(pairs: nat, steps: nat)
    requires steps > 0
    ensures steps <= pairs ==> ONE <= Ratio(pairs, steps)
    ensures steps >= pairs ==> Ratio(pairs, steps) <= ONE
  {
    var ratio := Ratio(pairs, steps);
    assert ratio * steps <= pairs * ONE < ratio * steps + steps;
    if ratio < ONE { MulMonotone(ratio + 1, ONE, steps); }
    if ratio > ONE { MulMonotone(ONE + 1, ratio, steps); }
  }

  // ---- the output of Linear ----

  lemma EntryOf(k: nat, c: nat)
    requires c < 2
    ensures (2 * k + c) / 2 == k && (2 * k + c) % 2 == c
  {
  }

  lemma LinearEntry(src: seq<Sample>, was: seq<Sample>, k: nat, c: nat)
    requires |src| >= 4 && |was| >= 4 && k < |was| / 2 && c < 2
    ensures OutputAt(LinearBlend, src, was, 2 * k + c) == LinearAt(src, |was| / 2, k, c)
  {
    hide LinearAt, NearestAt;
    EntryOf(k, c);
  }

  // The distance between output positions, in units of 1/65536 of a pair, is the exact one rounded down.
  lemma StepOf(pairs: nat, steps: nat)
    requires steps > 0
    ensures var ratio := Ratio(pairs, steps); ratio * steps <= pairs * 0x1_0000 < ratio * steps + steps
  {
  }

  lemma LagOf(pairs: nat, steps: nat, k: nat)
    requires pairs > 0 && k < steps
    ensures var pos := k * Ratio(pairs, steps);
      pos / ONE < pairs && 0 <= k * (pairs * 0x1_0000) - pos * steps <= k * (steps - 1)
  {
    hide Ratio;
    Lag(pairs, steps, k);
    MulMonotone((pairs * ONE) % steps, steps - 1, k);
    PositionInside(pairs, steps, k);
  }

  lemma LinearValue(src: seq<Sample>, was: seq<Sample>, k: nat, c: nat, pos: nat)
    requires |src| >= 4 && |was| >= 4 && k < |was| / 2 - 1 && c < 2
    requires pos == k * Ratio(|src| / 2 - 1, |was| / 2 - 1) && pos / ONE < |src| / 2 - 1
    ensures var p, frac := pos / ONE, pos % ONE;
      var a, b, out := src[2 * p + c], src[2 * (p + 1) + c], OutputAt(LinearBlend, src, was, 2 * k + c);
      && out == a + (b - a) * frac / 0x1_0000
      && (if a <= b then a <= out <= b else b <= out <= a)
  {
    hide Lerp, Ratio, OutputAt, LinearAt;
    var p, frac := pos / ONE, pos % ONE;
    LinearEntry(src, was, k, c);
    LinearStep(src, |was| / 2, k, pos);
    LerpExact(src[2 * p + c], src[2 * (p + 1) + c], frac);
  }

  // Output pair k of Linear, in either channel: the exact value between input pairs p and p + 1 at the fraction
  // frac/65536, where p + frac/65536 is k times the step and lags the exact position k*(pairs-1)/(dstPairs-1) by at
  // most k/65536.
  lemma LinearOutput(src: seq<Sample>, was: seq<Sample>, k: nat, c: nat) returns (step: nat, p: nat, frac: nat)
    requires |src| >= 4 && k < |was| / 2 - 1 && c < 2
    ensures var pairs, steps := |src| / 2 - 1, |was| / 2 - 1;
      && step * steps <= pairs * 0x1_0000 < step * steps + steps
      && p < pairs && frac < 0x1_0000 && p * 0x1_0000 + frac == k * step
      && 0 <= k * (pairs * 0x1_0000) - k * step * steps <= k * (steps - 1)
    ensures var a, b, out := src[2 * p + c], src[2 * (p + 1) + c], OutputAt(LinearBlend, src, was, 2 * k + c);
      && out == a + (b - a) * frac / 0x1_0000
      && (if a <= b then a <= out <= b else b <= out <= a)
  {
    hide Lerp, Ratio, OutputAt, LinearAt;
    var pairs, steps := |src| / 2 - 1, |was| / 2 - 1;
    step := Ratio(pairs, steps);
    var pos := k * step;
    p, frac := pos / ONE, pos % ONE;
    StepOf(pairs, steps);
    LagOf(pairs, steps, k);
    LinearValue(src, was, k, c, pos);
  }

  // The last output pair is made of the last two input samples.
  lemma LinearEnd(src: seq<Sample>, was: seq<Sample>, c: nat)
    requires |src| >= 4 && |was| >= 4 && c < 2
    ensures OutputAt(LinearBlend, src, was, 2 * (|was| / 2 - 1) + c) == src[|src| - 2 + c]
  {
    EntryOf(|was| / 2 - 1, c);
  }

  // A channel that never falls does not fall after interpolation.
  lemma RisingOutput(src: seq<Sample>, was: seq<Sample>, j: nat, k: nat, c: nat)
    requires |src| >= 4 && |src| % 2 == 0 && |was| >= 4 && j <= k < |was| / 2 && c < 2
    requires forall p, q :: 0 <= p <= q < |src| / 2 ==> src[2 * p + c] <= src[2 * q + c]
    ensures OutputAt(LinearBlend, src, was, 2 * j + c) <= OutputAt(LinearBlend, src, was, 2 * k + c)
  {
    hide LinearAt;
    EntryOf(j, c);
    EntryOf(k, c);
    NeverFalls(src, |was| / 2, j, k, c);
  }

  // ---- the output of Nearest ----

  // Pair k is the input pair p just below k times the step, both channels of it.
  ghost predicate Picks(src: seq<Sample>, was: seq<Sample>, k: nat, step: nat, p: nat)
    requires k < |was| / 2
  {
    && p < |src| / 2 && p * 0x1_0000 <= k * step < (p + 1) * 0x1_0000
    && OutputAt(NearestPair, src, was, 2 * k) == src[2 * p]
    && OutputAt(NearestPair, src, was, 2 * k + 1) == src[2 * p + 1]
  }

  lemma PicksOne(src: seq<Sample>, was: seq<Sample>, k: nat) returns (p: nat)
    requires |src| >= 4 && |was| >= 4 && k < |was| / 2
    ensures Picks(src, was, k, Ratio(|src| / 2, |was| / 2), p)
  {
    hide Ratio;
    PositionInside(|src| / 2, |was| / 2, k);
    EntryOf(k, 0);
    EntryOf(k, 1);
    p := k * Ratio(|src| / 2, |was| / 2) / ONE;
  }

  lemma PicksDiffer(k: nat, j: nat, step: nat, p: nat, q: nat)
    requires j <= k && p * ONE <= j * step < (p + 1) * ONE && q * ONE <= k * step < (q + 1) * ONE
    ensures p <= q && (j == 0 ==> p == 0)
    ensures step >= ONE && j < k ==> p < q
    ensures step <= ONE ==> q <= p + (k - j)
  {
    assert k * step == j * step + (k - j) * step;
    if step >= ONE { MulMonotone(ONE, step, k - j); }
    if step <= ONE { MulMonotone(step, ONE, k - j); }
    MulMonotone(0, step, k - j);
  }

  // Nearest copies whole input pairs in input order, beginning with the first. Making a signal shorter it never repeats
  // a pair, making it longer it never skips one.
  lemma NearestPicks(src: seq<Sample>, was: seq<Sample>, j: nat, k: nat) returns (step: nat, p: nat, q: nat)
    requires |src| >= 4 && |was| >= 4 && j <= k < |was| / 2
    ensures step * (|was| / 2) <= |src| / 2 * 0x1_0000 < step * (|was| / 2) + |was| / 2
    ensures Picks(src, was, j, step, p) && Picks(src, was, k, step, q) && p <= q
    ensures OutputAt(NearestPair, src, was, 2 * k) == src[2 * q]
    ensures OutputAt(NearestPair, src, was, 2 * k + 1) == src[2 * q + 1]
    ensures j == 0 ==> p == 0
    ensures |was| / 2 <= |src| / 2 && j < k ==> p < q
    ensures |was| / 2 >= |src| / 2 ==> q <= p + (k - j)
  {
    hide Ratio, OutputAt;
    step := Ratio(|src| / 2, |was| / 2);
    p := PicksOne(src, was, j);
    q := PicksOne(src, was, k);
    StepOf(|src| / 2, |was| / 2);
    RatioSide(|src| / 2, |was| / 2);
    PicksDiffer(k, j, step, p, q);
  }

  // ---- both ----

  // Whatever the sizes, the first output pair is the first input pair, a lone input pair is repeated, and what does not
  // belong to a whole output pair stays as it was, as does everything when there is no input pair.
  lemma Edges(algo: Algorithm, src: seq<Sample>, was: seq<Sample>, i: nat)
    requires i < |was|
    ensures |src| < 2 || i >= |was| - |was| % 2 ==> OutputAt(algo, src, was, i) == was[i]
    ensures |src| >= 2 && |was| >= 2 && i < 2 ==> OutputAt(algo, src, was, i) == src[i]
    ensures 2 <= |src| < 4 && i < |was| - |was| % 2 ==> OutputAt(algo, src, was, i) == src[i % 2]
  {
    if |src| >= 4 && |was| >= 4 && i < 2 {
      if algo == LinearBlend {
        var step, p, frac := LinearOutput(src, was, 0, i);
      } else {
        var step, p, q := NearestPicks(src, was, 0, 0);
      }
    }
  }

  lemma UnitStep(pairs: nat, steps: nat, step: nat)
    requires pairs == steps > 0 && step * steps <= pairs * 0x1_0000 < step * steps + steps
    ensures step == 0x1_0000
  {
    assert (0x1_0000 - step) * steps < steps && (0x1_0000 - step) * steps >= 0;
    if step < 0x1_0000 { MulMonotone(1, 0x1_0000 - step, steps); }
    if step > 0x1_0000 { MulMonotone(0x1_0000 + 1, step, steps); }
  }

  // Resampling to the same number of pairs copies the input.
  lemma SameSize(algo: Algorithm, src: seq<Sample>, was: seq<Sample>, i: nat)
    requires |src| == |was| && |src| % 2 == 0 && i < |was|
    ensures OutputAt(algo, src, was, i) == src[i]
  {
    hide OutputAt;
    var k, c, n := i / 2, i % 2, |src| / 2;
    if n < 2 {
      Edges(algo, src, was, i);
    } else if algo == NearestPair {
      var step, p, q := NearestPicks(src, was, k, k);
      UnitStep(n, n, step);
      assert q == k;
    } else if k == n - 1 {
      LinearEnd(src, was, c);
    } else {
      var step, p, frac := LinearOutput(src, was, k, c);
      UnitStep(n - 1, n - 1, step);
      assert p == k && frac == 0;
    }
  }
}
