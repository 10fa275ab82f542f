// The iterative radix-2 transform of audio-canary, proved to compute the discrete Fourier transform.
module Fft {
  import opened ComplexNumbers
  import opened DiscreteFourier
  import opened InverseFourier
  import opened BitReversal

  // The primitive 2^s-th root of unity used at the stage whose blocks have 2^s entries.
  ghost function Root(w: Complex, m: nat, s: nat): Complex
    requires s <= m
  {
    Pow(w, Pow2(m - s))
  }

  lemma RootSquare(w: Complex, m: nat, s: nat)
    requires 0 < s <= m
    ensures Mul(Root(w, m, s), Root(w, m, s)) == Root(w, m, s - 1)
  {
    PowAdd(w, Pow2(m - s), Pow2(m - s));
  }

  lemma RootHalfTurn(w: Complex, m: nat, s: nat)
    requires 0 < s <= m && PrincipalRoot(w, m)
    ensures Pow(Root(w, m, s), Pow2(s - 1)) == MINUS_ONE
  {
    PowMul(w, Pow2(m - s), Pow2(s - 1));
    Pow2Add(m - s, s - 1);
  }

  // ---- one butterfly level on values ----

  // The first k sums and the first k differences of p[i] and r^i * q[i].
  ghost function Sums(p: seq<Complex>, q: seq<Complex>, r: Complex, k: nat): (c: seq<Complex>)
    requires k <= |p| == |q|
    ensures |c| == k
  {
    if k == 0 then [] else Sums(p, q, r, k - 1) + [Add(p[k - 1], Mul(Pow(r, k - 1), q[k - 1]))]
  }

  ghost function Differences(p: seq<Complex>, q: seq<Complex>, r: Complex, k: nat): (c: seq<Complex>)
    requires k <= |p| == |q|
    ensures |c| == k
  {
    if k == 0 then [] else Differences(p, q, r, k - 1) + [Sub(p[k - 1], Mul(Pow(r, k - 1), q[k - 1]))]
  }

  ghost function Combine(p: seq<Complex>, q: seq<Complex>, r: Complex): (c: seq<Complex>)
    requires |p| == |q|
    ensures |c| == 2 * |p|
  {
    Sums(p, q, r, |p|) + Differences(p, q, r, |p|)
  }

  lemma {:induction false} SumsAt(p: seq<Complex>, q: seq<Complex>, r: Complex, n: nat, k: nat)
    requires k < n <= |p| == |q|
    ensures Sums(p, q, r, n)[k] == Add(p[k], Mul(Pow(r, k), q[k]))
    ensures Differences(p, q, r, n)[k] == Sub(p[k], Mul(Pow(r, k), q[k]))
  {
    if k < n - 1 { SumsAt(p, q, r, n - 1, k); }
  }

  lemma CombineAt(p: seq<Complex>, q: seq<Complex>, r: Complex, k: nat)
    requires k < |p| == |q|
    ensures Combine(p, q, r)[k] == Add(p[k], Mul(Pow(r, k), q[k]))
    ensures Combine(p, q, r)[|p| + k] == Sub(p[k], Mul(Pow(r, k), q[k]))
  {
    SumsAt(p, q, r, |p|, k);
  }

  // What the first s stages make of one aligned block of 2^s entries.
  ghost function Block(a: seq<Complex>, w: Complex, m: nat, s: nat): (c: seq<Complex>)
    requires s <= m && |a| == Pow2(s)
    ensures |c| == |a|
    decreases s
  {
    if s == 0 then a else
      var h := Pow2(s - 1);
      Combine(Block(a[..h], w, m, s - 1), Block(a[h..], w, m, s - 1), Root(w, m, s))
  }

  // The whole array after s stages: its aligned blocks, one after another.
  ghost function Level(a: seq<Complex>, w: Complex, m: nat, s: nat): (c: seq<Complex>)
    requires s <= m
    ensures |c| == |a|
  {
    if |a| < Pow2(s) then a else
      Block(a[..Pow2(s)], w, m, s) + Level(a[Pow2(s)..], w, m, s)
  }

  lemma {:induction false} LevelZero(a: seq<Complex>, w: Complex, m: nat)
    ensures Level(a, w, m, 0) == a
  {
    if |a| > 0 { LevelZero(a[1..], w, m); }
  }

  // a is a whole number of blocks long
  ghost predicate Blocks(a: seq<Complex>, s: nat)
    decreases |a|
  {
    |a| == 0 || (|a| >= Pow2(s) && Blocks(a[Pow2(s)..], s))
  }

  lemma {:induction false} LevelAppend(a: seq<Complex>, b: seq<Complex>, w: Complex, m: nat, s: nat)
    requires s <= m && Blocks(a, s)
    ensures Level(a + b, w, m, s) == Level(a, w, m, s) + Level(b, w, m, s)
    decreases |a|
  {
    if a == [] {
      assert a + b == b;
    } else {
      var p := Pow2(s);
      assert (a + b)[..p] == a[..p];
      assert (a + b)[p..] == a[p..] + b;
      LevelAppend(a[p..], b, w, m, s);
    }
  }

  // ---- a block is a DFT ----

  lemma NegatedRoot(z: Complex, q: Complex, p: Complex)
    ensures Mul(Mul(MINUS_ONE, z), Mul(MINUS_ONE, z)) == Mul(z, z)
    ensures Add(p, Mul(Mul(MINUS_ONE, z), q)) == Sub(p, Mul(z, q))
  {
  }

  // The two outputs of a butterfly evaluate the interleaved polynomial at a root and
  // at its opposite.
  lemma LowOutput(p: seq<Complex>, q: seq<Complex>, u: seq<Complex>, v: seq<Complex>, r: Complex, k: nat)
    requires |p| == |q| && |u| == |v| && k < |p|
    requires var zz := Mul(Pow(r, k), Pow(r, k)); p[k] == Eval(u, zz) && q[k] == Eval(v, zz)
    ensures Combine(p, q, r)[k] == Eval(Interleave(u, v), Pow(r, k))
  {
    CombineAt(p, q, r, k);
    EvalInterleave(u, v, Pow(r, k));
  }

  lemma EvalOpposite(u: seq<Complex>, v: seq<Complex>, z: Complex, p: Complex, q: Complex)
    requires |u| == |v| && p == Eval(u, Mul(z, z)) && q == Eval(v, Mul(z, z))
    ensures Eval(Interleave(u, v), Mul(MINUS_ONE, z)) == Sub(p, Mul(z, q))
  {
    EvalInterleave(u, v, Mul(MINUS_ONE, z));
    NegatedRoot(z, q, p);
  }

  lemma HighOutput(p: seq<Complex>, q: seq<Complex>, u: seq<Complex>, v: seq<Complex>, r: Complex, k: nat)
    requires |p| == |q| && |u| == |v| && k < |p| && Pow(r, |p|) == MINUS_ONE
    requires var zz := Mul(Pow(r, k), Pow(r, k)); p[k] == Eval(u, zz) && q[k] == Eval(v, zz)
    ensures Combine(p, q, r)[|p| + k] == Eval(Interleave(u, v), Pow(r, |p| + k))
  {
    CombineAt(p, q, r, k);
    PowAdd(r, |p|, k);
    EvalOpposite(u, v, Pow(r, k), p[k], q[k]);
  }

  lemma OneTerm(a: seq<Complex>, z: Complex)
    requires |a| == 1
    ensures a[0] == Eval(a, z)
  {
    assert a[1..] == [];
    assert Eval(a, z) == Add(a[0], Mul(z, ZERO));
  }

  lemma SquaredPower(w: Complex, m: nat, s: nat, k: nat)
    requires 0 < s <= m
    ensures Mul(Pow(Root(w, m, s), k), Pow(Root(w, m, s), k)) == Pow(Root(w, m, s - 1), k)
  {
    var r := Root(w, m, s);
    PowAdd(r, k, k);
    assert k + k == 2 * k;
    PowMul(r, 2, k);
    assert Pow(r, 2) == Mul(r, r) by {
      PowAdd(r, 1, 1);
      assert Pow(r, 1) == Mul(r, ONE);
      assert Mul(r, ONE) == r;
    }
    RootSquare(w, m, s);
  }

  lemma {:induction false} BlockIsDft(a: seq<Complex>, w: Complex, m: nat, s: nat, k: nat)
    requires s <= m && |a| == Pow2(s) && k < |a| && PrincipalRoot(w, m)
    ensures Block(a, w, m, s)[k] == Eval(Unshuffle(a, s), Pow(Root(w, m, s), k))
    decreases s
  {
    hide Combine, Interleave, Mul, Eval, Pow;
    if s == 0 {
      OneTerm(a, Pow(Root(w, m, 0), 0));
    } else {
      var h, r := Pow2(s - 1), Root(w, m, s);
      assert |a| == 2 * h;
      var even, odd := a[..h], a[h..];
      var low := if k < h then k else k - h;
      BlockIsDft(even, w, m, s - 1, low);
      BlockIsDft(odd, w, m, s - 1, low);
      SquaredPower(w, m, s, low);
      var p, q := Block(even, w, m, s - 1), Block(odd, w, m, s - 1);
      var u, v := Unshuffle(even, s - 1), Unshuffle(odd, s - 1);
      assert Block(a, w, m, s) == Combine(p, q, r);
      assert Unshuffle(a, s) == Interleave(u, v);
      if k < h {
        LowOutput(p, q, u, v, r, low);
      } else {
        RootHalfTurn(w, m, s);
        HighOutput(p, q, u, v, r, low);
      }
    }
  }

  // Undoing the shuffle that the loop performed gives back the input.
  lemma UnshuffleReversed(x: seq<Complex>, m: nat)
    requires |x| == Pow2(m)
    ensures Unshuffle(Reversed(x, m), m) == x
  {
    var a := Reversed(x, m);
    forall j | 0 <= j < |x| ensures Unshuffle(a, m)[j] == x[j] {
      UnshuffleAt(a, m, j);
      RevIsInvolution(m, j);
    }
  }

  // ---- the loops ----

  // A block of 2*half entries of s after its first k butterflies.
  ghost function Partial(s: seq<Complex>, start: nat, half: nat, r: Complex, k: nat): seq<Complex>
    requires k <= half && start + 2 * half <= |s|
  {
    var p, q := s[start..start + half], s[start + half..start + 2 * half];
    s[..start] + (Sums(p, q, r, k) + p[k..]) + (Differences(p, q, r, k) + q[k..]) + s[start + 2 * half..]
  }

  // Overwriting u and v in the middle of two neighbouring runs.
  lemma UpdateTwo(pre: seq<Complex>, xs: seq<Complex>, u: Complex, ps: seq<Complex>,
                  ys: seq<Complex>, v: Complex, qs: seq<Complex>, post: seq<Complex>, c: Complex, d: Complex)
    ensures var s := pre + (xs + ([u] + ps)) + (ys + ([v] + qs)) + post;
      var i, j := |pre| + |xs|, |pre| + |xs| + 1 + |ps| + |ys|;
      s[i] == u && s[j] == v &&
      s[i := c][j := d] == pre + ((xs + [c]) + ps) + ((ys + [d]) + qs) + post
  {
  }

  lemma PartialStep(s: seq<Complex>, start: nat, half: nat, r: Complex, k: nat)
    requires k < half && start + 2 * half <= |s|
    ensures var c := Partial(s, start, half, r, k);
      var u, t := s[start + k], Mul(Pow(r, k), s[start + k + half]);
      |c| == |s| && c[start + k] == u && c[start + k + half] == s[start + k + half] &&
      Partial(s, start, half, r, k + 1) == c[start + k := Add(u, t)][start + k + half := Sub(u, t)]
  {
    hide Mul, Add, Sub, Pow;
    var p, q := s[start..start + half], s[start + half..start + 2 * half];
    var t := Mul(Pow(r, k), q[k]);
    assert p[k..] == [p[k]] + p[k + 1..] && q[k..] == [q[k]] + q[k + 1..];
    UpdateTwo(s[..start], Sums(p, q, r, k), p[k], p[k + 1..], Differences(p, q, r, k), q[k], q[k + 1..],
      s[start + 2 * half..], Add(p[k], t), Sub(p[k], t));
  }

  // s with the block of 2*half entries at start combined.
  ghost function Combined(s: seq<Complex>, start: nat, half: nat, r: Complex): seq<Complex>
    requires start + 2 * half <= |s|
  {
    var mid, end := start + half, start + 2 * half;
    s[..start] + Combine(s[start..mid], s[mid..end], r) + s[end..]
  }

  lemma PartialEnds(s: seq<Complex>, start: nat, half: nat, r: Complex)
    requires start + 2 * half <= |s|
    ensures Partial(s, start, half, r, 0) == s
    ensures Partial(s, start, half, r, half) == Combined(s, start, half, r)
  {
    hide Mul, Add, Sub, Pow;
    var p, q := s[start..start + half], s[start + half..start + 2 * half];
    assert p[half..] == [] && q[half..] == [];
    assert Sums(p, q, r, half) + [] + (Differences(p, q, r, half) + []) == Combine(p, q, r);
  }

  method Butterflies(out: array<Complex>, start: nat, half: nat, table: array<Complex>, ghost r: Complex)
    requires start + 2 * half <= out.Length && out != table
    requires table.Length == half && forall k :: 0 <= k < half ==> table[k] == Pow(r, k)
    modifies out
    ensures out[..] == Combined(old(out[..]), start, half, r)
  {
    hide Mul, Add, Sub, Pow, Partial, Combined;
    ghost var was := out[..];
    PartialEnds(was, start, half, r);
    for k := 0 to half
      invariant out[..] == Partial(was, start, half, r, k)
    {
      PartialStep(was, start, half, r, k);
      var t := Mul(table[k], out[start + k + half]);
      var u := out[start + k];
      out[start + k] := Add(u, t);
      out[start + k + half] := Sub(u, t);
    }
  }

  lemma {:induction false} BlocksAppend(a: seq<Complex>, b: seq<Complex>, s: nat)
    requires Blocks(a, s) && Blocks(b, s)
    ensures Blocks(a + b, s)
    decreases |a|
  {
    if a == [] {
      assert a + b == b;
    } else {
      assert (a + b)[Pow2(s)..] == a[Pow2(s)..] + b;
      BlocksAppend(a[Pow2(s)..], b, s);
    }
  }

  lemma {:induction false} WholeBlocks(a: seq<Complex>, m: nat, s: nat)
    requires s <= m && |a| == Pow2(m)
    ensures Blocks(a, s)
    decreases m
  {
    if s == m {
      assert a[Pow2(s)..] == [];
    } else {
      var h := Pow2(m - 1);
      WholeBlocks(a[..h], m - 1, s);
      WholeBlocks(a[h..], m - 1, s);
      BlocksAppend(a[..h], a[h..], s);
      assert a == a[..h] + a[h..];
    }
  }

  lemma JoinedBlock(x: seq<Complex>, y: seq<Complex>, w: Complex, m: nat, s: nat)
    requires 0 < s <= m && |x| == |y| == Pow2(s - 1)
    ensures Blocks(x + y, s)
    ensures Level(x + y, w, m, s) == Combine(Block(x, w, m, s - 1), Block(y, w, m, s - 1), Root(w, m, s))
  {
    var b := x + y;
    assert b[..Pow2(s)] == b && b[Pow2(s)..] == [];
    assert b[..Pow2(s - 1)] == x && b[Pow2(s - 1)..] == y;
  }

  lemma TwoBlocks(x: seq<Complex>, y: seq<Complex>, rest: seq<Complex>, w: Complex, m: nat, s: nat)
    requires s <= m && |x| == |y| == Pow2(s)
    ensures Level(x + (y + rest), w, m, s) == Block(x, w, m, s) + Block(y, w, m, s) + Level(rest, w, m, s)
  {
    var p := Pow2(s);
    assert (x + (y + rest))[..p] == x && (x + (y + rest))[p..] == y + rest;
    assert (y + rest)[..p] == y && (y + rest)[p..] == rest;
  }

  // A block of stage s is two neighbouring blocks x, y of stage s - 1, combined.
  lemma StageStep(pre: seq<Complex>, x: seq<Complex>, y: seq<Complex>, rest: seq<Complex>,
                  w: Complex, m: nat, s: nat, was: seq<Complex>, now: seq<Complex>)
    requires 0 < s <= m && |x| == |y| == Pow2(s - 1) && Blocks(pre, s)
    requires was == Level(pre, w, m, s) + Level(x + (y + rest), w, m, s - 1)
    requires now == Combined(was, |pre|, |x|, Root(w, m, s))
    ensures Blocks(pre + (x + y), s)
    ensures now == Level(pre + (x + y), w, m, s) + Level(rest, w, m, s - 1)
  {
    hide Level, Block, Combine, Blocks, Root;
    var lo, hi := Block(x, w, m, s - 1), Block(y, w, m, s - 1);
    var start, mid, end := |pre|, |pre| + |x|, |pre| + |x| + |y|;
    TwoBlocks(x, y, rest, w, m, s - 1);
    assert was[..start] == Level(pre, w, m, s) && was[start..mid] == lo && was[mid..end] == hi;
    assert was[end..] == Level(rest, w, m, s - 1);
    JoinedBlock(x, y, w, m, s);
    LevelAppend(pre, x + y, w, m, s);
    BlocksAppend(pre, x + y, s);
  }

  lemma AtLeastOne(a: int, q: nat)
    ensures a > 0 ==> a * q >= q
  {
    if a > 0 {
      assert a * q == q + (a - 1) * q;
      assert (a - 1) * q >= 0;
    }
  }

  lemma ExactQuotient(p: nat, q: nat)
    requires q > 0
    ensures (p * q) / q == p
  {
    var d := (p * q) / q;
    assert (p - d) * q == p * q - d * q;
    assert 0 <= (p - d) * q < q;
    AtLeastOne(p - d, q);
    AtLeastOne(d - p, q);
    assert (d - p) * q == -((p - d) * q);
  }

  lemma StageStride(m: nat, s: nat)
    requires s <= m
    ensures Pow2(m) / Pow2(s) == Pow2(m - s)
  {
    Pow2Add(m - s, s);
    var p, q := Pow2(m - s), Pow2(s);
    ExactQuotient(p, q);
  }

  // The factors of one stage, tabulated.
  method Twiddles(n: nat, size: nat, w: Complex, ghost m: nat, ghost s: nat) returns (table: array<Complex>)
    requires 0 < s <= m && size == Pow2(s) && n == Pow2(m)
    ensures fresh(table) && table.Length == size / 2
    ensures forall k :: 0 <= k < table.Length ==> table[k] == Pow(Root(w, m, s), k)
  {
    hide Mul, Pow;
    var half := size / 2;
    table := new Complex[half];
    StageStride(m, s);
    for k := 0 to half
      invariant forall i :: 0 <= i < k ==> table[i] == Pow(Root(w, m, s), i)
    {
      table[k] := Pow(w, (n / size) * k);
      PowMul(w, n / size, k);
    }
  }

  lemma BeforeStage(a: seq<Complex>, w: Complex, m: nat, s: nat)
    requires 0 < s <= m && |a| == Pow2(m)
    ensures Blocks(a[..0], s) && Blocks(a[0..], s)
    ensures Level(a, w, m, s - 1) == Level(a[..0], w, m, s) + Level(a[0..], w, m, s - 1)
  {
    WholeBlocks(a, m, s);
    assert a[..0] == [] && a[0..] == a;
  }

  lemma AfterStage(a: seq<Complex>, w: Complex, m: nat, s: nat)
    requires 0 < s <= m
    ensures Level(a[..|a|], w, m, s) + Level(a[|a|..], w, m, s - 1) == Level(a, w, m, s)
  {
    assert a[..|a|] == a && a[|a|..] == [];
  }

  lemma RoomForBlock(a: seq<Complex>, start: nat, s: nat)
    requires start < |a| && Blocks(a[start..], s)
    ensures start + Pow2(s) <= |a|
  {
  }

  lemma NextBlock(a: seq<Complex>, start: nat, w: Complex, m: nat, s: nat, was: seq<Complex>, now: seq<Complex>)
    requires 0 < s <= m && start + Pow2(s) <= |a| == |was| && Blocks(a[..start], s) && Blocks(a[start..], s)
    requires was == Level(a[..start], w, m, s) + Level(a[start..], w, m, s - 1)
    requires now == Combined(was, start, Pow2(s - 1), Root(w, m, s))
    ensures var end := start + Pow2(s);
      Blocks(a[..end], s) && Blocks(a[end..], s) &&
      now == Level(a[..end], w, m, s) + Level(a[end..], w, m, s - 1)
  {
    hide Level, Combined, Root;
    var mid, end := start + Pow2(s - 1), start + Pow2(s);
    var pre, x, y, rest := a[..start], a[start..mid], a[mid..end], a[end..];
    assert a[start..] == x + (y + rest);
    assert a[start..][Pow2(s)..] == rest;
    assert a[..end] == pre + (x + y);
    StageStep(pre, x, y, rest, w, m, s, was, now);
  }

  // One pass over the array with blocks of 2^s entries.
  method Stage(out: array<Complex>, size: nat, w: Complex, ghost a: seq<Complex>, ghost m: nat, ghost s: nat)
    requires 0 < s <= m && size == Pow2(s) && out.Length == |a| == Pow2(m)
    requires out[..] == Level(a, w, m, s - 1)
    modifies out
    ensures out[..] == Level(a, w, m, s)
  {
    hide Level, Combined, Root, Mul, Pow, Blocks;
    var n := out.Length;
    var half := size / 2;
    var table := Twiddles(n, size, w, m, s);
    var start := 0;
    BeforeStage(a, w, m, s);
    while start < n
      invariant start <= n && Blocks(a[..start], s) && Blocks(a[start..], s)
      invariant forall i :: 0 <= i < half ==> table[i] == Pow(Root(w, m, s), i)
      invariant out[..] == Level(a[..start], w, m, s) + Level(a[start..], w, m, s - 1)
    {
      ghost var was := out[..];
      RoomForBlock(a, start, s);
      Butterflies(out, start, half, table, Root(w, m, s));
      NextBlock(a, start, w, m, s, was, out[..]);
      start := start + size;
    }
    AfterStage(a, w, m, s);
  }

  function Complexes(x: seq<real>): seq<Complex> {
    seq(|x|, i requires 0 <= i < |x| => Complex(x[i], 0.0))
  }

  lemma {:induction false} Pow2Monotone(s: nat, m: nat)
    ensures s < m ==> Pow2(s + 1) <= Pow2(m)
    ensures s > m ==> Pow2(s) > Pow2(m)
    ensures s >= m ==> Pow2(s) >= Pow2(m)
    decreases m
  {
    if s > 0 && m > 0 { Pow2Monotone(s - 1, m - 1); }
  }

  // After the last stage the permuted input has become the transform of the input.
  lemma LevelIsDft(x: seq<Complex>, w: Complex, m: nat)
    requires |x| == Pow2(m) && PrincipalRoot(w, m)
    ensures forall k :: 0 <= k < |x| ==> Level(Reversed(x, m), w, m, m)[k] == Dft(x, w, k)
  {
    var a := Reversed(x, m);
    assert a[..Pow2(m)] == a && a[Pow2(m)..] == [];
    assert Pow(w, 1) == w by { assert Pow(w, 1) == Mul(w, ONE); }
    UnshuffleReversed(x, m);
    forall k | 0 <= k < |x| ensures Level(a, w, m, m)[k] == Dft(x, w, k) {
      BlockIsDft(a, w, m, m, k);
      DftIsEval(x, w, k);
    }
  }

  // A single sample at j shows as c * w^(j*k) at every k.
  lemma ImpulseResponse(x: seq<real>, w: Complex, j: nat, k: nat)
    requires j < |x| && forall i :: 0 <= i < |x| && i != j ==> x[i] == 0.0
    ensures Dft(Complexes(x), w, k) == Mul(Complex(x[j], 0.0), Pow(w, j * k))
  {
    DftOfImpulse(Complexes(x), w, j, k, |x|);
  }

  // The samples can be had back from their spectrum.
  lemma Recovered(x: seq<real>, spectrum: seq<Complex>, w: Complex, m: nat)
    requires |x| == |spectrum| == Pow2(m) && PrincipalRoot(w, m)
    requires forall k :: 0 <= k < |x| ==> spectrum[k] == Dft(Complexes(x), w, k)
    ensures forall v, j :: Mul(w, v) == ONE && 0 <= j < |x| ==>
      Dft(spectrum, v, j) == Complex(|x| as real * x[j], 0.0)
  {
    hide Mul, Dft, PrincipalRoot;
    forall v, j | Mul(w, v) == ONE && 0 <= j < |x| ensures Dft(spectrum, v, j) == Complex(|x| as real * x[j], 0.0) {
      InverseOfDft(Complexes(x), spectrum, w, v, m, j);
    }
  }

  // The transform of audio-canary. w plays exp(-2*pi*i/n), so the table entry
  // exp(-2*pi*i*k/size) is w to the power (n/size)*k.
  method Transform(x: seq<real>, w: Complex, ghost m: nat) returns (spectrum: seq<Complex>)
    requires |x| == Pow2(m) && PrincipalRoot(w, m)
    ensures |spectrum| == |x|
    ensures forall k :: 0 <= k < |x| ==> spectrum[k] == Dft(Complexes(x), w, k)
    ensures forall v, j :: Mul(w, v) == ONE && 0 <= j < |x| ==>
      Dft(spectrum, v, j) == Complex(|x| as real * x[j], 0.0)
  {
    hide Level, Mul, Reversed, Dft;
    var n := |x|;
    var out := new Complex[n];
    for i := 0 to n
      invariant forall p :: 0 <= p < i ==> out[p] == Complex(x[p], 0.0)
    {
      out[i] := Complex(x[i], 0.0);
    }
    ghost var input := Complexes(x);
    assert out[..] == input;
    BitReverse(out, m);
    ghost var a := Reversed(input, m);
    LevelZero(a, w, m);
    assert out[..] == Level(a, w, m, 0);
    var size := 2;
    ghost var s := 0;
    while size <= n
      invariant 0 <= s <= m && size == Pow2(s + 1)
      invariant out[..] == Level(a, w, m, s)
      decreases m - s
    {
      Pow2Monotone(s, m);
      Stage(out, size, w, a, m, s + 1);
      size := size * 2;
      s := s + 1;
    }
    Pow2Monotone(s + 1, m);
    spectrum := out[..];
    LevelIsDft(input, w, m);
    Recovered(x, spectrum, w, m);
  }
}
