// The discrete Fourier transform as a sum and as a polynomial, and the polynomial split into even and odd coefficients.
module DiscreteFourier {
  import opened ComplexNumbers

  function Pow2(m: nat): (p: nat)
    ensures p > 0
  {
    if m == 0 then 1 else 2 * Pow2(m - 1)
  }

  lemma Doubled(p: nat, q: nat)
    ensures 2 * (p * q) == (2 * p) * q
  {
  }

  lemma {:induction false} Pow2Add(a: nat, b: nat)
    ensures Pow2(a + b) == Pow2(a) * Pow2(b)
  {
    if a > 0 {
      Pow2Add(a - 1, b);
      Doubled(Pow2(a - 1), Pow2(b));
    }
  }

  // The textbook definition: the first n terms of  sum over j of x[j] * w^(j*k).
  ghost function DftSum(x: seq<Complex>, w: Complex, k: nat, n: nat): Complex
    requires n <= |x|
  {
    if n == 0 then ZERO else Add(DftSum(x, w, k, n - 1), Mul(x[n - 1], Pow(w, (n - 1) * k)))
  }

  ghost function Dft(x: seq<Complex>, w: Complex, k: nat): Complex {
    DftSum(x, w, k, |x|)
  }

  // Horner form of the polynomial whose coefficients are x.
  ghost function Eval(x: seq<Complex>, z: Complex): Complex {
    if |x| == 0 then ZERO else Add(x[0], Mul(z, Eval(x[1..], z)))
  }

  lemma HornerStep(c: Complex, z: Complex, e: Complex, p: Complex, a: Complex)
    ensures Add(c, Mul(z, Add(e, Mul(p, a)))) == Add(Add(c, Mul(z, e)), Mul(Mul(z, p), a))
  {
    MulDistributes(z, e, Mul(p, a));
    MulAssoc(z, p, a);
    AddAssoc(c, Mul(z, e), Mul(z, Mul(p, a)));
  }

  lemma {:induction false} EvalAppend(x: seq<Complex>, a: Complex, z: Complex)
    ensures Eval(x + [a], z) == Add(Eval(x, z), Mul(Pow(z, |x|), a))
  {
    if x == [] {
      assert x + [a] == [a];
      assert [a][1..] == [];
      assert Eval([a], z) == Add(a, Mul(z, ZERO));
    } else {
      assert (x + [a])[1..] == x[1..] + [a];
      EvalAppend(x[1..], a, z);
      HornerStep(x[0], z, Eval(x[1..], z), Pow(z, |x| - 1), a);
    }
  }

  lemma {:induction false} DftSumIsEval(x: seq<Complex>, w: Complex, k: nat, n: nat)
    requires n <= |x|
    ensures DftSum(x, w, k, n) == Eval(x[..n], Pow(w, k))
  {
    if n > 0 {
      var m := n - 1;
      DftSumIsEval(x, w, k, m);
      assert x[..n] == x[..m] + [x[m]];
      EvalAppend(x[..m], x[m], Pow(w, k));
      PowMul(w, k, m);
      assert k * m == m * k;
      MulCommutes(x[m], Pow(w, m * k));
    }
  }

  lemma DftIsEval(x: seq<Complex>, w: Complex, k: nat)
    ensures Dft(x, w, k) == Eval(x, Pow(w, k))
  {
    DftSumIsEval(x, w, k, |x|);
    assert x[..|x|] == x;
  }

  // ---- splitting a polynomial into its even and odd coefficients ----

  ghost function Interleave(u: seq<Complex>, v: seq<Complex>): (x: seq<Complex>)
    requires |u| == |v|
    ensures |x| == 2 * |u|
  {
    if u == [] then [] else [u[0], v[0]] + Interleave(u[1..], v[1..])
  }

  lemma {:induction false} InterleaveAt(u: seq<Complex>, v: seq<Complex>, k: nat)
    requires k < |u| == |v|
    ensures Interleave(u, v)[2 * k] == u[k] && Interleave(u, v)[2 * k + 1] == v[k]
  {
    if k > 0 {
      var rest := Interleave(u[1..], v[1..]);
      InterleaveAt(u[1..], v[1..], k - 1);
      assert Interleave(u, v)[2 * k] == rest[2 * (k - 1)];
      assert Interleave(u, v)[2 * k + 1] == rest[2 * (k - 1) + 1];
    }
  }

  lemma AddCommutes(a: Complex, b: Complex)
    ensures Add(a, b) == Add(b, a)
  {
  }

  lemma SplitStep(a: Complex, b: Complex, z: Complex, p: Complex, q: Complex)
    ensures Add(a, Mul(z, Add(b, Mul(z, Add(p, Mul(z, q))))))
         == Add(Add(a, Mul(Mul(z, z), p)), Mul(z, Add(b, Mul(Mul(z, z), q))))
  {
    var zz := Mul(z, z);
    MulDistributes(z, p, Mul(z, q));
    MulAssoc(z, z, q);
    var zp, zzq := Mul(z, p), Mul(zz, q);
    assert Mul(z, Add(p, Mul(z, q))) == Add(zp, zzq);
    AddCommutes(zp, zzq);
    AddAssoc(b, zzq, zp);
    MulDistributes(z, Add(b, zzq), zp);
    MulAssoc(z, z, p);
    var tail := Mul(z, Add(b, zzq));
    AddCommutes(tail, Mul(zz, p));
    AddAssoc(a, Mul(zz, p), tail);
  }

  lemma EvalTwo(a: Complex, b: Complex, rest: seq<Complex>, z: Complex)
    ensures Eval([a, b] + rest, z) == Add(a, Mul(z, Add(b, Mul(z, Eval(rest, z)))))
  {
    var x := [a, b] + rest;
    assert x[1..] == [b] + rest;
    assert x[1..][1..] == rest;
  }

  lemma {:induction false} EvalInterleave(u: seq<Complex>, v: seq<Complex>, z: Complex)
    requires |u| == |v|
    ensures Eval(Interleave(u, v), z) == Add(Eval(u, Mul(z, z)), Mul(z, Eval(v, Mul(z, z))))
  {
    if u != [] {
      var rest := Interleave(u[1..], v[1..]);
      EvalInterleave(u[1..], v[1..], z);
      EvalTwo(u[0], v[0], rest, z);
      SplitStep(u[0], v[0], z, Eval(u[1..], Mul(z, z)), Eval(v[1..], Mul(z, z)));
    }
  }
}
