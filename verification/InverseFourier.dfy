// Transforming back: the transform of 2^m samples determines them.
module InverseFourier {
  import opened ComplexNumbers
  import opened DiscreteFourier

  // w behaves like exp(-2*pi*i / 2^m).
  ghost predicate PrincipalRoot(w: Complex, m: nat) {
    m > 0 ==> Pow(w, Pow2(m - 1)) == MINUS_ONE
  }

  lemma OneIsNeutral(a: Complex)
    ensures Mul(a, ONE) == a == Mul(ONE, a)
  {
  }

  lemma MinusOnes(a: Complex)
    ensures Mul(MINUS_ONE, ONE) == MINUS_ONE && Mul(MINUS_ONE, MINUS_ONE) == ONE
    ensures Mul(MINUS_ONE, a) == ONE ==> a == MINUS_ONE
    ensures Add(a, Mul(MINUS_ONE, a)) == ZERO
  {
    assert Mul(MINUS_ONE, a) == Complex(-a.re, -a.im);
  }

  lemma ZeroTimes(a: Complex)
    ensures Mul(a, ZERO) == Mul(ZERO, a) == ZERO && Add(ZERO, a) == Add(a, ZERO) == a
  {
  }

  lemma {:induction false} PowOfOne(k: nat)
    ensures Pow(ONE, k) == ONE
  {
    hide Mul;
    if k > 0 {
      PowOfOne(k - 1);
      OneIsNeutral(ONE);
    }
  }

  lemma {:induction false} OddPower(k: nat)
    ensures Pow(MINUS_ONE, k) == if k % 2 == 1 then MINUS_ONE else ONE
  {
    hide Mul;
    if k > 0 {
      OddPower(k - 1);
      MinusOnes(ONE);
    }
  }

  lemma FourFactors(a: Complex, b: Complex, c: Complex, d: Complex)
    ensures Mul(Mul(a, b), Mul(c, d)) == Mul(Mul(a, c), Mul(b, d))
  {
    hide Mul;
    MulAssoc(a, b, Mul(c, d));
    MulAssoc(b, c, d);
    MulCommutes(b, c);
    MulAssoc(c, b, d);
    MulAssoc(a, c, Mul(b, d));
  }

  lemma {:induction false} PowOfProduct(a: Complex, b: Complex, k: nat)
    ensures Pow(Mul(a, b), k) == Mul(Pow(a, k), Pow(b, k))
  {
    hide Mul;
    if k == 0 {
      OneIsNeutral(ONE);
    } else {
      PowOfProduct(a, b, k - 1);
      FourFactors(a, b, Pow(a, k - 1), Pow(b, k - 1));
    }
  }

  // ---- geometric sums ----

  // The sum of the first n powers of r.
  ghost function Geometric(r: Complex, n: nat): Complex {
    if n == 0 then ZERO else Add(Geometric(r, n - 1), Pow(r, n - 1))
  }

  lemma {:induction false} GeometricOfOne(n: nat)
    ensures Geometric(ONE, n) == Complex(n as real, 0.0)
  {
    hide Mul;
    if n > 0 {
      GeometricOfOne(n - 1);
      PowOfOne(n - 1);
    }
  }

  lemma {:induction false} GeometricSplits(r: Complex, a: nat, b: nat)
    ensures Geometric(r, a + b) == Add(Geometric(r, a), Mul(Pow(r, a), Geometric(r, b)))
  {
    hide Mul, Add;
    if b == 0 {
      ZeroTimes(Pow(r, a));
      ZeroTimes(Geometric(r, a));
    } else {
      GeometricSplits(r, a, b - 1);
      PowAdd(r, a, b - 1);
      MulDistributes(Pow(r, a), Geometric(r, b - 1), Pow(r, b - 1));
      AddAssoc(Geometric(r, a), Mul(Pow(r, a), Geometric(r, b - 1)), Mul(Pow(r, a), Pow(r, b - 1)));
    }
  }

  // Once the powers have made half a turn they cancel.
  lemma {:induction false} PowersCancel(r: Complex, i: nat, m: nat)
    requires i < m && Pow(r, Pow2(i)) == MINUS_ONE
    ensures Geometric(r, Pow2(m)) == ZERO
    decreases m
  {
    hide Mul, Add, Pow;
    var h := Pow2(m - 1);
    GeometricSplits(r, h, h);
    if i < m - 1 {
      PowersCancel(r, i, m - 1);
      ZeroTimes(Pow(r, h));
      ZeroTimes(ZERO);
    } else {
      MinusOnes(Geometric(r, h));
    }
  }

  lemma SquareIsPrincipal(w: Complex, m: nat)
    requires m > 0 && PrincipalRoot(w, m)
    ensures PrincipalRoot(Mul(w, w), m - 1)
  {
    hide Mul, Pow;
    if m > 1 {
      PowOfProduct(w, w, Pow2(m - 2));
      PowAdd(w, Pow2(m - 2), Pow2(m - 2));
    }
  }

  lemma PrincipalMeans(w: Complex, m: nat)
    ensures PrincipalRoot(w, m) && m > 0 ==> Pow(w, Pow2(m - 1)) == MINUS_ONE
  {
  }

  // Some power of w^d makes half a turn.
  lemma {:induction false} HalfTurn(w: Complex, m: nat, d: nat) returns (i: nat)
    requires 0 < d < Pow2(m) && PrincipalRoot(w, m)
    ensures i < m && Pow(Pow(w, d), Pow2(i)) == MINUS_ONE
    decreases m
  {
    hide Mul, Pow, PrincipalRoot;
    PrincipalMeans(w, m);
    var h := Pow2(m - 1);
    if d % 2 == 1 {
      i := m - 1;
      PowMul(w, d, h);
      PowMul(w, h, d);
      assert d * h == h * d;
      OddPower(d);
    } else {
      SquareIsPrincipal(w, m);
      i := HalfTurn(Mul(w, w), m - 1, d / 2);
      PowOfProduct(w, w, d / 2);
      PowAdd(w, d / 2, d / 2);
    }
  }

  lemma InverseIsPrincipal(w: Complex, v: Complex, m: nat)
    requires PrincipalRoot(w, m) && Mul(w, v) == ONE
    ensures PrincipalRoot(v, m)
  {
    hide Mul, Pow;
    if m > 0 {
      var h := Pow2(m - 1);
      PowOfProduct(w, v, h);
      PowOfOne(h);
      MinusOnes(Pow(v, h));
    }
  }

  // Powers of w against powers of its inverse.
  lemma Cancelled(w: Complex, v: Complex, l: nat, j: nat)
    requires Mul(w, v) == ONE
    ensures Mul(Pow(w, l), Pow(v, j)) == if l >= j then Pow(w, l - j) else Pow(v, j - l)
  {
    hide Mul, Pow;
    var k := if l >= j then j else l;
    PowOfProduct(w, v, k);
    PowOfOne(k);
    if l >= j {
      PowAdd(w, l - k, k);
      MulAssoc(Pow(w, l - k), Pow(w, k), Pow(v, k));
      OneIsNeutral(Pow(w, l - k));
    } else {
      PowAdd(v, k, j - k);
      MulAssoc(Pow(w, k), Pow(v, k), Pow(v, j - k));
      OneIsNeutral(Pow(v, j - k));
    }
  }

  lemma PowZero(w: Complex)
    ensures Pow(w, 0) == ONE
  {
  }

  // The powers of two different roots of unity are orthogonal.
  lemma Orthogonal(w: Complex, v: Complex, m: nat, l: nat, j: nat)
    requires PrincipalRoot(w, m) && Mul(w, v) == ONE && l < Pow2(m) && j < Pow2(m)
    ensures Geometric(Mul(Pow(w, l), Pow(v, j)), Pow2(m)) == if l == j then Complex(Pow2(m) as real, 0.0) else ZERO
  {
    hide Mul, Pow, Geometric, PrincipalRoot;
    Cancelled(w, v, l, j);
    if l > j {
      var i := HalfTurn(w, m, l - j);
      PowersCancel(Pow(w, l - j), i, m);
    } else if l < j {
      InverseIsPrincipal(w, v, m);
      var i := HalfTurn(v, m, j - l);
      PowersCancel(Pow(v, j - l), i, m);
    } else {
      PowZero(w);
      GeometricOfOne(Pow2(m));
    }
  }

  // ---- back to the samples ----

  lemma AddFour(a: Complex, b: Complex, c: Complex, d: Complex)
    ensures Add(Add(a, b), Add(c, d)) == Add(Add(a, c), Add(b, d))
  {
  }

  // The transform of a pointwise sum is the sum of the transforms.
  lemma {:induction false} DftIsLinear(x: seq<Complex>, y: seq<Complex>, z: seq<Complex>, w: Complex, k: nat, n: nat)
    requires n <= |x| == |y| == |z| && forall i :: 0 <= i < |z| ==> z[i] == Add(x[i], y[i])
    ensures DftSum(z, w, k, n) == Add(DftSum(x, w, k, n), DftSum(y, w, k, n))
  {
    hide Mul, Add, Pow;
    if n == 0 {
      ZeroTimes(ZERO);
    } else {
      DftIsLinear(x, y, z, w, k, n - 1);
      var p := Pow(w, (n - 1) * k);
      MulCommutes(z[n - 1], p);
      MulCommutes(x[n - 1], p);
      MulCommutes(y[n - 1], p);
      MulDistributes(p, x[n - 1], y[n - 1]);
      AddFour(DftSum(x, w, k, n - 1), DftSum(y, w, k, n - 1), Mul(x[n - 1], p), Mul(y[n - 1], p));
    }
  }

  // What one sample contributes to the spectrum.
  ghost function Tone(c: Complex, r: Complex, n: nat): (s: seq<Complex>)
    ensures |s| == n
  {
    seq(n, k requires 0 <= k < n => Mul(c, Pow(r, k)))
  }

  lemma {:induction false} DftOfTone(c: Complex, r: Complex, n: nat, v: Complex, j: nat, k: nat)
    requires k <= n
    ensures DftSum(Tone(c, r, n), v, j, k) == Mul(c, Geometric(Mul(r, Pow(v, j)), k))
  {
    hide Mul, Add;
    if k > 0 {
      DftOfTone(c, r, n, v, j, k - 1);
      var u := Pow(v, j);
      assert (k - 1) * j == j * (k - 1);
      PowMul(v, j, k - 1);
      PowOfProduct(r, u, k - 1);
      MulAssoc(c, Pow(r, k - 1), Pow(u, k - 1));
      MulDistributes(c, Geometric(Mul(r, u), k - 1), Pow(Mul(r, u), k - 1));
    } else {
      ZeroTimes(c);
    }
  }

  // The spectrum of the first n samples alone.
  ghost function Spectrum(x: seq<Complex>, w: Complex, n: nat): (s: seq<Complex>)
    requires n <= |x|
    ensures |s| == |x|
  {
    seq(|x|, k requires 0 <= k < |x| => DftSum(x, w, k, n))
  }

  lemma OneMoreSample(x: seq<Complex>, w: Complex, n: nat, k: nat)
    requires 0 < n <= |x| && k < |x|
    ensures Spectrum(x, w, n)[k] == Add(Spectrum(x, w, n - 1)[k], Tone(x[n - 1], Pow(w, n - 1), |x|)[k])
  {
    hide Mul, Add, Pow;
    PowMul(w, n - 1, k);
  }

  lemma NoSamples(x: seq<Complex>, w: Complex)
    ensures Spectrum(x, w, 0) == Tone(ZERO, ONE, |x|)
  {
    hide Mul, Pow;
    forall k | 0 <= k < |x| ensures Spectrum(x, w, 0)[k] == Tone(ZERO, ONE, |x|)[k] { ZeroTimes(Pow(ONE, k)); }
  }

  lemma Scaled(c: Complex, n: real)
    ensures Mul(c, Complex(n, 0.0)) == Complex(n * c.re, n * c.im)
  {
  }

  lemma {:induction false} InverseOfFirst(x: seq<Complex>, w: Complex, v: Complex, m: nat, j: nat, n: nat)
    requires |x| == Pow2(m) && PrincipalRoot(w, m) && Mul(w, v) == ONE && n <= |x| && j < |x|
    ensures Dft(Spectrum(x, w, n), v, j) ==
            if j < n then Complex(|x| as real * x[j].re, |x| as real * x[j].im) else ZERO
  {
    hide Mul, Add, PrincipalRoot, Spectrum, Tone, DftSum, Geometric, Pow;
    if n == 0 {
      NoSamples(x, w);
      DftOfTone(ZERO, ONE, |x|, v, j, |x|);
      ZeroTimes(Geometric(Mul(ONE, Pow(v, j)), |x|));
    } else {
      var c, r := x[n - 1], Pow(w, n - 1);
      InverseOfFirst(x, w, v, m, j, n - 1);
      forall k | 0 <= k < |x| ensures Spectrum(x, w, n)[k] == Add(Spectrum(x, w, n - 1)[k], Tone(c, r, |x|)[k]) {
        OneMoreSample(x, w, n, k);
      }
      DftIsLinear(Spectrum(x, w, n - 1), Tone(c, r, |x|), Spectrum(x, w, n), v, j, |x|);
      DftOfTone(c, r, |x|, v, j, |x|);
      Orthogonal(w, v, m, n - 1, j);
      var before := Dft(Spectrum(x, w, n - 1), v, j);
      assert Dft(Spectrum(x, w, n), v, j) == Add(before, Mul(c, Geometric(Mul(r, Pow(v, j)), |x|)));
      if j == n - 1 {
        Scaled(c, |x| as real);
        ZeroTimes(Mul(c, Complex(|x| as real, 0.0)));
      } else {
        ZeroTimes(c);
        ZeroTimes(before);
      }
    }
  }

  // Transforming with the inverse root gives every sample back, |x|-fold.
  lemma InverseOfDft(x: seq<Complex>, s: seq<Complex>, w: Complex, v: Complex, m: nat, j: nat)
    requires |x| == |s| == Pow2(m) && PrincipalRoot(w, m) && Mul(w, v) == ONE && j < |x|
    requires forall k :: 0 <= k < |x| ==> s[k] == Dft(x, w, k)
    ensures Dft(s, v, j) == Complex(|x| as real * x[j].re, |x| as real * x[j].im)
  {
    assert s == Spectrum(x, w, |x|);
    InverseOfFirst(x, w, v, m, j, |x|);
  }

  // A single sample that is not zero shows as a pure tone.
  lemma {:induction false} DftOfImpulse(x: seq<Complex>, w: Complex, j: nat, k: nat, n: nat)
    requires j < |x| && n <= |x| && forall i :: 0 <= i < |x| && i != j ==> x[i] == ZERO
    ensures DftSum(x, w, k, n) == if j < n then Mul(x[j], Pow(w, j * k)) else ZERO
  {
    hide Mul, Add, Pow;
    if n > 0 {
      DftOfImpulse(x, w, j, k, n - 1);
      ZeroTimes(Pow(w, (n - 1) * k));
      ZeroTimes(Mul(x[j], Pow(w, j * k)));
      ZeroTimes(ZERO);
    }
  }
}
