// Exact complex arithmetic: the model's stand-in for complex128.
module ComplexNumbers {
  datatype Complex = Complex(re: real, im: real)

  const ZERO := Complex(0.0, 0.0)
  const ONE := Complex(1.0, 0.0)
  const MINUS_ONE := Complex(-1.0, 0.0)

  function Add(a: Complex, b: Complex): Complex {
    Complex(a.re + b.re, a.im + b.im)
  }

  function Sub(a: Complex, b: Complex): Complex {
    Complex(a.re - b.re, a.im - b.im)
  }

  function Mul(a: Complex, b: Complex): Complex {
    Complex(a.re * b.re - a.im * b.im, a.re * b.im + a.im * b.re)
  }

  function Pow(w: Complex, k: nat): Complex {
    if k == 0 then ONE else Mul(w, Pow(w, k - 1))
  }

  lemma MulAssoc(a: Complex, b: Complex, c: Complex)
    ensures Mul(Mul(a, b), c) == Mul(a, Mul(b, c))
  {
    assert Mul(Mul(a, b), c).re == Mul(a, Mul(b, c)).re;
    assert Mul(Mul(a, b), c).im == Mul(a, Mul(b, c)).im;
  }

  lemma MulCommutes(a: Complex, b: Complex)
    ensures Mul(a, b) == Mul(b, a)
  {
  }

  lemma MulDistributes(a: Complex, b: Complex, c: Complex)
    ensures Mul(a, Add(b, c)) == Add(Mul(a, b), Mul(a, c))
  {
  }

  lemma AddAssoc(a: Complex, b: Complex, c: Complex)
    ensures Add(Add(a, b), c) == Add(a, Add(b, c))
  {
  }

  lemma {:induction false} PowAdd(w: Complex, j: nat, k: nat)
    ensures Pow(w, j + k) == Mul(Pow(w, j), Pow(w, k))
  {
    if j > 0 {
      PowAdd(w, j - 1, k);
      MulAssoc(w, Pow(w, j - 1), Pow(w, k));
    }
  }

  lemma Peel(j: nat, k: nat)
    ensures k == 0 ==> j * k == 0
    ensures k > 0 ==> j * k == j + j * (k - 1)
  {
  }

  lemma {:induction false} PowMul(w: Complex, j: nat, k: nat)
    ensures Pow(w, j * k) == Pow(Pow(w, j), k)
  {
    hide Mul;
    Peel(j, k);
    if k > 0 {
      PowMul(w, j, k - 1);
      PowAdd(w, j, j * (k - 1));
    }
  }
}
