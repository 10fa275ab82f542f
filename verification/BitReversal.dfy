// Bit reversal: the counter that runs backwards, and the permutation its swaps perform in place.
module BitReversal {
  import opened ComplexNumbers
  import opened DiscreteFourier

  // The b low bits of i in reverse order.
  function Rev(b: nat, i: nat): (r: nat)
    ensures r < Pow2(b)
  {
    if b == 0 then 0 else (if i % 2 == 1 then Pow2(b - 1) else 0) + Rev(b - 1, i / 2)
  }

  // The same reversal read from the top: the high bit of i lands in the low bit.
  lemma {:induction false} RevFromTop(b: nat, high: bool, low: nat)
    requires b > 0 && low < Pow2(b - 1)
    ensures Rev(b, if high then Pow2(b - 1) + low else low) == 2 * Rev(b - 1, low) + if high then 1 else 0
  {
    if b == 1 {
      assert Rev(0, 1) == 0;
    } else {
      assert Pow2(b - 1) == 2 * Pow2(b - 2);
      RevFromTop(b - 1, high, low / 2);
    }
  }

  lemma {:induction false} RevIsInvolution(b: nat, i: nat)
    requires i < Pow2(b)
    ensures Rev(b, Rev(b, i)) == i
  {
    if b > 0 {
      RevIsInvolution(b - 1, i / 2);
      RevFromTop(b, i % 2 == 1, Rev(b - 1, i / 2));
    }
  }

  // j & bit != 0, for a mask that is a power of two or zero.
  function HasBit(j: nat, bit: nat): bool {
    bit != 0 && (j / bit) % 2 == 1
  }

  // j ^ bit, for such a mask.
  function FlipBit(j: nat, bit: nat): nat {
    if HasBit(j, bit) && j >= bit then j - bit else j + bit
  }

  lemma TopBit(j: nat, bit: nat)
    requires 0 < bit && j < 2 * bit
    ensures HasBit(j, bit) <==> j >= bit
    ensures FlipBit(j, bit) == if j >= bit then j - bit else j + bit
  {
    if j >= bit {
      assert j / bit == 1;
    } else {
      assert j / bit == 0;
    }
  }

  // One increment of a bit-reversed counter: the carry runs from the top bit down.
  // The invariant keeps only the b bits below the carry: q is what is left of the
  // counter, and it is never all ones, so the carry always finds a clear bit.
  method NextReversed(j: nat, n: nat, ghost m: nat, ghost i: nat) returns (next: nat)
    requires n == Pow2(m) && 0 < i < n
    requires j == Rev(m, i - 1)
    ensures next == Rev(m, i)
  {
    next := j;
    var bit := n / 2;
    ghost var b := m;
    ghost var q: nat := i - 1;
    while HasBit(next, bit)
      invariant 0 < b <= m && q + 1 < Pow2(b)
      invariant bit == Pow2(b - 1)
      invariant next == Rev(b, q) && Rev(b, q + 1) == Rev(m, i)
      decreases b
    {
      TopBit(next, bit);
      next := FlipBit(next, bit);
      assert q % 2 == 1 && (q + 1) / 2 == q / 2 + 1;
      bit := bit / 2;
      b := b - 1;
      q := q / 2;
    }
    TopBit(next, bit);
    next := FlipBit(next, bit);
    assert q % 2 == 0 && (q + 1) / 2 == q / 2;
  }

  // The bit-reversal permutation of a sequence of 2^m elements.
  ghost function Reversed(s: seq<Complex>, m: nat): seq<Complex>
    requires |s| == Pow2(m)
  {
    seq(|s|, i requires 0 <= i < |s| => s[Rev(m, i)])
  }

  // The permutation is its own inverse.
  lemma ReversedTwice(s: seq<Complex>, m: nat)
    requires |s| == Pow2(m)
    ensures Reversed(Reversed(s, m), m) == s
  {
    forall i | 0 <= i < |s| ensures Reversed(Reversed(s, m), m)[i] == s[i] {
      RevIsInvolution(m, i);
    }
  }

  ghost predicate PartlyReversed(was: seq<Complex>, now: seq<Complex>, m: nat, i: nat)
    requires |was| == |now| == Pow2(m)
  {
    forall p :: 0 <= p < |was| ==> now[p] == was[if p < i || Rev(m, p) < i then Rev(m, p) else p]
  }

  lemma AfterReversal(was: seq<Complex>, now: seq<Complex>, m: nat)
    requires |was| == |now| == Pow2(m) && PartlyReversed(was, now, m, |was|)
    ensures now == Reversed(was, m)
  {
  }

  lemma {:induction false} RevZero(m: nat)
    ensures Rev(m, 0) == 0
  {
    if m > 0 { RevZero(m - 1); }
  }

  lemma BeforeReversal(was: seq<Complex>, m: nat)
    requires |was| == Pow2(m)
    ensures Rev(m, 0) == 0 && PartlyReversed(was, was, m, 1)
  {
    RevZero(m);
    forall p | 0 <= p < |was| ensures Rev(m, Rev(m, p)) == p { RevIsInvolution(m, p); }
  }

  lemma SwapStep(was: seq<Complex>, before: seq<Complex>, after: seq<Complex>, m: nat, i: nat)
    requires |was| == |before| == |after| == Pow2(m) && i < |was|
    requires PartlyReversed(was, before, m, i)
    requires var j := Rev(m, i);
      after == if i < j then before[i := before[j]][j := before[i]] else before
    ensures PartlyReversed(was, after, m, i + 1)
  {
    hide Rev, Pow2;
    RevIsInvolution(m, i);
    forall p | 0 <= p < |was|
      ensures after[p] == was[if p < i + 1 || Rev(m, p) < i + 1 then Rev(m, p) else p]
    {
      RevIsInvolution(m, p);
    }
  }

  method BitReverse(out: array<Complex>, ghost m: nat)
    requires out.Length == Pow2(m)
    modifies out
    ensures out[..] == Reversed(old(out[..]), m)
  {
    hide PartlyReversed, Reversed;
    var n := out.Length;
    ghost var was := out[..];
    var j := 0;
    BeforeReversal(was, m);
    for i := 1 to n
      invariant j == Rev(m, i - 1)
      invariant PartlyReversed(was, out[..], m, i)
    {
      j := NextReversed(j, n, m, i);
      ghost var before := out[..];
      if i < j {
        out[i], out[j] := out[j], out[i];
        assert out[..] == before[i := before[j]][j := before[i]];
      } else {
        assert out[..] == before;
      }
      SwapStep(was, before, out[..], m, i);
    }
    AfterReversal(was, out[..], m);
  }

  // ---- the permutation on whole sequences ----

  ghost function Unshuffle(s: seq<Complex>, b: nat): (x: seq<Complex>)
    requires |s| == Pow2(b)
    ensures |x| == |s|
    decreases b
  {
    if b == 0 then s else
      var h := Pow2(b - 1);
      Interleave(Unshuffle(s[..h], b - 1), Unshuffle(s[h..], b - 1))
  }

  lemma {:induction false} UnshuffleAt(s: seq<Complex>, b: nat, j: nat)
    requires |s| == Pow2(b) && j < |s|
    ensures Unshuffle(s, b)[j] == s[Rev(b, j)]
    decreases b
  {
    hide Interleave;
    if b > 0 {
      var h := Pow2(b - 1);
      var k := j / 2;
      var r := Rev(b - 1, k);
      InterleaveAt(Unshuffle(s[..h], b - 1), Unshuffle(s[h..], b - 1), k);
      if j % 2 == 0 {
        UnshuffleAt(s[..h], b - 1, k);
        assert s[..h][r] == s[r];
      } else {
        UnshuffleAt(s[h..], b - 1, k);
        assert s[h..][r] == s[h + r];
      }
    }
  }
}
