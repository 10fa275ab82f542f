// The noise floor of audio-canary: a selection sort stopped once the middle rank is in place.
module MedianMagnitude {
  // A Go run-time panic is an outcome of its own.
  datatype Outcome = Panics | Value(value: real)

  // The magnitudes the median is taken over: bins 1 .. n-1 of the lower half without skip.
  function Bins(magnitudes: seq<real>, skip: int, i: nat): (bins: seq<real>)
    decreases |magnitudes| - i
  {
    if i >= |magnitudes| / 2 then []
    else if i == skip then Bins(magnitudes, skip, i + 1)
    else [magnitudes[i]] + Bins(magnitudes, skip, i + 1)
  }

  // When nothing is left to take the median of.
  lemma EmptyBins(magnitudes: seq<real>, skip: int)
    ensures Bins(magnitudes, skip, 1) == [] <==> |magnitudes| < 4 || (|magnitudes| < 6 && skip == 1)
  {
    var n := |magnitudes| / 2;
    if n >= 3 && skip == 1 {
      assert Bins(magnitudes, skip, 1) == Bins(magnitudes, skip, 2);
    } else if n == 2 && skip == 1 {
      assert Bins(magnitudes, skip, 1) == Bins(magnitudes, skip, 2) == [];
    }
  }

  // They are the entries from bin 1 up to the middle, in order, with bin skip cut out if it is among them.
  lemma {:induction false} BinsFrom(magnitudes: seq<real>, skip: int, i: nat)
    requires i <= |magnitudes| / 2
    ensures var n := |magnitudes| / 2;
      Bins(magnitudes, skip, i) ==
        if i <= skip < n then magnitudes[i..skip] + magnitudes[skip + 1..n] else magnitudes[i..n]
    decreases |magnitudes| - i
  {
    var n := |magnitudes| / 2;
    if i < n {
      BinsFrom(magnitudes, skip, i + 1);
      assert magnitudes[i..n] == [magnitudes[i]] + magnitudes[i + 1..n];
      if i < skip < n { assert magnitudes[i..skip] == [magnitudes[i]] + magnitudes[i + 1..skip]; }
    }
  }

  // How many entries are below m (strict) or at most m.
  function Count(s: seq<real>, m: real, strict: bool): nat {
    if s == [] then 0
    else (if s[0] < m || (!strict && s[0] == m) then 1 else 0) + Count(s[1..], m, strict)
  }

  // m is the entry of rank len/2: at most len/2 entries lie below it, more than len/2 do not exceed it.
  ghost predicate IsMedian(s: seq<real>, m: real) {
    Count(s, m, true) <= |s| / 2 < Count(s, m, false)
  }

  lemma {:induction false} CountAppend(a: seq<real>, b: seq<real>, m: real, strict: bool)
    ensures Count(a + b, m, strict) == Count(a, m, strict) + Count(b, m, strict)
  {
    if a == [] {
      assert a + b == b;
    } else {
      assert (a + b)[1..] == a[1..] + b;
      CountAppend(a[1..], b, m, strict);
    }
  }

  lemma SplitFour(a: seq<real>, x: real, b: seq<real>, y: real, c: seq<real>, m: real, strict: bool)
    ensures Count(a + ([x] + (b + ([y] + c))), m, strict)
         == Count(a, m, strict) + Count([x], m, strict) + Count(b, m, strict) + Count([y], m, strict)
            + Count(c, m, strict)
  {
    CountAppend(a, [x] + (b + ([y] + c)), m, strict);
    CountAppend([x], b + ([y] + c), m, strict);
    CountAppend(b, [y] + c, m, strict);
    CountAppend([y], c, m, strict);
  }

  lemma CountSwap(s: seq<real>, i: nat, j: nat, m: real, strict: bool)
    requires i < j < |s|
    ensures Count(s[i := s[j]][j := s[i]], m, strict) == Count(s, m, strict)
  {
    var t := s[i := s[j]][j := s[i]];
    var a, b, c := s[..i], s[i + 1..j], s[j + 1..];
    assert s == a + ([s[i]] + (b + ([s[j]] + c)));
    assert t == a + ([s[j]] + (b + ([s[i]] + c)));
    SplitFour(a, s[i], b, s[j], c, m, strict);
    SplitFour(a, s[j], b, s[i], c, m, strict);
  }

  lemma {:induction false} CountMonotone(s: seq<real>, low: real, high: real)
    requires low < high
    ensures Count(s, low, false) <= Count(s, high, true)
  {
    if s != [] { CountMonotone(s[1..], low, high); }
  }

  // There is only one such value.
  lemma MedianIsUnique(s: seq<real>, m1: real, m2: real)
    requires IsMedian(s, m1) && IsMedian(s, m2)
    ensures m1 == m2
  {
    if m1 < m2 { CountMonotone(s, m1, m2); }
    if m2 < m1 { CountMonotone(s, m2, m1); }
  }

  lemma {:induction false} CountAll(s: seq<real>, m: real)
    ensures (forall i :: 0 <= i < |s| ==> s[i] <= m) ==> Count(s, m, false) == |s|
    ensures (forall i :: 0 <= i < |s| ==> s[i] >= m) ==> Count(s, m, true) == 0
    ensures Count(s, m, true) <= |s|
  {
    if s != [] { CountAll(s[1..], m); }
  }

  // Once everything before h is no larger and everything after no smaller, s[h] has rank h.
  lemma RankedEntry(s: seq<real>, h: nat)
    requires h == |s| / 2 && h < |s|
    requires forall i :: 0 <= i < h ==> s[i] <= s[h]
    requires forall i :: h < i < |s| ==> s[h] <= s[i]
    ensures IsMedian(s, s[h])
  {
    var m := s[h];
    assert s == s[..h + 1] + s[h + 1..] && s == s[..h] + s[h..];
    CountAppend(s[..h + 1], s[h + 1..], m, false);
    CountAppend(s[..h], s[h..], m, true);
    CountAll(s[..h + 1], m);
    CountAll(s[..h], m);
    CountAll(s[h..], m);
  }

  ghost predicate SameCounts(s: seq<real>, t: seq<real>) {
    |s| == |t| && forall m, strict :: Count(s, m, strict) == Count(t, m, strict)
  }

  // The inner loop: the position of a least entry from i on.
  method LeastFrom(mags: array<real>, i: nat) returns (minIdx: nat)
    requires i < mags.Length
    ensures i <= minIdx < mags.Length
    ensures forall q :: i <= q < mags.Length ==> mags[minIdx] <= mags[q]
  {
    minIdx := i;
    for j := i + 1 to mags.Length
      invariant i <= minIdx < j
      invariant forall q :: i <= q < j ==> mags[minIdx] <= mags[q]
    {
      if mags[j] < mags[minIdx] { minIdx := j; }
    }
  }

  lemma KeepCounts(before: seq<real>, after: seq<real>, all: seq<real>, i: nat, j: nat)
    requires i <= j < |before| && after == before[i := before[j]][j := before[i]]
    requires SameCounts(before, all)
    ensures SameCounts(after, all)
  {
    forall m, strict ensures Count(after, m, strict) == Count(all, m, strict) {
      if i < j { CountSwap(before, i, j, m, strict); } else { assert after == before; }
    }
  }

  // The outer loop, which runs once even when there is nothing to sort.
  method SortToMiddle(mags: array<real>) returns (ok: bool)
    modifies mags
    ensures ok <==> mags.Length > 0
    ensures ok ==> IsMedian(old(mags[..]), mags[mags.Length / 2])
  {
    ghost var all := mags[..];
    var i := 0;
    while i <= mags.Length / 2
      invariant 0 <= i <= mags.Length / 2 + 1
      invariant mags.Length == 0 ==> i == 0
      invariant SameCounts(mags[..], all)
      invariant forall p, q :: 0 <= p < i && p < q < mags.Length ==> mags[p] <= mags[q]
    {
      if i >= mags.Length {
        return false;  // mags[i] is out of range
      }
      var minIdx := LeastFrom(mags, i);
      ghost var before := mags[..];
      mags[i], mags[minIdx] := mags[minIdx], mags[i];
      KeepCounts(before, mags[..], all, i, minIdx);
      i := i + 1;
    }
    RankedEntry(mags[..], mags.Length / 2);
    return true;
  }

  // medianMag on the bin magnitudes. The check for an empty list comes after the loop that
  // already indexes it, so an empty list panics instead of yielding 1.
  method MedianMag(magnitudes: seq<real>, skipBin: int) returns (r: Outcome)
    ensures r.Panics? <==> |magnitudes| < 4 || (|magnitudes| < 6 && skipBin == 1)
    ensures r.Value? ==> exists m :: IsMedian(Bins(magnitudes, skipBin, 1), m) && r.value == if m <= 0.0 then 1.0 else m
  {
    var n := |magnitudes| / 2;
    if n == 0 {
      return Panics;  // make with capacity n-1
    }
    var kept := [];
    for i := 1 to n
      invariant Bins(magnitudes, skipBin, 1) == kept + Bins(magnitudes, skipBin, i)
    {
      if i != skipBin { kept := kept + [magnitudes[i]]; }
    }
    assert Bins(magnitudes, skipBin, 1) == kept;
    EmptyBins(magnitudes, skipBin);
    var mags := new real[|kept|](i requires 0 <= i < |kept| => kept[i]);
    assert mags[..] == kept;
    var ok := SortToMiddle(mags);
    if !ok {
      return Panics;
    }
    var m := mags[mags.Length / 2];
    assert IsMedian(kept, m);
    return Value(if m <= 0.0 then 1.0 else m);
  }
}
