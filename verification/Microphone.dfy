// The microphone worklet: every so many input samples one is kept, packed to 16 bits and posted in chunks.
module Microphone {
  type Int16 = x: int | -0x8000 <= x < 0x8000

  // ---- one sample ----

  function Clamp(s: real): real {
    var low := if s < 1.0 then s else 1.0;
    if low > -1.0 then low else -1.0
  }

  // x | 0 drops the fraction.
  function Truncated(x: real): int {
    if x < 0.0 then -((-x).Floor) else x.Floor
  }

  // The two halves of the range are scaled differently, so that both ends are reached and neither overflows.
  function Packed(sample: real): (r: Int16)
    ensures sample >= 1.0 ==> r == 0x7FFF
    ensures sample <= -1.0 ==> r == -0x8000
    ensures 0.0 <= sample <= 1.0 ==> r as real <= sample * 32767.0 < r as real + 1.0
    ensures -1.0 <= sample <= 0.0 ==> r as real - 1.0 < sample * 32768.0 <= r as real
  {
    var s := Clamp(sample);
    if s < 0.0 then Truncated(s * 32768.0) else Truncated(s * 32767.0)
  }

  // ---- which samples are kept ----

  // How many of the first n input samples are kept when the rates are source and target.
  function Kept(source: nat, target: nat, n: nat): nat
    requires source > 0
  {
    if target >= source then n else n * target / source
  }

  // What is kept of a stream.
  function Decimated(source: nat, target: nat, input: seq<real>): seq<Int16>
    requires source > 0
  {
    if input == [] then []
    else
      var n := |input|;
      Decimated(source, target, input[..n - 1])
        + if Kept(source, target, n) > Kept(source, target, n - 1) then [Packed(input[n - 1])] else []
  }

  // The accumulator in units of 1/target, after n samples.
  ghost predicate Accumulated(source: nat, target: nat, n: nat, acc: nat)
    requires source > 0
  {
    acc + source * Kept(source, target, n) == target * n && (target < source ==> acc < source)
  }

  lemma Divides(a: nat, b: nat, q: nat, r: nat)
    requires b > 0 && r < b && q * b + r == a
    ensures a / b == q
  {
    var d := a / b;
    assert d * b <= a < d * b + b;
    assert d < q ==> (d + 1) * b <= q * b;
    assert d > q ==> (q + 1) * b <= d * b;
  }

  // One more sample: it is kept exactly when the accumulator reaches the source rate.
  lemma Accumulates(source: nat, target: nat, n: nat, acc: nat)
    requires source > 0 && target > 0 && Accumulated(source, target, n, acc)
    ensures var k := Kept(source, target, n); var k' := Kept(source, target, n + 1);
      if acc + target >= source
      then k' == k + 1 && Accumulated(source, target, n + 1, acc + target - source)
      else k' == k && Accumulated(source, target, n + 1, acc + target)
  {
    var k := Kept(source, target, n);
    assert target * (n + 1) == target * n + target && source * (k + 1) == source * k + source;
    if target < source {
      if acc + target >= source {
        Divides((n + 1) * target, source, k + 1, acc + target - source);
      } else {
        Divides((n + 1) * target, source, k, acc + target);
      }
    } else {
      assert target * n >= source * n;
    }
  }

  lemma KeptSteps(source: nat, target: nat, n: nat)
    requires source > 0 && target > 0
    ensures Kept(source, target, 0) == 0
    ensures Kept(source, target, n) <= Kept(source, target, n + 1) <= Kept(source, target, n) + 1
  {
    if target < source {
      var k := n * target / source;
      var acc := n * target % source;
      assert acc + source * k == target * n;
      Accumulates(source, target, n, acc);
    }
  }

  lemma {:induction false} DecimatedLength(source: nat, target: nat, input: seq<real>)
    requires source > 0 && target > 0
    ensures |Decimated(source, target, input)| == Kept(source, target, |input|)
  {
    hide Kept;
    KeptSteps(source, target, if input == [] then 0 else |input| - 1);
    if input != [] { DecimatedLength(source, target, input[..|input| - 1]); }
  }

  // The number of samples emitted is the exact proportion of the input, rounded down, for every input if and only if
  // the source is no slower than the target.
  lemma ProportionIff(source: nat, target: nat)
    requires source > 0 && target > 0
    ensures (forall input: seq<real> :: |Decimated(source, target, input)| == |input| * target / source)
       <==> source >= target
  {
    if source >= target {
      forall input: seq<real> ensures |Decimated(source, target, input)| == |input| * target / source {
        DecimatedLength(source, target, input);
        if source == target { Divides(|input| * target, source, |input|, 0); }
      }
    } else {
      var input := seq(source, _ => 0.0);
      DecimatedLength(source, target, input);
      Divides(source * target, source, target, 0);
    }
  }

  // A slower source has every one of its samples emitted, packed.
  lemma {:induction false} SlowSourceKeepsAll(source: nat, target: nat, input: seq<real>)
    requires 0 < source <= target
    ensures |Decimated(source, target, input)| == |input|
    ensures forall i :: 0 <= i < |input| ==> Decimated(source, target, input)[i] == Packed(input[i])
  {
    hide Packed;
    if input != [] { SlowSourceKeepsAll(source, target, input[..|input| - 1]); }
  }

  // The number of the input sample that is the k-th to be kept: k * source / target, rounded up.
  function Nth(source: nat, target: nat, k: nat): nat
    requires target > 0
  {
    (k * source + target - 1) / target
  }

  lemma NoneTimes(m: nat, t: nat)
    ensures m == 0 ==> m * t == 0
  {
  }

  lemma RoundedUp(a: nat, b: nat, m: nat)
    requires b > 0 && m == (a + b - 1) / b
    ensures a <= m * b < a + b
  {
    assert m * b <= a + b - 1 < m * b + b;
  }

  lemma NthIs(source: nat, target: nat, k: nat)
    requires target > 0
    ensures var m := Nth(source, target, k); (m - 1) * target < k * source <= m * target
  {
    var m := Nth(source, target, k);
    RoundedUp(k * source, target, m);
    assert (m - 1) * target == m * target - target;
  }

  lemma KeptIs(source: nat, target: nat, n: nat, k: nat)
    requires source >= target > 0 && k * source <= n * target < k * source + source
    ensures Kept(source, target, n) == k
  {
    Divides(n * target, source, k, n * target - k * source);
    if source == target { Divides(n * target, source, n, 0); }
  }

  lemma NthKept(source: nat, target: nat, k: nat)
    requires source >= target > 0 && k > 0
    ensures var m := Nth(source, target, k);
      m > 0 && Kept(source, target, m) == k && Kept(source, target, m - 1) == k - 1
  {
    var m := Nth(source, target, k);
    RoundedUp(k * source, target, m);
    assert k * source >= source by { assert (k - 1) * source >= 0; }
    NoneTimes(m, target);
    assert (m - 1) * target == m * target - target && (k - 1) * source == k * source - source;
    KeptIs(source, target, m, k);
    KeptIs(source, target, m - 1, k - 1);
  }

  lemma {:induction false} KeptMonotone(source: nat, target: nat, a: nat, b: nat)
    requires source > 0 && target > 0 && a <= b
    ensures Kept(source, target, a) <= Kept(source, target, b)
    decreases b
  {
    hide Kept;
    if a < b {
      KeptMonotone(source, target, a, b - 1);
      KeptSteps(source, target, b - 1);
    }
  }

  // If n is the first length at which a sample is the k-th, it is Nth(k).
  lemma KeptRises(source: nat, target: nat, m: nat, n: nat)
    requires source > 0 && target > 0 && m > 0 && n > 0
    requires Kept(source, target, m) == Kept(source, target, n)
    requires Kept(source, target, m - 1) == Kept(source, target, n - 1)
    requires Kept(source, target, n - 1) < Kept(source, target, n)
    ensures m == n
  {
    hide Kept;
    if m < n { KeptMonotone(source, target, m, n - 1); }
    if n < m { KeptMonotone(source, target, n, m - 1); }
  }

  // The k-th sample of the output is the packed input sample number Nth(k).
  lemma {:induction false} NthOutput(source: nat, target: nat, input: seq<real>, k: nat)
    requires source >= target > 0 && 0 < k <= Kept(source, target, |input|)
    ensures |Decimated(source, target, input)| == Kept(source, target, |input|)
    ensures var m := Nth(source, target, k);
      && 0 < m <= |input| && (m - 1) * target < k * source <= m * target
      && Decimated(source, target, input)[k - 1] == Packed(input[m - 1])
  {
    hide Kept, Nth, Packed;
    NthIs(source, target, k);
    DecimatedLength(source, target, input);
    KeptSteps(source, target, 0);
    if input != [] {
      var n := |input|;
      var before := input[..n - 1];
      KeptSteps(source, target, n - 1);
      DecimatedLength(source, target, before);
      if k <= Kept(source, target, n - 1) {
        NthOutput(source, target, before, k);
      } else {
        NthKept(source, target, k);
        KeptRises(source, target, Nth(source, target, k), n);
      }
    }
  }

  // ---- the worklet ----

  function Joined(chunks: seq<seq<Int16>>): seq<Int16> {
    if chunks == [] then [] else Joined(chunks[..|chunks| - 1]) + chunks[|chunks| - 1]
  }

  lemma JoinedGrows(chunks: seq<seq<Int16>>, c: seq<Int16>)
    ensures Joined(chunks + [c]) == Joined(chunks) + c
  {
    assert (chunks + [c])[..|chunks|] == chunks;
  }

  lemma OneMore(start: seq<real>, channel: seq<real>, i: nat)
    requires i < |channel|
    ensures start + channel[..i + 1] == start + channel[..i] + [channel[i]]
  {
  }

  // What has been posted stays posted.
  ghost predicate Extends(a: seq<seq<Int16>>, b: seq<seq<Int16>>) {
    a <= b
  }

  lemma ExtendsOn(a: seq<seq<Int16>>, b: seq<seq<Int16>>, c: seq<seq<Int16>>)
    requires Extends(a, b) && Extends(b, c)
    ensures Extends(a, c)
  {
  }

  lemma DecimatedGrows(source: nat, target: nat, input: seq<real>, sample: real)
    requires source > 0
    ensures var n := |input|;
      Decimated(source, target, input + [sample]) == Decimated(source, target, input)
        + if Kept(source, target, n + 1) > Kept(source, target, n) then [Packed(sample)] else []
  {
    assert (input + [sample])[..|input|] == input;
  }

  class MicProcessor {
    const sourceRate: nat
    const targetRate: nat
    const chunkSamples: nat
    const buffer: array<Int16>

    var acc: nat
    var filled: nat
    // what has gone to the port, and all input so far
    var posted: seq<seq<Int16>>
    ghost var heard: seq<real>

    ghost predicate Steady()
      reads this
    {
      && sourceRate > 0 && targetRate > 0 && chunkSamples > 0
      && buffer.Length == chunkSamples && filled < chunkSamples
      && forall c :: c in posted ==> |c| == chunkSamples
    }

    ghost predicate Valid()
      reads this, buffer
    {
      && Steady()
      && Accumulated(sourceRate, targetRate, |heard|, acc)
      && Joined(posted) + buffer[..filled] == Decimated(sourceRate, targetRate, heard)
    }

    // An option that is absent or zero takes its default.
    constructor (sampleRate: nat, target: nat, chunk: nat)
      requires sampleRate > 0
      ensures Valid() && fresh(buffer) && posted == [] && heard == [] && sourceRate == sampleRate
      ensures targetRate == (if target == 0 then 11025 else target) && chunkSamples == if chunk == 0 then 220 else chunk
    {
      sourceRate := sampleRate;
      targetRate := if target == 0 then 11025 else target;
      chunkSamples := if chunk == 0 then 220 else chunk;
      buffer := new Int16[if chunk == 0 then 220 else chunk];
      acc, filled, posted, heard := 0, 0, [], [];
      new;
      assert Kept(sourceRate, targetRate, 0) == 0;
    }

    method FlushIfFull()
      requires filled <= chunkSamples == buffer.Length && chunkSamples > 0
      modifies this`posted, this`filled
      ensures old(filled) < chunkSamples ==> posted == old(posted) && filled == old(filled)
      ensures old(filled) == chunkSamples ==> posted == old(posted) + [buffer[..]] && filled == 0
    {
      if filled < chunkSamples {
        return;
      }
      posted := posted + [buffer[..]];
      filled := 0;
    }

    // One sample of the output.
    method Keep(v: Int16)
      requires Steady()
      modifies this`posted, this`filled, buffer
      ensures Steady() && Extends(old(posted), posted)
      ensures Joined(posted) + buffer[..filled] == old(Joined(posted) + buffer[..filled]) + [v]
    {
      hide Joined;
      ghost var part := buffer[..filled];
      buffer[filled] := v;
      filled := filled + 1;
      assert buffer[..filled] == part + [v];
      assert Joined(posted) + (part + [v]) == (Joined(posted) + part) + [v];
      if filled >= chunkSamples {
        JoinedGrows(posted, part + [v]);
        assert buffer[..] == part + [v];
        FlushIfFull();
      }
    }

    method Hear(sample: real)
      requires Valid()
      modifies this, buffer
      ensures Valid() && heard == old(heard) + [sample] && Extends(old(posted), posted)
    {
      hide Accumulated, Decimated, Kept, Packed;
      Accumulates(sourceRate, targetRate, |heard|, acc);
      DecimatedGrows(sourceRate, targetRate, heard, sample);
      acc := acc + targetRate;
      if acc >= sourceRate {
        acc := acc - sourceRate;
        Keep(Packed(sample));
      }
      heard := heard + [sample];
    }

    method HearAll(channel: seq<real>)
      requires Valid()
      modifies this, buffer
      ensures Valid() && heard == old(heard) + channel && Extends(old(posted), posted)
    {
      assert Extends(posted, posted);
      hide Extends, Accumulated, Decimated, Joined, MicProcessor.Steady, MicProcessor.Valid;
      ghost var start := heard;
      for i := 0 to |channel|
        invariant Valid() && heard == start + channel[..i]
        invariant Extends(old(posted), posted)
      {
        ghost var sofar := posted;
        Hear(channel[i]);
        ExtendsOn(old(posted), sofar, posted);
        OneMore(start, channel, i);
      }
      assert channel[..|channel|] == channel;
    }

    // inputs[0] may be missing or have no channels.
    method Process(inputs: seq<seq<seq<real>>>)
      requires Valid()
      modifies this, buffer
      ensures Valid()
      ensures heard == old(heard) + if inputs == [] || inputs[0] == [] then [] else inputs[0][0]
      ensures Extends(old(posted), posted)
      ensures Joined(posted) + buffer[..filled] == Decimated(sourceRate, targetRate, heard)
      ensures filled < chunkSamples && forall c :: c in posted ==> |c| == chunkSamples
    {
      if |inputs| == 0 || |inputs[0]| == 0 {
        assert heard + [] == heard;
        return;
      }
      HearAll(inputs[0][0]);
    }
  }
}
