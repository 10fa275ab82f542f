// The frame partitioner of the audio pipeline: PCM in, frames of a few fixed sizes out.
module AudioBuffer {
  import opened FrameLoop
  import opened Resampler

  // A frame duration.
  type Millis = ms: real | ms >= 0.0

  datatype Result<T> = Ok(value: T) | Err(message: string)

  // A fixed-size region of the raw array. p of its samples are filled; a full region
  // is handed on as a frame of dst samples lasting ms milliseconds.
  datatype Bucket = Bucket(off: nat, len: nat, ms: Millis, p: nat, dst: nat)

  datatype Frame = Frame(samples: seq<Sample>, ms: Millis)

  // int(hz*ms/1000 + 0.5) * 2 for a non-negative duration: two samples for each of the whole number of sample times
  // nearest to it, upwards when halfway.
  function StereoSamples(hz: nat, ms: Millis): (n: nat)
    ensures n % 2 == 0
    ensures (n / 2) as real - 0.5 <= hz as real * ms / 1000.0 < (n / 2) as real + 0.5
  {
    (hz as real * ms / 1000.0 + 0.5).Floor * 2
  }

  // ---- the partition as a function of sizes and samples ----

  // A full bucket: which one, and what was in it.
  datatype Full = Full(bucket: nat, content: seq<Sample>)

  datatype Run = Run(full: seq<Full>, bi: nat, pending: seq<Sample>)

  // A write of s can be carried out: its loop ends.
  predicate Writable(lens: seq<nat>, bi: nat, pending: seq<Sample>, s: seq<Sample>) {
    Fits(lens, bi, |pending|) && Finishes(lens, Loop(bi, |pending|, |s|))
  }

  // What one write does, given the current bucket and the samples waiting in it.
  function Partition(lens: seq<nat>, bi: nat, pending: seq<Sample>, s: seq<Sample>): (r: Run)
    requires Writable(lens, bi, pending, s)
    ensures Fits(lens, r.bi, |r.pending|)
    ensures forall f :: f in r.full ==> f.bucket < |lens| && |f.content| == lens[f.bucket]
    decreases |s|, if lens[bi] == 0 then 1 else 0
  {
    var room := lens[bi] - |pending|;
    if s == [] || |s| < room then Run([], bi, pending + s)
    else
      var rest := s[room..];
      assert NextTurn(lens, Loop(bi, |pending|, |s|)) == Loop(Choose(lens, |rest|, |lens|), 0, |rest|);
      var r := Partition(lens, Choose(lens, |rest|, |lens|), [], rest);
      r.(full := [Full(bi, pending + s[..room])] + r.full)
  }

  function Contents(full: seq<Full>): seq<Sample> {
    if full == [] then [] else full[0].content + Contents(full[1..])
  }

  lemma ContentsCons(f: Full, rest: seq<Full>)
    ensures Contents([f] + rest) == f.content + Contents(rest)
  {
    assert ([f] + rest)[1..] == rest;
  }

  lemma {:induction false} ContentsAppend(a: seq<Full>, b: seq<Full>)
    ensures Contents(a + b) == Contents(a) + Contents(b)
  {
    if a == [] {
      assert a + b == b;
    } else {
      assert a + b == [a[0]] + (a[1..] + b);
      ContentsCons(a[0], a[1..] + b);
      ContentsAppend(a[1..], b);
    }
  }

  lemma Halves(p: seq<Sample>, s: seq<Sample>, n: nat)
    requires n <= |s|
    ensures p + s == (p + s[..n]) + s[n..]
  {
  }

  lemma Regroup(a: seq<Sample>, p: seq<Sample>, s: seq<Sample>, d: seq<Sample>, q: seq<Sample>)
    requires d + q == p + s
    ensures (a + d) + q == (a + p) + s
  {
    assert (a + d) + q == a + (d + q);
    assert (a + p) + s == a + (p + s);
  }

  // No sample is lost, duplicated or reordered.
  lemma {:induction false} PartitionConserves(lens: seq<nat>, bi: nat, pending: seq<Sample>, s: seq<Sample>)
    requires Writable(lens, bi, pending, s)
    ensures var r := Partition(lens, bi, pending, s); Contents(r.full) + r.pending == pending + s
    decreases |s|, if lens[bi] == 0 then 1 else 0
  {
    var room := lens[bi] - |pending|;
    if s != [] && |s| >= room {
      var rest := s[room..];
      var next := Choose(lens, |rest|, |lens|);
      PartitionConserves(lens, next, [], rest);
      var r := Partition(lens, next, [], rest);
      ContentsCons(Full(bi, pending + s[..room]), r.full);
      Regroup(pending + s[..room], [], rest, Contents(r.full), r.pending);
      Halves(pending, s, room);
    }
  }

  // Which bucket is filled k-th, and last of all which one is left to wait in.
  function BucketAt(r: Run, k: nat): nat
    requires k <= |r.full|
  {
    if k < |r.full| then r.full[k].bucket else r.bi
  }

  // A write goes on with the bucket it finds. Every later bucket is the last one that all the samples still to come
  // would fill: no bucket behind it would do.
  lemma {:induction false} GreedyChoice(lens: seq<nat>, bi: nat, pending: seq<Sample>, s: seq<Sample>, k: nat)
    requires Writable(lens, bi, pending, s) && k <= |Partition(lens, bi, pending, s).full|
    ensures var r := Partition(lens, bi, pending, s); var b := BucketAt(r, k);
      var rem := |Contents(r.full[k..])| + |r.pending|;
      && (k == 0 ==> b == bi)
      && (k > 0 ==> b < |lens| && (b > 0 ==> rem >= lens[b]) && forall j :: b < j < |lens| ==> rem < lens[j])
    decreases |s|, if lens[bi] == 0 then 1 else 0
  {
    hide Contents, FrameLoop.Choose;
    var room := lens[bi] - |pending|;
    if k > 0 {
      var rest := s[room..];
      var next := Choose(lens, |rest|, |lens|);
      var r, later := Partition(lens, bi, pending, s), Partition(lens, next, [], rest);
      assert r.full[k..] == later.full[k - 1..] && BucketAt(r, k) == BucketAt(later, k - 1);
      GreedyChoice(lens, next, [], rest, k - 1);
      if k == 1 {
        PartitionConserves(lens, next, [], rest);
        assert later.full[0..] == later.full;
        assert |rest| == |Contents(later.full)| + |later.pending|;
      }
    }
  }

  // Without empty buckets, once a frame has gone out, a write always ends in bucket 0: a larger bucket is only
  // ever taken when the rest of the same write fills it.
  lemma {:induction false} EndsInFirstBucket(lens: seq<nat>, bi: nat, pending: seq<Sample>, s: seq<Sample>)
    requires Sizes(lens) && Writable(lens, bi, pending, s)
    requires bi == 0 || (pending == [] && |s| >= lens[bi]) || |s| + |pending| >= lens[bi]
    ensures Partition(lens, bi, pending, s).bi == 0
    decreases |s|
  {
    var room := lens[bi] - |pending|;
    if |s| >= room {
      var rest := s[room..];
      EndsInFirstBucket(lens, Choose(lens, |rest|, |lens|), [], rest);
    }
  }

  lemma EmitsThenEndsInFirst(lens: seq<nat>, bi: nat, pending: seq<Sample>, s: seq<Sample>)
    requires Sizes(lens) && Writable(lens, bi, pending, s)
    ensures var r := Partition(lens, bi, pending, s); r.bi == if r.full == [] then bi else 0
  {
    if |s| + |pending| >= lens[bi] { EndsInFirstBucket(lens, bi, pending, s); }
  }

  // ---- stretching a full bucket to its frame ----

  function Stretched(algo: Algorithm, src: seq<Sample>, size: nat): (out: seq<Sample>)
    ensures |out| == size
  {
    if |src| == size then src
    else
      var blank := seq(size, _ => 0 as Sample);
      seq(size, i requires 0 <= i < size => OutputAt(algo, src, blank, i))
  }

  // A frame for a full bucket. What an empty bucket is stretched to is whatever the scratch buffer holds.
  ghost predicate Framed(f: Full, buckets: seq<Bucket>, algo: Algorithm, out: Frame) {
    && f.bucket < |buckets|
    && |out.samples| == buckets[f.bucket].dst && out.ms == buckets[f.bucket].ms
    && (f.content != [] ==> out.samples == Stretched(algo, f.content, buckets[f.bucket].dst))
  }

  lemma SamePairs(s: seq<Sample>, k: nat, c: nat)
    requires k < |s| / 2 && c < 2
    ensures 2 * k + c < |s|
  {
  }

  // A frame made by interpolation: pair k of it, in either channel, lies between pairs p and p + 1 of the bucket, at
  // the fraction frac/65536; the last pair is that of the bucket.
  lemma FrameInterpolates(f: Full, buckets: seq<Bucket>, out: Frame, k: nat, c: nat)
    returns (step: nat, p: nat, frac: nat)
    requires Framed(f, buckets, LinearBlend, out) && c < 2 && k < |out.samples| / 2
    requires |f.content| >= 4 && |f.content| % 2 == 0 && |out.samples| >= 4 && |out.samples| % 2 == 0
    ensures 2 * k + c < |out.samples|
    ensures var pairs, steps := |f.content| / 2 - 1, |out.samples| / 2 - 1;
      step * steps <= pairs * 0x1_0000 < step * steps + steps
    ensures k < |out.samples| / 2 - 1 ==>
      && p + 1 < |f.content| / 2 && frac < 0x1_0000 && p * 0x1_0000 + frac == k * step
      && var a, b := f.content[2 * p + c], f.content[2 * (p + 1) + c];
         out.samples[2 * k + c] == a + (b - a) * frac / 0x1_0000
    ensures k == |out.samples| / 2 - 1 ==> out.samples[2 * k + c] == f.content[|f.content| - 2 + c]
  {
    hide OutputAt;
    var size := buckets[f.bucket].dst;
    var blank := seq(size, _ => 0 as Sample);
    SamePairs(out.samples, k, c);
    if |f.content| == size {
      SameSize(LinearBlend, f.content, blank, 2 * k + c);
    }
    assert out.samples[2 * k + c] == OutputAt(LinearBlend, f.content, blank, 2 * k + c);
    if k < size / 2 - 1 {
      step, p, frac := LinearOutput(f.content, blank, k, c);
    } else {
      step, p, frac := LinearOutput(f.content, blank, 0, c);
      LinearEnd(f.content, blank, c);
    }
  }

  // A frame made by nearest-neighbour sampling consists of whole pairs of the bucket, in order from the first one.
  lemma FramePicks(f: Full, buckets: seq<Bucket>, out: Frame, j: nat, k: nat) returns (step: nat, p: nat, q: nat)
    requires Framed(f, buckets, NearestPair, out) && j <= k < |out.samples| / 2
    requires |f.content| >= 4 && |f.content| % 2 == 0 && |out.samples| >= 4 && |out.samples| % 2 == 0
    ensures var n, m := |out.samples| / 2, |f.content| / 2;
      && step * n <= m * 0x1_0000 < step * n + n
      && p <= q < m && q * 0x1_0000 <= k * step < (q + 1) * 0x1_0000
      && (j == 0 ==> p == 0) && (n <= m && j < k ==> p < q) && (n >= m ==> q <= p + (k - j))
      && out.samples[2 * k] == f.content[2 * q] && out.samples[2 * k + 1] == f.content[2 * q + 1]
      && out.samples[2 * j] == f.content[2 * p] && out.samples[2 * j + 1] == f.content[2 * p + 1]
  {
    hide OutputAt;
    var size := buckets[f.bucket].dst;
    var blank := seq(size, _ => 0 as Sample);
    SamePairs(out.samples, j, 0);
    SamePairs(out.samples, k, 0);
    forall i | 0 <= i < size ensures out.samples[i] == OutputAt(NearestPair, f.content, blank, i) {
      if |f.content| == size { SameSize(NearestPair, f.content, blank, i); }
    }
    step, p, q := NearestPicks(f.content, blank, j, k);
  }

  // Whatever the sizes, a frame has the size and the duration of its bucket, starts with the first pair in it, and
  // repeats a lone pair.
  lemma FrameStarts(f: Full, buckets: seq<Bucket>, algo: Algorithm, out: Frame, i: nat)
    requires Framed(f, buckets, algo, out) && |f.content| >= 2 && |out.samples| % 2 == 0 && i < |out.samples|
    ensures f.bucket < |buckets| && out.ms == buckets[f.bucket].ms && |out.samples| == buckets[f.bucket].dst
    ensures i < 2 ==> out.samples[i] == f.content[i]
    ensures |f.content| == 2 ==> out.samples[i] == f.content[i % 2]
  {
    hide OutputAt;
    var blank := seq(buckets[f.bucket].dst, _ => 0 as Sample);
    Edges(algo, f.content, blank, i);
  }

  ghost predicate FramesShow(frames: seq<Frame>, full: seq<Full>, buckets: seq<Bucket>, algo: Algorithm) {
    |frames| == |full| && forall i :: 0 <= i < |full| ==> Framed(full[i], buckets, algo, frames[i])
  }

  lemma ShownFrames(frames: seq<Frame>, full: seq<Full>, buckets: seq<Bucket>, algo: Algorithm)
    requires FramesShow(frames, full, buckets, algo)
    ensures |frames| == |full| && forall i :: 0 <= i < |full| ==> Framed(full[i], buckets, algo, frames[i])
  {
  }

  lemma NoFrames(buckets: seq<Bucket>, algo: Algorithm)
    ensures FramesShow([], [], buckets, algo)
  {
  }

  lemma FramesShowAppend(a: seq<Frame>, b: seq<Frame>, f: seq<Full>, g: seq<Full>,
                         buckets: seq<Bucket>, algo: Algorithm)
    requires FramesShow(a, f, buckets, algo) && FramesShow(b, g, buckets, algo)
    ensures FramesShow(a + b, f + g, buckets, algo)
  {
    hide Framed;
  }

  function Lens(buckets: seq<Bucket>): (lens: seq<nat>)
    ensures |lens| == |buckets|
  {
    seq(|buckets|, i requires 0 <= i < |buckets| => buckets[i].len)
  }

  // Equal up to the fill counts.
  ghost predicate SameShape(a: seq<Bucket>, b: seq<Bucket>) {
    |a| == |b| && forall i :: 0 <= i < |a| ==>
      a[i].off == b[i].off && a[i].len == b[i].len && a[i].ms == b[i].ms && a[i].dst == b[i].dst
  }

  lemma SameShapeSameFrames(a: seq<Bucket>, b: seq<Bucket>, frames: seq<Frame>, full: seq<Full>, algo: Algorithm)
    requires SameShape(a, b)
    ensures Lens(a) == Lens(b)
    ensures FramesShow(frames, full, a, algo) ==> FramesShow(frames, full, b, algo)
  {
    hide Stretched;
  }

  // Laid out one after another, without overlap.
  ghost predicate Tiled(buckets: seq<Bucket>) {
    forall i, j :: 0 <= i < j < |buckets| ==> buckets[i].off + buckets[i].len <= buckets[j].off
  }

  lemma ShapeFacts(a: seq<Bucket>, b: seq<Bucket>, c: seq<Bucket>)
    ensures SameShape(a, a)
    ensures SameShape(b, a) && SameShape(c, b) ==> SameShape(c, a) && SameShape(a, b)
    ensures SameShape(b, a) && SameShape(c, b) && Tiled(a) ==> Tiled(c)
    ensures SameShape(b, a) ==> |a| == |b|
  {
  }

  // Stereo regions inside a raw array of total samples.
  ghost predicate Regions(buckets: seq<Bucket>, total: nat) {
    forall i :: 0 <= i < |buckets| ==>
      buckets[i].len % 2 == 0 && buckets[i].dst % 2 == 0 &&
      buckets[i].off + buckets[i].len <= total
  }

  // The regions are the same whatever they are stretched to.
  lemma SameRegions(a: seq<Bucket>, b: seq<Bucket>, total: nat)
    requires |a| == |b| && forall i :: 0 <= i < |a| ==>
      a[i].off == b[i].off && a[i].len == b[i].len && b[i].dst % 2 == 0
    ensures Lens(a) == Lens(b) && (Tiled(a) ==> Tiled(b)) && (Regions(a, total) ==> Regions(b, total))
  {
  }

  // What waits in a bucket lies inside the raw array.
  lemma FilledPart(buckets: seq<Bucket>, bi: nat, total: nat)
    requires Regions(buckets, total) && bi < |buckets| && Fits(Lens(buckets), bi, buckets[bi].p)
    ensures buckets[bi].off + buckets[bi].p <= total
  {
  }

  lemma CopiedOne(was: seq<Sample>, s: seq<Sample>, at: nat, i: nat)
    requires i < |s| && at + i < |was|
    ensures (was[..at] + s[..i] + was[at + i..])[at + i := s[i]] == was[..at] + s[..i + 1] + was[at + i + 1..]
  {
  }

  // Go's copy into a region with room samples left: as much as fits.
  method CopyInto(dst: array<Sample>, at: nat, room: nat, s: seq<Sample>) returns (c: nat)
    requires at + room <= dst.Length
    modifies dst
    ensures c == if |s| < room then |s| else room
    ensures dst[..] == old(dst[..at]) + s[..c] + old(dst[at + c..])
  {
    c := if |s| < room then |s| else room;
    ghost var was := dst[..];
    for i := 0 to c
      invariant dst[..] == was[..at] + s[..i] + was[at + i..]
    {
      CopiedOne(was, s, at, i);
      dst[at + i] := s[i];
    }
  }

  // ---- the loop of write, part way ----

  // A write of s, stopped with done full buckets handed on, comes out like the rest of it
  // written to the bucket and samples at hand.
  ghost predicate Resumed(lens: seq<nat>, bi0: nat, pending0: seq<Sample>, s: seq<Sample>,
                          done: seq<Full>, bi: nat, pending: seq<Sample>, rest: seq<Sample>)
  {
    && Writable(lens, bi0, pending0, s) && Writable(lens, bi, pending, rest)
    && var r := Partition(lens, bi, pending, rest);
       Partition(lens, bi0, pending0, s) == Run(done + r.full, r.bi, r.pending)
  }

  lemma BeforeWrite(lens: seq<nat>, bi: nat, pending: seq<Sample>, s: seq<Sample>)
    requires Writable(lens, bi, pending, s)
    ensures Resumed(lens, bi, pending, s, [], bi, pending, s)
  {
    var r := Partition(lens, bi, pending, s);
    assert [] + r.full == r.full;
  }

  lemma TurnFull(lens: seq<nat>, bi: nat, pending: seq<Sample>, rest: seq<Sample>, c: nat, next: nat)
    requires rest != [] && Fits(lens, bi, |pending|)
    requires c == lens[bi] - |pending| && c <= |rest| && Chosen(lens, |rest| - c, next)
    ensures Writable(lens, bi, pending, rest) ==>
      Resumed(lens, bi, pending, rest, [Full(bi, pending + rest[..c])], next, [], rest[c..])
  {
    hide FrameLoop.Choose;
    ChosenIsUnique(lens, |rest| - c, next, FrameLoop.Choose(lens, |rest| - c, |lens|));
  }

  lemma TurnPart(lens: seq<nat>, bi: nat, pending: seq<Sample>, rest: seq<Sample>)
    requires Fits(lens, bi, |pending|) && |rest| < lens[bi] - |pending|
    ensures Writable(lens, bi, pending, rest) ==> Resumed(lens, bi, pending, rest, [], bi, pending + rest, [])
  {
    assert pending + rest + [] == pending + rest;
  }

  // What is known at the head of the loop: the write can go on, and two turns in a row cannot stand still.
  lemma Goes(lens: seq<nat>, bi0: nat, pending0: seq<Sample>, s: seq<Sample>,
             done: seq<Full>, bi: nat, pending: seq<Sample>, rest: seq<Sample>)
    requires Resumed(lens, bi0, pending0, s, done, bi, pending, rest)
    ensures Writable(lens, bi, pending, rest)
    ensures rest != [] ==> var n := NextTurn(lens, Loop(bi, |pending|, |rest|));
      n.rem < |rest| || (n.rem == |rest| && lens[bi] == 0 && lens[n.bi] > 0)
  {
  }

  lemma WriteDone(lens: seq<nat>, bi0: nat, pending0: seq<Sample>, s: seq<Sample>,
                  done: seq<Full>, bi: nat, pending: seq<Sample>)
    requires Resumed(lens, bi0, pending0, s, done, bi, pending, [])
    ensures Partition(lens, bi0, pending0, s) == Run(done, bi, pending)
  {
    assert pending + [] == pending && done + [] == done;
  }

  // What a write adds to the history of the buffer.
  lemma History(lens: seq<nat>, bi: nat, pending: seq<Sample>, s: seq<Sample>, full: seq<Full>, input: seq<Sample>)
    requires Writable(lens, bi, pending, s)
    requires Contents(full) + pending == input && (Sizes(lens) && full != [] ==> bi == 0)
    ensures var r := Partition(lens, bi, pending, s);
      Contents(full + r.full) + r.pending == input + s &&
      (Sizes(lens) && full + r.full != [] ==> r.bi == 0)
  {
    var r := Partition(lens, bi, pending, s);
    PartitionConserves(lens, bi, pending, s);
    if Sizes(lens) { EmitsThenEndsInFirst(lens, bi, pending, s); }
    ContentsAppend(full, r.full);
    Regroup(Contents(full), pending, s, Contents(r.full), r.pending);
  }

  lemma Chain(lens: seq<nat>, bi0: nat, pending0: seq<Sample>, s: seq<Sample>,
              done: seq<Full>, bi: nat, pending: seq<Sample>, rest: seq<Sample>,
              out: seq<Full>, bi2: nat, pending2: seq<Sample>, rest2: seq<Sample>)
    requires Resumed(lens, bi0, pending0, s, done, bi, pending, rest)
    requires Resumed(lens, bi, pending, rest, out, bi2, pending2, rest2)
    ensures Resumed(lens, bi0, pending0, s, done + out, bi2, pending2, rest2)
  {
    var r := Partition(lens, bi2, pending2, rest2);
    assert done + (out + r.full) == (done + out) + r.full;
  }

  // ---- the buffer ----

  class Buffer {
    var raw: array<Sample>
    var scratch: array<Sample>
    var buckets: seq<Bucket>
    var srcHz: int
    var dstHz: int
    var bi: nat
    var algo: Algorithm
    // What the callback has received, the full buckets behind it, and everything written.
    ghost var frames: seq<Frame>
    ghost var full: seq<Full>
    ghost var input: seq<Sample>

    // The samples waiting in the current bucket.
    ghost function Pending(): seq<Sample>
      requires bi < |buckets| && buckets[bi].off + buckets[bi].p <= raw.Length
      reads this, raw
    {
      raw[buckets[bi].off..buckets[bi].off + buckets[bi].p]
    }

    ghost predicate Layout()
      reads this
    {
      raw != scratch && bi < |buckets| && Regions(buckets, raw.Length)
    }

    ghost predicate Valid()
      reads this, raw
    {
      && Layout() && Tiled(buckets)
      && Fits(Lens(buckets), bi, buckets[bi].p)
      && Contents(full) + Pending() == input
      && (Sizes(Lens(buckets)) && full != [] ==> bi == 0)
    }

    constructor (raw: array<Sample>, scratch: array<Sample>, buckets: seq<Bucket>, hz: int)
      requires |buckets| > 0
      ensures this.raw == raw && this.scratch == scratch && this.buckets == buckets
      ensures srcHz == dstHz == hz && bi == |buckets| - 1 && algo == NearestPair
      ensures frames == [] && full == [] && input == []
    {
      this.raw, this.scratch, this.buckets := raw, scratch, buckets;
      srcHz, dstHz, bi, algo := hz, hz, |buckets| - 1, NearestPair;
      frames, full, input := [], [], [];
    }

    // Changes the frame sizes, not the regions: what is waiting stays.
    method Resample(hz: nat, newAlgo: Algorithm)
      requires Valid()
      modifies this`buckets, this`dstHz, this`algo
      ensures Valid() && algo == newAlgo && dstHz == hz
      ensures Pending() == old(Pending()) && Lens(buckets) == Lens(old(buckets)) && Tiled(buckets)
      ensures forall i :: 0 <= i < |buckets| ==>
        buckets[i] == old(buckets[i]).(dst := StereoSamples(hz, old(buckets[i].ms)))
    {
      hide Contents, Sizes, Lens, Tiled, Regions;
      algo, dstHz := newAlgo, hz;
      ghost var was := buckets;
      for i := 0 to |buckets|
        invariant |buckets| == |was| && algo == newAlgo && dstHz == hz
        invariant forall j :: 0 <= j < i ==> buckets[j] == was[j].(dst := StereoSamples(hz, was[j].ms))
        invariant forall j :: i <= j < |was| ==> buckets[j] == was[j]
      {
        buckets := buckets[i := buckets[i].(dst := StereoSamples(hz, buckets[i].ms))];
      }
      SameRegions(was, buckets, raw.Length);
    }

    method Choose(rem: nat)
      requires |buckets| > 0
      modifies this`bi
      ensures Chosen(Lens(buckets), rem, bi)
      ensures bi < |buckets| && (forall j :: bi < j < |buckets| ==> rem < buckets[j].len)
      ensures rem >= buckets[bi].len || (bi == 0 && rem < buckets[0].len)
    {
      var i := |buckets|;
      while i > 0
        invariant 0 <= i <= |buckets|
        invariant forall j :: i <= j < |buckets| ==> rem < buckets[j].len
      {
        i := i - 1;
        if rem >= buckets[i].len {
          bi := i;
          return;
        }
      }
      bi := 0;
    }

    // An empty source of another size leaves the scratch buffer as it is.
    method Stretch(src: seq<Sample>, size: nat) returns (out: seq<Sample>)
      requires |src| % 2 == 0 && size % 2 == 0 && raw != scratch
      modifies this`scratch, scratch
      ensures |out| == size && (src != [] ==> out == Stretched(algo, src, size))
      ensures src == [] && size <= old(scratch.Length) ==> out == old(scratch[..size])
      ensures scratch == old(scratch) || fresh(scratch)
    {
      if |src| == size {
        return src;
      }
      if scratch.Length < size {
        scratch := new Sample[size](_ => 0);
      }
      if algo == NearestPair {
        Nearest(scratch, size, src);
      } else {
        Linear(scratch, size, src);
      }
      out := scratch[..size];
    }

    // Copies what fits of s behind the samples already waiting.
    method Fill(s: seq<Sample>) returns (c: nat)
      requires Layout() && buckets[bi].p <= buckets[bi].len
      modifies this`buckets, raw
      ensures Layout() && SameShape(buckets, old(buckets))
      ensures c == if |s| < buckets[bi].len - old(buckets[bi].p) then |s| else buckets[bi].len - old(buckets[bi].p)
      ensures buckets[bi].p == old(buckets[bi].p) + c
      ensures Pending() == old(Pending()) + s[..c]
    {
      var cur := buckets[bi];
      c := CopyInto(raw, cur.off + cur.p, cur.len - cur.p, s);
      buckets := buckets[bi := cur.(p := cur.p + c)];
    }

    // Hands the full bucket on and moves to the one for the rem samples that follow.
    method Emit(rem: nat) returns (ghost shown: Frame)
      requires Layout() && buckets[bi].p == buckets[bi].len
      modifies this`buckets, this`bi, this`frames, this`scratch, scratch
      ensures Layout() && SameShape(buckets, old(buckets))
      ensures scratch == old(scratch) || fresh(scratch)
      ensures frames == old(frames) + [shown]
      ensures Framed(Full(old(bi), old(Pending())), old(buckets), algo, shown)
      ensures Chosen(Lens(old(buckets)), rem, bi) && buckets[bi].p == 0
    {
      var cur := buckets[bi];
      var mem := raw[cur.off..cur.off + cur.len];
      var out := Stretch(mem, cur.dst);
      shown := Frame(out, cur.ms);
      frames := frames + [shown];
      Choose(rem);
      buckets := buckets[bi := buckets[bi].(p := 0)];
    }

    // One turn of the loop of write: fill the current bucket, and hand it on when full. The counts change as NextTurn
    // says, also where the loop does not end.
    method Turn(rest: seq<Sample>) returns (c: nat, ghost out: seq<Full>, ghost shown: seq<Frame>)
      requires Layout() && Fits(Lens(buckets), bi, buckets[bi].p) && rest != []
      modifies this`buckets, this`bi, this`frames, this`scratch, raw, scratch
      ensures Layout() && SameShape(buckets, old(buckets)) && c <= |rest|
      ensures Loop(bi, buckets[bi].p, |rest| - c) ==
              NextTurn(Lens(old(buckets)), Loop(old(bi), old(buckets[bi].p), |rest|))
      ensures scratch == old(scratch) || fresh(scratch)
      ensures Writable(Lens(old(buckets)), old(bi), old(Pending()), rest) ==>
        Resumed(Lens(old(buckets)), old(bi), old(Pending()), rest, out, bi, Pending(), rest[c..])
      ensures frames == old(frames) + shown && FramesShow(shown, out, old(buckets), algo)
    {
      hide Partition, Contents, Resumed, Stretched, Writable;
      ghost var shape, lens, b, waiting := buckets, Lens(buckets), bi, Pending();
      out, shown := [], [];
      c := Fill(rest);
      SameShapeSameFrames(shape, buckets, [], [], algo);
      if buckets[bi].p == buckets[bi].len {
        out := [Full(bi, Pending())];
        ghost var now := buckets;
        ghost var frame := Emit(|rest| - c);
        shown := [frame];
        SameShapeSameFrames(now, shape, shown, out, algo);
        ChosenIsUnique(lens, |rest| - c, bi, FrameLoop.Choose(lens, |rest| - c, |lens|));
        assert Pending() == [];
        TurnFull(lens, b, waiting, rest, c, bi);
      } else {
        TurnPart(lens, b, waiting, rest);
        assert rest[..c] == rest && rest[c..] == [];
      }
    }

    // The turn at position i of a write of s, for the account of the whole write.
    method TurnAt(s: seq<Sample>, i: nat, ghost shape: seq<Bucket>, ghost lens: seq<nat>,
                  ghost bi0: nat, ghost pending0: seq<Sample>, ghost done: seq<Full>, ghost shown: seq<Frame>,
                  ghost before: seq<Frame>)
      returns (c: nat, ghost done': seq<Full>, ghost shown': seq<Frame>)
      requires i < |s| && Layout() && Fits(Lens(buckets), bi, buckets[bi].p)
      requires SameShape(buckets, shape) && lens == Lens(shape)
      requires Resumed(lens, bi0, pending0, s, done, bi, Pending(), s[i..])
      requires frames == before + shown && FramesShow(shown, done, shape, algo)
      modifies this`buckets, this`bi, this`frames, this`scratch, raw, scratch
      ensures i + c <= |s| && Layout() && Fits(Lens(buckets), bi, buckets[bi].p) && SameShape(buckets, shape)
      ensures scratch == old(scratch) || fresh(scratch)
      ensures Resumed(lens, bi0, pending0, s, done', bi, Pending(), s[i + c..])
      ensures frames == before + shown' && FramesShow(shown', done', shape, algo)
      ensures c > 0 || (old(buckets[bi].len) == 0 && buckets[bi].len > 0)
    {
      hide Partition, FramesShow, Resumed, SameShape, Writable, NextTurn;
      ghost var b, waiting, now := bi, Pending(), buckets;
      ghost var rest := s[i..];
      ShapeFacts(shape, now, now);
      SameShapeSameFrames(now, shape, [], [], algo);
      Goes(lens, bi0, pending0, s, done, b, waiting, rest);
      ghost var out, frame;
      c, out, frame := Turn(s[i..]);
      assert rest[c..] == s[i + c..];
      ShapeFacts(shape, now, buckets);
      SameShapeSameFrames(buckets, shape, [], [], algo);
      SameShapeSameFrames(now, shape, frame, out, algo);
      Chain(lens, bi0, pending0, s, done, b, waiting, rest, out, bi, Pending(), s[i + c..]);
      FramesShowAppend(shown, frame, done, out, shape, algo);
      done', shown' := done + out, shown + frame;
    }

    // The loop of write.
    method WriteAll(s: seq<Sample>) returns (ghost done: seq<Full>, ghost shown: seq<Frame>)
      requires Layout() && Fits(Lens(buckets), bi, buckets[bi].p) && Writable(Lens(buckets), bi, Pending(), s)
      modifies this`buckets, this`bi, this`frames, this`scratch, raw, scratch
      ensures Layout() && Fits(Lens(buckets), bi, buckets[bi].p) && SameShape(buckets, old(buckets))
      ensures scratch == old(scratch) || fresh(scratch)
      ensures Partition(Lens(old(buckets)), old(bi), old(Pending()), s) == Run(done, bi, Pending())
      ensures frames == old(frames) + shown && FramesShow(shown, done, old(buckets), algo)
    {
      hide Partition, FramesShow, Resumed, SameShape;
      ghost var shape, lens, bi0, pending0 := buckets, Lens(buckets), bi, Pending();
      var i, n := 0, |s|;
      done, shown := [], [];
      BeforeWrite(lens, bi, Pending(), s);
      ShapeFacts(shape, shape, shape);
      NoFrames(shape, algo);
      assert s[0..] == s;
      while i < n
        invariant 0 <= i <= n
        invariant Layout() && Fits(Lens(buckets), bi, buckets[bi].p) && SameShape(buckets, shape)
        invariant scratch == old(scratch) || fresh(scratch)
        invariant Resumed(lens, bi0, pending0, s, done, bi, Pending(), s[i..])
        invariant frames == old(frames) + shown && FramesShow(shown, done, shape, algo)
        decreases n - i, if buckets[bi].len == 0 then 1 else 0
      {
        var c;
        c, done, shown := TurnAt(s, i, shape, lens, bi0, pending0, done, shown, old(frames));
        i := i + c;
      }
      assert s[n..] == [];
      WriteDone(lens, bi0, pending0, s, done, bi, Pending());
      SameShapeSameFrames(buckets, shape, [], [], algo);
    }

    // Any write that ends; without empty buckets that is every write.
    method Write(s: seq<Sample>) returns (n: nat)
      requires Valid() && Finishes(Lens(buckets), Loop(bi, buckets[bi].p, |s|))
      modifies this, raw, scratch
      ensures Valid() && n == |s|
      ensures SameShape(buckets, old(buckets)) && raw == old(raw) && algo == old(algo)
      ensures scratch == old(scratch) || fresh(scratch)
      ensures input == old(input) + s
      ensures var r := Partition(Lens(old(buckets)), old(bi), old(Pending()), s);
        && bi == r.bi && Pending() == r.pending
        && full == old(full) + r.full
        && old(frames) <= frames && FramesShow(frames[|old(frames)|..], r.full, old(buckets), algo)
        && |frames| == |old(frames)| + |r.full|
        && forall i :: 0 <= i < |r.full| ==> Framed(r.full[i], old(buckets), algo, frames[|old(frames)| + i])
    {
      hide Partition, FramesShow, Contents, SameShape, Tiled, Sizes, Finishes, Lens;
      FilledPart(buckets, bi, raw.Length);
      ghost var lens, bi0, pending0 := Lens(buckets), bi, Pending();
      n := |s|;
      ghost var done, shown := WriteAll(s);
      FilledPart(buckets, bi, raw.Length);
      ShapeFacts(old(buckets), old(buckets), buckets);
      SameShapeSameFrames(buckets, old(buckets), [], [], algo);
      History(lens, bi0, pending0, s, full, input);
      full := full + done;
      input := input + s;
      assert frames[|old(frames)|..] == shown;
      ShownFrames(shown, done, old(buckets), algo);
    }
  }

  // ---- construction ----

  ghost function Total(hz: nat, frames: seq<Millis>): nat
  {
    if frames == [] then 0 else
      Total(hz, frames[..|frames| - 1]) + StereoSamples(hz, frames[|frames| - 1])
  }

  // Region i of a fresh buffer: right behind the first i ones.
  ghost predicate Placed(buckets: seq<Bucket>, hz: nat, frames: seq<Millis>, n: nat)
    requires n <= |frames|
  {
    n <= |buckets| && forall i :: 0 <= i < n ==>
      var size := StereoSamples(hz, frames[i]);
      buckets[i] == Bucket(Total(hz, frames[..i]), size, frames[i], 0, size)
  }

  lemma {:induction false} TotalMonotone(hz: nat, frames: seq<Millis>, i: nat, j: nat)
    requires i <= j <= |frames|
    ensures Total(hz, frames[..i]) <= Total(hz, frames[..j])
    decreases j - i
  {
    if i < j {
      TotalMonotone(hz, frames, i, j - 1);
      assert frames[..j][..j - 1] == frames[..j - 1];
    }
  }

  lemma TotalStep(hz: nat, frames: seq<Millis>, i: nat)
    requires i < |frames|
    ensures Total(hz, frames[..i]) + StereoSamples(hz, frames[i]) == Total(hz, frames[..i + 1])
  {
    assert frames[..i + 1][..i] == frames[..i];
  }

  lemma NoTotal(hz: nat)
    ensures Total(hz, []) == 0
  {
  }

  // The regions do not overlap: the first starts at 0, each one where the one before ends, and the last ends at the
  // total.
  lemma PlacedIsTiled(buckets: seq<Bucket>, hz: nat, frames: seq<Millis>)
    requires |buckets| == |frames| && Placed(buckets, hz, frames, |frames|)
    ensures Tiled(buckets)
    ensures forall i :: 0 <= i < |buckets| ==> buckets[i].off + buckets[i].len <= Total(hz, frames)
    ensures forall i :: 0 <= i < |buckets| ==>
      && buckets[i].off == (if i == 0 then 0 else buckets[i - 1].off + buckets[i - 1].len)
      && (i == |buckets| - 1 ==> buckets[i].off + buckets[i].len == Total(hz, frames))
  {
    hide Total, StereoSamples;
    assert frames[..|frames|] == frames;
    NoTotal(hz);
    forall i, j | 0 <= i < j <= |frames|
      ensures Total(hz, frames[..i]) + StereoSamples(hz, frames[i]) <= Total(hz, frames[..j])
    {
      TotalStep(hz, frames, i);
      TotalMonotone(hz, frames, i + 1, j);
    }
    forall i | 0 <= i < |frames|
      ensures buckets[i].off == if i == 0 then 0 else buckets[i - 1].off + buckets[i - 1].len
      ensures i == |frames| - 1 ==> buckets[i].off + buckets[i].len == Total(hz, frames)
    {
      if i > 0 { TotalStep(hz, frames, i - 1); }
      TotalStep(hz, frames, i);
    }
  }

  // The first loop of newBuffer: sizes only.
  method Measure(frames: seq<Millis>, hz: nat) returns (buckets: seq<Bucket>, total: nat)
    ensures |buckets| == |frames| && total == Total(hz, frames)
    ensures forall j :: 0 <= j < |frames| ==> buckets[j] == Bucket(0, 0, frames[j], 0, StereoSamples(hz, frames[j]))
  {
    hide StereoSamples;
    buckets, total := [], 0;
    for i := 0 to |frames|
      invariant total == Total(hz, frames[..i]) && |buckets| == i
      invariant forall j :: 0 <= j < i ==> buckets[j] == Bucket(0, 0, frames[j], 0, StereoSamples(hz, frames[j]))
    {
      var n := StereoSamples(hz, frames[i]);
      buckets := buckets + [Bucket(0, 0, frames[i], 0, n)];
      total := total + n;
      assert frames[..i + 1][..i] == frames[..i];
    }
    assert frames[..|frames|] == frames;
  }

  // The second loop: each region starts where the last one ended.
  method Place(sized: seq<Bucket>, ghost hz: nat, ghost frames: seq<Millis>) returns (buckets: seq<Bucket>)
    requires |sized| == |frames|
    requires forall j :: 0 <= j < |frames| ==> sized[j] == Bucket(0, 0, frames[j], 0, StereoSamples(hz, frames[j]))
    ensures |buckets| == |frames| && Placed(buckets, hz, frames, |frames|)
  {
    hide StereoSamples;
    buckets := sized;
    var off := 0;
    for i := 0 to |buckets|
      invariant |buckets| == |frames| && off == Total(hz, frames[..i])
      invariant Placed(buckets, hz, frames, i)
      invariant forall j :: i <= j < |frames| ==> buckets[j] == sized[j]
    {
      buckets := buckets[i := buckets[i].(off := off, len := buckets[i].dst)];
      off := off + buckets[i].dst;
      assert frames[..i + 1][..i] == frames[..i];
    }
  }

  // The bucket sizes that newBuffer makes of frame durations.
  function BucketSizes(hz: nat, frames: seq<Millis>): (lens: seq<nat>)
    ensures |lens| == |frames|
  {
    seq(|frames|, i requires 0 <= i < |frames| => StereoSamples(hz, frames[i]))
  }

  // newBuffer. Only a zero total is refused, so a single empty bucket gets through.
  method NewBuffer(frames: seq<Millis>, hz: nat) returns (r: Result<Buffer>)
    ensures r.Err? <==> hz < 2000 || frames == [] || Total(hz, frames) == 0
    ensures r.Ok? ==> var b := r.value;
      && fresh(b) && fresh(b.raw) && fresh(b.scratch) && b.bi == |b.buckets| - 1
      && b.raw.Length == Total(hz, frames)
      && |b.buckets| == |frames| && Placed(b.buckets, hz, frames, |frames|) && Tiled(b.buckets)
      && (forall i :: 0 <= i < |frames| ==>
           var n := StereoSamples(hz, frames[i]); b.buckets[i] == Bucket(b.buckets[i].off, n, frames[i], 0, n))
      && b.srcHz == b.dstHz == hz && b.algo == NearestPair && b.input == [] && b.frames == []
      && b.Valid() && Lens(b.buckets) == BucketSizes(hz, frames)
  {
    hide StereoSamples, Total;
    if hz < 2000 || |frames| == 0 {
      return Err("invalid params");
    }
    var sized, total := Measure(frames, hz);
    if total == 0 {
      return Err("zero buffer size");
    }
    var raw := new Sample[total](_ => 0);
    var buckets := Place(sized, hz, frames);
    PlacedIsTiled(buckets, hz, frames);
    var scratch := new Sample[5760](_ => 0);
    var b := new Buffer(raw, scratch, buckets, hz);
    assert Lens(buckets) == BucketSizes(hz, frames);
    r := Ok(b);
  }

  // ---- when write ends ----

  lemma NonEmptyIff(hz: nat, ms: Millis)
    ensures StereoSamples(hz, ms) > 0 <==> hz as real * ms >= 500.0
  {
    var x := hz as real * ms;
    assert (x / 1000.0 + 0.5).Floor >= 1 <==> x / 1000.0 + 0.5 >= 1.0;
  }

  // A buffer that newBuffer made finishes every write, of every length, in every state it can reach, if and only if
  // each of its frames lasts long enough for half a sample.
  lemma WriteEndsIff(hz: nat, frames: seq<Millis>)
    requires frames != []
    ensures AlwaysEnds(BucketSizes(hz, frames)) <==>
      forall i :: 0 <= i < |frames| ==> hz as real * frames[i] >= 500.0
  {
    var lens := BucketSizes(hz, frames);
    AlwaysEndsIff(lens);
    forall i | 0 <= i < |frames| ensures lens[i] > 0 <==> hz as real * frames[i] >= 500.0 {
      NonEmptyIff(hz, frames[i]);
    }
  }

  // Frames of 10 ms and of nothing at 24 kHz are accepted, and the first write of one stereo sample never ends.
  lemma StallExample(frames: seq<Millis>)
    requires frames == [10.0, 0.0]
    ensures Total(24000, frames) == 480 && BucketSizes(24000, frames) == [480, 0]
    ensures !Ends([480, 0], Loop(1, 0, 2))
  {
    assert frames[..1] == [10.0] && frames[..1][..0] == [];
    assert StereoSamples(24000, 10.0) == 480 && StereoSamples(24000, 0.0) == 0;
    assert Total(24000, frames[..1]) == Total(24000, []) + 480;
    EndsIff([480, 0], Loop(1, 0, 2));
    StallsIff([480, 0], Loop(1, 0, 2));
  }

  // An empty bucket does not stop every write: these seven samples stay in the bucket behind it.
  lemma EndsExample()
    ensures Ends([0, 10], Loop(1, 0, 7)) && !Ends([0, 10], Loop(1, 0, 11))
  {
    EndsIff([0, 10], Loop(1, 0, 7));
    assert NextTurn([0, 10], Loop(1, 0, 7)) == Loop(1, 7, 0);
    EndsIff([0, 10], Loop(1, 0, 11));
    var n := NextTurn([0, 10], Loop(1, 0, 11));
    assert n == Loop(0, 0, 1);
    StallsIff([0, 10], n);
  }
}
