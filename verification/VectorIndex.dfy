// The in-memory vector index: rows in a contiguous slice, a map from key to position, and top-k search.
module VectorIndex {
  datatype Entry = Entry(path: string, system: string, vector: seq<real>)

  datatype Hit = Hit(path: string, system: string, score: real)

  // ---- keys ----

  function Key(path: string, system: string): string {
    path + "|" + system
  }

  // One system is what follows some bar of the other.
  ghost predicate EndsAfterBar(long: string, short: string) {
    |short| < |long| && long[|long| - |short| - 1] == '|' && long[|long| - |short|..] == short
  }

  lemma LastPart(path: string, system: string, n: nat)
    requires n <= |path| + |system|
    ensures |Key(path, system)| == |path| + 1 + |system|
    ensures n < |system| ==> Key(path, system)[|path| + |system| - n] == system[|system| - n - 1]
    ensures n == |system| ==> Key(path, system)[|path| + |system| - n] == '|'
    ensures n <= |system| ==> Key(path, system)[|path| + 1 + |system| - n..] == system[|system| - n..]
  {
  }

  // Two different games share a key only when the system of one ends in a bar followed by the system of the other.
  lemma SharedKey(p: string, s: string, p': string, s': string)
    requires Key(p, s) == Key(p', s') && |s| <= |s'|
    ensures (p == p' && s == s') || EndsAfterBar(s', s)
  {
    LastPart(p, s, |s|);
    LastPart(p', s', |s|);
    var key := Key(p, s);
    if |s| == |s'| {
      assert p == key[..|p|] && p' == key[..|p|];
    }
  }

  lemma Collision(long: string, short: string)
    requires EndsAfterBar(long, short)
    ensures exists p, p' :: Key(p, long) == Key(p', short) && Key(p', short) == Key(p, long)
  {
    var p' := "|" + long[..|long| - |short| - 1];
    assert long == long[..|long| - |short| - 1] + "|" + short;
    assert Key("", long) == Key(p', short);
  }

  // Games of two systems can collide if and only if one of the systems ends in a bar followed by the other.
  lemma SystemsCollideIff(s: string, s': string)
    requires s != s'
    ensures (exists p, p' :: Key(p, s) == Key(p', s')) <==> EndsAfterBar(s, s') || EndsAfterBar(s', s)
  {
    if p, p' :| Key(p, s) == Key(p', s') {
      if |s| <= |s'| { SharedKey(p, s, p', s'); } else { SharedKey(p', s', p, s); }
    }
    if EndsAfterBar(s, s') { Collision(s, s'); }
    if EndsAfterBar(s', s) {
      Collision(s', s);
    }
  }

  // Without bars in the systems a key stands for one game.
  lemma KeyIsInjective(p: string, s: string, p': string, s': string)
    requires '|' !in s && '|' !in s' && Key(p, s) == Key(p', s')
    ensures p == p' && s == s'
  {
    if |s| <= |s'| { SharedKey(p, s, p', s'); } else { SharedKey(p', s', p, s); }
  }

  function KeyOf(e: Entry): string {
    Key(e.path, e.system)
  }

  lemma {:induction false} CountKeys(m: map<string, nat>, keys: seq<string>)
    requires forall i :: 0 <= i < |keys| ==> keys[i] in m && m[keys[i]] == i
    requires forall k :: k in m ==> m[k] < |keys| && keys[m[k]] == k
    ensures |m| == |keys|
  {
    if keys == [] {
      assert m == map[];
    } else {
      var n := |keys| - 1;
      var rest := m - {keys[n]};
      CountKeys(rest, keys[..n]);
      assert m.Keys == rest.Keys + {keys[n]};
    }
  }

  // ---- scores and hits ----

  function DotUpTo(a: seq<real>, b: seq<real>, n: nat): real
    requires n <= |a| == |b|
  {
    if n == 0 then 0.0 else DotUpTo(a, b, n - 1) + a[n - 1] * b[n - 1]
  }

  method Dot(a: seq<real>, b: seq<real>) returns (dot: real)
    requires |a| == |b|
    ensures dot == DotUpTo(a, b, |a|)
  {
    dot := 0.0;
    for i := 0 to |a|
      invariant dot == DotUpTo(a, b, i)
    {
      dot := dot + a[i] * b[i];
    }
  }

  function Squares(v: seq<real>): real {
    DotUpTo(v, v, |v|)
  }

  // 1/sqrt(sum of the squares), for a vector that is not zero.
  ghost predicate InverseLength(v: seq<real>, inv: real) {
    Squares(v) != 0.0 ==> inv > 0.0 && inv * inv * Squares(v) == 1.0
  }

  function Scaled(v: seq<real>, inv: real): (u: seq<real>)
    ensures |u| == |v|
  {
    seq(|v|, i requires 0 <= i < |v| => v[i] * inv)
  }

  // A vector scaled to unit length; a zero vector stays as it is.
  function Normalized(v: seq<real>, inv: real): (u: seq<real>)
    ensures |u| == |v|
  {
    if Squares(v) == 0.0 then v else Scaled(v, inv)
  }

  method ScaleInPlace(v: array<real>, inv: real)
    modifies v
    ensures v[..] == Scaled(old(v[..]), inv)
  {
    ghost var was := v[..];
    ghost var u := Scaled(was, inv);
    for i := 0 to v.Length
      invariant forall j :: 0 <= j < i ==> v[j] == u[j]
      invariant forall j :: i <= j < v.Length ==> v[j] == was[j]
    {
      var x := v[i] * inv;
      assert u[i] == was[i] * inv;
      v[i] := x;
    }
  }

  method NormalizeInPlace(v: array<real>, inv: real)
    requires InverseLength(v[..], inv)
    modifies v
    ensures v[..] == Normalized(old(v[..]), inv)
  {
    ghost var was := v[..];
    var sum := 0.0;
    for i := 0 to v.Length
      invariant sum == DotUpTo(was, was, i)
    {
      sum := sum + v[i] * v[i];
    }
    if sum == 0.0 {
      return;
    }
    ScaleInPlace(v, inv);
  }

  // A hit for every row whose vector has the dimension of the query, in order.
  function Scored(entries: seq<Entry>, unit: seq<real>): seq<Hit> {
    if entries == [] then []
    else
      var n := |entries| - 1;
      var e := entries[n];
      Scored(entries[..n], unit)
        + if |e.vector| == |unit| then [Hit(e.path, e.system, DotUpTo(unit, e.vector, |unit|))] else []
  }

  // How many rows match the dimension.
  function Matching(entries: seq<Entry>, dim: nat): nat {
    if entries == [] then 0
    else Matching(entries[..|entries| - 1], dim) + if |entries[|entries| - 1].vector| == dim then 1 else 0
  }

  lemma {:induction false} ScoredCount(entries: seq<Entry>, unit: seq<real>)
    ensures |Scored(entries, unit)| == Matching(entries, |unit|)
  {
    if entries != [] { ScoredCount(entries[..|entries| - 1], unit); }
  }

  ghost predicate Descending(hits: seq<Hit>) {
    forall i, j :: 0 <= i < j < |hits| ==> hits[i].score >= hits[j].score
  }

  // hits are the k best of all, best first: what is left out scores no higher than anything returned.
  ghost predicate TopHits(all: seq<Hit>, hits: seq<Hit>, k: int) {
    && |hits| == (if |all| < k then |all| else k)
    && Descending(hits)
    && exists rest: seq<Hit> ::
         && multiset(hits) + multiset(rest) == multiset(all)
         && forall i, j :: 0 <= i < |hits| && 0 <= j < |rest| ==> hits[i].score >= rest[j].score
  }

  lemma CutIsTop(all: seq<Hit>, sorted: seq<Hit>, k: int)
    requires k > 0 && Descending(sorted) && multiset(sorted) == multiset(all)
    ensures TopHits(all, if |sorted| > k then sorted[..k] else sorted, k)
  {
    assert |all| == |multiset(all)| == |sorted|;
    var n := if |sorted| > k then k else |sorted|;
    var hits, rest := sorted[..n], sorted[n..];
    assert sorted == hits + rest;
    assert multiset(hits) + multiset(rest) == multiset(all);
    assert forall i, j :: 0 <= i < |hits| && 0 <= j < |rest| ==> hits[i].score >= rest[j].score;
    assert n == |sorted| ==> hits == sorted;
  }

  predicate StepsDown(hits: seq<Hit>) {
    |hits| < 2 || (hits[0].score >= hits[1].score && StepsDown(hits[1..]))
  }

  function Inserted(hits: seq<Hit>, h: Hit): (r: seq<Hit>)
    requires StepsDown(hits)
    ensures StepsDown(r) && multiset(r) == multiset(hits) + multiset{h}
    ensures r != [] && (r[0] == h || (hits != [] && r[0] == hits[0]))
  {
    if hits == [] || hits[0].score < h.score then [h] + hits
    else
      assert hits == [hits[0]] + hits[1..];
      [hits[0]] + Inserted(hits[1..], h)
  }

  // Stands for sort.Slice: a permutation in descending order of score.
  function SortedByScore(hits: seq<Hit>): (r: seq<Hit>)
    ensures StepsDown(r) && multiset(r) == multiset(hits)
  {
    if hits == [] then []
    else
      assert hits == [hits[0]] + hits[1..];
      Inserted(SortedByScore(hits[1..]), hits[0])
  }

  lemma {:induction false} StepsDownIsDescending(hits: seq<Hit>)
    requires StepsDown(hits)
    ensures Descending(hits)
  {
    if |hits| >= 2 {
      StepsDownIsDescending(hits[1..]);
      forall i, j | 0 <= i < j < |hits| ensures hits[i].score >= hits[j].score {
        assert i > 0 ==> hits[i] == hits[1..][i - 1];
        assert hits[j] == hits[1..][j - 1];
      }
    }
  }

  // ---- rows and positions ----

  class Index {
    var entries: seq<Entry>
    var byKey: map<string, nat>

    // byKey is a bijection from the keys of the rows to their positions.
    ghost predicate Valid()
      reads this
    {
      && (forall k :: k in byKey ==> byKey[k] < |entries| && KeyOf(entries[byKey[k]]) == k)
      && (forall i :: 0 <= i < |entries| ==> KeyOf(entries[i]) in byKey && byKey[KeyOf(entries[i])] == i)
    }

    // The index as a map from key to row.
    ghost function View(): map<string, Entry>
      requires Valid()
      reads this
    {
      map k | k in byKey :: entries[byKey[k]]
    }

    constructor ()
      ensures Valid() && View() == map[]
    {
      entries, byKey := [], map[];
    }

    method Upsert(e: Entry)
      requires Valid()
      modifies this
      ensures Valid() && View() == old(View())[KeyOf(e) := e]
    {
      hide Key;
      var key := Key(e.path, e.system);
      if key in byKey {
        entries := entries[byKey[key] := e];
        return;
      }
      byKey := byKey[key := |entries|];
      entries := entries + [e];
    }

    // The last row takes the place of the deleted one.
    method Delete(path: string, system: string)
      requires Valid()
      modifies this
      ensures Valid() && View() == old(View()) - {Key(path, system)}
    {
      hide Key;
      var key := Key(path, system);
      if key !in byKey {
        return;
      }
      var i := byKey[key];
      var last := |entries| - 1;
      if i != last {
        entries := entries[i := entries[last]];
        var moved := entries[i];
        byKey := byKey[Key(moved.path, moved.system) := i];
      }
      entries := entries[..last];
      byKey := byKey - {key};
    }

    method Size() returns (n: nat)
      requires Valid()
      ensures n == |View()|
    {
      n := |entries|;
      hide Key;
      CountKeys(byKey, seq(|entries|, i requires 0 <= i < |entries| reads this => KeyOf(entries[i])));
      assert View().Keys == byKey.Keys;
      assert |View()| == |View().Keys|;
    }

    // The k best rows for a query, which is scaled to unit length first.
    method Top(query: seq<real>, k: int, inv: real) returns (hits: seq<Hit>)
      requires InverseLength(query, inv)
      ensures k <= 0 || query == [] ==> hits == []
      ensures k > 0 && query != [] ==> TopHits(Scored(entries, Normalized(query, inv)), hits, k)
      ensures k > 0 && query != [] ==> |hits| == var n := Matching(entries, |query|); if n < k then n else k
    {
      if k <= 0 || |query| == 0 {
        return [];
      }
      var q := new real[|query|](i requires 0 <= i < |query| => query[i]);
      assert q[..] == query;
      NormalizeInPlace(q, inv);
      var unit := q[..];
      var scored: seq<Hit> := [];
      for i := 0 to |entries|
        invariant scored == Scored(entries[..i], unit)
      {
        assert entries[..i + 1][..i] == entries[..i];
        if |entries[i].vector| == |unit| {
          var dot := Dot(unit, entries[i].vector);
          scored := scored + [Hit(entries[i].path, entries[i].system, dot)];
        }
      }
      assert entries[..|entries|] == entries;
      var sorted := SortedByScore(scored);
      StepsDownIsDescending(sorted);
      hits := if |sorted| > k then sorted[..k] else sorted;
      CutIsTop(scored, sorted, k);
      ScoredCount(entries, unit);
    }
  }

  // ---- scaling the query ----

  function Times(c: real, x: real): real {
    c * x
  }

  lemma TimesTwice(c: real, x: real)
    ensures Times(c, Times(c, x)) == c * c * x
  {
  }

  lemma {:induction false} DotCommutes(v: seq<real>, w: seq<real>, n: nat)
    requires n <= |v| == |w|
    ensures DotUpTo(v, w, n) == DotUpTo(w, v, n)
  {
    if n > 0 { DotCommutes(v, w, n - 1); }
  }

  lemma {:induction false} ScaledDot(q: seq<real>, c: real, unit: seq<real>, v: seq<real>, n: nat)
    requires n <= |unit| == |q| == |v|
    requires forall i :: 0 <= i < |q| ==> unit[i] == c * q[i]
    ensures DotUpTo(unit, v, n) == Times(c, DotUpTo(q, v, n))
  {
    if n > 0 { ScaledDot(q, c, unit, v, n - 1); }
  }

  lemma NormalizedIsUnit(v: seq<real>, inv: real)
    requires InverseLength(v, inv)
    ensures Squares(Normalized(v, inv)) == if Squares(v) == 0.0 then 0.0 else 1.0
  {
    if Squares(v) != 0.0 {
      var u := Normalized(v, inv);
      ScaledDot(v, inv, u, u, |v|);
      DotCommutes(v, u, |v|);
      ScaledDot(v, inv, u, v, |v|);
      TimesTwice(inv, Squares(v));
    }
  }

  lemma PositiveFactor(c: real, x: real, y: real)
    requires c > 0.0
    ensures Times(c, x) >= Times(c, y) <==> x >= y
  {
    assert x - y > 0.0 ==> c * (x - y) > 0.0;
    assert x - y < 0.0 ==> c * (x - y) < 0.0;
  }

  // A query scaled by a positive factor, as normalising it does, ranks the rows in the same order.
  lemma ScalingKeepsRanking(q: seq<real>, c: real, unit: seq<real>, v: seq<real>, w: seq<real>)
    requires c > 0.0 && |unit| == |q| == |v| == |w|
    requires forall i :: 0 <= i < |q| ==> unit[i] == c * q[i]
    ensures DotUpTo(unit, v, |q|) >= DotUpTo(unit, w, |q|) <==> DotUpTo(q, v, |q|) >= DotUpTo(q, w, |q|)
  {
    ScaledDot(q, c, unit, v, |q|);
    ScaledDot(q, c, unit, w, |q|);
    hide DotUpTo, Times;
    PositiveFactor(c, DotUpTo(q, v, |q|), DotUpTo(q, w, |q|));
  }

  // ---- scores and distances ----

  lemma Positive(a: real, b: real)
    requires a > 0.0 && b > 0.0
    ensures Times(a, b) > 0.0
  {
  }

  function Square(d: real): real {
    Times(d, d)
  }

  lemma SquareIsZeroIff(d: real)
    ensures Square(d) >= 0.0 && (Square(d) == 0.0 <==> d == 0.0)
  {
    if d > 0.0 {
      Positive(d, d);
    } else if d < 0.0 {
      Positive(-d, -d);
      assert Times(-d, -d) == Times(d, d);
    }
  }

  // The sum of the squared differences of the first n coordinates.
  function Apart(a: seq<real>, b: seq<real>, n: nat): real
    requires n <= |a| == |b|
  {
    if n == 0 then 0.0 else Apart(a, b, n - 1) + Square(a[n - 1] - b[n - 1])
  }

  lemma {:induction false} ApartIsZeroIff(a: seq<real>, b: seq<real>, n: nat)
    requires n <= |a| == |b|
    ensures Apart(a, b, n) >= 0.0
    ensures Apart(a, b, n) == 0.0 <==> a[..n] == b[..n]
  {
    hide Square;
    if n > 0 {
      ApartIsZeroIff(a, b, n - 1);
      SquareIsZeroIff(a[n - 1] - b[n - 1]);
      assert a[..n] == a[..n - 1] + [a[n - 1]] && b[..n] == b[..n - 1] + [b[n - 1]];
    }
  }

  lemma {:induction false} ApartFromDots(a: seq<real>, b: seq<real>, n: nat)
    requires n <= |a| == |b|
    ensures Apart(a, b, n) == DotUpTo(a, a, n) + DotUpTo(b, b, n) - 2.0 * DotUpTo(a, b, n)
  {
    if n > 0 {
      ApartFromDots(a, b, n - 1);
      var x, y := a[n - 1], b[n - 1];
      assert Square(x - y) == x * x + y * y - 2.0 * (x * y);
    }
  }

  // A hit stands for a row: it has its names and the dimensions agree, and the score is what the distance to the query
  // makes of it.
  ghost predicate Names(h: Hit, e: Entry, unit: seq<real>) {
    && h.path == e.path && h.system == e.system && |e.vector| == |unit|
    && Apart(unit, e.vector, |unit|) == Squares(unit) + Squares(e.vector) - 2.0 * h.score
  }

  // Every hit stands for a row, and every row of the right dimension has one.
  lemma {:induction false} HitsAreRows(entries: seq<Entry>, unit: seq<real>)
    ensures forall h :: h in Scored(entries, unit) ==> exists e :: e in entries && Names(h, e, unit)
    ensures forall e :: e in entries && |e.vector| == |unit| ==>
      exists h :: h in Scored(entries, unit) && Names(h, e, unit)
  {
    hide DotUpTo, Apart;
    if entries != [] {
      var n := |entries| - 1;
      var e, before := entries[n], entries[..n];
      HitsAreRows(before, unit);
      assert entries == before + [e];
      if |e.vector| == |unit| {
        ApartFromDots(unit, e.vector, |unit|);
        var h := Hit(e.path, e.system, DotUpTo(unit, e.vector, |unit|));
        assert Names(h, e, unit) && Scored(entries, unit) == Scored(before, unit) + [h];
      }
    }
  }

  ghost predicate Nearer(e: Entry, h: Hit, unit: seq<real>) {
    |e.vector| == |unit| && Apart(unit, e.vector, |unit|) < 2.0 - 2.0 * h.score
  }

  lemma EitherPart(all: seq<Hit>, hits: seq<Hit>, rest: seq<Hit>, h: Hit)
    requires multiset(hits) + multiset(rest) == multiset(all)
    ensures h in all <==> h in hits || h in rest
  {
    assert h in all <==> h in multiset(all);
    assert h in hits <==> h in multiset(hits);
    assert h in rest <==> h in multiset(rest);
  }

  lemma AtMostOne(entries: seq<Entry>, unit: seq<real>, h: Hit)
    requires h in Scored(entries, unit) && Squares(unit) == 1.0
    requires forall e :: e in entries ==> Squares(e.vector) == 1.0
    ensures h.score <= 1.0
  {
    hide Scored, Apart, Squares;
    HitsAreRows(entries, unit);
    var e :| e in entries && Names(h, e, unit);
    ApartIsZeroIff(unit, e.vector, |unit|);
  }

  // For a query and rows of unit length the hits are the nearest rows, the nearest first: a hit scores 1 less half the
  // squared distance of its row, never more than 1, and a row nearer than that of some hit is a hit itself.
  lemma NearestFirst(entries: seq<Entry>, unit: seq<real>, hits: seq<Hit>, k: int)
    requires TopHits(Scored(entries, unit), hits, k) && Squares(unit) == 1.0
    requires forall e :: e in entries ==> Squares(e.vector) == 1.0
    ensures forall i, j :: 0 <= i < j < |hits| ==> hits[i].score >= hits[j].score
    ensures forall h :: h in hits ==> h.score <= 1.0 && exists e :: e in entries && Names(h, e, unit)
    ensures forall e, h :: e in entries && h in hits && Nearer(e, h, unit) ==>
      exists g :: g in hits && Names(g, e, unit)
  {
    hide Scored, Apart, Squares;
    var all := Scored(entries, unit);
    HitsAreRows(entries, unit);
    var rest: seq<Hit> :|
      && multiset(hits) + multiset(rest) == multiset(all)
      && forall i, j :: 0 <= i < |hits| && 0 <= j < |rest| ==> hits[i].score >= rest[j].score;
    forall h | h in hits ensures h.score <= 1.0 && exists e :: e in entries && Names(h, e, unit) {
      EitherPart(all, hits, rest, h);
      AtMostOne(entries, unit, h);
    }
    forall e, h | e in entries && h in hits && Nearer(e, h, unit) ensures exists g :: g in hits && Names(g, e, unit) {
      var g :| g in all && Names(g, e, unit);
      EitherPart(all, hits, rest, g);
    }
  }

  // A row that points exactly where the query does has a hit of score 1.
  lemma PerfectMatch(entries: seq<Entry>, query: seq<real>, inv: real, e: Entry)
    requires InverseLength(query, inv) && Squares(query) != 0.0 && e in entries
    requires |e.vector| == |query| && forall i :: 0 <= i < |query| ==> e.vector[i] == inv * query[i]
    ensures Hit(e.path, e.system, 1.0) in Scored(entries, Normalized(query, inv))
  {
    var unit := Normalized(query, inv);
    NormalizedIsUnit(query, inv);
    forall i | 0 <= i < |unit| ensures unit[i] == e.vector[i] {
      assert unit[i] == query[i] * inv;
    }
    assert unit == e.vector;
    HitsAreRows(entries, unit);
    var h :| h in Scored(entries, unit) && Names(h, e, unit);
    ApartIsZeroIff(unit, e.vector, |unit|);
  }
}
