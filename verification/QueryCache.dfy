// The bounded cache of query embeddings: a recency list of elements and a map from query to element.
module QueryCache {
  import opened Basics

  // ---- the cache as a value: most recently used first ----

  datatype Query = Query(text: string)

  datatype Entry = Entry(query: Query, vector: seq<real>)

  function Without(s: seq<Entry>, q: Query): (r: seq<Entry>)
    ensures |r| <= |s|
  {
    if s == [] then []
    else if s[0].query == q then Without(s[1..], q)
    else [s[0]] + Without(s[1..], q)
  }

  function Lookup(s: seq<Entry>, q: Query): Option<seq<real>> {
    if s == [] then None
    else if s[0].query == q then Some(s[0].vector)
    else Lookup(s[1..], q)
  }

  function Cut<T>(s: seq<T>, n: nat): seq<T> {
    if |s| <= n then s else s[..n]
  }

  // Making an entry the most recent one, within the capacity.
  function Touch(s: seq<Entry>, e: Entry, cap: nat): seq<Entry> {
    Cut([e] + Without(s, e.query), cap)
  }

  // ---- what a history of calls means ----

  datatype Call = Put(query: Query, vector: seq<real>) | Get(query: Query)

  function Step(s: seq<Entry>, c: Call, cap: nat): seq<Entry> {
    match c
    case Put(q, v) => Touch(s, Entry(q, v), cap)
    case Get(q) => if Lookup(s, q).Some? then Touch(s, Entry(q, Lookup(s, q).value), cap) else s
  }

  // The cache after a history, last call last.
  function Cache(calls: seq<Call>, cap: nat): seq<Entry> {
    if calls == [] then [] else Step(Cache(calls[..|calls| - 1], cap), calls[|calls| - 1], cap)
  }

  // The keys a history touches, newest first: every Put, and every Get that hits.
  function Touched(calls: seq<Call>, cap: nat): seq<Query> {
    if calls == [] then []
    else
      var before, c := calls[..|calls| - 1], calls[|calls| - 1];
      if c.Put? || Lookup(Cache(before, cap), c.query).Some? then [c.query] + Touched(before, cap)
      else Touched(before, cap)
  }

  function Unlike(s: seq<Query>, q: Query): seq<Query> {
    if s == [] then [] else if s[0] == q then Unlike(s[1..], q) else [s[0]] + Unlike(s[1..], q)
  }

  // The distinct keys of a newest-first list, each at its most recent place.
  function Recent(touched: seq<Query>): seq<Query> {
    if touched == [] then [] else [touched[0]] + Unlike(Recent(touched[1..]), touched[0])
  }

  // The vector most recently Put for a key.
  function LastPut(calls: seq<Call>, q: Query): Option<seq<real>> {
    if calls == [] then None
    else
      var c := calls[|calls| - 1];
      if c.Put? && c.query == q then Some(c.vector) else LastPut(calls[..|calls| - 1], q)
  }

  function Keys(s: seq<Entry>): seq<Query> {
    if s == [] then [] else [s[0].query] + Keys(s[1..])
  }

  // ---- distinct keys ----

  ghost predicate Absent(s: seq<Query>, q: Query) {
    s == [] || (s[0] != q && Absent(s[1..], q))
  }

  // No key twice; stated along the list.
  ghost predicate Distinct(s: seq<Query>) {
    s == [] || (Absent(s[1..], s[0]) && Distinct(s[1..]))
  }

  lemma {:induction false} UnlikeAbsent(s: seq<Query>, q: Query, p: Query)
    ensures Absent(Unlike(s, q), q)
    ensures Absent(s, p) ==> Absent(Unlike(s, q), p)
    ensures Absent(s, q) ==> Unlike(s, q) == s
  {
    if s != [] {
      UnlikeAbsent(s[1..], q, p);
      if s[0] != q { assert Unlike(s, q)[1..] == Unlike(s[1..], q); }
    }
  }

  lemma {:induction false} UnlikeDistinct(s: seq<Query>, q: Query)
    requires Distinct(s)
    ensures Distinct(Unlike(s, q))
    ensures |Unlike(s, q)| == |s| - if Absent(s, q) then 0 else 1
  {
    if s != [] {
      UnlikeDistinct(s[1..], q);
      UnlikeAbsent(s[1..], q, s[0]);
      if s[0] != q { assert Unlike(s, q)[1..] == Unlike(s[1..], q); }
    }
  }

  lemma {:induction false} RecentDistinct(touched: seq<Query>)
    ensures Distinct(Recent(touched))
  {
    if touched != [] {
      RecentDistinct(touched[1..]);
      var rest := Unlike(Recent(touched[1..]), touched[0]);
      UnlikeDistinct(Recent(touched[1..]), touched[0]);
      UnlikeAbsent(Recent(touched[1..]), touched[0], touched[0]);
      assert ([touched[0]] + rest)[1..] == rest;
    }
  }

  lemma {:induction false} UnlikeAppend(a: seq<Query>, b: seq<Query>, q: Query)
    ensures Unlike(a + b, q) == Unlike(a, q) + Unlike(b, q)
  {
    if a == [] {
      assert a + b == b;
    } else {
      assert (a + b)[1..] == a[1..] + b;
      UnlikeAppend(a[1..], b, q);
    }
  }

  lemma {:induction false} PrefixDistinct(s: seq<Query>, n: nat, q: Query)
    requires n <= |s|
    ensures Absent(s, q) ==> Absent(s[..n], q)
    ensures Distinct(s) ==> Distinct(s[..n])
  {
    if n > 0 {
      PrefixDistinct(s[1..], n - 1, q);
      PrefixDistinct(s[1..], n - 1, s[0]);
      assert s[..n][1..] == s[1..][..n - 1];
    }
  }

  // Cutting to length before or after a touch makes no difference, as keys are distinct.
  lemma CutCommutes(s: seq<Query>, q: Query, cap: nat)
    requires cap > 0 && Distinct(s)
    ensures Cut([q] + Unlike(Cut(s, cap), q), cap) == Cut([q] + Unlike(s, q), cap)
  {
    hide Unlike, Distinct;
    if |s| > cap {
      var t, rest := s[..cap], s[cap..];
      assert s == t + rest;
      UnlikeAppend(t, rest, q);
      PrefixDistinct(s, cap, q);
      UnlikeDistinct(t, q);
      assert [q] + (Unlike(t, q) + Unlike(rest, q)) == ([q] + Unlike(t, q)) + Unlike(rest, q);
    }
  }

  // ---- what the cache holds ----

  lemma {:induction false} KeysOfCut(s: seq<Entry>, n: nat)
    ensures |Keys(s)| == |s| && Keys(Cut(s, n)) == Cut(Keys(s), n)
  {
    if s != [] {
      KeysOfCut(s[1..], if n > 0 then n - 1 else 0);
      if 0 < n < |s| {
        assert s[..n][1..] == s[1..][..n - 1];
        assert Keys(s)[..n] == [s[0].query] + Keys(s[1..])[..n - 1];
      }
    }
  }

  lemma {:induction false} KeysOfWithout(s: seq<Entry>, q: Query)
    ensures Keys(Without(s, q)) == Unlike(Keys(s), q)
  {
    if s != [] {
      KeysOfWithout(s[1..], q);
      var rest := Without(s[1..], q);
      assert Keys(s)[1..] == Keys(s[1..]);
      assert ([s[0]] + rest)[1..] == rest;
    }
  }

  lemma KeysOfTouch(s: seq<Entry>, e: Entry, cap: nat)
    ensures Keys(Touch(s, e, cap)) == Cut([e.query] + Unlike(Keys(s), e.query), cap)
  {
    hide Without, Unlike, Cut;
    KeysOfWithout(s, e.query);
    KeysOfCut([e] + Without(s, e.query), cap);
    assert ([e] + Without(s, e.query))[1..] == Without(s, e.query);
  }

  // Every entry has the vector last Put for its key.
  ghost predicate Latest(s: seq<Entry>, calls: seq<Call>) {
    s == [] || (LastPut(calls, s[0].query) == Some(s[0].vector) && Latest(s[1..], calls))
  }

  lemma {:induction false} LatestOfCut(s: seq<Entry>, n: nat, calls: seq<Call>)
    requires Latest(s, calls)
    ensures Latest(Cut(s, n), calls)
  {
    if 0 < n < |s| {
      LatestOfCut(s[1..], n - 1, calls);
      assert s[..n][1..] == s[1..][..n - 1];
    }
  }

  // A later call for another key changes nothing.
  lemma {:induction false} LatestOfWithout(s: seq<Entry>, c: Call, calls: seq<Call>)
    requires Latest(s, calls)
    ensures Latest(Without(s, c.query), calls + [c])
    ensures c.Get? ==> Latest(s, calls + [c])
  {
    if s != [] {
      LatestOfWithout(s[1..], c, calls);
      assert (calls + [c])[..|calls|] == calls;
      var rest := Without(s[1..], c.query);
      assert ([s[0]] + rest)[1..] == rest;
    }
  }

  lemma {:induction false} LookupLatest(s: seq<Entry>, q: Query, calls: seq<Call>)
    requires Latest(s, calls)
    ensures Lookup(s, q).Some? ==> Lookup(s, q) == LastPut(calls, q)
  {
    if s != [] { LookupLatest(s[1..], q, calls); }
  }

  lemma {:induction false} LookupInKeys(s: seq<Entry>, q: Query)
    ensures Lookup(s, q).Some? <==> !Absent(Keys(s), q)
  {
    if s != [] {
      LookupInKeys(s[1..], q);
      assert Keys(s)[1..] == Keys(s[1..]);
    }
  }

  lemma TouchLatest(s: seq<Entry>, c: Call, v: seq<real>, calls: seq<Call>, cap: nat)
    requires Latest(s, calls) && if c.Put? then v == c.vector else LastPut(calls, c.query) == Some(v)
    ensures Latest(Touch(s, Entry(c.query, v), cap), calls + [c])
  {
    hide Without, Cut;
    LatestOfWithout(s, c, calls);
    var rest := Without(s, c.query);
    assert (calls + [c])[..|calls|] == calls;
    assert ([Entry(c.query, v)] + rest)[1..] == rest;
    LatestOfCut([Entry(c.query, v)] + rest, cap, calls + [c]);
  }

  lemma NothingRecent()
    ensures Keys([]) == Recent([]) == [] && Latest([], [])
  {
  }

  lemma TouchedIsRecent(s: seq<Entry>, e: Entry, touched: seq<Query>, cap: nat)
    requires cap > 0 && Keys(s) == Cut(Recent(touched), cap)
    ensures Keys(Touch(s, e, cap)) == Cut(Recent([e.query] + touched), cap)
  {
    hide Cut, Unlike, Touch, Keys;
    RecentDistinct(touched);
    KeysOfTouch(s, e, cap);
    CutCommutes(Recent(touched), e.query, cap);
    assert ([e.query] + touched)[1..] == touched;
  }

  // The cache holds exactly the cap most recently touched keys, in that order, each with its last vector.
  lemma {:induction false} CacheIsRecent(calls: seq<Call>, cap: nat)
    requires cap > 0
    ensures Keys(Cache(calls, cap)) == Cut(Recent(Touched(calls, cap)), cap)
    ensures Latest(Cache(calls, cap), calls)
  {
    hide Unlike, Lookup, Touch, Keys, Latest, Recent;
    if calls != [] {
      var before, c := calls[..|calls| - 1], calls[|calls| - 1];
      CacheIsRecent(before, cap);
      var s := Cache(before, cap);
      assert calls == before + [c];
      LookupLatest(s, c.query, before);
      if c.Put? || Lookup(s, c.query).Some? {
        var v := if c.Put? then c.vector else Lookup(s, c.query).value;
        TouchedIsRecent(s, Entry(c.query, v), Touched(before, cap), cap);
        TouchLatest(s, c, v, before, cap);
      } else {
        LatestOfWithout(s, c, before);
      }
    } else {
      NothingRecent();
    }
  }

  lemma {:induction false} AbsentIff(s: seq<Query>, q: Query)
    ensures Absent(s, q) <==> q !in s
  {
    if s != [] { AbsentIff(s[1..], q); }
  }

  // A Get hits exactly when its key is among the cap most recently touched ones, and returns the vector last Put.
  lemma HitIff(calls: seq<Call>, cap: nat, q: Query)
    requires cap > 0
    ensures Lookup(Cache(calls, cap), q).Some? <==> q in Cut(Recent(Touched(calls, cap)), cap)
    ensures Lookup(Cache(calls, cap), q).Some? ==> Lookup(Cache(calls, cap), q) == LastPut(calls, q)
  {
    CacheIsRecent(calls, cap);
    LookupInKeys(Cache(calls, cap), q);
    LookupLatest(Cache(calls, cap), q, calls);
    AbsentIff(Keys(Cache(calls, cap)), q);
  }

  // ---- how long an entry stays ----

  // q is present with vector v, and only keys of ks come before it, none of them twice.
  ghost predicate Behind(s: seq<Entry>, q: Query, v: seq<real>, ks: set<Query>) {
    s != [] && if s[0].query == q then s[0].vector == v
               else s[0].query in ks && Behind(s[1..], q, v, ks - {s[0].query})
  }

  lemma {:induction false} BehindGrows(s: seq<Entry>, q: Query, v: seq<real>, ks: set<Query>, more: set<Query>)
    requires Behind(s, q, v, ks) && ks <= more
    ensures Behind(s, q, v, more)
  {
    if s[0].query != q { BehindGrows(s[1..], q, v, ks - {s[0].query}, more - {s[0].query}); }
  }

  lemma {:induction false} BehindWithout(s: seq<Entry>, q: Query, v: seq<real>, ks: set<Query>, x: Query)
    requires Behind(s, q, v, ks) && x != q
    ensures Behind(Without(s, x), q, v, ks - {x})
  {
    if s[0].query != q {
      var k := s[0].query;
      BehindWithout(s[1..], q, v, ks - {k}, x);
      assert ks - {k} - {x} == if k == x then ks - {x} else ks - {x} - {k};
      assert k != x ==> Without(s, x)[1..] == Without(s[1..], x);
    }
  }

  lemma {:induction false} BehindCut(s: seq<Entry>, q: Query, v: seq<real>, ks: set<Query>, n: nat)
    requires Behind(s, q, v, ks) && |ks| < n
    ensures Behind(Cut(s, n), q, v, ks)
  {
    if s[0].query != q {
      BehindCut(s[1..], q, v, ks - {s[0].query}, n - 1);
      assert |s| > n ==> s[..n][1..] == s[1..][..n - 1];
    }
  }

  lemma {:induction false} BehindFound(s: seq<Entry>, q: Query, v: seq<real>, ks: set<Query>)
    requires Behind(s, q, v, ks)
    ensures Lookup(s, q) == Some(v)
  {
    if s[0].query != q { BehindFound(s[1..], q, v, ks - {s[0].query}); }
  }

  // One more call, for the same key or for another one.
  lemma BehindStep(s: seq<Entry>, q: Query, v: seq<real>, ks: set<Query>, c: Call, cap: nat)
    requires Behind(s, q, v, ks) && (c.query == q ==> c.Get?)
    requires |if c.query == q then ks else ks + {c.query}| < cap
    ensures Behind(Step(s, c, cap), q, v, if c.query == q then ks else ks + {c.query})
  {
    hide Without, Cut, Lookup;
    BehindFound(s, q, v, ks);
    if c.query == q {
      var t := [Entry(q, v)] + Without(s, q);
      BehindCut(t, q, v, ks, cap);
    } else {
      var x, more := c.query, ks + {c.query};
      BehindGrows(s, q, v, ks, more);
      if c.Put? || Lookup(s, x).Some? {
        var e := Entry(x, if c.Put? then c.vector else Lookup(s, x).value);
        BehindWithout(s, q, v, more, x);
        var t := [e] + Without(s, x);
        assert t[1..] == Without(s, x);
        BehindCut(t, q, v, more, cap);
      }
    }
  }

  // The other keys that some calls name.
  function Others(calls: seq<Call>, q: Query): (ks: set<Query>)
  {
    set c | c in calls && c.query != q :: c.query
  }

  lemma OthersGrow(calls: seq<Call>, q: Query, c: Call)
    ensures Others(calls + [c], q) == if c.query == q then Others(calls, q) else Others(calls, q) + {c.query}
    ensures Others(calls, q) <= Others(calls + [c], q) && |Others(calls, q)| <= |Others(calls + [c], q)|
  {
    var ks, more := Others(calls, q), Others(calls + [c], q);
    forall k | k in more ensures k in ks || k == c.query {
      var d :| d in calls + [c] && d.query != q && d.query == k;
    }
    forall k | k in ks ensures k in more {
      var d :| d in calls && d.query != q && d.query == k;
      assert d in calls + [c];
    }
    if c.query != q { assert c in calls + [c]; }
    assert more == if c.query == q then ks else ks + {c.query};
    assert |more| == |ks| + |more - ks|;
  }

  lemma {:induction false} StaysBehind(calls: seq<Call>, q: Query, v: seq<real>, later: seq<Call>, cap: nat)
    requires Behind(Cache(calls, cap), q, v, {}) && |Others(later, q)| < cap
    requires forall c :: c in later && c.query == q ==> c.Get?
    ensures Behind(Cache(calls + later, cap), q, v, Others(later, q))
    decreases |later|
  {
    hide Step, Behind;
    if later == [] {
      assert calls + later == calls && Others(later, q) == {};
    } else {
      var n := |later| - 1;
      var init, c := later[..n], later[n];
      assert later == init + [c] && calls + later == (calls + init) + [c];
      assert (calls + later)[..|calls| + n] == calls + init;
      OthersGrow(init, q, c);
      StaysBehind(calls, q, v, init, cap);
      BehindStep(Cache(calls + init, cap), q, v, Others(init, q), c, cap);
    }
  }

  // The entry last put for q, or last found by a Get, is still there, with its vector, after any calls that name fewer
  // than cap other keys and do not put q again.
  lemma KeptWhile(calls: seq<Call>, c: Call, v: seq<real>, later: seq<Call>, cap: nat)
    requires cap > 0 && if c.Put? then v == c.vector else Lookup(Cache(calls, cap), c.query) == Some(v)
    requires forall d :: d in later && d.query == c.query ==> d.Get?
    requires |set d | d in later && d.query != c.query :: d.query| < cap
    ensures Lookup(Cache(calls + [c] + later, cap), c.query) == Some(v)
  {
    hide Without, Lookup;
    var s := Cache(calls, cap);
    assert (calls + [c])[..|calls|] == calls;
    BehindCut([Entry(c.query, v)] + Without(s, c.query), c.query, v, {}, cap);
    StaysBehind(calls + [c], c.query, v, later, cap);
    BehindFound(Cache(calls + [c] + later, cap), c.query, v, Others(later, c.query));
  }

  // q, if present, comes behind all of ks.
  ghost predicate After(s: seq<Entry>, q: Query, ks: set<Query>) {
    s == [] || if s[0].query == q then ks == {} else After(s[1..], q, ks - {s[0].query})
  }

  lemma {:induction false} AfterWithout(s: seq<Entry>, q: Query, ks: set<Query>, x: Query)
    requires After(s, q, ks) && x != q
    ensures After(Without(s, x), q, ks - {x})
  {
    if s != [] && s[0].query != q {
      var k := s[0].query;
      AfterWithout(s[1..], q, ks - {k}, x);
      assert ks - {k} - {x} == if k == x then ks - {x} else ks - {x} - {k};
      assert k != x ==> Without(s, x)[1..] == Without(s[1..], x);
    }
  }

  lemma {:induction false} AfterCut(s: seq<Entry>, q: Query, ks: set<Query>, n: nat)
    requires After(s, q, ks)
    ensures After(Cut(s, n), q, ks)
  {
    if 0 < n < |s| && s[0].query != q {
      AfterCut(s[1..], q, ks - {s[0].query}, n - 1);
      assert s[..n][1..] == s[1..][..n - 1];
    }
  }

  lemma {:induction false} AfterTooMany(s: seq<Entry>, q: Query, ks: set<Query>)
    requires After(s, q, ks) && |s| <= |ks|
    ensures Lookup(s, q) == None
  {
    if s != [] { AfterTooMany(s[1..], q, ks - {s[0].query}); }
  }

  lemma {:induction false} AfterNothing(s: seq<Entry>, q: Query)
    ensures After(s, q, {})
  {
    if s != [] && s[0].query != q {
      AfterNothing(s[1..], q);
      assert {} - {s[0].query} == {};
    }
  }

  lemma AfterTouch(s: seq<Entry>, q: Query, ks: set<Query>, e: Entry, cap: nat)
    requires After(s, q, ks) && e.query != q
    ensures After(Touch(s, e, cap), q, ks + {e.query})
  {
    AfterWithout(s, q, ks, e.query);
    var t := [e] + Without(s, e.query);
    assert t[1..] == Without(s, e.query) && ks + {e.query} - {e.query} == ks - {e.query};
    AfterCut(t, q, ks + {e.query}, cap);
  }

  lemma NoOthers(q: Query)
    ensures Others([], q) == {}
  {
  }

  lemma {:induction false} GoesAfter(calls: seq<Call>, q: Query, later: seq<Call>, cap: nat)
    requires forall c :: c in later ==> c.Put? && c.query != q
    ensures After(Cache(calls + later, cap), q, Others(later, q))
    decreases |later|
  {
    hide After, Touch, Others;
    if later == [] {
      assert Others(later, q) == {} by { NoOthers(q); }
      AfterNothing(Cache(calls + later, cap), q);
    } else {
      var n := |later| - 1;
      var init, c := later[..n], later[n];
      assert later == init + [c] && (calls + later)[..|calls| + n] == calls + init;
      OthersGrow(init, q, c);
      GoesAfter(calls, q, init, cap);
      AfterTouch(Cache(calls + init, cap), q, Others(init, q), Entry(c.query, c.vector), cap);
    }
  }

  lemma CacheIsBounded(calls: seq<Call>, cap: nat)
    requires cap > 0
    ensures |Cache(calls, cap)| <= cap
  {
    CacheIsRecent(calls, cap);
    KeysOfCut(Cache(calls, cap), cap);
  }

  // Putting cap other keys drives any key out, so that an entry outlasts puts of other keys if and only if they are
  // fewer than cap.
  lemma KeptIff(calls: seq<Call>, c: Call, later: seq<Call>, cap: nat)
    requires cap > 0 && (c.Put? || Lookup(Cache(calls, cap), c.query).Some?)
    requires forall d :: d in later ==> d.Put? && d.query != c.query
    ensures Lookup(Cache(calls + [c] + later, cap), c.query).Some? <==>
      |set d | d in later && d.query != c.query :: d.query| < cap
  {
    hide Lookup, Cache, After;
    var ks := Others(later, c.query);
    if |ks| < cap {
      KeptWhile(calls, c, if c.Put? then c.vector else Lookup(Cache(calls, cap), c.query).value, later, cap);
    } else {
      GoesAfter(calls + [c], c.query, later, cap);
      CacheIsBounded(calls + [c] + later, cap);
      AfterTooMany(Cache(calls + [c] + later, cap), c.query, ks);
    }
  }

  // ---- the cache itself ----

  class Element {
    const query: Query

    var vector: array<real>

    constructor (query: Query, vector: array<real>)
      ensures this.query == query && this.vector == vector
    {
      this.query, this.vector := query, vector;
    }
  }

  // append([]float32(nil), vector...)
  method CopyOf(a: array<real>) returns (b: array<real>)
    ensures fresh(b) && b[..] == a[..]
  {
    b := new real[a.Length];
    for i := 0 to a.Length
      invariant b[..i] == a[..i]
    {
      b[i] := a[i];
    }
  }

  // The map has the elements of the list, each under its own query.
  ghost predicate Indexed(order: seq<Element>, items: map<Query, Element>) {
    && (forall i :: 0 <= i < |order| ==> order[i].query in items && items[order[i].query] == order[i])
    && (forall i, j :: 0 <= i < j < |order| ==> order[i].query != order[j].query)
    && (forall q :: q in items ==> exists i :: 0 <= i < |order| && order[i] == items[q] && items[q].query == q)
  }

  // What the list holds.
  ghost predicate Shows(order: seq<Element>, s: seq<Entry>)
    reads order, set e | e in order :: e.vector
  {
    |s| == |order| && forall i :: 0 <= i < |order| ==> s[i] == Entry(order[i].query, order[i].vector[..])
  }

  function Origin(i: nat, k: nat): nat {
    if k == 0 then i else if k <= i then k - 1 else k
  }

  // A sequence with its entry i moved to the front: entry k comes from Origin(i, k).
  function Fronted<T>(s: seq<T>, i: nat): (r: seq<T>)
    requires i < |s|
    ensures |r| == |s|
    ensures forall k :: 0 <= k < |s| ==> r[k] == s[Origin(i, k)]
  {
    [s[i]] + (s[..i] + s[i + 1..])
  }

  lemma StillThere(order: seq<Element>, items: map<Query, Element>, i: nat, q: Query)
    requires Indexed(order, items) && i < |order| && q in items
    ensures var r := Fronted(order, i); exists k :: 0 <= k < |r| && r[k] == items[q] && items[q].query == q
  {
    var k :| 0 <= k < |order| && order[k] == items[q] && items[q].query == q;
    assert Fronted(order, i)[if k == i then 0 else if k < i then k + 1 else k] == items[q];
  }

  lemma StillDistinct(order: seq<Element>, items: map<Query, Element>, i: nat, j: nat, k: nat)
    requires Indexed(order, items) && i < |order| && j < k < |order|
    ensures Fronted(order, i)[j].query != Fronted(order, i)[k].query
  {
    var a, b := Origin(i, j), Origin(i, k);
    assert order[if a < b then a else b].query != order[if a < b then b else a].query;
  }

  lemma IndexedFronted(order: seq<Element>, items: map<Query, Element>, i: nat)
    requires Indexed(order, items) && i < |order|
    ensures Indexed(Fronted(order, i), items)
  {
    var r := Fronted(order, i);
    hide Fronted;
    forall q | q in items ensures exists k :: 0 <= k < |r| && r[k] == items[q] && items[q].query == q {
      StillThere(order, items, i, q);
    }
    forall j, k | 0 <= j < k < |r| ensures r[j].query != r[k].query {
      StillDistinct(order, items, i, j, k);
    }
  }

  lemma {:induction false} KeyPresent(s: seq<Entry>, i: nat)
    requires i < |s|
    ensures !Absent(Keys(s), s[i].query)
  {
    assert Keys(s)[1..] == Keys(s[1..]);
    if i > 0 { KeyPresent(s[1..], i - 1); }
  }

  lemma {:induction false} WithoutAbsent(s: seq<Entry>, q: Query)
    requires Absent(Keys(s), q)
    ensures Without(s, q) == s && Lookup(s, q) == None
  {
    if s != [] {
      assert Keys(s)[1..] == Keys(s[1..]);
      WithoutAbsent(s[1..], q);
    }
  }

  lemma {:induction false} WithoutPresent(s: seq<Entry>, i: nat)
    requires Distinct(Keys(s)) && i < |s|
    ensures Without(s, s[i].query) == s[..i] + s[i + 1..]
    ensures Lookup(s, s[i].query) == Some(s[i].vector)
  {
    var q := s[i].query;
    assert Keys(s)[1..] == Keys(s[1..]);
    if i == 0 {
      WithoutAbsent(s[1..], q);
    } else {
      WithoutPresent(s[1..], i - 1);
      KeyPresent(s[1..], i - 1);
      assert s[..i] == [s[0]] + s[1..][..i - 1] && s[i + 1..] == s[1..][i..];
    }
  }

  // Touching a key that is present moves its entry to the front.
  lemma TouchPresent(s: seq<Entry>, i: nat, v: seq<real>, cap: nat)
    requires Distinct(Keys(s)) && i < |s| <= cap
    ensures var q := s[i].query;
      Touch(s, Entry(q, v), cap) == Fronted(s, i)[0 := Entry(q, v)] && Lookup(s, q) == Some(s[i].vector)
  {
    hide Without, Lookup, Distinct, Keys;
    WithoutPresent(s, i);
    var rest := s[..i] + s[i + 1..];
    assert ([s[i]] + rest)[0 := Entry(s[i].query, v)] == [Entry(s[i].query, v)] + rest;
  }

  lemma {:induction false} NoneShown(s: seq<Entry>, q: Query)
    requires forall i :: 0 <= i < |s| ==> s[i].query != q
    ensures Absent(Keys(s), q)
  {
    if s != [] {
      assert Keys(s)[1..] == Keys(s[1..]);
      NoneShown(s[1..], q);
    }
  }

  lemma {:induction false} ShownDistinct(s: seq<Entry>)
    requires forall i, j :: 0 <= i < j < |s| ==> s[i].query != s[j].query
    ensures Distinct(Keys(s))
  {
    if s != [] {
      assert Keys(s)[1..] == Keys(s[1..]);
      ShownDistinct(s[1..]);
      NoneShown(s[1..], s[0].query);
    }
  }

  // The keys a list shows are distinct, and they are those of the map.
  lemma ShownKeys(order: seq<Element>, items: map<Query, Element>, s: seq<Entry>, q: Query)
    requires Indexed(order, items) && Shows(order, s)
    ensures Distinct(Keys(s)) && (Absent(Keys(s), q) <==> q !in items)
  {
    ShownDistinct(s);
    if q in items {
      var i :| 0 <= i < |order| && order[i] == items[q] && items[q].query == q;
      KeyPresent(s, i);
    } else {
      NoneShown(s, q);
    }
  }

  lemma ShownAt(order: seq<Element>, s: seq<Entry>, i: nat)
    requires Shows(order, s) && i < |order|
    ensures |s| == |order| && s[i] == Entry(order[i].query, order[i].vector[..])
  {
  }

  lemma ShowsFronted(order: seq<Element>, s: seq<Entry>, i: nat)
    requires Shows(order, s) && i < |order|
    ensures Shows(Fronted(order, i), Fronted(s, i))
  {
  }

  // A new element in front.
  lemma IndexedPushed(order: seq<Element>, items: map<Query, Element>, el: Element)
    requires Indexed(order, items) && el.query !in items
    ensures Indexed([el] + order, items[el.query := el])
  {
    var r := [el] + order;
    forall q | q in items ensures exists k :: 0 <= k < |r| && r[k] == items[q] && items[q].query == q {
      var k :| 0 <= k < |order| && order[k] == items[q] && items[q].query == q;
      assert r[k + 1] == items[q];
    }
    assert r[0] == el;
  }

  // The last element taken off.
  lemma IndexedEvicted(order: seq<Element>, items: map<Query, Element>)
    requires Indexed(order, items) && order != []
    ensures var n := |order| - 1; Indexed(order[..n], items - {order[n].query})
  {
    var n := |order| - 1;
    var r := order[..n];
    forall q | q in items && q != order[n].query
      ensures exists k :: 0 <= k < |r| && r[k] == items[q] && items[q].query == q
    {
      var k :| 0 <= k < |order| && order[k] == items[q] && items[q].query == q;
      assert r[k] == items[q];
    }
  }

  lemma NotLast(order: seq<Element>, items: map<Query, Element>)
    requires Indexed(order, items) && |order| > 1
    ensures order[|order| - 1].query != order[0].query
  {
  }

  class QueryEmbedCache {
    const cap: nat

    var order: seq<Element>
    var items: map<Query, Element>
    ghost var contents: seq<Entry>

    ghost predicate Consistent()
      reads this, order, set e | e in order :: e.vector
    {
      Indexed(order, items) && Shows(order, contents)
    }

    ghost predicate Valid()
      reads this, order, set e | e in order :: e.vector
    {
      cap > 0 && |order| <= cap && Consistent()
    }

    constructor (capacity: int)
      ensures Valid() && contents == [] && cap == if capacity <= 0 then 32 else capacity
    {
      cap := if capacity <= 0 then 32 else capacity;
      order, items, contents := [], map[], [];
    }

    method MoveToFront(el: Element, ghost v: seq<real>)
      requires Valid() && el.query in items && items[el.query] == el
      modifies this`order, this`contents
      ensures Valid() && order != [] && order[0] == el && contents != []
      ensures contents[0] == Entry(el.query, el.vector[..])
      ensures Lookup(old(contents), el.query) == Some(el.vector[..])
      ensures Touch(old(contents), Entry(el.query, v), cap) == contents[0 := Entry(el.query, v)]
    {
      hide Without, Lookup, Touch, Keys, Distinct, Absent, Shows, Fronted;
      ShownKeys(order, items, contents, el.query);
      var i :| 0 <= i < |order| && order[i] == el;
      ShownAt(order, contents, i);
      IndexedFronted(order, items, i);
      TouchPresent(contents, i, v, cap);
      ShowsFronted(order, contents, i);
      order := Fronted(order, i);
      contents := Fronted(contents, i);
    }

    // A hit makes its entry the most recent one.
    method Get(query: Query) returns (vector: array?<real>)
      requires Valid()
      modifies this`order, this`contents
      ensures Valid()
      ensures contents == Step(old(contents), Call.Get(query), cap)
      ensures var v := Lookup(old(contents), query);
        if v.None? then vector == null else vector != null && vector[..] == v.value
    {
      hide Without, Lookup, Touch, Keys, Distinct, Absent, Shows;
      ShownKeys(order, items, contents, query);
      if query !in items {
        WithoutAbsent(contents, query);
        return null;
      }
      var el := items[query];
      MoveToFront(el, el.vector[..]);
      vector := el.vector;
    }

    // The new vector of the element that has just become the most recent one.
    method Refresh(el: Element, vector: array<real>)
      requires Valid() && order != [] && order[0] == el
      modifies el, this`contents
      ensures Valid() && fresh(el.vector)
      ensures contents == old(contents)[0 := Entry(el.query, vector[..])]
    {
      var v := CopyOf(vector);
      el.vector := v;
      contents := contents[0 := Entry(el.query, v[..])];
    }

    method PutKnown(el: Element, vector: array<real>)
      requires Valid() && el.query in items && items[el.query] == el
      modifies this`order, this`contents, el
      ensures Valid() && items == old(items) && fresh(el.vector)
      ensures contents == Touch(old(contents), Entry(el.query, vector[..]), cap)
    {
      hide Lookup, Touch, Indexed, Shows;
      MoveToFront(el, vector[..]);
      Refresh(el, vector);
    }

    method PushFront(query: Query, vector: array<real>)
      requires Consistent() && query !in items
      modifies this
      ensures Consistent() && |order| == |old(order)| + 1 && order[0].query == query
      ensures query in items && items[query] == order[0] && fresh(items[query].vector)
      ensures contents == [Entry(query, vector[..])] + old(contents) && |contents| == |order|
    {
      hide Indexed;
      var v := CopyOf(vector);
      var el := new Element(query, v);
      IndexedPushed(order, items, el);
      order := [el] + order;
      contents := [Entry(query, v[..])] + contents;
      items := items[query := el];
    }

    method Evict()
      requires Consistent() && |order| > 0 && |contents| == |order|
      modifies this
      ensures Consistent() && order == old(order)[..|old(order)| - 1]
      ensures items == old(items) - {old(order)[|old(order)| - 1].query}
      ensures contents == old(contents)[..|old(contents)| - 1]
    {
      hide Indexed;
      IndexedEvicted(order, items);
      var back := order[|order| - 1];
      order := order[..|order| - 1];
      contents := contents[..|contents| - 1];
      items := items - {back.query};
    }

    method PutNew(query: Query, vector: array<real>)
      requires Valid() && query !in items
      modifies this
      ensures Valid() && query in items && fresh(items[query].vector)
      ensures contents == Touch(old(contents), Entry(query, vector[..]), cap)
    {
      hide Without, Lookup, Keys, Distinct, Absent, Indexed, Shows;
      ShownKeys(order, items, contents, query);
      WithoutAbsent(contents, query);
      PushFront(query, vector);
      if |order| > cap {
        NotLast(order, items);
        Evict();
      }
    }

    // Later changes to the caller's array do not reach the cache: it keeps a copy in a fresh array.
    method Put(query: Query, vector: array<real>)
      requires Valid()
      modifies this, if query in items then {items[query]} else {}
      ensures Valid()
      ensures contents == Step(old(contents), Call.Put(query, vector[..]), cap)
      ensures query in items && fresh(items[query].vector)
    {
      if query in items {
        PutKnown(items[query], vector);
      } else {
        PutNew(query, vector);
      }
    }
  }
}
