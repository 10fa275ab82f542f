// Throttling of library scans: one scan at a time, and one more afterwards if any was asked for meanwhile.
module LibraryScan {
  // A goroutine in Scan: not there, walking the library, or done walking and about to take the lock again.
  datatype Pc = Out | Walking | Ending

  // The two flags, the goroutines, the scans started with `go` that have not taken the lock yet, the requests that no
  // walk has begun after, and whether a walk has ever failed; and how many requests and walks there have been.
  datatype World = World(scanning: bool, delayed: bool, pcs: seq<Pc>, spawned: nat, unserved: set<nat>, failed: bool,
                         asked: nat, walks: nat)

  // A walk begins: it sees everything that was there when any earlier request was made.
  function Begins(w: World, i: nat): World
    requires i < |w.pcs|
  {
    w.(scanning := true, pcs := w.pcs[i := Walking], unserved := {}, walks := w.walks + 1)
  }

  // Goroutine i calls Scan; the request is known as r.
  ghost predicate Requests(w: World, i: nat, r: nat, v: World)
    requires i < |w.pcs|
  {
    w.pcs[i].Out? &&
    var u := w.(asked := w.asked + 1);
    v == if u.scanning then u.(delayed := true, unserved := u.unserved + {r}) else Begins(u, i)
  }

  // A goroutine started at the end of an earlier scan reaches the lock.
  ghost predicate FollowsUp(w: World, i: nat, v: World)
    requires i < |w.pcs|
  {
    w.spawned > 0 && w.pcs[i].Out? &&
    var u := w.(spawned := w.spawned - 1);
    v == if u.scanning then u.(delayed := true) else Begins(u, i)
  }

  ghost predicate WalkEnds(w: World, i: nat, v: World)
    requires i < |w.pcs|
  {
    w.pcs[i].Walking? && v == w.(pcs := w.pcs[i := Ending])
  }

  // An error of the walk returns at once, leaving both flags as they are.
  ghost predicate WalkFails(w: World, i: nat, v: World)
    requires i < |w.pcs|
  {
    w.pcs[i].Walking? && v == w.(pcs := w.pcs[i := Out], failed := true)
  }

  function Finished(w: World, i: nat): World
    requires i < |w.pcs|
  {
    var more := if w.delayed then 1 else 0;
    w.(scanning := false, delayed := false, pcs := w.pcs[i := Out], spawned := w.spawned + more)
  }

  ghost predicate Finishes(w: World, i: nat, v: World)
    requires i < |w.pcs|
  {
    w.pcs[i].Ending? &&
    v == Finished(w, i)
  }

  ghost predicate Steps(w: World, i: nat, v: World) {
    i < |w.pcs| &&
    ((exists r :: Requests(w, i, r, v)) || FollowsUp(w, i, v)
     || WalkEnds(w, i, v) || WalkFails(w, i, v) || Finishes(w, i, v))
  }

  // Goroutines come as they are needed.
  ghost predicate Joins(w: World, v: World) {
    v == w.(pcs := w.pcs + [Out])
  }

  ghost predicate Next(w: World, v: World) {
    Joins(w, v) || exists i: nat :: Steps(w, i, v)
  }

  ghost predicate Chain(run: seq<World>) {
    |run| > 0 && forall k :: 0 <= k < |run| - 1 ==> Next(run[k], run[k + 1])
  }

  ghost predicate Initial(w: World) {
    !w.scanning && !w.delayed && w.spawned == 0 && w.unserved == {} && !w.failed && w.asked == 0 && w.walks == 0
    && forall i :: 0 <= i < |w.pcs| ==> w.pcs[i].Out?
  }

  // ---- what every run keeps ----

  ghost predicate Inside(w: World, i: nat) {
    i < |w.pcs| && !w.pcs[i].Out?
  }

  ghost predicate Inv(w: World) {
    // one scan at a time
    && (forall i, j :: Inside(w, i) && Inside(w, j) ==> i == j)
    && (forall i :: Inside(w, i) ==> w.scanning && !w.failed)
    // the flag is up exactly while a scan runs, or for good once a walk has failed
    && (w.scanning <==> w.failed || exists i :: Inside(w, i))
    && (w.delayed ==> w.scanning)
    // no request is forgotten while walks succeed
    && (w.unserved != {} ==> w.delayed || w.spawned > 0)
    // no walk without a request
    && w.walks + w.spawned + (if w.delayed then 1 else 0) <= w.asked
  }

  lemma StepKeeps(w: World, i: nat, v: World)
    requires Inv(w) && Steps(w, i, v)
    ensures Inv(v) && (w.failed ==> v.failed && w.unserved <= v.unserved)
  {
    assert forall j :: j != i ==> (Inside(v, j) <==> Inside(w, j));
    if !v.pcs[i].Out? { assert Inside(v, i); }
    if !w.pcs[i].Out? { assert Inside(w, i); }
  }

  lemma NextKeeps(w: World, v: World)
    requires Inv(w) && Next(w, v)
    ensures Inv(v) && (w.failed ==> v.failed && w.unserved <= v.unserved)
  {
    if Joins(w, v) {
      assert forall j :: Inside(v, j) <==> Inside(w, j);
    } else {
      var i: nat :| Steps(w, i, v);
      StepKeeps(w, i, v);
    }
  }

  lemma AtFirst(w: World)
    requires Initial(w)
    ensures Inv(w)
  {
  }

  lemma InvMeans(w: World)
    requires Inv(w)
    ensures forall i, j :: 0 <= i < |w.pcs| && 0 <= j < |w.pcs| && w.pcs[i] != Out && w.pcs[j] != Out ==> i == j
    ensures w.unserved != {} ==> w.delayed || w.spawned > 0
    ensures w.walks + w.spawned <= w.asked
  {
    forall i, j | 0 <= i < |w.pcs| && 0 <= j < |w.pcs| && w.pcs[i] != Out && w.pcs[j] != Out ensures i == j {
      assert Inside(w, i) && Inside(w, j);
    }
  }

  // At most one scan runs at any time, every request is covered: a walk has begun since, or one will follow; and there
  // are never more walks, begun and to follow, than requests.
  lemma {:induction false} Throttled(run: seq<World>, k: nat)
    requires Chain(run) && Initial(run[0]) && k < |run|
    ensures Inv(run[k])
    ensures var w := run[k];
      && (forall i, j :: 0 <= i < |w.pcs| && 0 <= j < |w.pcs| && w.pcs[i] != Out && w.pcs[j] != Out ==> i == j)
      && (w.unserved != {} ==> w.delayed || w.spawned > 0)
      && w.walks + w.spawned <= w.asked
    decreases k
  {
    hide Next, Inv;
    if k > 0 {
      Throttled(run, k - 1);
      NextKeeps(run[k - 1], run[k]);
    } else {
      AtFirst(run[0]);
    }
    InvMeans(run[k]);
  }

  // ---- can an outstanding request still be served? ----

  // After a failed walk none ever is.
  lemma {:induction false} NeverServed(run: seq<World>, k: nat)
    requires Chain(run) && Inv(run[0]) && run[0].failed && k < |run|
    ensures Inv(run[k]) && run[k].failed && run[0].unserved <= run[k].unserved
    ensures forall i :: 0 <= i < |run[k].pcs| ==> run[k].pcs[i].Out?
    decreases k
  {
    if k > 0 {
      NeverServed(run, k - 1);
      NextKeeps(run[k - 1], run[k]);
    }
    forall i | 0 <= i < |run[k].pcs| ensures run[k].pcs[i].Out? {
      assert !Inside(run[k], i);
    }
  }

  // Otherwise the running scan, if there is one, and the follow-up do it.
  lemma Served(w: World) returns (run: seq<World>)
    requires Inv(w) && !w.failed && w.unserved != {}
    ensures Chain(run) && run[0] == w && run[|run| - 1].unserved == {}
  {
    if w.scanning {
      var i: nat :| Inside(w, i);
      var walked := w.(pcs := w.pcs[i := Ending]);
      var done := Finished(w, i);
      var next := Begins(done.(spawned := done.spawned - 1), i);
      assert FollowsUp(done, i, next);
      assert Steps(done, i, next);
      if w.pcs[i].Walking? {
        assert WalkEnds(w, i, walked) && Finishes(walked, i, done);
        assert Steps(w, i, walked) && Steps(walked, i, done);
        run := [w, walked, done, next];
      } else {
        assert Finishes(w, i, done);
        assert Steps(w, i, done);
        run := [w, done, next];
      }
    } else {
      var joined := w.(pcs := w.pcs + [Out]);
      var i := |w.pcs|;
      var next := Begins(joined.(spawned := joined.spawned - 1), i);
      assert FollowsUp(joined, i, next);
      assert Joins(w, joined) && Steps(joined, i, next);
      run := [w, joined, next];
    }
  }

  ghost predicate Serves(run: seq<World>, w: World) {
    Chain(run) && run[0] == w && run[|run| - 1].unserved == {}
  }

  // In any state a run can reach, an outstanding request can still be served if and only if no walk has failed.
  lemma ServedIffNoFailure(history: seq<World>, w: World)
    requires Chain(history) && Initial(history[0]) && w == history[|history| - 1] && w.unserved != {}
    ensures (exists run :: Serves(run, w)) <==> !w.failed
  {
    Throttled(history, |history| - 1);
    if w.failed {
      forall run | Serves(run, w) ensures false {
        NeverServed(run, |run| - 1);
      }
    } else {
      var run := Served(w);
      assert Serves(run, w);
    }
  }

  // Such a state exists: one request, whose walk fails, and another.
  lemma FailureSticks() returns (run: seq<World>)
    ensures Chain(run) && Initial(run[0])
    ensures var w := run[|run| - 1]; w.failed && w.scanning && w.unserved == {1} && w.pcs == [Out]
  {
    var w0 := World(false, false, [Out], 0, {}, false, 0, 0);
    var w1 := Begins(w0.(asked := 1), 0);
    var w2 := w1.(pcs := w1.pcs[0 := Out], failed := true);
    var w3 := w2.(delayed := true, unserved := {1}, asked := 2);
    assert Requests(w0, 0, 0, w1) && WalkFails(w1, 0, w2);
    assert w2.unserved + {1} == {1};
    assert Requests(w2, 0, 1, w3);
    assert Steps(w0, 0, w1) && Steps(w1, 0, w2) && Steps(w2, 0, w3);
    run := [w0, w1, w2, w3];
  }
}
