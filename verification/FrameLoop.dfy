// The loop of write on counts alone: which bucket it is in, how full that is, how much is still to come; and when it
// ends.
module FrameLoop {
  ghost predicate Sizes(lens: seq<nat>) {
    0 < |lens| && forall j :: 0 <= j < |lens| ==> 0 < lens[j]
  }

  // The last bucket that rem more samples would fill, else bucket 0.
  ghost predicate Chosen(lens: seq<nat>, rem: nat, b: nat) {
    && b < |lens|
    && (forall j :: b < j < |lens| ==> rem < lens[j])
    && (rem >= lens[b] || (b == 0 && rem < lens[0]))
  }

  lemma ChosenIsUnique(lens: seq<nat>, rem: nat, b: nat, c: nat)
    requires Chosen(lens, rem, b) && Chosen(lens, rem, c)
    ensures b == c
  {
  }

  function Choose(lens: seq<nat>, rem: nat, from: nat): (b: nat)
    requires 0 < |lens| && from <= |lens|
    requires forall j :: from <= j < |lens| ==> rem < lens[j]
    ensures Chosen(lens, rem, b)
  {
    if from == 0 then 0
    else if rem >= lens[from - 1] then from - 1
    else Choose(lens, rem, from - 1)
  }

  // The current bucket, how many samples wait in it, and how many of the write are still to come.
  datatype Loop = Loop(bi: nat, p: nat, rem: nat)

  // Between turns a bucket is never full, unless it is empty.
  predicate Fits(lens: seq<nat>, bi: nat, p: nat) {
    bi < |lens| && (p < lens[bi] || p == lens[bi] == 0)
  }

  // One turn: copy what fits; if the bucket is full now, choose the next one.
  function NextTurn(lens: seq<nat>, s: Loop): (n: Loop)
    requires Fits(lens, s.bi, s.p)
    ensures Fits(lens, n.bi, n.p)
  {
    var c := if s.rem < lens[s.bi] - s.p then s.rem else lens[s.bi] - s.p;
    if s.p + c == lens[s.bi] then Loop(Choose(lens, s.rem - c, |lens|), 0, s.rem - c)
    else Loop(s.bi, s.p + c, s.rem - c)
  }

  // The loop after t turns; it stops when nothing is left.
  function Turns(lens: seq<nat>, s: Loop, t: nat): Loop
    requires Fits(lens, s.bi, s.p)
    decreases t
  {
    if t == 0 || s.rem == 0 then s else Turns(lens, NextTurn(lens, s), t - 1)
  }

  ghost predicate Ends(lens: seq<nat>, s: Loop)
    requires Fits(lens, s.bi, s.p)
  {
    exists t: nat :: Turns(lens, s, t).rem == 0
  }

  // Whether the loop ends, as a caller can work it out before the write: it fails to at the first turn that leads
  // from an empty bucket to an empty bucket.
  predicate Finishes(lens: seq<nat>, s: Loop)
    requires Fits(lens, s.bi, s.p)
    decreases s.rem, if lens[s.bi] == 0 then 1 else 0
  {
    s.rem == 0 ||
    var n := NextTurn(lens, s); (lens[s.bi] > 0 || lens[n.bi] > 0) && Finishes(lens, n)
  }

  // A turn that changes nothing is repeated for ever.
  lemma {:induction false} Stays(lens: seq<nat>, s: Loop, t: nat)
    requires Fits(lens, s.bi, s.p) && NextTurn(lens, s) == s
    ensures Turns(lens, s, t) == s
    decreases t
  {
    if t > 0 { Stays(lens, s, t - 1); }
  }

  // A turn changes nothing exactly in an empty bucket behind which every bucket is too large for what remains.
  lemma StallsIff(lens: seq<nat>, s: Loop)
    requires Fits(lens, s.bi, s.p) && s.rem > 0
    ensures NextTurn(lens, s) == s <==> lens[s.bi] == 0 && forall j :: s.bi < j < |lens| ==> s.rem < lens[j]
  {
    if lens[s.bi] == 0 && forall j :: s.bi < j < |lens| ==> s.rem < lens[j] {
      ChosenIsUnique(lens, s.rem, s.bi, Choose(lens, s.rem, |lens|));
    }
  }

  // From an empty bucket to an empty bucket there is no way on.
  lemma EmptyToEmpty(lens: seq<nat>, s: Loop, t: nat)
    requires Fits(lens, s.bi, s.p) && s.rem > 0
    ensures var n := NextTurn(lens, s); lens[s.bi] == 0 && lens[n.bi] == 0 ==> Turns(lens, n, t).rem == s.rem
  {
    var n := NextTurn(lens, s);
    if lens[s.bi] == 0 && lens[n.bi] == 0 {
      StallsIff(lens, n);
      Stays(lens, n, t);
    }
  }

  lemma {:induction false} FinishesEnds(lens: seq<nat>, s: Loop)
    requires Fits(lens, s.bi, s.p) && Finishes(lens, s)
    ensures Ends(lens, s)
    decreases s.rem, if lens[s.bi] == 0 then 1 else 0
  {
    if s.rem == 0 {
      assert Turns(lens, s, 0).rem == 0;
    } else {
      var n := NextTurn(lens, s);
      FinishesEnds(lens, n);
      var t: nat :| Turns(lens, n, t).rem == 0;
      assert Turns(lens, s, t + 1) == Turns(lens, n, t);
    }
  }

  lemma {:induction false} EndsFinishes(lens: seq<nat>, s: Loop, t: nat)
    requires Fits(lens, s.bi, s.p) && Turns(lens, s, t).rem == 0
    ensures Finishes(lens, s)
    decreases t
  {
    if s.rem > 0 {
      var n := NextTurn(lens, s);
      EmptyToEmpty(lens, s, t - 1);
      EndsFinishes(lens, n, t - 1);
    }
  }

  // The loop ends, after some number of turns, exactly when it never goes from an empty bucket to an empty bucket.
  lemma EndsIff(lens: seq<nat>, s: Loop)
    requires Fits(lens, s.bi, s.p)
    ensures Ends(lens, s) <==> Finishes(lens, s)
  {
    if Finishes(lens, s) { FinishesEnds(lens, s); }
    if t: nat :| Turns(lens, s, t).rem == 0 { EndsFinishes(lens, s, t); }
  }

  // Without empty buckets it always ends.
  lemma {:induction false} NonEmptyFinishes(lens: seq<nat>, s: Loop)
    requires Sizes(lens) && Fits(lens, s.bi, s.p)
    ensures Finishes(lens, s)
    decreases s.rem
  {
    if s.rem > 0 { NonEmptyFinishes(lens, NextTurn(lens, s)); }
  }

  // ---- every write to a buffer ----

  // What can come after a state: the next turn, or, once a write has ended, the next write, of any length.
  ghost predicate Follows(lens: seq<nat>, s: Loop, n: Loop) {
    Fits(lens, s.bi, s.p) && if s.rem > 0 then n == NextTurn(lens, s) else n.bi == s.bi && n.p == s.p
  }

  // A new buffer starts empty in its last bucket.
  ghost predicate Reaches(lens: seq<nat>, run: seq<Loop>) {
    && |lens| > 0 && |run| > 0 && run[0].bi == |lens| - 1 && run[0].p == 0
    && forall k :: 0 <= k < |run| - 1 ==> Follows(lens, run[k], run[k + 1])
  }

  // Every write, of every length, from every state a new buffer can reach, ends.
  ghost predicate AlwaysEnds(lens: seq<nat>) {
    forall run: seq<Loop> :: Reaches(lens, run) ==>
      var s := run[|run| - 1]; Fits(lens, s.bi, s.p) && Ends(lens, s)
  }

  lemma {:induction false} ReachedFits(lens: seq<nat>, run: seq<Loop>, k: nat)
    requires Reaches(lens, run) && k < |run|
    ensures Fits(lens, run[k].bi, run[k].p)
  {
    if k > 0 {
      ReachedFits(lens, run, k - 1);
      assert Follows(lens, run[k - 1], run[k - 1 + 1]);
    }
  }

  lemma ChosenForOne(lens: seq<nat>, e: nat, b: nat)
    requires e < |lens| && lens[e] == 0 && (forall j :: 0 <= j < |lens| ==> lens[j] % 2 == 0) && Chosen(lens, 1, b)
    ensures lens[b] == 0
  {
  }

  // With an empty bucket some first write to a new buffer does not end: one sample if the last bucket is empty, else
  // one more than the last bucket holds.
  lemma EmptyStalls(lens: seq<nat>, e: nat) returns (s: Loop)
    requires e < |lens| && lens[e] == 0 && forall j :: 0 <= j < |lens| ==> lens[j] % 2 == 0
    ensures s.bi == |lens| - 1 && s.p == 0 && s.rem == lens[s.bi] + 1
    ensures Fits(lens, s.bi, s.p) && !Ends(lens, s)
  {
    var last := |lens| - 1;
    s := Loop(last, 0, lens[last] + 1);
    var n := NextTurn(lens, s);
    assert n.rem == 1 && Chosen(lens, 1, n.bi);
    ChosenForOne(lens, e, n.bi);
    StallsIff(lens, n);
    forall t: nat ensures Turns(lens, s, t).rem > 0 {
      if t > 0 { Stays(lens, n, t - 1); }
    }
  }

  // Every write ends if and only if no bucket is empty.
  lemma AlwaysEndsIff(lens: seq<nat>)
    requires |lens| > 0 && forall j :: 0 <= j < |lens| ==> lens[j] % 2 == 0
    ensures AlwaysEnds(lens) <==> Sizes(lens)
  {
    if Sizes(lens) {
      forall run: seq<Loop> | Reaches(lens, run)
        ensures var s := run[|run| - 1]; Fits(lens, s.bi, s.p) && Ends(lens, s)
      {
        ReachedFits(lens, run, |run| - 1);
        NonEmptyFinishes(lens, run[|run| - 1]);
        EndsIff(lens, run[|run| - 1]);
      }
    } else {
      var e :| 0 <= e < |lens| && lens[e] == 0;
      var s := EmptyStalls(lens, e);
      assert Reaches(lens, [s]);
      assert [s][|[s]| - 1] == s;
    }
  }
}
