// The worker's game slot: an atomic int32 that any number of goroutines reserve and release in compare-and-swap loops.
module SlotCounter {
  type Int32 = x: int | -0x8000_0000 <= x < 0x8000_0000

  datatype Op = TryReserve | UnReserve | FreeSlots

  // The operations as they would be if each ran alone: the new value, and what TryReserve answers.
  function After(v: Int32, op: Op): Int32 {
    match op
    case TryReserve => if v == 0 then 1 else v
    case UnReserve => if v > 0 then v - 1 else 0
    case FreeSlots => 0
  }

  predicate Answer(v: Int32, op: Op) {
    op != TryReserve || v == 0
  }

  // Where a goroutine is: outside, about to load, or about to compare-and-swap with the value it loaded.
  datatype Pc = Idle | Loading(op: Op) | Swapping(op: Op, current: Int32)

  // A finished operation; the log lists them in the order in which they finished.
  datatype Event = Event(op: Op, answer: bool)

  datatype Slot = Slot(value: Int32, pcs: seq<Pc>, log: seq<Event>)

  ghost predicate Calls(s: Slot, i: nat, op: Op, t: Slot)
    requires i < |s.pcs|
  {
    s.pcs[i].Idle? && t == s.(pcs := s.pcs[i := Loading(op)])
  }

  // The load, and the branch on what was loaded; FreeSlots is a single store.
  ghost predicate Loads(s: Slot, i: nat, t: Slot)
    requires i < |s.pcs|
  {
    s.pcs[i].Loading? &&
    match s.pcs[i].op
    case TryReserve =>
      if s.value != 0 then t == Slot(s.value, s.pcs[i := Idle], s.log + [Event(TryReserve, false)])
      else t == s.(pcs := s.pcs[i := Swapping(TryReserve, s.value)])
    case UnReserve =>
      if s.value == 0 then t == Slot(s.value, s.pcs[i := Idle], s.log + [Event(UnReserve, true)])
      else t == s.(pcs := s.pcs[i := Swapping(UnReserve, s.value)])
    case FreeSlots => t == Slot(0, s.pcs[i := Idle], s.log + [Event(FreeSlots, true)])
  }

  // The value a swap puts in place of the loaded one.
  function Replacement(op: Op, current: Int32): Int32 {
    match op
    case TryReserve => 1
    case UnReserve => if current < 0 then 0 else if current > 0 then current - 1 else 0
    case FreeSlots => 0
  }

  // The swap succeeds when the value is still the loaded one, otherwise the loop goes round.
  ghost predicate Swaps(s: Slot, i: nat, t: Slot)
    requires i < |s.pcs|
  {
    s.pcs[i].Swapping? &&
    var op, current := s.pcs[i].op, s.pcs[i].current;
    if s.value == current
    then t == Slot(Replacement(op, current), s.pcs[i := Idle], s.log + [Event(op, true)])
    else t == s.(pcs := s.pcs[i := Loading(op)])
  }

  ghost predicate Steps(s: Slot, i: nat, t: Slot) {
    i < |s.pcs| && ((exists op :: Calls(s, i, op, t)) || Loads(s, i, t) || Swaps(s, i, t))
  }

  ghost predicate Next(s: Slot, t: Slot) {
    exists i: nat :: Steps(s, i, t)
  }

  ghost predicate IsRun(run: seq<Slot>) {
    && |run| > 0 && run[0].log == [] && (forall i :: 0 <= i < |run[0].pcs| ==> run[0].pcs[i].Idle?)
    && forall k :: 0 <= k < |run| - 1 ==> Next(run[k], run[k + 1])
  }

  // ---- every interleaving is a sequence of whole operations ----

  // The value after operations that run one after the other, and whether they all answer as they do alone.
  function Replay(v: Int32, log: seq<Event>): Int32
    decreases |log|
  {
    if log == [] then v else Replay(After(v, log[0].op), log[1..])
  }

  predicate Legal(v: Int32, log: seq<Event>)
    decreases |log|
  {
    log == [] || (log[0].answer == Answer(v, log[0].op) && Legal(After(v, log[0].op), log[1..]))
  }

  lemma {:induction false} LegalAppend(v: Int32, log: seq<Event>, e: Event)
    ensures Replay(v, log + [e]) == After(Replay(v, log), e.op)
    ensures Legal(v, log + [e]) <==> Legal(v, log) && e.answer == Answer(Replay(v, log), e.op)
    decreases |log|
  {
    if log == [] {
      assert log + [e] == [e] && [e][1..] == [];
    } else {
      assert (log + [e])[1..] == log[1..] + [e];
      LegalAppend(After(v, log[0].op), log[1..], e);
    }
  }

  ghost predicate Linear(v: Int32, s: Slot) {
    && s.value == Replay(v, s.log) && Legal(v, s.log)
    && forall i :: 0 <= i < |s.pcs| && s.pcs[i].Swapping? ==>
         (s.pcs[i].op == TryReserve && s.pcs[i].current == 0) || (s.pcs[i].op == UnReserve && s.pcs[i].current != 0)
  }

  lemma StepKeepsLinear(v: Int32, s: Slot, i: nat, t: Slot)
    requires Linear(v, s) && Steps(s, i, t)
    ensures Linear(v, t)
  {
    hide Replay, Legal;
    if |t.log| > |s.log| {
      LegalAppend(v, s.log, t.log[|s.log|]);
    }
  }

  lemma LinearMeans(v: Int32, s: Slot)
    requires Linear(v, s)
    ensures s.value == Replay(v, s.log) && Legal(v, s.log)
  {
  }

  // However the goroutines interleave, the slot and every answer are those of the finished operations run one
  // after the other, in the order in which they finished.
  lemma {:induction false} Linearizable(run: seq<Slot>, k: nat)
    requires IsRun(run) && k < |run|
    ensures run[k].value == Replay(run[0].value, run[k].log) && Legal(run[0].value, run[k].log)
    ensures Linear(run[0].value, run[k])
  {
    if k > 0 {
      Linearizable(run, k - 1);
      assert Next(run[k - 1], run[k]);
      var i: nat :| Steps(run[k - 1], i, run[k]);
      hide Linear, Steps;
      StepKeepsLinear(run[0].value, run[k - 1], i, run[k]);
      LinearMeans(run[0].value, run[k]);
    }
  }

  // ---- what that means for the slot ----

  ghost predicate Wins(e: Event) {
    e.op == TryReserve && e.answer
  }

  // While the slot is taken, further reservations fail until something is released.
  lemma {:induction false} TakenUntilReleased(v: Int32, log: seq<Event>, j: nat)
    requires Legal(v, log) && v != 0 && j < |log| && Wins(log[j])
    ensures exists k :: 0 <= k < j && log[k].op != TryReserve
    decreases |log|
  {
    if log[0].op == TryReserve {
      assert !log[0].answer;
      assert log[j] == log[1..][j - 1];
      TakenUntilReleased(v, log[1..], j - 1);
      var k :| 0 <= k < j - 1 && log[1..][k].op != TryReserve;
      assert log[k + 1] == log[1..][k];
    } else {
      assert j > 0;
    }
  }

  // Between any two reservations that succeed there is a release.
  lemma {:induction false} OneWinner(v: Int32, log: seq<Event>, i: nat, j: nat)
    requires Legal(v, log) && i < j < |log| && Wins(log[i]) && Wins(log[j])
    ensures exists k :: i < k < j && log[k].op != TryReserve
    decreases |log|
  {
    var rest := log[1..];
    assert rest[j - 1] == log[j];
    if i == 0 {
      TakenUntilReleased(1, rest, j - 1);
      var k :| 0 <= k < j - 1 && rest[k].op != TryReserve;
      assert log[k + 1] == rest[k];
    } else {
      assert rest[i - 1] == log[i];
      OneWinner(After(v, log[0].op), rest, i - 1, j - 1);
      var k :| i - 1 < k < j - 1 && rest[k].op != TryReserve;
      assert log[k + 1] == rest[k];
    }
  }

  // In every run, two successful reservations have a release between them.
  lemma AtMostOneHolder(run: seq<Slot>, n: nat, i: nat, j: nat)
    requires IsRun(run) && n < |run| && i < j < |run[n].log| && Wins(run[n].log[i]) && Wins(run[n].log[j])
    ensures exists k :: i < k < j && run[n].log[k].op != TryReserve
  {
    Linearizable(run, n);
    OneWinner(run[0].value, run[n].log, i, j);
  }

  // Of reservations alone on a free slot exactly the first succeeds.
  lemma {:induction false} FirstWins(log: seq<Event>, j: nat)
    requires Legal(0, log) && (forall k :: 0 <= k < |log| ==> log[k].op == TryReserve) && j < |log|
    ensures Wins(log[j]) <==> j == 0
  {
    if j > 0 && Wins(log[j]) { OneWinner(0, log, 0, j); }
  }

  lemma {:induction false} LegalPrefix(v: Int32, log: seq<Event>, j: nat)
    requires Legal(v, log) && j < |log|
    ensures Legal(v, log[..j]) && (log[j].answer <==> Answer(Replay(v, log[..j]), log[j].op))
    decreases |log|
  {
    var n := |log| - 1;
    assert log == log[..n] + [log[n]];
    LegalAppend(v, log[..n], log[n]);
    if j < n {
      LegalPrefix(v, log[..n], j);
      assert log[..n][..j] == log[..j];
    }
  }

  ghost predicate Released(log: seq<Event>, i: nat, j: nat)
    requires j <= |log|
  {
    exists k :: i < k < j && log[k].op != TryReserve
  }

  // A slot that starts free is only ever free or taken once.
  lemma {:induction false} FreeOrTaken(v: Int32, log: seq<Event>)
    requires 0 <= v <= 1
    ensures 0 <= Replay(v, log) <= 1
    decreases |log|
  {
    if log != [] { FreeOrTaken(After(v, log[0].op), log[1..]); }
  }

  ghost predicate AllReleased(log: seq<Event>) {
    forall i :: 0 <= i < |log| && Wins(log[i]) ==> Released(log, i, |log|)
  }

  lemma ReleasedGrows(log: seq<Event>, e: Event, i: nat)
    requires i < |log|
    ensures Released(log + [e], i, |log| + 1) <==> e.op != TryReserve || Released(log, i, |log|)
  {
    var more := log + [e];
    if Released(more, i, |more|) {
      var k :| i < k < |more| && more[k].op != TryReserve;
      assert k < |log| ==> log[k] == more[k];
    }
    if Released(log, i, |log|) {
      var k :| i < k < |log| && log[k].op != TryReserve;
      assert more[k] == log[k];
    }
    assert more[|log|] == e;
  }

  lemma NotReleasedYet(log: seq<Event>, i: nat)
    requires i + 1 == |log|
    ensures !Released(log, i, |log|)
  {
  }

  lemma AllReleasedGrows(log: seq<Event>, e: Event)
    ensures AllReleased(log + [e]) <==> e.op != TryReserve || (AllReleased(log) && !e.answer)
  {
    hide Released;
    var more := log + [e];
    forall i | 0 <= i < |log| ensures more[i] == log[i]
      && (Released(more, i, |more|) <==> e.op != TryReserve || Released(log, i, |log|))
    {
      ReleasedGrows(log, e, i);
    }
    NotReleasedYet(more, |log|);
  }

  lemma AtStart()
    ensures Replay(0, []) == 0 && AllReleased([])
  {
  }

  // The slot is free when every reservation that succeeded has been followed by a release.
  lemma {:induction false} FreeIff(log: seq<Event>)
    requires Legal(0, log)
    ensures Replay(0, log) == 0 <==> AllReleased(log)
    decreases |log|
  {
    hide AllReleased, Replay, Legal;
    if log == [] {
      AtStart();
    } else {
      var n := |log| - 1;
      assert log == log[..n] + [log[n]];
      LegalAppend(0, log[..n], log[n]);
      FreeOrTaken(0, log[..n]);
      FreeIff(log[..n]);
      AllReleasedGrows(log[..n], log[n]);
    }
  }

  // On a slot that starts free a reservation succeeds exactly when every one before it that did has been released
  // since. In particular one release is enough, however often the slot is released.
  lemma WinsIff(run: seq<Slot>, n: nat, j: nat)
    requires IsRun(run) && run[0].value == 0 && n < |run| && j < |run[n].log|
    ensures var log := run[n].log;
      Wins(log[j]) <==>
        && log[j].op == TryReserve
        && forall i :: 0 <= i < j && log[i].op == TryReserve && log[i].answer ==>
             exists k :: i < k < j && log[k].op != TryReserve
  {
    var log := run[n].log;
    Linearizable(run, n);
    LegalPrefix(0, log, j);
    FreeIff(log[..j]);
    forall i | 0 <= i < j ensures Released(log[..j], i, j) <==> exists k :: i < k < j && log[k].op != TryReserve {
      if Released(log[..j], i, j) {
        var k :| i < k < j && log[..j][k].op != TryReserve;
        assert log[k].op != TryReserve;
      }
      if k :| i < k < j && log[k].op != TryReserve { assert log[..j][k].op != TryReserve; }
    }
    assert forall i :: 0 <= i < j ==> log[..j][i] == log[i];
  }
}
