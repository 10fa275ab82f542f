// The coordinator's game slot together with the room protocol: who may start a game, and what a failed start leaves.
module GameSlot {
  import Basics

  import opened RoomProtocol

  // What a user's StartGame comes to at the coordinator, once its grace period is over: no free slot, or the room id to
  // ask the worker for, and whether that reserves the slot.
  datatype Decision = Refuse | Ask(rid: string, reserves: bool)

  function Decide(slot: int, roomId: string, rid: string): Decision {
    if slot != 0 then
      if roomId == "" then Refuse
      else if rid == "" then Ask(roomId, false)
      else if rid != roomId then Refuse
      else Ask(rid, false)
    else Ask(rid, true)
  }

  // A request under way, and whether it is a start that reserved the slot.
  datatype Asked = Asked(rq: Request, reserves: bool)

  // The coordinator, its requests under way, the worker, and its messages under way.
  datatype Side = Side(slot: int, roomId: string, requests: seq<Asked>, worker: WorkerState, queue: seq<Message>)

  ghost predicate UserStarts(s: Side, user: string, rid: string, game: string, player: int, launch: Launch, t: Side) {
    match Decide(s.slot, s.roomId, rid)
    case Refuse => t == s
    case Ask(r, reserves) =>
      t == s.(slot := if reserves then 1 else s.slot,
              requests := s.requests + [Asked(StartGame(user, r, game, player, launch), reserves)])
  }

  // A start is refused exactly when the slot is taken and no room is known, or another room is asked for. Any other
  // one goes to the worker, for the room asked for or, with none asked for and the slot taken, for the known one; it
  // reserves the slot exactly when that was free.
  lemma RefusedIff(s: Side, user: string, rid: string, game: string, player: int, launch: Launch, t: Side)
    requires UserStarts(s, user, rid, game, player, launch, t)
    ensures t == s <==> s.slot != 0 && (s.roomId == "" || (rid != "" && rid != s.roomId))
    ensures t != s ==>
      var r := if s.slot != 0 && rid == "" then s.roomId else rid;
      && t.requests == s.requests + [Asked(StartGame(user, r, game, player, launch), s.slot == 0)]
      && t.slot == (if s.slot == 0 then 1 else s.slot) && (s.slot != 0 ==> r == s.roomId)
      && t.roomId == s.roomId && t.worker == s.worker && t.queue == s.queue
  {
    if t == s { assert |t.requests| == |s.requests|; }
  }

  // The other requests a coordinator passes on: a session that ends or begins, and quitting the room it knows.
  ghost predicate UserAsks(s: Side, rq: Request, t: Side) {
    && !rq.StartGame? && (rq.QuitGame? ==> rq.rid == s.roomId)
    && t == s.(requests := s.requests + [Asked(rq, false)])
  }

  ghost predicate WorkerHandles(s: Side, decode: Decoder, t: Side) {
    && s.requests != []
    && var o := Handle(s.worker, decode, s.requests[0].rq);
       t == s.(requests := s.requests[1..], worker := o.state, queue := s.queue + o.sent)
  }

  // HandleCloseRoom frees the slot together with RoomId, but only for the room the coordinator knows.
  function SlotAfter(slot: int, roomId: string, m: Message): int {
    if m.CloseRoom? && m.id == roomId then 0 else slot
  }

  // The coordinator has handled its oldest message.
  function Handled(s: Side): Side
    requires s.queue != []
  {
    var m := s.queue[0];
    s.(queue := s.queue[1..], roomId := Mirrored(s.roomId, m), slot := SlotAfter(s.slot, s.roomId, m))
  }

  ghost predicate CoordinatorHandles(s: Side, t: Side) {
    s.queue != [] && t == Handled(s)
  }

  ghost predicate WorkerChats(s: Side, t: Side) {
    t == s.(queue := s.queue + [Chatter])
  }

  ghost predicate Next(s: Side, t: Side) {
    || (exists user, rid, game, player, launch :: UserStarts(s, user, rid, game, player, launch, t))
    || (exists rq :: UserAsks(s, rq, t))
    || (exists decode :: WorkerHandles(s, decode, t))
    || CoordinatorHandles(s, t)
    || WorkerChats(s, t)
  }

  ghost predicate Reaches(run: seq<Side>) {
    |run| > 0 && forall i :: 0 <= i < |run| - 1 ==> Next(run[i], run[i + 1])
  }

  // Nothing under way, no room, slot free.
  ghost predicate Quiet(s: Side) {
    && s.slot == 0 && s.roomId == "" && s.requests == [] && s.queue == []
    && s.worker.room.None? && "" !in s.worker.library
  }

  // ---- the slot that nobody can free ----

  ghost predicate StartUnderWay(requests: seq<Asked>) {
    exists i :: 0 <= i < |requests| && requests[i].rq.StartGame?
  }

  ghost predicate RegisterUnderWay(queue: seq<Message>) {
    exists i :: 0 <= i < |queue| && queue[i].RegisterRoom?
  }

  // Room ids are not empty.
  ghost predicate Named(queue: seq<Message>) {
    forall i :: 0 <= i < |queue| ==> queue[i] != RegisterRoom("") && queue[i] != CloseRoom("")
  }

  // The slot is taken, yet there is no room, none is known, and none is on its way in either direction.
  ghost predicate Stuck(s: Side) {
    && s.slot != 0 && s.roomId == "" && s.worker.room.None?
    && !StartUnderWay(s.requests) && !RegisterUnderWay(s.queue) && Named(s.queue)
  }

  // Without a room, only a start makes the worker say anything about rooms.
  lemma Quiets(w: WorkerState, decode: Decoder, rq: Request)
    requires w.room.None? && !rq.StartGame?
    ensures var o := Handle(w, decode, rq);
      o.state.room.None? && !RegisterUnderWay(o.sent) && Named(o.sent)
  {
  }

  lemma StuckStays(s: Side, t: Side)
    requires Stuck(s) && Next(s, t)
    ensures Stuck(t) && t.slot == s.slot
  {
    if decode: Decoder :| WorkerHandles(s, decode, t) {
      var o := Handle(s.worker, decode, s.requests[0].rq);
      assert !s.requests[0].rq.StartGame?;
      Quiets(s.worker, decode, s.requests[0].rq);
      assert forall i :: 0 <= i < |t.requests| ==> t.requests[i] == s.requests[i + 1];
    } else if CoordinatorHandles(s, t) {
      assert !s.queue[0].RegisterRoom? && s.queue[0] != CloseRoom("");
      assert forall i :: 0 <= i < |t.queue| ==> t.queue[i] == s.queue[i + 1];
    }
  }

  // Nothing but a disconnect ends it: in every later state every start is refused, whoever asks and for whatever room.
  lemma {:induction false} StuckForever(run: seq<Side>, i: nat, rid: string)
    requires Reaches(run) && Stuck(run[0]) && i < |run|
    ensures Stuck(run[i]) && Decide(run[i].slot, run[i].roomId, rid) == Refuse
  {
    if i > 0 {
      StuckForever(run, i - 1, rid);
      assert Next(run[i - 1], run[i]);
      StuckStays(run[i - 1], run[i]);
    }
  }

  // ---- what every run keeps ----

  // The last start under way.
  function LastStart(requests: seq<Asked>): Basics.Option<Asked> {
    if requests == [] then Basics.None
    else
      var last := requests[|requests| - 1];
      if last.rq.StartGame? then Basics.Some(last) else LastStart(requests[..|requests| - 1])
  }

  ghost predicate Inv(s: Side) {
    && "" !in s.worker.library && s.worker.room != Basics.Some("") && Named(s.queue)
    && Mirror(s.roomId, s.queue) == OpenRoom(s.worker)
    // a taken slot without a room was reserved by the last start under way
    && (s.slot != 0 && s.roomId == "" && LastStart(s.requests).Some? ==> LastStart(s.requests).value.reserves)
  }

  lemma {:induction false} LastStartIs(requests: seq<Asked>)
    ensures LastStart(requests).Some? <==> StartUnderWay(requests)
    ensures requests != [] ==>
      LastStart(requests) == if StartUnderWay(requests[1..]) then LastStart(requests[1..])
                             else if requests[0].rq.StartGame? then Basics.Some(requests[0]) else Basics.None
  {
    if requests != [] {
      var n := |requests| - 1;
      var init, tail := requests[..n], requests[1..];
      LastStartIs(init);
      if n > 0 {
        LastStartIs(tail);
        assert tail[..n - 1] == init[1..] && tail[n - 1] == requests[n];
        LastStartIs(init[1..]);
      }
      assert forall i :: 0 <= i < n ==> init[i] == requests[i];
    }
  }

  lemma NamedMessages(w: WorkerState, decode: Decoder, rq: Request)
    requires "" !in w.library && w.room != Basics.Some("")
    ensures Named(Handle(w, decode, rq).sent)
  {
  }

  lemma WorkerKeeps(s: Side, decode: Decoder, t: Side)
    requires Inv(s) && WorkerHandles(s, decode, t)
    ensures Inv(t)
  {
    hide Handle, Mirror, LastStart;
    var rq := s.requests[0].rq;
    var o := Handle(s.worker, decode, rq);
    HandlersAreFaithful(s.worker, decode, rq);
    MirrorAppend(s.roomId, s.queue, o.sent);
    NamedMessages(s.worker, decode, rq);
    LastStartIs(s.requests);
    LastStartIs(t.requests);
  }

  lemma CoordinatorKeeps(s: Side, t: Side)
    requires Inv(s) && CoordinatorHandles(s, t)
    ensures Inv(t)
  {
    hide LastStart;
    assert s.queue[0] != RegisterRoom("");
    assert forall i :: 0 <= i < |t.queue| ==> t.queue[i] == s.queue[i + 1];
  }

  lemma UsersKeep(s: Side, t: Side, asked: Asked)
    requires Inv(s) && t == s.(slot := t.slot, requests := s.requests + [asked])
    requires !asked.rq.StartGame? || !asked.reserves ==> t.slot == s.slot
    requires asked.rq.StartGame? && !asked.reserves ==> s.slot == 0 || s.roomId != ""
    ensures Inv(t)
  {
    assert t.requests[..|t.requests| - 1] == s.requests;
  }

  lemma ChatKeeps(s: Side, t: Side)
    requires Inv(s) && WorkerChats(s, t)
    ensures Inv(t)
  {
    hide Mirror, LastStart;
    MirrorAppend(s.roomId, s.queue, [Chatter]);
    OneMessage(OpenRoom(s.worker), Chatter);
  }

  lemma NextKeeps(s: Side, t: Side)
    requires Inv(s) && Next(s, t)
    ensures Inv(t)
  {
    hide Inv, WorkerHandles;
    if user, rid, game, player, launch :| UserStarts(s, user, rid, game, player, launch, t) {
      if t != s { UsersKeep(s, t, t.requests[|s.requests|]); }
    } else if rq :| UserAsks(s, rq, t) {
      UsersKeep(s, t, Asked(rq, false));
    } else if decode: Decoder :| WorkerHandles(s, decode, t) {
      WorkerKeeps(s, decode, t);
    } else if CoordinatorHandles(s, t) {
      CoordinatorKeeps(s, t);
    } else {
      ChatKeeps(s, t);
    }
  }

  lemma QuietHolds(s: Side)
    requires Quiet(s)
    ensures Inv(s)
  {
  }

  lemma {:induction false} Always(run: seq<Side>, i: nat)
    requires Reaches(run) && Quiet(run[0]) && i < |run|
    ensures Inv(run[i])
  {
    hide Next, Inv;
    if i > 0 {
      Always(run, i - 1);
      assert Next(run[i - 1], run[i - 1 + 1]);
      NextKeeps(run[i - 1], run[i]);
    } else {
      QuietHolds(run[0]);
    }
  }

  lemma {:induction false} MirrorStaysEmpty(queue: seq<Message>)
    requires !RegisterUnderWay(queue)
    ensures Mirror("", queue) == ""
    decreases |queue|
  {
    if queue != [] {
      assert !queue[0].RegisterRoom?;
      assert forall i :: 0 <= i < |queue| - 1 ==> queue[1..][i] == queue[i + 1];
      MirrorStaysEmpty(queue[1..]);
    }
  }

  // With no room known and none announced there is none.
  lemma NoRoom(s: Side)
    requires Inv(s) && s.roomId == "" && !RegisterUnderWay(s.queue)
    ensures s.worker.room.None?
  {
    MirrorStaysEmpty(s.queue);
  }

  // In every reachable state a taken slot is waiting for a start, or for a room to be announced, or belongs to a room
  // that is known; or it is stuck.
  lemma TakenSlot(run: seq<Side>, i: nat)
    requires Reaches(run) && Quiet(run[0]) && i < |run| && run[i].slot != 0
    ensures var s := run[i];
      StartUnderWay(s.requests) || RegisterUnderWay(s.queue) || s.roomId != "" || Stuck(s)
  {
    Always(run, i);
    if run[i].roomId == "" && !RegisterUnderWay(run[i].queue) { NoRoom(run[i]); }
  }

  // ---- when the slot gets stuck ----

  // The worker, in the state it is in when it handles a start, can put the user in a room.
  predicate Served(w: WorkerState, decode: Decoder, rq: Request)
    requires rq.StartGame?
  {
    && rq.user in w.users && GameName(decode, rq.rid, rq.game) in w.library
    && (w.room == Basics.Some(rq.rid) || (w.room.None? && rq.launch.Starts?))
  }

  // The worker handles a start whose reservation still holds the slot, nothing else being under way for it, and cannot
  // serve it.
  ghost predicate FailsReservation(s: Side, decode: Decoder, t: Side) {
    && WorkerHandles(s, decode, t)
    && s.slot != 0 && s.roomId == "" && !RegisterUnderWay(s.queue)
    && s.requests[0].rq.StartGame? && s.requests[0].reserves && !StartUnderWay(s.requests[1..])
    && !Served(s.worker, decode, s.requests[0].rq)
  }

  ghost predicate StartFails(s: Side, t: Side) {
    exists decode :: FailsReservation(s, decode, t)
  }

  // What a start sends says whether it was served.
  lemma SaysServed(w: WorkerState, decode: Decoder, rq: Request)
    requires rq.StartGame? && w.room.None? && "" !in w.library
    ensures var o := Start(w, decode, rq);
      && (Served(w, decode, rq) <==> RegisterUnderWay(o.sent))
      && (Served(w, decode, rq) <==> o.state.room.Some?)
  {
    hide GameName;
    GameNameOfNoRoom(decode, rq.game);
    var o := Start(w, decode, rq);
    if Served(w, decode, rq) {
      assert o.sent[0].RegisterRoom?;
    }
  }

  lemma RegisterInEither(a: seq<Message>, b: seq<Message>)
    ensures RegisterUnderWay(a + b) <==> RegisterUnderWay(a) || RegisterUnderWay(b)
    ensures Named(a) && Named(b) ==> Named(a + b)
  {
    if i :| 0 <= i < |a| && a[i].RegisterRoom? { assert (a + b)[i] == a[i]; }
    if i :| 0 <= i < |b| && b[i].RegisterRoom? { assert (a + b)[|a| + i] == b[i]; }
  }

  lemma WorkerSticksIff(s: Side, decode: Decoder, t: Side)
    requires Inv(s) && !Stuck(s) && WorkerHandles(s, decode, t)
    ensures Stuck(t) <==> FailsReservation(s, decode, t)
  {
    hide Mirror, LastStart, Served, GameName, Named, RegisterUnderWay;
    var a := s.requests[0];
    var o := Handle(s.worker, decode, a.rq);
    RegisterInEither(s.queue, o.sent);
    NamedMessages(s.worker, decode, a.rq);
    LastStartIs(s.requests);
    if s.roomId == "" && !RegisterUnderWay(s.queue) {
      NoRoom(s);
      if a.rq.StartGame? {
        SaysServed(s.worker, decode, a.rq);
      } else {
        Quiets(s.worker, decode, a.rq);
      }
    }
  }

  lemma CoordinatorDoesNotStick(s: Side, t: Side)
    requires Inv(s) && CoordinatorHandles(s, t)
    ensures Stuck(t) ==> Stuck(s)
  {
    hide Mirror, LastStart;
    assert s.queue == [s.queue[0]] + t.queue && s.queue[0] != RegisterRoom("");
    RegisterInEither([s.queue[0]], t.queue);
  }

  lemma OthersDoNotStick(s: Side, t: Side)
    requires Inv(s) && Next(s, t) && forall decode :: !WorkerHandles(s, decode, t)
    ensures Stuck(t) ==> Stuck(s)
  {
    hide Mirror, LastStart, WorkerHandles;
    if user, rid, game, player, launch :| UserStarts(s, user, rid, game, player, launch, t) {
      if t != s { assert t.requests[|s.requests|].rq.StartGame?; }
    } else if rq :| UserAsks(s, rq, t) {
      assert forall i :: 0 <= i < |s.requests| ==> t.requests[i] == s.requests[i];
    } else if CoordinatorHandles(s, t) {
      CoordinatorDoesNotStick(s, t);
    } else {
      assert forall i :: 0 <= i < |s.queue| ==> t.queue[i] == s.queue[i];
    }
  }

  // In every run the slot gets stuck exactly when the worker fails the start that holds it.
  lemma SticksIff(run: seq<Side>, i: nat)
    requires Reaches(run) && Quiet(run[0]) && i + 1 < |run| && !Stuck(run[i])
    ensures Stuck(run[i + 1]) <==> StartFails(run[i], run[i + 1])
  {
    hide Inv, Stuck;
    var s, t := run[i], run[i + 1];
    Always(run, i);
    assert Next(s, t);
    if decode: Decoder :| WorkerHandles(s, decode, t) {
      WorkerSticksIff(s, decode, t);
      forall d: Decoder | FailsReservation(s, d, t) ensures Stuck(t) {
        WorkerSticksIff(s, d, t);
      }
    } else {
      OthersDoNotStick(s, t);
    }
  }

  // ---- one start from a quiet state ----

  function SlotsAfter(slot: int, roomId: string, queue: seq<Message>): int
    decreases |queue|
  {
    if queue == [] then slot else SlotsAfter(SlotAfter(slot, roomId, queue[0]), Mirrored(roomId, queue[0]), queue[1..])
  }

  // One start from a quiet state, carried through to the last message.
  function Started(s: Side, decode: Decoder, user: string, rid: string, game: string, player: int,
                   launch: Launch): Side
  {
    var o := Start(s.worker, decode, StartGame(user, rid, game, player, launch));
    Side(SlotsAfter(1, "", o.sent), Mirror("", o.sent), [], o.state, [])
  }

  lemma Prepend(s: Side, rest: seq<Side>)
    requires Reaches(rest) && Next(s, rest[0])
    ensures Reaches([s] + rest)
  {
    var run := [s] + rest;
    forall i | 0 <= i < |run| - 1 ensures Next(run[i], run[i + 1]) {
      if i > 0 { assert Next(rest[i - 1], rest[i - 1 + 1]); }
    }
  }

  // Handling a queue of messages to the end.
  lemma {:induction false} Drain(s: Side) returns (run: seq<Side>)
    requires s.requests == []
    ensures Reaches(run) && run[0] == s
    ensures run[|run| - 1] ==
            s.(queue := [], roomId := Mirror(s.roomId, s.queue), slot := SlotsAfter(s.slot, s.roomId, s.queue))
    decreases |s.queue|
  {
    if s.queue == [] {
      run := [s];
    } else {
      var t := Handled(s);
      var rest := Drain(t);
      assert CoordinatorHandles(s, t);
      run := [s] + rest;
      Prepend(s, rest);
    }
  }

  // Started describes an actual run of the two sides.
  lemma StartRuns(s: Side, decode: Decoder, user: string, rid: string, game: string, player: int, launch: Launch)
    returns (run: seq<Side>)
    requires Quiet(s)
    ensures Reaches(run) && run[0] == s && run[|run| - 1] == Started(s, decode, user, rid, game, player, launch)
  {
    hide Start, Reaches;
    var rq := StartGame(user, rid, game, player, launch);
    var asked := s.(slot := 1, requests := [Asked(rq, true)]);
    var o := Start(s.worker, decode, rq);
    var handled := asked.(requests := [], worker := o.state, queue := o.sent);
    assert UserStarts(s, user, rid, game, player, launch, asked);
    assert [Asked(rq, true)][1..] == [] && [] + o.sent == o.sent;
    assert WorkerHandles(asked, decode, handled);
    run := Drain(handled);
    Prepend(asked, run);
    Prepend(s, [asked] + run);
    run := [s] + ([asked] + run);
  }

  lemma OneSlot(slot: int, id: string, m: Message)
    ensures Mirror(id, [m]) == Mirrored(id, m) && SlotsAfter(slot, id, [m]) == SlotAfter(slot, id, m)
  {
  }

  lemma TwoSlots(m: Message, n: Message)
    ensures Mirror("", [m, n]) == Mirrored(Mirrored("", m), n)
    ensures SlotsAfter(1, "", [m, n]) == SlotAfter(SlotAfter(1, "", m), Mirrored("", m), n)
  {
    OneSlot(SlotAfter(1, "", m), Mirrored("", m), n);
    assert [m, n][1..] == [n];
  }

  // A start that the worker can serve takes the slot and shows the room; any other start leaves the slot stuck.
  lemma StuckIffStartFails(s: Side, decode: Decoder, user: string, rid: string, game: string, player: int,
                           launch: Launch)
    requires Quiet(s)
    ensures var t := Started(s, decode, user, rid, game, player, launch);
      var served := Served(s.worker, decode, StartGame(user, rid, game, player, launch));
      && t.slot == 1 && t.roomId == OpenRoom(t.worker)
      && (served <==> t.worker.room.Some?)
      && (Stuck(t) <==> !served)
  {
    hide GameName, Mirror, SlotsAfter;
    var o := Start(s.worker, decode, StartGame(user, rid, game, player, launch));
    GameNameOfNoRoom(decode, game);
    if |o.sent| == 2 {
      assert o.sent == [o.sent[0], o.sent[1]];
      TwoSlots(o.sent[0], o.sent[1]);
    } else {
      assert o.sent == [EmptyResponse(user)];
      OneSlot(1, "", EmptyResponse(user));
    }
  }
}
