// The worker and coordinator agreeing on the worker's room: what the handlers do, as functions on values,
// and what holds in every run of the two sides over an ordered connection.
module RoomProtocol {
  import opened Basics

  // What the worker sends to the coordinator. Chatter is everything that does not concern rooms.
  datatype Message =
    | RegisterRoom(id: string)
    | CloseRoom(id: string)
    | StartGameResponse(user: string, rid: string)
    | EmptyResponse(user: string)
    | WebrtcOffer(user: string)
    | Chatter

  // How the emulator takes a launch: the game does not load, the media pipe does not start, or both work.
  datatype Launch = LoadFails | MediaFails | Starts

  datatype Request =
    | StartGame(user: string, rid: string, game: string, player: int, launch: Launch)
    | TerminateSession(user: string)
    | QuitGame(rid: string)
    | WebrtcInit(user: string, reachable: bool)

  // The worker: its open room, its users with their player index, and the names of its games.
  datatype WorkerState = WorkerState(room: Option<string>, users: map<string, int>, library: set<string>)

  // Stands for decoding the game name out of a room link; empty when the link carries none.
  type Decoder = string -> string

  function GameName(decode: Decoder, rid: string, game: string): string {
    if rid == "" then game
    else if decode(rid) == "" then rid
    else decode(rid)
  }

  // What a handler leaves behind: the new state, what it sent, and the room it installed, if any.
  datatype Outcome = Outcome(state: WorkerState, sent: seq<Message>, installed: Option<string>)

  function Start(w: WorkerState, decode: Decoder, rq: Request): Outcome
    requires rq.StartGame?
  {
    if rq.user !in w.users then Outcome(w, [EmptyResponse(rq.user)], None)
    else
      var v := w.(users := w.users[rq.user := rq.player]);
      var name := GameName(decode, rq.rid, rq.game);
      var uid := if rq.rid == "" then name else rq.rid;
      if name !in w.library then Outcome(v, [EmptyResponse(rq.user)], None)
      else if w.room == Some(rq.rid) then
        Outcome(v, [RegisterRoom(rq.rid), StartGameResponse(rq.user, rq.rid)], None)
      else if w.room.Some? then Outcome(v, [EmptyResponse(rq.user)], None)
      else if rq.launch.Starts? then
        Outcome(v.(room := Some(uid)), [RegisterRoom(uid), StartGameResponse(rq.user, uid)], Some(uid))
      else Outcome(v, [CloseRoom(uid), EmptyResponse(rq.user)], Some(uid))
  }

  // Closing the room, if there is one.
  function Closing(w: WorkerState): seq<Message> {
    if w.room.Some? then [CloseRoom(w.room.value)] else []
  }

  function Terminate(w: WorkerState, user: string): Outcome {
    if user !in w.users then Outcome(w, [], None)
    else
      var left := w.users - {user};
      if left == map[] then Outcome(WorkerState(None, left, w.library), Closing(w), None)
      else Outcome(w.(users := left), [], None)
  }

  function Quit(w: WorkerState, rid: string): Outcome {
    if w.room.None? || rid == "" || w.room != Some(rid) then Outcome(w, [], None)
    else Outcome(WorkerState(None, map[], w.library), Closing(w), None)
  }

  // A new session, as player 0, if a peer connection can be made.
  function Connect(w: WorkerState, user: string, reachable: bool): Outcome {
    if reachable then Outcome(w.(users := w.users[user := 0]), [WebrtcOffer(user)], None)
    else Outcome(w, [EmptyResponse(user)], None)
  }

  function Handle(w: WorkerState, decode: Decoder, rq: Request): Outcome {
    match rq
    case StartGame(_, _, _, _, _) => Start(w, decode, rq)
    case TerminateSession(user) => Terminate(w, user)
    case QuitGame(rid) => Quit(w, rid)
    case WebrtcInit(user, reachable) => Connect(w, user, reachable)
  }

  // A start is served when the user is known, the game is in the library (by the name in the room link, by the link
  // itself when it carries none, or by the name asked for when there is no link), and the room asked for is open or,
  // with no room open, the launch works. Only then is the user told of a room, which is open now. A launch that fails
  // announces the closing of the room it had begun.
  lemma StartServedIff(w: WorkerState, decode: Decoder, rq: Request)
    requires rq.StartGame? && "" !in w.library && w.room != Some("")
    ensures var o := Start(w, decode, rq);
      var link := decode(rq.rid);
      var id := if rq.rid == "" then rq.game else rq.rid;
      var known :=
        && rq.user in w.users
        && ((rq.rid == "" && rq.game in w.library) || (rq.rid != "" && link == "" && rq.rid in w.library)
            || (rq.rid != "" && link != "" && link in w.library));
      var begun := if known && w.room == None then [CloseRoom(id)] else [];
      var served := known && (w.room == Some(rq.rid) || (w.room == None && rq.launch == Starts));
      && (served <==> exists r :: StartGameResponse(rq.user, r) in o.sent)
      && (served ==> o.sent == [RegisterRoom(id), StartGameResponse(rq.user, id)] && o.state.room == Some(id))
      && (!served ==> o.sent == begun + [EmptyResponse(rq.user)] && o.state.room == w.room)
  {
    var o := Start(w, decode, rq);
    var last := o.sent[|o.sent| - 1];
    assert last in o.sent;
  }

  // Who is with the worker after a request: quitting the open room sends everybody away, any other request concerns its
  // own user only.
  lemma UsersAfter(w: WorkerState, decode: Decoder, rq: Request, u: string)
    ensures var v := Handle(w, decode, rq).state.users;
      if rq.QuitGame? then v == if rq.rid != "" && w.room == Some(rq.rid) then map[] else w.users
      else if u != rq.user then (u in v <==> u in w.users) && (u in v ==> v[u] == w.users[u])
      else if rq.TerminateSession? then u !in v
      else if rq.WebrtcInit? then (if rq.reachable then u in v && v[u] == 0 else v == w.users)
      else (u in v <==> u in w.users) && (u in v ==> v[u] == rq.player)
  {
    hide GameName;
  }

  // ---- the coordinator's mirror ----

  // RoomId after one message, and after a queue of them.
  function Mirrored(id: string, m: Message): string {
    match m
    case RegisterRoom(r) => r
    case CloseRoom(r) => if r == id then "" else id
    case _ => id
  }

  function Mirror(id: string, queue: seq<Message>): string
    decreases |queue|
  {
    if queue == [] then id else Mirror(Mirrored(id, queue[0]), queue[1..])
  }

  // While no room is registered, RoomId goes only when its own room is closed.
  lemma {:induction false} MirrorUntilRegistered(id: string, queue: seq<Message>)
    requires forall i :: 0 <= i < |queue| ==> !queue[i].RegisterRoom?
    ensures Mirror(id, queue) == if CloseRoom(id) in queue then "" else id
    decreases |queue|
  {
    if queue != [] {
      assert forall i :: 0 <= i < |queue| - 1 ==> queue[1..][i] == queue[i + 1];
      MirrorUntilRegistered(Mirrored(id, queue[0]), queue[1..]);
      assert CloseRoom(id) in queue <==> queue[0] == CloseRoom(id) || CloseRoom(id) in queue[1..];
    }
  }

  // Whenever a response reaches the coordinator, RoomId is already the room it names.
  ghost predicate ResponsesFollow(id: string, queue: seq<Message>)
    decreases |queue|
  {
    queue == [] ||
    ((queue[0].StartGameResponse? ==> id != "" && id == queue[0].rid) &&
     ResponsesFollow(Mirrored(id, queue[0]), queue[1..]))
  }

  lemma {:induction false} MirrorAppend(id: string, a: seq<Message>, b: seq<Message>)
    ensures Mirror(id, a + b) == Mirror(Mirror(id, a), b)
    ensures ResponsesFollow(id, a + b) <==> ResponsesFollow(id, a) && ResponsesFollow(Mirror(id, a), b)
    decreases |a|
  {
    if a == [] {
      assert a + b == b;
    } else {
      assert (a + b)[1..] == a[1..] + b;
      MirrorAppend(Mirrored(id, a[0]), a[1..], b);
    }
  }

  // Other goroutines of the worker may put chatter between the messages of a handler.
  function WithoutChatter(queue: seq<Message>): seq<Message> {
    if queue == [] then []
    else (if queue[0].Chatter? then [] else [queue[0]]) + WithoutChatter(queue[1..])
  }

  // The rooms whose closing has been announced.
  function Closed(queue: seq<Message>): multiset<string> {
    if queue == [] then multiset{}
    else (if queue[0].CloseRoom? then multiset{queue[0].id} else multiset{}) + Closed(queue[1..])
  }

  lemma {:induction false} ChatterIsHarmless(id: string, queue: seq<Message>)
    ensures Mirror(id, queue) == Mirror(id, WithoutChatter(queue))
    ensures ResponsesFollow(id, queue) <==> ResponsesFollow(id, WithoutChatter(queue))
    ensures Closed(queue) == Closed(WithoutChatter(queue))
    decreases |queue|
  {
    if queue != [] {
      var m, rest := queue[0], WithoutChatter(queue[1..]);
      ChatterIsHarmless(Mirrored(id, m), queue[1..]);
      if m.Chatter? {
        assert WithoutChatter(queue) == rest;
      } else {
        assert WithoutChatter(queue) == [m] + rest && ([m] + rest)[1..] == rest;
      }
    }
  }

  lemma {:induction false} ClosedAppend(a: seq<Message>, b: seq<Message>)
    ensures Closed(a + b) == Closed(a) + Closed(b)
  {
    if a == [] {
      assert a + b == b;
    } else {
      assert (a + b)[1..] == a[1..] + b;
      ClosedAppend(a[1..], b);
    }
  }

  // ---- runs ----

  // Both sides, with everything the worker has ever sent; the first `delivered` messages have been handled.
  datatype System = System(worker: WorkerState, sent: seq<Message>, delivered: nat, roomId: string,
                           installed: multiset<string>)

  function OpenRoom(w: WorkerState): string {
    if w.room.Some? then w.room.value else ""
  }

  ghost predicate Initial(s: System) {
    && s.worker.room.None? && "" !in s.worker.library
    && s.sent == [] && s.delivered == 0 && s.roomId == "" && s.installed == multiset{}
  }

  function Installed(o: Outcome): multiset<string> {
    if o.installed.Some? then multiset{o.installed.value} else multiset{}
  }

  // The worker handles a request.
  ghost predicate Works(s: System, decode: Decoder, rq: Request, out: seq<Message>, t: System) {
    var o := Handle(s.worker, decode, rq);
    && WithoutChatter(out) == o.sent
    && t == System(o.state, s.sent + out, s.delivered, s.roomId,
                   s.installed + Installed(o))
  }

  // The coordinator handles the oldest message it has not handled.
  ghost predicate Delivers(s: System, t: System) {
    && s.delivered < |s.sent|
    && t == s.(delivered := s.delivered + 1, roomId := Mirrored(s.roomId, s.sent[s.delivered]))
  }

  // The worker sends something that does not concern rooms.
  ghost predicate Chats(s: System, t: System) {
    t == s.(sent := s.sent + [Chatter])
  }

  ghost predicate Next(s: System, t: System) {
    || (exists decode: Decoder, rq, out :: Works(s, decode, rq, out, t))
    || Delivers(s, t)
    || Chats(s, t)
  }

  function Pending(s: System): seq<Message> {
    if s.delivered <= |s.sent| then s.sent[s.delivered..] else []
  }

  // The rooms that are open: none or one.
  function Open(w: WorkerState): multiset<string> {
    if w.room.Some? then multiset{w.room.value} else multiset{}
  }

  ghost predicate Agreement(s: System) {
    && s.delivered <= |s.sent|
    && "" !in s.worker.library && s.worker.room != Some("")
    // handling everything still under way would show the coordinator the open room, and nothing else
    && Mirror(s.roomId, Pending(s)) == OpenRoom(s.worker)
    && ResponsesFollow(s.roomId, Pending(s))
    // every room ever installed has announced its closing once, except the open one, which has not
    && s.installed == Closed(s.sent) + Open(s.worker)
  }

  lemma Regroup(a: multiset<string>, b: multiset<string>, c: multiset<string>, d: multiset<string>, e: multiset<string>)
    requires d + e == b + c
    ensures a + b + c == a + d + e
  {
    assert a + b + c == a + (b + c) && a + d + e == a + (d + e);
  }

  // What the messages of one handler do to a mirror that shows the open room.
  ghost predicate Faithful(w: WorkerState, o: Outcome) {
    && o.state.library == w.library && o.state.room != Some("")
    && Mirror(OpenRoom(w), o.sent) == OpenRoom(o.state) && ResponsesFollow(OpenRoom(w), o.sent)
    && Closed(o.sent) + Open(o.state) == Open(w) + Installed(o)
  }

  lemma OneMessage(id: string, a: Message)
    ensures Mirror(id, [a]) == Mirrored(id, a)
    ensures ResponsesFollow(id, [a]) <==> (a.StartGameResponse? ==> id != "" && id == a.rid)
    ensures Closed([a]) == if a.CloseRoom? then multiset{a.id} else multiset{}
  {
  }

  lemma RefusalIsFaithful(w: WorkerState, users: map<string, int>, user: string)
    requires w.room != Some("")
    ensures Faithful(w, Outcome(w.(users := users), [EmptyResponse(user)], None))
  {
    hide Mirror, ResponsesFollow, Closed;
    OneMessage(OpenRoom(w), EmptyResponse(user));
  }

  lemma TwoMessages(id: string, a: Message, b: Message)
    ensures Mirror(id, [a, b]) == Mirrored(Mirrored(id, a), b)
    ensures ResponsesFollow(id, [a, b]) <==> ResponsesFollow(id, [a]) && ResponsesFollow(Mirrored(id, a), [b])
    ensures Closed([a, b]) == Closed([a]) + Closed([b])
    ensures ResponsesFollow(id, [a]) <==> (a.StartGameResponse? ==> id != "" && id == a.rid)
    ensures var mid := Mirrored(id, a);
      ResponsesFollow(mid, [b]) <==> (b.StartGameResponse? ==> mid != "" && mid == b.rid)
    ensures Closed([a]) == if a.CloseRoom? then multiset{a.id} else multiset{}
    ensures Closed([b]) == if b.CloseRoom? then multiset{b.id} else multiset{}
  {
    OneMessage(id, a);
    OneMessage(Mirrored(id, a), b);
    assert [a, b] == [a] + [b];
    MirrorAppend(id, [a], [b]);
    ClosedAppend([a], [b]);
  }

  // Joining the open room, or opening one: it is registered before the response names it.
  lemma RegistrationIsFaithful(w: WorkerState, users: map<string, int>, user: string, uid: string)
    requires uid != "" && (w.room.None? || w.room == Some(uid))
    ensures Faithful(w, Outcome(WorkerState(Some(uid), users, w.library),
                                [RegisterRoom(uid), StartGameResponse(user, uid)],
                                if w.room.None? then Some(uid) else None))
  {
    hide Mirror, ResponsesFollow, Closed;
    TwoMessages(OpenRoom(w), RegisterRoom(uid), StartGameResponse(user, uid));
  }

  // A room that could not be launched announces its closing although it was never registered.
  lemma FailedLaunchIsFaithful(w: WorkerState, users: map<string, int>, user: string, uid: string)
    requires uid != "" && w.room.None?
    ensures Faithful(w, Outcome(w.(users := users), [CloseRoom(uid), EmptyResponse(user)], Some(uid)))
  {
    hide Mirror, ResponsesFollow, Closed;
    TwoMessages(OpenRoom(w), CloseRoom(uid), EmptyResponse(user));
  }

  lemma GameNameOfNoRoom(decode: Decoder, game: string)
    ensures GameName(decode, "", game) == game
  {
  }

  lemma StartIsFaithful(w: WorkerState, decode: Decoder, rq: Request)
    requires "" !in w.library && w.room != Some("") && rq.StartGame?
    ensures Faithful(w, Start(w, decode, rq))
  {
    hide Faithful, GameName;
    RefusalIsFaithful(w, w.users, rq.user);
    if rq.user in w.users {
      var users := w.users[rq.user := rq.player];
      var name := GameName(decode, rq.rid, rq.game);
      var uid := if rq.rid == "" then name else rq.rid;
      RefusalIsFaithful(w, users, rq.user);
      GameNameOfNoRoom(decode, rq.game);
      if name in w.library {
        if w.room == Some(rq.rid) {
          RegistrationIsFaithful(w, users, rq.user, rq.rid);
        } else if w.room.None? {
          RegistrationIsFaithful(w, users, rq.user, uid);
          FailedLaunchIsFaithful(w, users, rq.user, uid);
        }
      }
    }
  }

  lemma NoMessage(id: string)
    ensures Mirror(id, []) == id && ResponsesFollow(id, []) && Closed([]) == multiset{}
  {
  }

  lemma StopIsFaithful(w: WorkerState, user: string, rid: string)
    requires "" !in w.library && w.room != Some("")
    ensures Faithful(w, Terminate(w, user)) && Faithful(w, Quit(w, rid))
  {
    hide Mirror, ResponsesFollow, Closed;
    NoMessage(OpenRoom(w));
    if w.room.Some? { OneMessage(OpenRoom(w), CloseRoom(w.room.value)); }
  }

  lemma ConnectIsFaithful(w: WorkerState, user: string, reachable: bool)
    requires w.room != Some("")
    ensures Faithful(w, Connect(w, user, reachable))
  {
    hide Mirror, ResponsesFollow, Closed;
    OneMessage(OpenRoom(w), WebrtcOffer(user));
    OneMessage(OpenRoom(w), EmptyResponse(user));
  }

  lemma HandlersAreFaithful(w: WorkerState, decode: Decoder, rq: Request)
    requires "" !in w.library && w.room != Some("")
    ensures Faithful(w, Handle(w, decode, rq))
  {
    match rq
    case StartGame(_, _, _, _, _) => StartIsFaithful(w, decode, rq);
    case TerminateSession(user) => StopIsFaithful(w, user, "");
    case QuitGame(rid) => StopIsFaithful(w, "", rid);
    case WebrtcInit(user, reachable) => ConnectIsFaithful(w, user, reachable);
  }

  lemma WorksKeeps(s: System, decode: Decoder, rq: Request, out: seq<Message>, t: System)
    requires Agreement(s) && Works(s, decode, rq, out, t)
    ensures Agreement(t)
  {
    hide Handle, Mirror, ResponsesFollow, Closed, WithoutChatter, Open, Installed, OpenRoom;
    assert Pending(t) == Pending(s) + out;
    MirrorAppend(s.roomId, Pending(s), out);
    ChatterIsHarmless(OpenRoom(s.worker), out);
    ClosedAppend(s.sent, out);
    HandlersAreFaithful(s.worker, decode, rq);
    var o := Handle(s.worker, decode, rq);
    Regroup(Closed(s.sent), Open(s.worker), Installed(o), Closed(o.sent), Open(o.state));
  }

  lemma DeliversKeeps(s: System, t: System)
    requires Agreement(s) && Delivers(s, t)
    ensures Agreement(t)
    ensures s.sent[s.delivered].StartGameResponse? ==> s.roomId == s.sent[s.delivered].rid && s.roomId != ""
  {
    assert Pending(s)[0] == s.sent[s.delivered] && Pending(t) == Pending(s)[1..];
  }

  lemma ChatsKeeps(s: System, t: System)
    requires Agreement(s) && Chats(s, t)
    ensures Agreement(t)
  {
    hide Mirror, ResponsesFollow, Closed;
    OneMessage(OpenRoom(s.worker), Chatter);
    assert Pending(t) == Pending(s) + [Chatter];
    MirrorAppend(s.roomId, Pending(s), [Chatter]);
    ClosedAppend(s.sent, [Chatter]);
  }

  // ---- the theorems ----

  ghost predicate IsRun(run: seq<System>) {
    |run| > 0 && Initial(run[0]) && forall i :: 0 <= i < |run| - 1 ==> Next(run[i], run[i + 1])
  }

  lemma AgreeAtFirst(s: System)
    requires Initial(s)
    ensures Agreement(s)
  {
  }

  // In every state of every run the two sides agree up to what is under way.
  lemma {:induction false} AlwaysAgree(run: seq<System>, i: nat)
    requires IsRun(run) && i < |run|
    ensures Agreement(run[i])
  {
    hide Handle, Works, Agreement;
    if i == 0 {
      AgreeAtFirst(run[0]);
    } else {
      AlwaysAgree(run, i - 1);
      var s, t := run[i - 1], run[i];
      assert Next(s, t);
      if Delivers(s, t) {
        DeliversKeeps(s, t);
      } else if Chats(s, t) {
        ChatsKeeps(s, t);
      } else {
        var decode: Decoder, rq, out :| Works(s, decode, rq, out, t);
        WorksKeeps(s, decode, rq, out, t);
      }
    }
  }

  // With nothing under way the coordinator's RoomId is the worker's open room.
  lemma DrainedAgrees(run: seq<System>, i: nat)
    requires IsRun(run) && i < |run| && run[i].delivered == |run[i].sent|
    ensures run[i].roomId == OpenRoom(run[i].worker)
  {
    AlwaysAgree(run, i);
  }

  // A user hears of a room only once the coordinator knows it as the worker's room.
  lemma ResponseAfterRoomId(run: seq<System>, i: nat)
    requires IsRun(run) && i + 1 < |run| && Delivers(run[i], run[i + 1])
    requires run[i].sent[run[i].delivered].StartGameResponse?
    ensures run[i].roomId == run[i].sent[run[i].delivered].rid != ""
  {
    AlwaysAgree(run, i);
    DeliversKeeps(run[i], run[i + 1]);
  }

  lemma {:induction false} SentIsIn(queue: seq<Message>, m: Message)
    requires m in WithoutChatter(queue)
    ensures m in queue
  {
    if !(queue[0] == m && !m.Chatter?) { SentIsIn(queue[1..], m); }
  }

  // An open room ends exactly when its id is quit or its last user leaves. Then no user is left, and the closing is
  // announced.
  lemma RoomEndsIff(s: System, decode: Decoder, rq: Request, out: seq<Message>, t: System, id: string)
    requires Works(s, decode, rq, out, t) && s.worker.room == Some(id)
    ensures t.worker.room != Some(id) <==>
      (rq == QuitGame(id) && id != "") || (rq.TerminateSession? && s.worker.users.Keys == {rq.user})
    ensures t.worker.room != Some(id) ==>
      t.worker.room == None && t.worker.users == map[] && CloseRoom(id) in out
  {
    hide GameName, WithoutChatter;
    if rq.TerminateSession? && rq.user in s.worker.users {
      var left := s.worker.users - {rq.user};
      assert left == map[] <==> left.Keys == {};
      assert left.Keys == s.worker.users.Keys - {rq.user};
    }
    if t.worker.room != Some(id) {
      assert Handle(s.worker, decode, rq).sent == [CloseRoom(id)];
      SentIsIn(out, CloseRoom(id));
    }
  }

  lemma OccupiedAfter(w: WorkerState, decode: Decoder, rq: Request)
    requires w.room.Some? ==> w.users != map[]
    ensures var v := Handle(w, decode, rq).state; v.room.Some? ==> v.users != map[]
  {
    hide GameName;
    var v := Handle(w, decode, rq).state;
    if rq.StartGame? && rq.user in w.users {
      assert rq.user in v.users;
    } else if rq.WebrtcInit? && rq.reachable {
      assert rq.user in v.users;
    }
  }

  lemma StaysOccupied(s: System, t: System)
    requires Next(s, t) && (s.worker.room.Some? ==> s.worker.users != map[])
    ensures t.worker.room.Some? ==> t.worker.users != map[]
  {
    hide Handle;
    if decode: Decoder, rq, out :| Works(s, decode, rq, out, t) {
      OccupiedAfter(s.worker, decode, rq);
    }
  }

  // In no run is a room ever open without a user.
  lemma {:induction false} AlwaysOccupied(run: seq<System>, i: nat)
    requires IsRun(run) && i < |run| && run[i].worker.room.Some?
    ensures run[i].worker.users != map[]
  {
    hide Next;
    if i > 0 {
      if run[i - 1].worker.room.Some? { AlwaysOccupied(run, i - 1); }
      assert Next(run[i - 1], run[i - 1 + 1]);
      StaysOccupied(run[i - 1], run[i]);
    }
  }

  // No room announces its closing more often than it was installed, and only the open one has not announced it.
  lemma ClosedAtMostOnce(run: seq<System>, i: nat, id: string)
    requires IsRun(run) && i < |run|
    ensures var s := run[i];
      s.installed[id] == Closed(s.sent)[id] + if s.worker.room == Some(id) then 1 else 0
  {
    AlwaysAgree(run, i);
  }
}
