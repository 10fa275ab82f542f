// Rooms, the router that holds the one open room and the users, and the worker's handlers over them.
module RoomLifecycle {
  import opened Basics
  import opened RoomProtocol

  // The connection to the coordinator, as the messages sent over it.
  class Link {
    var sent: seq<Message>

    constructor ()
      ensures sent == []
    {
      sent := [];
    }

    method Send(m: Message)
      modifies this
      ensures sent == old(sent) + [m]
    {
      sent := sent + [m];
    }
  }

  class App {
    var started: bool
    var closes: nat

    constructor ()
      ensures !started && closes == 0
    {
      started, closes := false, 0;
    }

    method Start()
      modifies this`started
      ensures started
    {
      started := true;
    }

    method Close()
      modifies this`closes
      ensures closes == old(closes) + 1
    {
      closes := closes + 1;
    }
  }

  class MediaPipe {
    var destroys: nat

    constructor ()
      ensures destroys == 0
    {
      destroys := 0;
    }

    method Destroy()
      modifies this
      ensures destroys == old(destroys) + 1
    {
      destroys := destroys + 1;
    }
  }

  class GameSession {
    const uid: string

    var index: int
    var connected: bool

    constructor (uid: string, index: int)
      ensures this.uid == uid && this.index == index && connected
    {
      this.uid, this.index, connected := uid, index, true;
    }

    method Disconnect()
      modifies this`connected
      ensures !connected
    {
      connected := false;
    }
  }

  class Room {
    const id: string

    var app: App?
    var media: MediaPipe?
    var closed: bool

    // where the close callback announces the closing; null when there is no callback
    const onClose: Link?

    constructor (id: string, onClose: Link?)
      ensures this.id == id && this.onClose == onClose && app == null && media == null && !closed
    {
      this.id, this.onClose, app, media, closed := id, onClose, null, null, false;
    }

    // The room is closed now. If it was open before, its app and its pipe have been closed and the closing has
    // been announced, each once; if it was closed before, nothing has happened.
    twostate predicate ClosedOnce()
      reads this, app, media, onClose
    {
      && closed && app == old(app) && media == old(media)
      && (app != null ==>
           app.closes == old(app.closes) + (if old(closed) then 0 else 1) && app.started == old(app.started))
      && (media != null ==> media.destroys == old(media.destroys) + if old(closed) then 0 else 1)
      && (onClose != null ==> onClose.sent == old(onClose.sent) + if old(closed) then [] else [CloseRoom(id)])
    }

    twostate predicate Untouched()
      reads this, app, media, onClose
    {
      && app == old(app) && media == old(media) && closed == old(closed)
      && (app != null ==> app.closes == old(app.closes) && app.started == old(app.started))
      && (media != null ==> media.destroys == old(media.destroys))
      && (onClose != null ==> onClose.sent == old(onClose.sent))
    }

    // The app and the pipe of an open room.
    ghost predicate Runs()
      reads this, app, media
    {
      !closed && app != null && app.started && app.closes == 0 && media != null && media.destroys == 0
    }

    method Close()
      modifies this`closed, app, media, onClose
      ensures ClosedOnce()
      ensures closed && (old(closed) ==> Untouched())
      ensures !old(closed) && app != null ==> app.closes == old(app.closes) + 1
      ensures !old(closed) && media != null ==> media.destroys == old(media.destroys) + 1
      ensures !old(closed) && onClose != null ==> onClose.sent == old(onClose.sent) + [CloseRoom(id)]
    {
      if closed {
        return;
      }
      closed := true;
      if app != null {
        app.Close();
      }
      if media != null {
        media.Destroy();
      }
      if onClose != null {
        onClose.Send(CloseRoom(id));
      }
    }
  }

  class Router {
    var room: Room?
    var users: map<string, GameSession>

    ghost predicate Valid()
      reads this
    {
      forall u :: u in users ==> users[u].uid == u
    }

    ghost function Indices(): map<string, int>
      reads this, users.Values
    {
      map u | u in users :: users[u].index
    }

    constructor ()
      ensures Valid() && room == null && users == map[]
    {
      room, users := null, map[];
    }

    method FindRoom(id: string) returns (r: Room?)
      ensures r != null ==> r == room && r.id == id
      ensures r == null ==> room == null || room.id != id
    {
      r := if room != null && room.id == id then room else null;
    }

    method FindUser(uid: string) returns (u: GameSession?)
      requires Valid()
      ensures u != null ==> uid in users && u == users[uid] && u.uid == uid
      ensures u == null ==> uid !in users
    {
      u := if uid in users then users[uid] else null;
    }

    method AddUser(u: GameSession)
      requires Valid()
      modifies this`users
      ensures Valid() && users == old(users)[u.uid := u]
    {
      users := users[u.uid := u];
    }

    method SetRoom(r: Room?)
      modifies this`room
      ensures room == r
    {
      room := r;
    }

    // Closes the room, if there is one, and forgets it.
    method Close()
      modifies this`room
      modifies room, if room == null then {} else {room.app, room.media, room.onClose}
      ensures room == null && (old(room) != null ==> old(room).ClosedOnce())
    {
      if room != null {
        room.Close();
      }
      room := null;
    }

    // Drops a user and counts who is left.
    method RemoveL(u: GameSession) returns (left: nat)
      requires Valid()
      modifies this`users
      ensures Valid() && users == old(users) - {u.uid} && (left == 0 <==> users == map[])
    {
      users := users - {u.uid};
      left := |users|;
    }

    // Drops a user; the last one to leave takes the room down.
    method Remove(u: GameSession)
      requires Valid()
      modifies this
      modifies room, if room == null then {} else {room.app, room.media, room.onClose}
      ensures Valid() && users == old(users) - {u.uid}
      ensures users == map[] ==> room == null && (old(room) != null ==> old(room).ClosedOnce())
      ensures users != map[] ==> room == old(room) && (room != null ==> room.Untouched())
    {
      var left := RemoveL(u);
      if left == 0 {
        Close();
        SetRoom(null);
      }
    }

    method DisconnectAll()
      requires Valid()
      modifies users.Values`connected
      ensures forall u :: u in users ==> !users[u].connected
    {
      var todo := users.Keys;
      while todo != {}
        invariant todo <= users.Keys
        invariant forall u :: u in users && u !in todo ==> !users[u].connected
        decreases |todo|
      {
        var u :| u in todo;
        users[u].Disconnect();
        todo := todo - {u};
      }
    }

    // Takes the room down and lets every user go.
    method Reset()
      requires Valid()
      modifies this, users.Values`connected
      modifies room, if room == null then {} else {room.app, room.media, room.onClose}
      ensures Valid() && room == null && users == map[]
      ensures forall u :: u in old(users) ==> !old(users)[u].connected
      ensures old(room) != null ==> old(room).ClosedOnce()
    {
      Close();
      DisconnectAll();
      users := map[];
    }
  }

  // The worker's handlers. One goroutine runs them, one request at a time.
  class WorkerSide {
    const router: Router
    const link: Link
    const library: set<string>
    const decode: Decoder

    ghost predicate Valid()
      reads this, router, router.room
    {
      router.Valid() && (router.room != null ==> !router.room.closed && router.room.onClose == link)
    }

    // The worker as the protocol sees it.
    ghost function View(): WorkerState
      requires router.Valid()
      reads this, router, router.users.Values
    {
      WorkerState(if router.room != null then Some(router.room.id) else None, router.Indices(), library)
    }

    constructor (library: set<string>, decode: Decoder)
      ensures Valid() && fresh(router) && fresh(link)
      ensures View() == WorkerState(None, map[], library) && link.sent == [] && this.decode == decode
    {
      var r := new Router();
      var l := new Link();
      this.library, this.decode, router, link := library, decode, r, l;
    }

    // reachable says whether a peer connection and its offer can be made.
    method HandleWebrtcInit(uid: string, reachable: bool)
      requires Valid()
      modifies router`users, link
      ensures Valid() && router.room == old(router.room)
      ensures var o := Connect(old(View()), uid, reachable); View() == o.state && link.sent == old(link.sent) + o.sent
      ensures reachable ==> uid in router.users && fresh(router.users[uid]) && router.users[uid].connected
      ensures reachable ==> router.users[uid].index == 0 && link.sent == old(link.sent) + [WebrtcOffer(uid)]
      ensures !reachable ==> router.users == old(router.users) && link.sent == old(link.sent) + [EmptyResponse(uid)]
    {
      if !reachable {
        link.Send(EmptyResponse(uid));
        return;
      }
      var user := new GameSession(uid, 0);
      router.AddUser(user);
      assert router.Indices() == old(router.Indices())[uid := 0];
      link.Send(WebrtcOffer(uid));
    }

    // A room for the launch: load, then pipe, then start; a failure closes the room again.
    method Launch(room: Room, launch: Launch) returns (ok: bool)
      requires Valid() && router.room == room && room.app == null && room.media == null
      modifies router`room, room, link
      ensures router.users == old(router.users) && unchanged(router.users.Values)
      ensures ok == launch.Starts?
      ensures ok ==> Valid() && router.room == room && link.sent == old(link.sent)
      ensures ok ==> room.app != null && room.app.started && room.app.closes == 0
      ensures ok ==> room.media != null && room.media.destroys == 0
      ensures !ok ==> Valid() && router.room == null && link.sent == old(link.sent) + [CloseRoom(room.id)]
      ensures !ok ==> room.closed && room.app != null && !room.app.started && room.app.closes == 1
      ensures !ok ==> (room.media != null <==> launch.MediaFails?) && (room.media != null ==> room.media.destroys == 1)
    {
      var app := new App();
      room.app := app;
      var m := new MediaPipe();
      if launch.LoadFails? {
        room.Close();
        router.SetRoom(null);
        return false;
      }
      room.media := m;
      if launch.MediaFails? {
        room.Close();
        router.SetRoom(null);
        return false;
      }
      app.Start();
      return true;
    }

    // A new room, unless there is one already or the launch fails.
    method OpenNew(id: string, launch: Launch) returns (r: Room?)
      requires Valid()
      modifies router`room, link
      ensures Valid() && router.users == old(router.users) && unchanged(router.users.Values)
      ensures old(router.room) != null ==> r == null && router.room == old(router.room) && link.sent == old(link.sent)
      ensures old(router.room) == null ==> router.room == r
      ensures old(router.room) == null && launch.Starts? ==> r != null && r.id == id && link.sent == old(link.sent)
      ensures old(router.room) == null && launch.Starts? ==> fresh(r) && r.Runs()
      ensures old(router.room) == null && !launch.Starts? ==> r == null && link.sent == old(link.sent) + [CloseRoom(id)]
    {
      r := new Room(id, link);
      if router.room != null {
        return null;
      }
      router.SetRoom(r);
      var ok := Launch(r, launch);
      if !ok {
        return null;
      }
    }

    // The room is registered before the response names it.
    method Announce(uid: string, id: string)
      modifies link
      ensures link.sent == old(link.sent) + [RegisterRoom(id), StartGameResponse(uid, id)]
    {
      link.Send(RegisterRoom(id));
      link.Send(StartGameResponse(uid, id));
    }

    // The rest of the handler, once the user has been found and given its index.
    method StartFor(uid: string, rid: string, game: string, launch: Launch)
      requires Valid() && uid in router.users
      modifies router`room, link
      ensures Valid() && router.users == old(router.users)
      ensures old(router.room) != null ==> router.room == old(router.room)
      ensures old(router.room) == null && router.room != null ==> fresh(router.room) && router.room.Runs()
      ensures var o := Start(old(View()), decode, StartGame(uid, rid, game, router.users[uid].index, launch));
        View() == o.state && link.sent == old(link.sent) + o.sent
    {
      ghost var w := View();
      assert w.users[uid := w.users[uid]] == w.users;
      hide GameName;
      var r := router.FindRoom(rid);
      var name := GameName(decode, rid, game);
      if name !in library {
        link.Send(EmptyResponse(uid));
        return;
      }
      if r == null {
        r := OpenNew(if rid == "" then name else rid, launch);
        if r == null {
          link.Send(EmptyResponse(uid));
          return;
        }
      }
      Announce(uid, r.id);
    }

    // Giving a user its index first, or while starting, comes to the same.
    lemma StartIndexed(w: WorkerState, decode: Decoder, rq: Request)
      requires rq.StartGame?
      ensures rq.user !in w.users ==> Start(w, decode, rq) == Outcome(w, [EmptyResponse(rq.user)], None)
      ensures rq.user in w.users ==>
        Start(w, decode, rq) == Start(w.(users := w.users[rq.user := rq.player]), decode, rq)
    {
      hide GameName;
      var v := w.(users := w.users[rq.user := rq.player]);
      assert v.users[rq.user := rq.player] == v.users;
    }

    method HandleGameStart(uid: string, rid: string, game: string, player: int, launch: Launch)
      requires Valid()
      modifies router`room, link, router.users.Values`index
      ensures Valid() && router.users == old(router.users)
      ensures old(router.room) != null ==> router.room == old(router.room)
      ensures old(router.room) == null && router.room != null ==> fresh(router.room) && router.room.Runs()
      ensures var o := Start(old(View()), decode, StartGame(uid, rid, game, player, launch));
        View() == o.state && link.sent == old(link.sent) + o.sent
    {
      hide Start;
      ghost var w := View();
      StartIndexed(w, decode, StartGame(uid, rid, game, player, launch));
      var user := router.FindUser(uid);
      if user == null {
        link.Send(EmptyResponse(uid));
        return;
      }
      user.index := player;
      assert View() == w.(users := w.users[uid := player]);
      StartFor(uid, rid, game, launch);
    }

    lemma NobodyDropped(w: WorkerState, uid: string)
      requires uid !in w.users
      ensures Terminate(w, uid) == Outcome(w, [], None)
    {
    }

    // The user leaves; the last one takes the room along.
    method Drop(user: GameSession)
      requires Valid() && user.uid in router.users && router.users[user.uid] == user
      modifies router, link, user`connected, router.room
      modifies if router.room == null then {} else {router.room.app, router.room.media}
      ensures Valid() && !user.connected && router.users == old(router.users) - {user.uid}
      ensures var o := Terminate(old(View()), user.uid); View() == o.state && link.sent == old(link.sent) + o.sent
      ensures router.users == map[] ==>
        router.room == null && (old(router.room) != null ==> old(router.room).ClosedOnce())
      ensures router.users != map[] ==>
        && router.room == old(router.room) && link.sent == old(link.sent)
        && (router.room != null ==> router.room.Untouched())
    {
      ghost var w, sent := View(), link.sent;
      router.Remove(user);
      user.Disconnect();
      assert router.Indices() == w.users - {user.uid};
      assert router.Indices().Keys == router.users.Keys;
      assert router.users == map[] <==> router.Indices() == map[];
      assert sent + [] == sent;
    }

    method HandleTerminateSession(uid: string)
      requires Valid()
      modifies router, link, router.users.Values`connected, router.room
      modifies if router.room == null then {} else {router.room.app, router.room.media}
      ensures Valid()
      ensures var o := Terminate(old(View()), uid); View() == o.state && link.sent == old(link.sent) + o.sent
      ensures router.users == old(router.users) - {uid}
      ensures uid in old(router.users) ==> !old(router.users[uid]).connected
      ensures forall u :: u in router.users ==> router.users[u].connected == old(router.users[u].connected)
      // others are left, or nobody has gone: the room stays as it is
      ensures router.users != map[] || uid !in old(router.users) ==>
        && router.room == old(router.room) && link.sent == old(link.sent)
        && (router.room != null ==> router.room.Untouched())
      // the last one has gone: the room is closed
      ensures router.users == map[] && uid in old(router.users) ==>
        && router.room == null
        && (old(router.room) != null ==>
             old(router.room).ClosedOnce() && link.sent == old(link.sent) + [CloseRoom(old(router.room).id)])
    {
      hide Terminate;
      var user := router.FindUser(uid);
      if user != null {
        Drop(user);
      } else {
        NobodyDropped(View(), uid);
      }
    }

    method HandleQuitGame(rid: string)
      requires Valid()
      modifies router, link, router.users.Values`connected, router.room
      modifies if router.room == null then {} else {router.room.app, router.room.media}
      ensures Valid()
      ensures var o := Quit(old(View()), rid); View() == o.state && link.sent == old(link.sent) + o.sent
      ensures old(router.room) != null && rid != "" && rid == old(router.room).id ==>
        && router.room == null && router.users == map[] && old(router.room).ClosedOnce()
        && link.sent == old(link.sent) + [CloseRoom(rid)]
        && forall u :: u in old(router.users) ==> !old(router.users)[u].connected
      ensures old(router.room) == null || rid == "" || rid != old(router.room).id ==>
        && router.room == old(router.room) && router.users == old(router.users) && link.sent == old(link.sent)
        && (router.room != null ==> router.room.Untouched())
        && forall u :: u in router.users ==> router.users[u].connected == old(router.users[u].connected)
    {
      var r := router.room;
      if r == null || rid == "" || rid != r.id {
        return;
      }
      router.Reset();
    }
  }
}
