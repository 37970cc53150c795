/** The sync server's room registry (`server/socket.js`): connections join
    the room of their file, `op` messages are appended to the room and
    relayed, `cursor` messages are relayed, `save` updates the preview, and
    an emptied room is evicted by a timer. Sockets are connection ids, the
    database is a map of logs and previews, and every send is a delivery
    record. Room objects live in `store`; a room's identity is its index
    there, which is what the connection and timer closures hold on to. */
module SyncServer {
  import opened JsStrings
  import opened Crdt

  type FileId = JsString
  type ConnId = nat

  /** The decoded token payload. */
  datatype User = User(id: JsString, username: JsString)

  /** A parsed client message. */
  datatype ClientMsg =
    | OpData(op: Op)
    | CursorData(payload: JsString)
    | SaveData(content: JsString)
    | OtherData

  /** A raw frame: valid JSON or not. */
  datatype Incoming = Parsed(data: ClientMsg) | Unparseable

  /** What the server sends. `Relay` carries a client message verbatim. */
  datatype ServerMsg =
    | Init(ops: seq<Op>, peerId: ConnId, user: User)
    | PeerJoin(peerId: ConnId, user: User)
    | PeerLeave(peerId: ConnId)
    | Relay(data: ClientMsg)

  datatype Delivery = Delivery(to: ConnId, msg: ServerMsg)

  /** `ws.close(1008, ...)` or a joined connection. */
  datatype ConnectResult = Refused(code: int) | Joined(conn: ConnId)

  /** `{clients, ops}` plus the file it was created for. */
  datatype Room = Room(fileId: FileId, clients: set<ConnId>, ops: seq<Op>)

  /** What a connection's handlers captured: its file, its room, its user. */
  datatype Conn = Conn(fileId: FileId, room: nat, user: User)

  /** A pending `setTimeout` of the close handler. */
  datatype Timer = Timer(fileId: FileId, room: nat)

  /** Policy violation, the close code for refused connections. */
  const POLICY_VIOLATION: int := 1008

  function Recipients(out: seq<Delivery>): set<ConnId>
  {
    set d | d in out :: d.to
  }

  lemma {:induction false} RecipientsAppend(out: seq<Delivery>, d: Delivery)
    ensures Recipients(out + [d]) == Recipients(out) + {d.to}
  {
    assert forall e :: e in out + [d] <==> e in out || e == d;
  }

  /** Each connection appears at most once among the deliveries. */
  predicate Distinct(out: seq<Delivery>)
  {
    forall i, j :: 0 <= i < j < |out| ==> out[i].to != out[j].to
  }

  /** `broadcast(room, sender, data)`: one delivery of `msg` to every client
      of the room other than the sender whose socket is open. */
  method Broadcast(clients: set<ConnId>, sender: ConnId, open: set<ConnId>, msg: ServerMsg)
    returns (out: seq<Delivery>)
    ensures Recipients(out) == clients * open - {sender}
    ensures Distinct(out)
    ensures forall i :: 0 <= i < |out| ==> out[i].msg == msg
  {
    out := [];
    var rest := clients;
    ghost var seen: set<ConnId> := {};
    while rest != {}
      invariant seen + rest == clients && seen !! rest
      invariant Recipients(out) == seen * open - {sender}
      invariant Distinct(out)
      invariant forall i :: 0 <= i < |out| ==> out[i].msg == msg && out[i].to !in rest
      decreases rest
    {
      var c :| c in rest;
      if c != sender && c in open {
        RecipientsAppend(out, Delivery(c, msg));
        out := out + [Delivery(c, msg)];
      }
      rest := rest - {c};
      seen := seen + {c};
    }
    assert seen == clients;
  }

  /** The persisted log of a file, empty when there is none. */
  function LogOf(log: map<FileId, seq<Op>>, f: FileId): seq<Op>
  {
    if f in log then log[f] else []
  }

  ghost predicate Wf(registry: map<FileId, nat>, store: seq<Room>, conns: map<ConnId, Conn>,
                     open: set<ConnId>, timers: seq<Timer>, nextConn: nat)
  {
    && (forall f :: f in registry ==> registry[f] < |store| && store[registry[f]].fileId == f)
    && (forall c :: c in conns ==>
          && conns[c].room < |store| && c < nextConn
          && c in store[conns[c].room].clients
          && store[conns[c].room].fileId == conns[c].fileId)
    && (forall r, c :: 0 <= r < |store| && c in store[r].clients ==> c in conns && conns[c].room == r)
    && open <= conns.Keys
    && (forall t :: t in timers ==> t.room < |store| && store[t.room].fileId == t.fileId)
  }

  ghost predicate InRegisteredRooms(registry: map<FileId, nat>, conns: map<ConnId, Conn>)
  {
    forall c :: c in conns ==> conns[c].fileId in registry && registry[conns[c].fileId] == conns[c].room
  }

  /** A connection that joins the registered room of its file. */
  lemma {:induction false} RegisteredJoin(registry: map<FileId, nat>, conns: map<ConnId, Conn>, c: ConnId, f: FileId, r: nat, u: User)
    requires f in registry && registry[f] == r
    ensures InRegisteredRooms(registry, conns) ==> InRegisteredRooms(registry, conns[c := Conn(f, r, u)])
  {
  }

  /** Registering a file no connection uses. */
  lemma {:induction false} RegisteredCreate(registry: map<FileId, nat>, conns: map<ConnId, Conn>, f: FileId, r: nat)
    requires f !in registry
    ensures InRegisteredRooms(registry, conns) ==> InRegisteredRooms(registry[f := r], conns)
  {
  }

  /** Appending to a room's ops keeps the registry well formed. */
  lemma {:induction false} WfOps(registry: map<FileId, nat>, store: seq<Room>, conns: map<ConnId, Conn>,
              open: set<ConnId>, timers: seq<Timer>, nextConn: nat, r: nat, ops: seq<Op>)
    requires Wf(registry, store, conns, open, timers, nextConn) && r < |store|
    ensures Wf(registry, store[r := store[r].(ops := ops)], conns, open, timers, nextConn)
  {
    var t := store[r := store[r].(ops := ops)];
    assert forall q :: 0 <= q < |store| ==> t[q].fileId == store[q].fileId && t[q].clients == store[q].clients;
  }

  /** Removing a connection from its room and from the connection table
      keeps the registry well formed. */
  lemma {:induction false} WfLeave(registry: map<FileId, nat>, store: seq<Room>, conns: map<ConnId, Conn>,
                open: set<ConnId>, timers: seq<Timer>, nextConn: nat, c: ConnId)
    requires Wf(registry, store, conns, open, timers, nextConn) && c in conns
    ensures var r := conns[c].room;
      Wf(registry, store[r := store[r].(clients := store[r].clients - {c})], conns - {c}, open - {c}, timers, nextConn)
  {
    var r := conns[c].room;
    var t := store[r := store[r].(clients := store[r].clients - {c})];
    assert forall q :: 0 <= q < |store| ==> t[q].fileId == store[q].fileId;
    assert forall q :: 0 <= q < |store| && q != r ==> t[q].clients == store[q].clients;
  }

  /** A closing connection leaves every other one in its registered room. */
  lemma {:induction false} RegisteredLeave(registry: map<FileId, nat>, conns: map<ConnId, Conn>, c: ConnId)
    ensures InRegisteredRooms(registry, conns) ==> InRegisteredRooms(registry, conns - {c})
  {
  }

  /** A timer for room `r` of file `f` keeps the registry well formed. */
  lemma {:induction false} WfTimer(registry: map<FileId, nat>, store: seq<Room>, conns: map<ConnId, Conn>,
                                   open: set<ConnId>, timers: seq<Timer>, nextConn: nat, f: FileId, r: nat)
    requires Wf(registry, store, conns, open, timers, nextConn) && r < |store| && store[r].fileId == f
    ensures Wf(registry, store, conns, open, timers + [Timer(f, r)], nextConn)
  {
    assert forall t :: t in timers + [Timer(f, r)] ==> t in timers || t == Timer(f, r);
  }

  /** Adding a fresh connection to room `r` keeps the registry well formed. */
  lemma {:induction false} WfJoin(registry: map<FileId, nat>, store: seq<Room>, conns: map<ConnId, Conn>,
               open: set<ConnId>, timers: seq<Timer>, nextConn: nat, r: nat, f: FileId, u: User)
    requires Wf(registry, store, conns, open, timers, nextConn)
    requires r < |store| && store[r].fileId == f
    ensures Wf(registry, store[r := store[r].(clients := store[r].clients + {nextConn})],
               conns[nextConn := Conn(f, r, u)], open + {nextConn}, timers, nextConn + 1)
  {
    var t := store[r := store[r].(clients := store[r].clients + {nextConn})];
    assert forall q :: 0 <= q < |store| ==> t[q].fileId == store[q].fileId;
    assert forall q :: 0 <= q < |store| && q != r ==> t[q].clients == store[q].clients;
    assert nextConn !in conns;
  }

  /** A fresh connection in a new room for `f`, registered under `f`. */
  lemma {:induction false} WfCreate(registry: map<FileId, nat>, store: seq<Room>, conns: map<ConnId, Conn>,
                 open: set<ConnId>, timers: seq<Timer>, nextConn: nat, f: FileId, ops: seq<Op>, u: User)
    requires Wf(registry, store, conns, open, timers, nextConn)
    ensures Wf(registry[f := |store|], store + [Room(f, {nextConn}, ops)],
               conns[nextConn := Conn(f, |store|, u)], open + {nextConn}, timers, nextConn + 1)
  {
    var t := store + [Room(f, {nextConn}, ops)];
    assert forall q :: 0 <= q < |store| ==> t[q] == store[q];
    assert nextConn !in conns;
  }

  class Server {
    /** The `rooms` Map: file id to room identity. */
    var registry: map<FileId, nat>
    /** Every room object created so far. */
    var store: seq<Room>
    /** Joined connections whose close handler has not run. */
    var conns: map<ConnId, Conn>
    /** Connections whose `readyState` is 1. */
    var open: set<ConnId>
    var timers: seq<Timer>
    /** `operations_log`, per file, in id order. */
    var log: map<FileId, seq<Op>>
    /** The `content` column of `files`. */
    var previews: map<FileId, JsString>
    /** The next connection id (`uuid.v4()`). */
    var nextConn: nat

    /** Registry entries, connections and timers point at rooms of their
        own file, and a room's clients are exactly the connections that
        joined it and have not closed. */
    ghost predicate Valid()
      reads this
    {
      Wf(registry, store, conns, open, timers, nextConn)
    }

    /** Every joined connection is in the room the registry holds for its
        file, so connections to the same file share a room. */
    ghost predicate Registered()
      reads this
    {
      InRegisteredRooms(registry, conns)
    }

    constructor ()
      ensures Valid() && Registered()
      ensures registry == map[] && store == [] && conns == map[] && open == {}
      ensures timers == [] && log == map[] && previews == map[] && nextConn == 0
    {
      registry := map[];
      store := [];
      conns := map[];
      open := {};
      timers := [];
      log := map[];
      previews := map[];
      nextConn := 0;
    }

    /** The accepted part of the `connection` handler: the room of the
        file is created when absent, with the persisted history when the
        query succeeds, and the new connection joins it. */
    method Admit(fileId: FileId, user: User, queryOk: bool) returns (c: ConnId, r: nat)
      requires Valid()
      modifies this
      ensures Valid()
      ensures old(Registered()) ==> Registered()
      ensures c == old(nextConn) && nextConn == c + 1
      ensures r == if fileId in old(registry) then old(registry)[fileId] else |old(store)|
      ensures fileId in old(registry) ==>
        && registry == old(registry)
        && store == old(store)[r := old(store)[r].(clients := old(store)[r].clients + {c})]
      ensures fileId !in old(registry) ==>
        && registry == old(registry)[fileId := r]
        && store == old(store) + [Room(fileId, {c}, if queryOk then LogOf(log, fileId) else [])]
      ensures conns == old(conns)[c := Conn(fileId, r, user)]
      ensures open == old(open) + {c}
      ensures unchanged(this`timers, this`log, this`previews)
    {
      if fileId !in registry {
        c, r := CreateRoom(fileId, user, if queryOk then LogOf(log, fileId) else []);
      } else {
        c, r := JoinRoom(fileId, user);
      }
    }

    /** A new room for `fileId`, registered under it, with the given
        history and the new connection as its only client. */
    method CreateRoom(fileId: FileId, user: User, ops: seq<Op>) returns (c: ConnId, r: nat)
      requires Valid() && fileId !in registry
      modifies this
      ensures Valid()
      ensures old(Registered()) ==> Registered()
      ensures c == old(nextConn) && nextConn == c + 1 && r == |old(store)|
      ensures registry == old(registry)[fileId := r]
      ensures store == old(store) + [Room(fileId, {c}, ops)]
      ensures conns == old(conns)[c := Conn(fileId, r, user)]
      ensures open == old(open) + {c}
      ensures unchanged(this`timers, this`log, this`previews)
    {
      c, r := nextConn, |store|;
      WfCreate(registry, store, conns, open, timers, c, fileId, ops, user);
      RegisteredCreate(registry, conns, fileId, r);
      RegisteredJoin(registry[fileId := r], conns, c, fileId, r, user);
      registry, store, conns, open, nextConn :=
        registry[fileId := r], store + [Room(fileId, {c}, ops)], conns[c := Conn(fileId, r, user)], open + {c}, c + 1;
    }

    /** The new connection joins the registered room of `fileId`. */
    method JoinRoom(fileId: FileId, user: User) returns (c: ConnId, r: nat)
      requires Valid() && fileId in registry
      modifies this
      ensures Valid()
      ensures old(Registered()) ==> Registered()
      ensures c == old(nextConn) && nextConn == c + 1 && r == old(registry)[fileId]
      ensures unchanged(this`registry)
      ensures store == old(store)[r := old(store)[r].(clients := old(store)[r].clients + {c})]
      ensures conns == old(conns)[c := Conn(fileId, r, user)]
      ensures open == old(open) + {c}
      ensures unchanged(this`timers, this`log, this`previews)
    {
      c, r := nextConn, registry[fileId];
      WfJoin(registry, store, conns, open, timers, c, r, fileId, user);
      RegisteredJoin(registry, conns, c, fileId, r, user);
      store, conns, open, nextConn :=
        store[r := store[r].(clients := store[r].clients + {c})], conns[c := Conn(fileId, r, user)], open + {c}, c + 1;
    }

    /** The `connection` handler. An empty `token` or `fileId` stands for a
        missing or empty query parameter, `user` is what `verifyToken`
        returned, and `queryOk` says whether the history query succeeded. */
    method Connect(token: JsString, fileId: FileId, user: Option<User>, queryOk: bool)
      returns (res: ConnectResult, out: seq<Delivery>)
      requires Valid()
      modifies this
      ensures Valid()
      ensures old(Registered()) ==> Registered()
      ensures token == [] || fileId == [] || user.None? ==>
        && res == Refused(POLICY_VIOLATION) && out == []
        && registry == old(registry) && store == old(store) && conns == old(conns)
        && open == old(open) && nextConn == old(nextConn)
      ensures !(token == [] || fileId == [] || user.None?) ==>
        var c := old(nextConn);
        var r := if fileId in old(registry) then old(registry)[fileId] else |old(store)|;
        && res == Joined(c)
        && nextConn == c + 1
        && (fileId in old(registry) ==>
              && registry == old(registry)
              && store == old(store)[r := old(store)[r].(clients := old(store)[r].clients + {c})])
        && (fileId !in old(registry) ==>
              && registry == old(registry)[fileId := r]
              && store == old(store) + [Room(fileId, {c}, if queryOk then LogOf(log, fileId) else [])])
        && conns == old(conns)[c := Conn(fileId, r, user.value)]
        && open == old(open) + {c}
        && |out| >= 1
        && out[0] == Delivery(c, Init(store[r].ops, c, user.value))
        && Recipients(out[1..]) == store[r].clients * open - {c}
        && Distinct(out[1..])
        && forall i :: 1 <= i < |out| ==> out[i].msg == PeerJoin(c, user.value)
      ensures unchanged(this`timers, this`log, this`previews)
    {
      if token == [] || fileId == [] {
        return Refused(POLICY_VIOLATION), [];
      }
      if user.None? {
        return Refused(POLICY_VIOLATION), [];
      }
      var c, r := Admit(fileId, user.value, queryOk);
      var others := Broadcast(store[r].clients, c, open, PeerJoin(c, user.value));
      out := [Delivery(c, Init(store[r].ops, c, user.value))] + others;
      assert out[1..] == others;
      res := Joined(c);
    }

    /** A socket leaves `readyState` 1 before its close handler runs. */
    method StopOpen(c: ConnId)
      requires Valid()
      modifies this
      ensures Valid()
      ensures old(Registered()) ==> Registered()
      ensures open == old(open) - {c}
      ensures unchanged(this`registry, this`store, this`conns)
      ensures unchanged(this`timers, this`log, this`previews)
      ensures unchanged(this`nextConn)
    {
      open := open - {c};
    }

    /** The `message` handler of connection `c`. `dbOk` says whether the
        database write the message triggers succeeds. */
    method Receive(c: ConnId, msg: Incoming, dbOk: bool) returns (out: seq<Delivery>)
      requires Valid() && c in conns
      modifies this
      ensures Valid()
      ensures old(Registered()) ==> Registered()
      ensures unchanged(this`registry, this`conns, this`open)
      ensures unchanged(this`timers, this`nextConn)
      ensures var r := conns[c].room; var f := conns[c].fileId;
        match msg
        case Parsed(OpData(op)) =>
          && store == old(store)[r := old(store)[r].(ops := old(store)[r].ops + [op])]
          && Recipients(out) == store[r].clients * open - {c}
          && Distinct(out)
          && (forall i :: 0 <= i < |out| ==> out[i].msg == Relay(OpData(op)))
          && log == (if dbOk then old(log)[f := LogOf(old(log), f) + [op]] else old(log))
          && previews == old(previews)
        case Parsed(CursorData(p)) =>
          && store == old(store) && log == old(log) && previews == old(previews)
          && Recipients(out) == store[r].clients * open - {c}
          && Distinct(out)
          && (forall i :: 0 <= i < |out| ==> out[i].msg == Relay(CursorData(p)))
        case Parsed(SaveData(content)) =>
          && store == old(store) && log == old(log) && out == []
          && previews == (if content != [] && dbOk then old(previews)[f := content] else old(previews))
        case _ =>
          store == old(store) && log == old(log) && previews == old(previews) && out == []
    {
      out := [];
      var r := conns[c].room;
      var f := conns[c].fileId;
      match msg {
        case Parsed(data) =>
          match data {
            case OpData(op) =>
              WfOps(registry, store, conns, open, timers, nextConn, r, store[r].ops + [op]);
              store := store[r := store[r].(ops := store[r].ops + [op])];
              out := Broadcast(store[r].clients, c, open, Relay(data));
              if dbOk {
                log := log[f := LogOf(log, f) + [op]];
              }
            case CursorData(_) =>
              out := Broadcast(store[r].clients, c, open, Relay(data));
            case SaveData(content) =>
              if content != [] && dbOk {
                previews := previews[f := content];
              }
            case OtherData =>
          }
        case Unparseable =>
      }
    }

    /** The `close` handler of connection `c`. */
    method Close(c: ConnId) returns (out: seq<Delivery>)
      requires Valid() && c in conns
      modifies this
      ensures Valid()
      ensures old(Registered()) ==> Registered()
      ensures var r := old(conns)[c].room; var f := old(conns)[c].fileId;
        && store == old(store)[r := old(store)[r].(clients := old(store)[r].clients - {c})]
        && conns == old(conns) - {c} && open == old(open) - {c}
        && Recipients(out) == store[r].clients * open
        && Distinct(out)
        && (forall i :: 0 <= i < |out| ==> out[i].msg == PeerLeave(c))
        && timers == old(timers) + (if store[r].clients == {} then [Timer(f, r)] else [])
      ensures unchanged(this`registry, this`log, this`previews)
      ensures unchanged(this`nextConn)
    {
      var r, f := conns[c].room, conns[c].fileId;
      var store', conns', open' := store[r := store[r].(clients := store[r].clients - {c})], conns - {c}, open - {c};
      WfLeave(registry, store, conns, open, timers, nextConn, c);
      RegisteredLeave(registry, conns, c);
      out := Broadcast(store'[r].clients, c, open', PeerLeave(c));
      var timers' := timers;
      if store'[r].clients == {} {
        WfTimer(registry, store', conns', open', timers, nextConn, f, r);
        timers' := timers + [Timer(f, r)];
      }
      store, conns, open, timers := store', conns', open', timers';
    }

    /** The eviction timer as written: it checks the room it captured but
        deletes whatever room is registered for the file. */
    method FireTimer(k: nat)
      requires Valid() && k < |timers|
      modifies this
      ensures Valid()
      ensures timers == old(timers)[..k] + old(timers)[k + 1..]
      ensures var t := old(timers)[k];
        registry == if old(store)[t.room].clients == {} then old(registry) - {t.fileId} else old(registry)
      ensures unchanged(this`store, this`conns, this`open)
      ensures unchanged(this`log, this`previews, this`nextConn)
    {
      var t := timers[k];
      timers := timers[..k] + timers[k + 1..];
      if store[t.room].clients == {} {
        registry := registry - {t.fileId};
      }
    }

    /** The eviction timer as intended: the entry goes only when it still
        holds the captured room and that room is empty. */
    method FireTimerChecked(k: nat)
      requires Valid() && k < |timers|
      modifies this
      ensures Valid()
      ensures old(Registered()) ==> Registered()
      ensures timers == old(timers)[..k] + old(timers)[k + 1..]
      ensures var t := old(timers)[k];
        registry == if old(store)[t.room].clients == {} && t.fileId in old(registry)
                       && old(registry)[t.fileId] == t.room
                    then old(registry) - {t.fileId} else old(registry)
      ensures unchanged(this`store, this`conns, this`open)
      ensures unchanged(this`log, this`previews, this`nextConn)
    {
      var t := timers[k];
      timers := timers[..k] + timers[k + 1..];
      if store[t.room].clients == {} && t.fileId in registry && registry[t.fileId] == t.room {
        registry := registry - {t.fileId};
      }
    }
  }

  /** Two connections to the same file on a server where every connection
      sits in its file's registered room: they share that room, so an `op`
      from one reaches the other whenever its socket is open. */
  lemma {:induction false} RegisteredSharesRoom(registry: map<FileId, nat>, conns: map<ConnId, Conn>, a: ConnId, b: ConnId)
    requires forall c :: c in conns ==>
      conns[c].fileId in registry && registry[conns[c].fileId] == conns[c].room
    requires a in conns && b in conns && conns[a].fileId == conns[b].fileId
    ensures conns[a].room == conns[b].room
  {
  }

  /** A fresh server on which one client has opened file `f` and left: the
      room is empty and its eviction timer is pending. */
  method OneVisit(f: FileId, u: User) returns (s: Server)
    requires f != []
    ensures fresh(s) && s.Valid() && s.Registered()
    ensures s.registry == map[f := 0] && s.store == [Room(f, {}, [])]
    ensures s.conns == map[] && s.open == {} && s.log == map[] && s.nextConn == 1
    ensures s.timers == [Timer(f, 0)]
  {
    s := new Server();
    var res, out := s.Connect([116], f, Some(u), true);
    assert s.store == [Room(f, {0}, [])];
    out := s.Close(0);
  }

  /** A fresh server on which two clients have opened file `f` one after
      the other and left: the room is empty and two eviction timers for it
      are pending. */
  method TwoVisits(f: FileId, u: User) returns (s: Server)
    requires f != []
    ensures fresh(s) && s.Valid() && s.Registered()
    ensures s.registry == map[f := 0] && s.store == [Room(f, {}, [])]
    ensures s.conns == map[] && s.open == {} && s.log == map[] && s.nextConn == 2
    ensures s.timers == [Timer(f, 0), Timer(f, 0)]
  {
    s := OneVisit(f, u);
    assert f in s.registry && s.registry[f] == 0;
    ghost var before := s.store;
    var res, out := s.Connect([116], f, Some(u), true);
    assert s.store == before[0 := before[0].(clients := {} + {1})];
    assert {} + {1} == {1};
    assert s.store == [Room(f, {1}, [])];
    out := s.Close(1);
  }

  /** After `TwoVisits` the first timer fires and evicts the empty room,
      whichever eviction rule is used. */
  method FirstEviction(f: FileId, u: User, checked: bool) returns (s: Server)
    requires f != []
    ensures fresh(s) && s.Valid()
    ensures s.registry == map[] && s.store == [Room(f, {}, [])]
    ensures s.conns == map[] && s.open == {} && s.log == map[] && s.nextConn == 2
    ensures s.timers == [Timer(f, 0)]
  {
    s := TwoVisits(f, u);
    if checked {
      s.FireTimerChecked(0);
    } else {
      s.FireTimer(0);
    }
  }

  /** After the first eviction a third client opens the file and gets a
      new room, and the second, stale, timer fires. As written it evicts the
      third client's room too; checked, it leaves the registry alone. */
  method ThirdVisit(f: FileId, u: User, checked: bool) returns (s: Server)
    requires f != []
    ensures fresh(s) && s.Valid()
    ensures s.store == [Room(f, {}, []), Room(f, {2}, [])]
    ensures s.conns == map[2 := Conn(f, 1, u)] && s.open == {2}
    ensures s.log == map[] && s.nextConn == 3
    ensures s.registry == if checked then map[f := 1] else map[]
  {
    s := FirstEviction(f, u, checked);
    var res, out := s.Connect([116], f, Some(u), true);
    assert s.registry == map[f := 1] && s.store == [Room(f, {}, []), Room(f, {2}, [])];
    assert s.conns == map[2 := Conn(f, 1, u)] && s.timers == [Timer(f, 0)];
    if checked {
      s.FireTimerChecked(0);
    } else {
      s.FireTimer(0);
    }
  }

  /** One client opens a file and leaves, a second opens it and leaves, the
      first timer evicts the room, a third client opens the file and gets a
      new room, the second timer fires, and a fourth client opens the file.
      With the timer as written the second timer evicts the third client's
      room, so the fourth gets yet another room and an `op` of the third
      client reaches nobody; with the checked timer both share a room and
      the `op` reaches the fourth. */
  method StaleTimerScenario(checked: bool) returns (sameRoom: bool, relayed: bool)
    ensures sameRoom == checked && relayed == checked
  {
    var u := User([117], [117]);
    var f: FileId := [102];
    var s := ThirdVisit(f, u, checked);
    var res, out := s.Connect([116], f, Some(u), true);
    if checked {
      assert s.conns[3].room == 1 && 3 in s.store[1].clients;
    } else {
      assert s.conns[3].room == 2 && s.store[1].clients == {2};
    }
    sameRoom := s.conns[2].room == s.conns[3].room;
    out := s.Receive(2, Parsed(OpData(OtherOp)), true);
    relayed := 3 in Recipients(out);
  }
}
