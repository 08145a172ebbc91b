/** Named pipes: the servers of a pipe, and the clients connected to them. */
module NamedPipes {

  datatype PipeState =
    IdleServer | WaitOpen | ConnectedServer | WaitDisconnect | DisconnectedServer | WaitConnect

  datatype Status =
    | Success | Pending | PipeConnected | PipeBusy | NoDataDetected | InvalidHandle | PipeListening
    | PipeDisconnected | PipeNotAvailable | AccessDenied | InstanceNotAvailable | NoMemory

  /** A client end; `fd` says whether it has a file descriptor. */
  class PipeClient {
    var fd: bool
    var server: PipeServer?

    constructor ()
      ensures !fd && server == null
    {
      fd, server := false, null;
    }
  }

  /** A server end. `noFdStatus` is what its ioctl descriptor reports while there is no pipe descriptor. */
  class PipeServer {
    var fd: bool
    var state: PipeState
    var client: PipeClient?
    var flushPoll: bool
    var event: bool
    var noFdStatus: Status

    constructor ()
      ensures !fd && state == IdleServer && client == null && !flushPoll && noFdStatus == PipeListening
    {
      fd, client, flushPoll, event := false, null, false, false;
      state, noFdStatus := IdleServer, PipeListening;
    }

    /** The state fixes which of server descriptor, client link and client descriptor exist. */
    ghost predicate Consistent()
      reads this, client
    {
      && (match state
          case IdleServer => !fd && client == null && noFdStatus == PipeListening
          case WaitOpen => !fd && client == null && noFdStatus == PipeListening
          case ConnectedServer => fd && client != null && client.server == this && client.fd
          case WaitDisconnect => fd && client == null
          case DisconnectedServer =>
            !fd && client != null && client.server == this && !client.fd && noFdStatus == PipeDisconnected
          case WaitConnect => !fd && client == null && noFdStatus == PipeDisconnected)
      && (flushPoll ==> state == ConnectedServer && event)
    }

    method SetServerState(newState: PipeState)
      requires newState in {ConnectedServer, WaitDisconnect} <==> fd
      modifies this`state, this`noFdStatus
      ensures state == newState
      ensures newState in {WaitOpen, IdleServer} ==> noFdStatus == PipeListening
      ensures newState in {DisconnectedServer, WaitConnect} ==> noFdStatus == PipeDisconnected
    {
      state := newState;
      match state {
        case ConnectedServer => assert fd;
        case WaitDisconnect => assert fd;
        case WaitOpen =>
          assert !fd;
          noFdStatus := PipeListening;
        case IdleServer =>
          assert !fd;
          noFdStatus := PipeListening;
        case DisconnectedServer =>
          assert !fd;
          noFdStatus := PipeDisconnected;
        case WaitConnect =>
          assert !fd;
          noFdStatus := PipeDisconnected;
      }
    }

    /** Ends a pending flush. */
    method NotifyEmpty()
      requires flushPoll ==> state == ConnectedServer && event
      modifies this`flushPoll, this`event
      ensures !flushPoll
      ensures old(flushPoll) ==> !event
    {
      if !flushPoll {
        return;
      }
      assert state == ConnectedServer;
      assert event;
      flushPoll := false;
      event := false;
    }

    method DoDisconnect()
      requires fd && (client != null ==> client.server == this && client.fd)
      modifies this`fd, client
      ensures !fd
      ensures client != null ==> !client.fd && client.server == this
    {
      if client != null {
        assert client.server == this;
        assert client.fd;
        client.fd := false;
      }
      assert fd;
      fd := false;
    }

    /** The client at the other end is closed. */
    method LoseClient()
      requires Consistent() && client != null
      modifies this
      ensures Consistent() && client == null && !flushPoll && fd == old(fd)
      ensures state == if old(state) == ConnectedServer then WaitDisconnect else WaitConnect
    {
      NotifyEmpty();
      match state {
        case ConnectedServer =>
          // the descriptor stays: a flush needs it
          SetServerState(WaitDisconnect);
        case DisconnectedServer =>
          SetServerState(WaitConnect);
        case _ => assert false;
      }
      assert client != null;
      client := null;
    }

    /** The last handle of this end is closed. */
    method Unlink()
      requires Consistent()
      modifies this, client
      ensures client == null
      ensures old(client) != null ==> old(client).server == null && !old(client).fd
    {
      if fd {
        NotifyEmpty();
        DoDisconnect();
      }
      if client != null {
        client.server := null;
        client := null;
      }
    }
  }

  /** A named pipe with the servers that use it, and the clients that have been opened on it. */
  class NamedPipe {
    const maxInstances: int
    const shareRead: bool
    const shareWrite: bool
    var instances: int
    var servers: seq<PipeServer>
    var clients: seq<PipeClient>

    /** What every operation keeps. */
    ghost predicate Valid()
      reads this, servers, clients
    {
      && (forall i, j :: 0 <= i < j < |servers| ==> servers[i] != servers[j])
      && (forall i, j :: 0 <= i < j < |clients| ==> clients[i] != clients[j])
      && (forall s :: s in servers ==> (s.client != null ==> s.client in clients) && s.Consistent())
      && (forall c :: c in clients ==>
            if c.server == null then !c.fd else c.server in servers && c.server.client == c)
      && instances == |servers|
    }

    constructor (maxInstances: int, shareRead: bool, shareWrite: bool)
      ensures Valid() && servers == [] && clients == []
      ensures this.maxInstances == maxInstances && this.shareRead == shareRead && this.shareWrite == shareWrite
    {
      this.maxInstances, this.shareRead, this.shareWrite := maxInstances, shareRead, shareWrite;
      instances, servers, clients := 0, [], [];
    }

    /** A request for a new server end gets past the checks; `existed` says whether the pipe was there before. */
    predicate Admitted(existed: bool, wantRead: bool, wantWrite: bool)
      reads this
    {
      existed ==> instances < maxInstances && wantRead == shareRead && wantWrite == shareWrite
    }

    /** A new server end. When the server object can be had but its ioctl descriptor cannot, destroying the server
        undoes an instance that was not counted, against an assertion if there is none: this is the one case that
        breaks the count of instances. A failed assertion is reported only, and the count wraps around. */
    method CreateServer(existed: bool, wantRead: bool, wantWrite: bool, serverOk: bool, ioctlOk: bool)
      returns (status: Status)
      requires Valid() && (!existed ==> servers == [])
      modifies this
      ensures Valid() <==> !(old(Admitted(existed, wantRead, wantWrite)) && serverOk && !ioctlOk)
      ensures status == InstanceNotAvailable <==> existed && maxInstances <= old(|servers|)
      ensures status == AccessDenied <==>
              existed && old(|servers|) < maxInstances && (wantRead != shareRead || wantWrite != shareWrite)
      ensures status == Success <==> old(Admitted(existed, wantRead, wantWrite)) && serverOk && ioctlOk
      ensures !Valid() ==> instances == (old(instances) - 1) % 0x1_0000_0000
      ensures status == Success ==> |servers| > 0 && servers[1..] == old(servers) && fresh(servers[0])
                                    && servers[0].state == IdleServer
      ensures status != Success ==> servers == old(servers)
      ensures clients == old(clients)
    {
      if existed {
        if maxInstances <= instances {
          return InstanceNotAvailable;
        }
        if wantRead != shareRead || wantWrite != shareWrite {
          return AccessDenied;
        }
      }
      if !serverOk {
        return NoMemory;
      }
      var server := new PipeServer();
      if !ioctlOk {
        instances := (instances - 1) % 0x1_0000_0000;
        return NoMemory;
      }
      servers := [server] + servers;
      instances := instances + 1;
      status := Success;
    }

    /** `FSCTL_PIPE_LISTEN`; `queued` says whether the wait could be queued. */
    method Listen(server: PipeServer, queued: bool) returns (status: Status)
      requires Valid() && server in servers
      modifies server
      ensures Valid()
      ensures status == match old(server.state)
                        case IdleServer => if queued then Pending else NoMemory
                        case WaitConnect => if queued then Pending else NoMemory
                        case ConnectedServer => PipeConnected
                        case DisconnectedServer => PipeBusy
                        case WaitDisconnect => NoDataDetected
                        case WaitOpen => InvalidHandle
      ensures server.state == if status == Pending then WaitOpen else old(server.state)
      ensures server.fd == old(server.fd) && server.client == old(server.client) && server.flushPoll == old(server.flushPoll)
    {
      match server.state {
        case IdleServer =>
          if queued {
            server.SetServerState(WaitOpen);
            return Pending;
          }
          return NoMemory;
        case WaitConnect =>
          if queued {
            server.SetServerState(WaitOpen);
            return Pending;
          }
          return NoMemory;
        case ConnectedServer => return PipeConnected;
        case DisconnectedServer => return PipeBusy;
        case WaitDisconnect => return NoDataDetected;
        case WaitOpen => return InvalidHandle;
      }
    }

    /** `FSCTL_PIPE_DISCONNECT`: the client keeps its link, but loses its descriptor and all waiting data. */
    method Disconnect(server: PipeServer) returns (status: Status)
      requires Valid() && server in servers
      modifies server, server.client
      ensures Valid() && server.client == old(server.client)
      ensures status == match old(server.state)
                        case ConnectedServer => Success
                        case WaitDisconnect => Success
                        case IdleServer => PipeListening
                        case WaitOpen => PipeListening
                        case DisconnectedServer => PipeDisconnected
                        case WaitConnect => PipeDisconnected
      ensures server.state == match old(server.state)
                              case ConnectedServer => DisconnectedServer
                              case WaitDisconnect => WaitConnect
                              case other => other
      ensures status == Success ==> !server.fd && !server.flushPoll
      ensures server.client != null ==> server.client.server == server && !server.client.fd
    {
      match server.state {
        case ConnectedServer =>
          assert server.client != null;
          assert server.client.fd;
          server.NotifyEmpty();
          server.DoDisconnect();
          server.SetServerState(DisconnectedServer);
          return Success;
        case WaitDisconnect =>
          assert server.client == null;
          server.DoDisconnect();
          server.SetServerState(WaitConnect);
          return Success;
        case IdleServer => return PipeListening;
        case WaitOpen => return PipeListening;
        case DisconnectedServer => return PipeDisconnected;
        case WaitConnect => return PipeDisconnected;
      }
    }

    /** The first server in a given state. */
    method FindInState(state: PipeState) returns (server: PipeServer?)
      ensures server == null ==> forall s :: s in servers ==> s.state != state
      ensures server != null ==> exists i :: 0 <= i < |servers| && servers[i] == server && server.state == state
                                             && forall k :: 0 <= k < i ==> servers[k].state != state
    {
      var i := 0;
      while i < |servers|
        invariant 0 <= i <= |servers|
        invariant forall k :: 0 <= k < i ==> servers[k].state != state
      {
        if servers[i].state == state {
          return servers[i];
        }
        i := i + 1;
      }
      return null;
    }

    /** Looks for a pipe server that is listening, and falls back to one that is idle. */
    method FindAvailableServer() returns (server: PipeServer?)
      ensures server == null ==> forall s :: s in servers ==> s.state != WaitOpen && s.state != IdleServer
      ensures server != null ==> server in servers
      ensures server != null ==> server.state == WaitOpen ||
                                 (server.state == IdleServer && forall s :: s in servers ==> s.state != WaitOpen)
    {
      server := FindInState(WaitOpen);
      if server == null {
        server := FindInState(IdleServer);
      }
    }

    /** Connects a new client to a server that is waiting for one. The two descriptors are made one after the other;
        a server descriptor without a client descriptor is left behind, and breaks the invariant. */
    method Connect(server: PipeServer, clientFd: bool, serverFd: bool)
      requires Valid() && server in servers && (server.state == WaitOpen || server.state == IdleServer)
      modifies this`clients, server
      ensures Valid() <==> clientFd || !serverFd
      ensures clientFd && serverFd ==>
                && server.state == ConnectedServer && server.client != null && fresh(server.client)
                && clients == old(clients) + [server.client]
      ensures !(clientFd && serverFd) ==> clients == old(clients) && server.state == old(server.state)
      ensures server.fd == serverFd
    {
      assert !server.fd;
      var client := new PipeClient();
      client.fd := clientFd;
      server.fd := serverFd;
      if client.fd && server.fd {
        server.SetServerState(ConnectedServer);
        server.client := client;
        client.server := server;
        clients := clients + [client];
      }
    }

    /** Some server waits for a client, or is idle. */
    predicate Available()
      reads this, servers
    {
      exists i :: 0 <= i < |servers| && (servers[i].state == WaitOpen || servers[i].state == IdleServer)
    }

    predicate Allowed(wantRead: bool, wantWrite: bool) {
      (wantRead ==> shareRead) && (wantWrite ==> shareWrite)
    }

    /** A client opens the pipe; only the server that it gets is changed. The invariant breaks exactly if the server
        descriptor can be made but the client descriptor cannot. */
    method OpenFile(wantRead: bool, wantWrite: bool, socketOk: bool, clientFd: bool, serverFd: bool)
      returns (status: Status, server: PipeServer?)
      requires Valid()
      modifies this`clients, servers
      ensures Valid() <==> !(old(Available()) && Allowed(wantRead, wantWrite) && socketOk && serverFd && !clientFd)
      ensures status == PipeNotAvailable <==>
              forall s :: s in servers ==> old(s.state) != WaitOpen && old(s.state) != IdleServer
      ensures status != PipeNotAvailable ==>
                && server in servers && status == (if !Allowed(wantRead, wantWrite) then AccessDenied
                                                   else if socketOk && clientFd && serverFd then Success else NoMemory)
                && (old(server.state) == WaitOpen ||
                    (old(server.state) == IdleServer && forall s :: s in servers ==> old(s.state) != WaitOpen))
      ensures status == Success ==>
                && server.state == ConnectedServer
                && server.client != null && fresh(server.client) && clients == old(clients) + [server.client]
      ensures status != Success ==> clients == old(clients)
      ensures status != PipeNotAvailable && status != Success ==> server.state == old(server.state)
      ensures status != PipeNotAvailable ==> (server.fd <==> Allowed(wantRead, wantWrite) && socketOk && serverFd)
      ensures forall s :: s in servers && s != server ==> unchanged(s)
    {
      server := FindAvailableServer();
      if server == null {
        return PipeNotAvailable, null;
      }
      if (wantRead && !shareRead) || (wantWrite && !shareWrite) {
        return AccessDenied, server;
      }
      if !socketOk {
        return NoMemory, server;
      }
      Connect(server, clientFd, serverFd);
      status := if clientFd && serverFd then Success else NoMemory;
    }

    /** A flush waits for the client to read all data, if there is any left. */
    method Flush(server: PipeServer, dataRemaining: bool, eventOk: bool, timerOk: bool)
      requires Valid() && server in servers
      modifies server`event, server`flushPoll
      ensures Valid()
      ensures var starts := server.state == ConnectedServer && !old(server.flushPoll) && dataRemaining;
              && server.flushPoll == (old(server.flushPoll) || (starts && eventOk && timerOk))
              && server.event == (if starts then eventOk else old(server.event))
    {
      if server.state != ConnectedServer || server.flushPoll {
        return;
      }
      assert server.client != null;
      if dataRemaining {
        server.event := eventOk;
        if !server.event {
          return;
        }
        server.flushPoll := timerOk;
      }
    }

    /** The flush timer: polls again, or reports that the pipe is empty. */
    method CheckFlushed(server: PipeServer, dataRemaining: bool, timerOk: bool)
      requires Valid() && server in servers && server.flushPoll
      modifies server`event, server`flushPoll
      ensures Valid() && server.event == dataRemaining && server.flushPoll == (dataRemaining && timerOk)
    {
      assert server.event;
      assert server.client != null;
      if dataRemaining {
        server.flushPoll := timerOk;
      } else {
        server.flushPoll := false;
        server.event := false;
      }
    }

    /** Unlinks a client from its server. */
    method DetachClient(client: PipeClient)
      requires Valid() && client in clients
      modifies client, client.server
      ensures Valid() && client.server == null && !client.fd
      ensures var server := old(client.server);
              server != null ==>
                && server.client == null && !server.flushPoll && server.fd == old(server.fd)
                && server.state == if old(server.state) == ConnectedServer then WaitDisconnect else WaitConnect
    {
      var server := client.server;
      if server != null {
        server.LoseClient();
        client.server := null;
      }
      client.fd := false;
    }

    /** The last handle of a client is closed. */
    method DestroyClient(k: nat)
      requires Valid() && k < |clients|
      modifies this`clients, clients[k], clients[k].server
      ensures Valid() && clients == old(clients[..k] + clients[k + 1..])
      ensures var server := old(clients[k].server);
              server != null ==>
                && server.client == null && !server.flushPoll && server.fd == old(server.fd)
                && server.state == if old(server.state) == ConnectedServer then WaitDisconnect else WaitConnect
    {
      DetachClient(clients[k]);
      clients := clients[..k] + clients[k + 1..];
    }

    /** The last handle of a server is closed. */
    method DestroyServer(k: nat)
      requires Valid() && k < |servers|
      modifies this`servers, this`instances, servers[k], servers[k].client
      ensures Valid() && servers == old(servers[..k] + servers[k + 1..]) && instances == old(instances) - 1
      ensures var client := old(servers[k].client);
              client != null ==> client.server == null && !client.fd
    {
      servers[k].Unlink();
      assert instances != 0;
      instances := instances - 1;
      servers := servers[..k] + servers[k + 1..];
    }
  }

  /** One request or event; servers and clients are picked by their position. */
  datatype Event =
    | Create(existed: bool, read: bool, write: bool, serverOk: bool, ioctlOk: bool)
    | ListenOn(server: nat, queued: bool)
    | Open(read: bool, write: bool, socketOk: bool, clientFd: bool, serverFd: bool)
    | DisconnectOn(server: nat)
    | FlushOn(server: nat, data: bool, eventOk: bool, timerOk: bool)
    | Timer(server: nat, data: bool, timerOk: bool)
    | CloseClient(client: nat)
    | CloseServer(server: nat)

  /** The two failed allocations that break the invariant. */
  predicate Breaks(pipe: NamedPipe, event: Event)
    reads pipe, pipe.servers
  {
    match event
    case Create(existed, read, write, serverOk, ioctlOk) =>
      (existed || pipe.servers == []) && pipe.Admitted(existed, read, write) && serverOk && !ioctlOk
    case Open(read, write, socketOk, clientFd, serverFd) =>
      pipe.Available() && pipe.Allowed(read, write) && socketOk && serverFd && !clientFd
    case _ => false
  }

  /** Handles one event. An event for an object that does not exist, or a timer that is not set, does not happen. */
  method Handle(pipe: NamedPipe, event: Event)
    requires pipe.Valid()
    modifies pipe, pipe.servers, pipe.clients
    ensures pipe.Valid() <==> !old(Breaks(pipe, event))
    ensures fresh((set s | s in pipe.servers) - (set s | s in old(pipe.servers)))
    ensures fresh((set c | c in pipe.clients) - (set c | c in old(pipe.clients)))
  {
    match event {
      case Create(existed, read, write, serverOk, ioctlOk) =>
        if existed || pipe.servers == [] {
          var _ := pipe.CreateServer(existed, read, write, serverOk, ioctlOk);
        }
      case ListenOn(i, queued) =>
        if i < |pipe.servers| {
          var _ := pipe.Listen(pipe.servers[i], queued);
        }
      case Open(read, write, socketOk, clientFd, serverFd) =>
        var _, _ := pipe.OpenFile(read, write, socketOk, clientFd, serverFd);
      case DisconnectOn(i) =>
        if i < |pipe.servers| {
          var _ := pipe.Disconnect(pipe.servers[i]);
        }
      case FlushOn(i, data, eventOk, timerOk) =>
        if i < |pipe.servers| {
          pipe.Flush(pipe.servers[i], data, eventOk, timerOk);
        }
      case Timer(i, data, timerOk) =>
        if i < |pipe.servers| && pipe.servers[i].flushPoll {
          pipe.CheckFlushed(pipe.servers[i], data, timerOk);
        }
      case CloseClient(i) =>
        if i < |pipe.clients| {
          pipe.DestroyClient(i);
        }
      case CloseServer(i) =>
        if i < |pipe.servers| {
          pipe.DestroyServer(i);
        }
    }
  }

  /** Every run from a new pipe keeps the invariant, so none of the assertions on the way can fail, up to the first
      event that breaks it. */
  method Run(maxInstances: int, shareRead: bool, shareWrite: bool, events: seq<Event>)
    returns (pipe: NamedPipe, handled: nat)
    ensures pipe.Valid() && fresh(pipe) && handled <= |events|
    ensures handled < |events| ==> Breaks(pipe, events[handled])
  {
    pipe := new NamedPipe(maxInstances, shareRead, shareWrite);
    handled := 0;
    while handled < |events|
      invariant 0 <= handled <= |events| && pipe.Valid() && fresh(pipe)
      invariant fresh(set s | s in pipe.servers) && fresh(set c | c in pipe.clients)
    {
      if Breaks(pipe, events[handled]) {
        return;
      }
      Handle(pipe, events[handled]);
      handled := handled + 1;
    }
  }

  /** A run that breaks the invariant: the client descriptor cannot be made for the first open of a new pipe. The next
      open finds the same server, whose descriptor is there already, against the assertion. */
  method BrokenOpen() returns (pipe: NamedPipe, server: PipeServer?)
    ensures !pipe.Valid()
    ensures server != null && server in pipe.servers && server.state == IdleServer && server.fd
  {
    pipe := new NamedPipe(1, true, true);
    var _ := pipe.CreateServer(false, true, true, true, true);
    assert pipe.servers[0].state == IdleServer;
    var _, _ := pipe.OpenFile(true, true, true, false, true);
    assert pipe.servers == [pipe.servers[0]];
    server := pipe.FindAvailableServer();
  }
}
