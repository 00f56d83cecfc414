/**
 * The browser client's module-level session state (`token`, `currentUser`,
 * `currentProject`, `ws`) and the functions of main.js that update it.
 * Sockets are identified by number; `sockets` records the ready state of
 * every WebSocket the page has created, and `sent` every frame it sent.
 */
module Client {
  import opened JsValues
  import opened Wire
  import opened ClientLogic

  datatype User = User(id: UserId, name: string, email: string)

  /** Frames the page sends: `{type:'auth', token}` and `{type:'ping'}`. */
  datatype ClientFrame = AuthRequest(token: Option<string>) | PingRequest

  datatype ReadyState = Connecting | Open | Closed

  /**
   * What `api('/api/auth/...')` resolves to: a 401 (after which `api` has
   * already logged out and returned null), or a JSON body.
   */
  datatype AuthReply = Unauthorized | Body(token: Option<string>, user: Option<User>)

  class Client {
    var token: Option<string>
    var currentUser: Option<User>
    var currentProject: Option<ProjectId>
    var ws: Option<SocketId>
    var sockets: map<SocketId, ReadyState>
    var sent: seq<(SocketId, ClientFrame)>

    /**
     * `ws` is one of the page's sockets, and every frame went to a socket
     * that had opened by then: a socket still connecting has sent nothing.
     */
    predicate Valid()
      reads this
    {
      && (ws.Some? ==> ws.value in sockets)
      && (forall i :: 0 <= i < |sent| ==> sent[i].0 in sockets && sockets[sent[i].0] != Connecting)
    }

    /** Page load: the session is read back from local storage; no project, no socket. */
    constructor (storedToken: Option<string>, storedUser: Option<User>)
      ensures Valid()
      ensures token == storedToken && currentUser == storedUser
      ensures currentProject == None && ws == None && sockets == map[] && sent == []
    {
      token := storedToken;
      currentUser := storedUser;
      currentProject := None;
      ws := None;
      sockets := map[];
      sent := [];
    }

    /**
     * `connectWebSocket`: nothing without a token; otherwise a new socket
     * replaces `ws` (the previous one is neither closed nor forgotten by the
     * browser).
     */
    method ConnectWebSocket(socket: SocketId)
      requires Valid() && socket !in sockets
      modifies this
      ensures Valid()
      ensures !Present(old(token)) ==> ws == old(ws) && sockets == old(sockets)
      ensures Present(old(token)) ==> ws == Some(socket) && sockets == old(sockets)[socket := Connecting]
      ensures token == old(token) && currentUser == old(currentUser) && currentProject == old(currentProject)
      ensures sent == old(sent)
    {
      if !Present(token) {
        return;
      }
      ws := Some(socket);
      sockets := sockets[socket := Connecting];
    }

    /**
     * A socket's `onopen`: it sends `{type:'auth', token}` through the global
     * `ws`, which is the socket that opened only if no later
     * `connectWebSocket` replaced it. Sending on a socket still connecting
     * throws, and on a closed one is dropped, so nothing is sent then.
     */
    method OnOpen(s: SocketId)
      requires Valid() && s in sockets && sockets[s] == Connecting
      modifies this
      ensures Valid()
      ensures sockets == old(sockets)[s := Open]
      ensures ws.Some? && sockets[ws.value] == Open ==> sent == old(sent) + [(ws.value, AuthRequest(token))]
      ensures !(ws.Some? && sockets[ws.value] == Open) ==> sent == old(sent)
      ensures old(ws) == Some(s) ==> sent == old(sent) + [(s, AuthRequest(token))]
      ensures forall i :: 0 <= i < |old(sent)| ==> old(sent)[i].0 != s
      ensures token == old(token) && currentUser == old(currentUser) && currentProject == old(currentProject)
      ensures ws == old(ws)
    {
      sockets := sockets[s := Open];
      if ws.Some? && sockets[ws.value] == Open {
        sent := sent + [(ws.value, AuthRequest(token))];
      }
    }

    /** The keepalive timer: a `ping` only while `ws` is OPEN. */
    method KeepaliveTick()
      requires Valid()
      modifies this
      ensures Valid()
      ensures ws.Some? && sockets[ws.value] == Open ==> sent == old(sent) + [(ws.value, PingRequest)]
      ensures !(ws.Some? && sockets[ws.value] == Open) ==> sent == old(sent)
      ensures token == old(token) && currentUser == old(currentUser) && currentProject == old(currentProject)
      ensures ws == old(ws) && sockets == old(sockets)
    {
      if ws.Some? && sockets[ws.value] == Open {
        sent := sent + [(ws.value, PingRequest)];
      }
    }

    /**
     * `logout`: clear the token and the user and close `ws`. The selected
     * project and the `ws` reference itself are kept.
     */
    method Logout()
      requires Valid()
      modifies this
      ensures Valid()
      ensures token == None && currentUser == None
      ensures currentProject == old(currentProject) && ws == old(ws) && sent == old(sent)
      ensures ws.Some? ==> sockets == old(sockets)[ws.value := Closed]
      ensures ws.None? ==> sockets == old(sockets)
    {
      token := None;
      currentUser := None;
      if ws.Some? {
        sockets := sockets[ws.value := Closed];
      }
    }

    /** `selectProject`: the project whose task events the board follows. */
    method SelectProject(p: ProjectId)
      requires Valid()
      modifies this
      ensures Valid()
      ensures currentProject == Some(p)
      ensures token == old(token) && currentUser == old(currentUser)
      ensures ws == old(ws) && sockets == old(sockets) && sent == old(sent)
    {
      currentProject := Some(p);
    }

    /** `loadDashboard`'s session part: without a token it shows the sign-in form, otherwise it connects. */
    method LoadDashboard(socket: SocketId)
      requires Valid() && socket !in sockets
      modifies this
      ensures Valid()
      ensures !Present(old(token)) ==> ws == old(ws) && sockets == old(sockets)
      ensures Present(old(token)) ==> ws == Some(socket) && sockets == old(sockets)[socket := Connecting]
      ensures token == old(token) && currentUser == old(currentUser) && currentProject == old(currentProject)
      ensures sent == old(sent)
    {
      if !Present(token) {
        return;
      }
      ConnectWebSocket(socket);
    }

    /**
     * What `register` and `login` do with the reply: a 401 has logged out; a
     * truthy token is stored with the user, then `connectWebSocket` and
     * `loadDashboard` each open a socket; any other body changes nothing.
     * `login`'s welcome reads `currentUser.name` between the two calls
     * (`welcomesStoredUser`): with no user in the reply that read throws, so
     * only the first socket is opened.
     */
    method AcceptSession(reply: AuthReply, first: SocketId, second: SocketId, welcomesStoredUser: bool)
      requires Valid() && first !in sockets && second !in sockets && first != second
      modifies this
      ensures Valid()
      ensures reply.Unauthorized? ==>
        && token == None && currentUser == None && currentProject == old(currentProject) && ws == old(ws)
        && (ws.Some? ==> sockets == old(sockets)[ws.value := Closed])
        && (ws.None? ==> sockets == old(sockets))
      ensures reply.Body? && Present(reply.token) && (welcomesStoredUser ==> reply.user.Some?) ==>
        && token == reply.token && currentUser == reply.user && currentProject == old(currentProject)
        && ws == Some(second) && sockets == old(sockets)[first := Connecting][second := Connecting]
      ensures reply.Body? && Present(reply.token) && welcomesStoredUser && reply.user.None? ==>
        && token == reply.token && currentUser == None && currentProject == old(currentProject)
        && ws == Some(first) && sockets == old(sockets)[first := Connecting]
      ensures reply.Body? && !Present(reply.token) ==>
        token == old(token) && currentUser == old(currentUser) && currentProject == old(currentProject)
        && ws == old(ws) && sockets == old(sockets)
      ensures sent == old(sent)
    {
      match reply
      case Unauthorized =>
        Logout();
      case Body(t, user) =>
        if Present(t) {
          token := t;
          currentUser := user;
          ConnectWebSocket(first);
          if welcomesStoredUser && user.None? {
            return;
          }
          LoadDashboard(second);
        }
    }

    /**
     * `login`: validate, then accept the reply; a token without a user stops
     * at the welcome message, after the first socket.
     */
    method Login(email: string, password: string, reply: AuthReply, first: SocketId, second: SocketId)
      returns (v: Validation)
      requires Valid() && first !in sockets && second !in sockets && first != second
      modifies this
      ensures Valid()
      ensures v == ValidateLogin(email, password)
      ensures v.Reject? ==> unchanged(this)
      ensures v == Proceed && reply.Unauthorized? ==>
        && token == None && currentUser == None && ws == old(ws)
        && (ws.Some? ==> sockets == old(sockets)[ws.value := Closed])
        && (ws.None? ==> sockets == old(sockets))
      ensures v == Proceed && reply.Body? && Present(reply.token) && reply.user.Some? ==>
        && token == reply.token && currentUser == reply.user
        && ws == Some(second) && sockets == old(sockets)[first := Connecting][second := Connecting]
      ensures v == Proceed && reply.Body? && Present(reply.token) && reply.user.None? ==>
        && token == reply.token && currentUser == None
        && ws == Some(first) && sockets == old(sockets)[first := Connecting]
      ensures v == Proceed && reply.Body? && !Present(reply.token) ==>
        token == old(token) && currentUser == old(currentUser) && ws == old(ws) && sockets == old(sockets)
      ensures sent == old(sent) && currentProject == old(currentProject)
    {
      v := ValidateLogin(email, password);
      if v.Reject? {
        return;
      }
      AcceptSession(reply, first, second, true);
    }

    /** `register`: validate, then accept the reply. */
    method Register(name: string, email: string, password: string, reply: AuthReply, first: SocketId, second: SocketId)
      returns (v: Validation)
      requires Valid() && first !in sockets && second !in sockets && first != second
      modifies this
      ensures Valid()
      ensures v == ValidateRegister(name, email, password)
      ensures v.Reject? ==> unchanged(this)
      ensures v == Proceed && reply.Unauthorized? ==>
        && token == None && currentUser == None && ws == old(ws)
        && (ws.Some? ==> sockets == old(sockets)[ws.value := Closed])
        && (ws.None? ==> sockets == old(sockets))
      ensures v == Proceed && reply.Body? && Present(reply.token) ==>
        && token == reply.token && currentUser == reply.user
        && ws == Some(second) && sockets == old(sockets)[first := Connecting][second := Connecting]
      ensures v == Proceed && reply.Body? && !Present(reply.token) ==>
        token == old(token) && currentUser == old(currentUser) && ws == old(ws) && sockets == old(sockets)
      ensures sent == old(sent) && currentProject == old(currentProject)
    {
      v := ValidateRegister(name, email, password);
      if v.Reject? {
        return;
      }
      AcceptSession(reply, first, second, false);
    }
  }

  /**
   * Reloading the page with a stored token connects once, and that socket's
   * first frame is `auth` with the token.
   */
  method PageLoadAuthenticates(tok: string, user: User, s: SocketId) returns (frames: seq<(SocketId, ClientFrame)>)
    requires tok != ""
    ensures frames == [(s, AuthRequest(Some(tok)))]
  {
    var c := new Client(Some(tok), Some(user));
    c.LoadDashboard(s);
    c.OnOpen(s);
    frames := c.sent;
  }

  /**
   * A successful login opens two sockets (one from `login`, one from
   * `loadDashboard`). When the second opens first, both `onopen` handlers
   * authenticate the second socket, so the server registers it twice; the
   * first socket never authenticates and stays open after logout.
   */
  method LoginAuthenticatesSecondSocketTwice(email: string, password: string, tok: string, user: User,
                                             first: SocketId, second: SocketId)
    returns (frames: seq<(SocketId, ClientFrame)>, states: map<SocketId, ReadyState>)
    requires email != "" && password != "" && tok != "" && first != second
    ensures frames == [(second, AuthRequest(Some(tok))), (second, AuthRequest(Some(tok)))]
    ensures states == map[first := Open, second := Closed]
  {
    var c := new Client(None, None);
    var v := c.Login(email, password, Body(Some(tok), Some(user)), first, second);
    c.OnOpen(second);
    c.OnOpen(first);
    c.Logout();
    frames, states := c.sent, c.sockets;
  }
}
