/**
 * The live-update part of the backend: the per-socket handshake over the
 * `userConnections` registry, the two broadcast helpers, and the handlers
 * that feed them. Each handler runs as one atomic step.
 */
module Server {
  import opened JsValues
  import opened Wire
  import opened Registry
  import opened Dispatch
  import opened Tasks

  predicate NoDuplicates(s: seq<UserId>) {
    forall i, j :: 0 <= i < j < |s| ==> s[i] != s[j]
  }

  /**
   * The state a `connection` callback closes over: its socket and
   * `let userId = null`. `closed` records that the `close` event has fired;
   * no message and no second close follow it.
   */
  class Connection {
    const socket: SocketId
    var userId: Option<UserId>
    var closed: bool

    constructor (socket: SocketId)
      ensures this.socket == socket && userId == None && !closed
    {
      this.socket := socket;
      userId := None;
      closed := false;
    }
  }

  /** `list.forEach(ws => { if (ws.readyState === WebSocket.OPEN) ws.send(message) })` */
  method SendToOpen(conns: seq<SocketId>, open: set<SocketId>, msg: PushMessage) returns (sent: seq<Delivery>)
    ensures sent == OpenSends(conns, open, msg)
  {
    sent := [];
    var j := 0;
    while j < |conns|
      invariant 0 <= j <= |conns|
      invariant sent == OpenSends(conns[..j], open, msg)
    {
      OpenSendsSnoc(conns, j, open, msg);
      if conns[j] in open {
        sent := sent + [Delivery(conns[j], msg)];
      }
      j := j + 1;
    }
    assert conns[..j] == conns;
  }

  /** The member loop of `broadcastEvent`: each member's OPEN sockets in turn, skipping members with no entry. */
  method SendToMembers(members: seq<UserId>, reg: Connections, open: set<SocketId>, msg: PushMessage)
    returns (sent: seq<Delivery>)
    ensures sent == Fanout(members, reg, open, msg)
  {
    sent := [];
    var i := 0;
    while i < |members|
      invariant 0 <= i <= |members|
      invariant sent == Fanout(members[..i], reg, open, msg)
    {
      var u := members[i];
      FanoutSnoc(members, i, reg, open, msg);
      if u in reg {
        var more := SendToOpen(reg[u], open, msg);
        sent := sent + more;
      }
      i := i + 1;
    }
    assert members[..i] == members;
  }

  class Server {
    /** `userConnections`: user id to the sockets authenticated as that user. */
    var userConnections: Connections
    /** Every `ws.send` so far, in order. */
    var outbox: seq<Delivery>
    /** The `notifications` table in insertion order. */
    var notifications: seq<NotificationRow>
    var tasks: map<TaskId, Task>
    var projects: map<ProjectId, Project>
    /** `project_members`: each project's member user ids, in the order the member query returns them. */
    var projectMembers: map<ProjectId, seq<UserId>>

    predicate Valid()
      reads this
    {
      && NoEmptyLists(userConnections)
      && PushedArePersisted(Sink(notifications, outbox))
      && ReadFlagsBinary(notifications)
      && (forall id :: id in tasks ==> tasks[id].id == id && WellFormed(tasks[id]))
      && (forall p :: p in projects ==> projects[p].id == p && !IsNullish(projects[p].name))
      && projectMembers.Keys <= projects.Keys
      && (forall p :: p in projectMembers ==> NoDuplicates(projectMembers[p]))
    }

    /** The audience of a project: its member ids, none for an unknown project. */
    function MembersOf(p: ProjectId): (m: seq<UserId>)
      reads this
      requires Valid()
      ensures NoDuplicates(m)
      ensures p !in projects ==> m == []
    {
      if p in projectMembers then projectMembers[p] else []
    }

    constructor ()
      ensures Valid()
      ensures userConnections == map[] && outbox == [] && notifications == []
      ensures tasks == map[] && projects == map[] && projectMembers == map[]
    {
      userConnections := map[];
      outbox := [];
      notifications := [];
      tasks := map[];
      projects := map[];
      projectMembers := map[];
    }

    // ----- the connection handler (server.js:469-505) -----

    /**
     * An `auth` frame. When the token verifies as `verified`, the connection
     * is bound to that user (replacing any earlier binding), the socket is
     * pushed onto the user's list (created if absent, even if the socket is
     * already there) and one `auth_success` goes back. When verification
     * throws, nothing changes and nothing is sent.
     */
    method OnAuth(conn: Connection, verified: Option<UserId>)
      requires Valid() && !conn.closed
      modifies this, conn
      ensures Valid() && !conn.closed
      ensures verified.Some? ==>
        && conn.userId == verified
        && userConnections == Register(old(userConnections), verified.value, conn.socket)
        && outbox == old(outbox) + [Delivery(conn.socket, AuthSuccess)]
      ensures verified.None? ==>
        conn.userId == old(conn.userId) && userConnections == old(userConnections) && outbox == old(outbox)
      ensures notifications == old(notifications) && tasks == old(tasks)
      ensures projects == old(projects) && projectMembers == old(projectMembers)
    {
      if verified.Some? {
        var u := verified.value;
        conn.userId := Some(u);
        var reg := userConnections;
        if u !in reg {
          reg := reg[u := []];
        }
        reg := reg[u := reg[u] + [conn.socket]];
        assert reg == Register(userConnections, u, conn.socket);
        var reply := [Delivery(conn.socket, AuthSuccess)];
        NoNoticeKeepsPushedPersisted(Sink(notifications, outbox), reply);
        userConnections := reg;
        outbox := outbox + reply;
      }
    }

    /** A `ping` frame is answered with `pong`, authenticated or not. */
    method OnPing(conn: Connection)
      requires Valid() && !conn.closed
      modifies this
      ensures Valid()
      ensures outbox == old(outbox) + [Delivery(conn.socket, Pong)]
      ensures userConnections == old(userConnections) && notifications == old(notifications)
      ensures tasks == old(tasks) && projects == old(projects) && projectMembers == old(projectMembers)
    {
      var reply := [Delivery(conn.socket, Pong)];
      NoNoticeKeepsPushedPersisted(Sink(notifications, outbox), reply);
      outbox := outbox + reply;
    }

    /**
     * One inbound frame. An unparseable frame, a failed verification or a
     * frame of any other type is swallowed without effect.
     */
    method OnMessage(conn: Connection, frame: Frame)
      requires Valid() && !conn.closed
      modifies this, conn
      ensures Valid() && !conn.closed
      ensures frame.AuthFrame? && frame.verified.Some? ==>
        && conn.userId == frame.verified
        && userConnections == Register(old(userConnections), frame.verified.value, conn.socket)
        && outbox == old(outbox) + [Delivery(conn.socket, AuthSuccess)]
      ensures frame.PingFrame? ==>
        conn.userId == old(conn.userId) && userConnections == old(userConnections)
        && outbox == old(outbox) + [Delivery(conn.socket, Pong)]
      ensures frame.Unparseable? || frame.OtherFrame? || frame == AuthFrame(None) ==>
        conn.userId == old(conn.userId) && userConnections == old(userConnections) && outbox == old(outbox)
      ensures notifications == old(notifications) && tasks == old(tasks)
      ensures projects == old(projects) && projectMembers == old(projectMembers)
    {
      match frame
      case AuthFrame(verified) => OnAuth(conn, verified);
      case PingFrame => OnPing(conn);
      case _ =>
    }

    /**
     * The close handler: one occurrence of the socket leaves the list of the
     * user the connection is bound to now; the entry goes once empty. A
     * connection that never authenticated changes nothing.
     */
    method OnClose(conn: Connection)
      requires Valid() && !conn.closed
      modifies this, conn
      ensures Valid() && conn.closed && conn.userId == old(conn.userId)
      ensures userConnections == Unregister(old(userConnections), conn.userId, conn.socket)
      ensures outbox == old(outbox) && notifications == old(notifications)
      ensures tasks == old(tasks) && projects == old(projects) && projectMembers == old(projectMembers)
    {
      var bound := conn.userId;
      var reg := userConnections;
      if Present(bound) && bound.value in reg {
        var u := bound.value;
        var connections := reg[u];
        var index := IndexOf(connections, conn.socket);
        if index > -1 {
          connections := connections[..index] + connections[index + 1..];
        }
        assert connections == RemoveFirst(reg[u], conn.socket);
        if |connections| == 0 {
          reg := reg - {u};
        } else {
          reg := reg[u := connections];
        }
      }
      assert reg == Unregister(userConnections, bound, conn.socket);
      userConnections := reg;
      conn.closed := true;
    }

    // ----- broadcast helpers (server.js:508-547) -----

    /**
     * `broadcastEvent`: one `{type, data}` send to every OPEN socket
     * registered under each member of the event's project, in member order.
     */
    method BroadcastEvent(e: DomainEvent, open: set<SocketId>)
      requires Valid()
      modifies this
      ensures Valid()
      ensures outbox == old(outbox) + Fanout(MembersOf(e.projectId), userConnections, open, Event(e))
      ensures userConnections == old(userConnections) && notifications == old(notifications)
      ensures tasks == old(tasks) && projects == old(projects) && projectMembers == old(projectMembers)
    {
      var msg := Event(e);
      var sent := SendToMembers(MembersOf(e.projectId), userConnections, open, msg);
      NoNoticeKeepsPushedPersisted(Sink(notifications, outbox), sent);
      outbox := outbox + sent;
    }

    /**
     * `broadcastNotification`: insert exactly one row, then push it to every
     * OPEN socket of the recipient alone. A failed insert pushes nothing.
     */
    method BroadcastNotification(req: NoticeRequest, id: NotificationId, insertedAt: int, pushedAt: int,
                                 insertOk: bool, open: set<SocketId>) returns (persisted: bool)
      requires Valid()
      modifies this
      ensures Valid()
      ensures persisted == (insertOk && id !in RowIds(old(notifications)))
      ensures Sink(notifications, outbox)
           == Post(Sink(old(notifications), old(outbox)), userConnections, open, req, id, insertedAt, pushedAt, insertOk)
      ensures userConnections == old(userConnections)
      ensures tasks == old(tasks) && projects == old(projects) && projectMembers == old(projectMembers)
    {
      persisted := insertOk && id !in RowIds(notifications);
      if !persisted {
        return;
      }
      var msg := Notification(Payload(req, id, pushedAt));
      var sent := [];
      if req.userId in userConnections {
        sent := SendToOpen(userConnections[req.userId], open, msg);
      }
      notifications := notifications + [StoredRow(req, id, insertedAt)];
      outbox := outbox + sent;
      NewRowKeepsFlagsBinary(old(notifications), StoredRow(req, id, insertedAt));
    }

    // ----- handlers that feed the dispatcher -----

    /**
     * `POST /api/projects`: insert the project, make the caller its owner
     * member, and notify the caller. A null name (NOT NULL) or a taken id
     * fails with 400 and changes nothing.
     */
    method CreateProject(caller: UserId, name: JsVal, description: JsVal, projectId: ProjectId, now: int,
                         noticeId: NotificationId, noticeOk: bool, open: set<SocketId>) returns (r: Reply<ProjectReply>)
      requires Valid()
      modifies this
      ensures Valid()
      ensures r.Error? <==> IsNullish(name) || projectId in old(projects)
      ensures r.Error? ==> r.status == 400 && unchanged(this)
      ensures r.Ok? ==>
        && r.value == ProjectReply(projectId, name, description, caller)
        && projects == old(projects)[projectId := Project(projectId, name, Or(description, Str("")), caller, now)]
        && projectMembers == old(projectMembers)[projectId := [caller]]
        && Sink(notifications, outbox)
           == Post(Sink(old(notifications), old(outbox)), userConnections, open,
                   NoticeRequest(caller, ProjectCreated, "You created project \"" + Interpolate(name) + "\"", Some(projectId), None),
                   noticeId, now, now, noticeOk)
      ensures userConnections == old(userConnections) && tasks == old(tasks)
    {
      if IsNullish(name) || projectId in projects {
        return Error(400);
      }
      var project := Project(projectId, name, Or(description, Str("")), caller, now);
      projects := projects[projectId := project];
      projectMembers := projectMembers[projectId := [caller]];
      var req := NoticeRequest(caller, ProjectCreated, "You created project \"" + Interpolate(name) + "\"", Some(projectId), None);
      var _ := BroadcastNotification(req, noticeId, now, now, noticeOk, open);
      r := Ok(ProjectReply(projectId, name, description, caller));
    }

    /**
     * `POST /api/projects/:projectId/members`: 404 for an unknown project,
     * 403 unless the caller owns it, 400 when the user id is missing or
     * already a member (UNIQUE); otherwise add the member and notify the new
     * member whether or not they are connected.
     */
    method AddMember(caller: UserId, projectId: ProjectId, userId: Option<UserId>, memberRowId: string, now: int,
                     noticeId: NotificationId, noticeOk: bool, open: set<SocketId>) returns (r: Reply<MemberReply>)
      requires Valid()
      modifies this
      ensures Valid()
      ensures projectId !in old(projects) ==> r == Error(404)
      ensures projectId in old(projects) && old(projects)[projectId].ownerId != caller ==> r == Error(403)
      ensures projectId in old(projects) && old(projects)[projectId].ownerId == caller && r.Error? ==> r.status == 400
      ensures r.Error? ==> unchanged(this)
      ensures r.Ok? ==>
        && projectId in old(projects) && old(projects)[projectId].ownerId == caller
        && userId.Some? && userId.value !in old(MembersOf(projectId))
        && r.value == MemberReply(memberRowId, projectId, userId.value, "member")
        && projectMembers == old(projectMembers)[projectId := old(MembersOf(projectId)) + [userId.value]]
        && Sink(notifications, outbox)
           == Post(Sink(old(notifications), old(outbox)), userConnections, open,
                   NoticeRequest(userId.value, AddedToProject,
                                 "Added to project \"" + Interpolate(old(projects)[projectId].name) + "\"", Some(projectId), None),
                   noticeId, now, now, noticeOk)
      ensures projectId in old(projects) && old(projects)[projectId].ownerId == caller ==>
        (r.Ok? <==> userId.Some? && userId.value !in old(MembersOf(projectId)))
      ensures userConnections == old(userConnections) && tasks == old(tasks) && projects == old(projects)
    {
      if projectId !in projects {
        return Error(404);
      }
      var project := projects[projectId];
      if project.ownerId != caller {
        return Error(403);
      }
      var members := MembersOf(projectId);
      if userId.None? || userId.value in members {
        return Error(400);
      }
      var u := userId.value;
      projectMembers := projectMembers[projectId := members + [u]];
      var req := NoticeRequest(u, AddedToProject, "Added to project \"" + Interpolate(project.name) + "\"", Some(projectId), None);
      var _ := BroadcastNotification(req, noticeId, now, now, noticeOk, open);
      r := Ok(MemberReply(memberRowId, projectId, u, "member"));
    }

    /**
     * `POST /api/projects/:projectId/tasks`: insert the task row, notify
     * every member once, then emit one `task_created` event carrying the
     * stored row. A null title (NOT NULL) or a taken id fails with 400 and
     * changes nothing. Every clock read of the step gives `now`.
     */
    method CreateTask(caller: UserId, projectId: ProjectId, input: TaskInput, taskId: TaskId, now: int,
                      noticeIds: seq<NotificationId>, noticeOks: seq<bool>, open: set<SocketId>) returns (r: Reply<Task>)
      requires Valid()
      requires |noticeIds| == |noticeOks| == |MembersOf(projectId)|
      modifies this
      ensures Valid()
      ensures r.Error? <==> IsNullish(input.title) || taskId in old(tasks)
      ensures r.Error? ==> r.status == 400 && unchanged(this)
      ensures r.Ok? ==>
        && Some(r.value) == NewTaskRow(taskId, projectId, caller, input, now)
        && tasks == old(tasks)[taskId := r.value]
        && var notified := NotifyMembers(Sink(old(notifications), old(outbox)), userConnections, open,
                                         old(MembersOf(projectId)), noticeIds, noticeOks, input.title, projectId, taskId, now);
           && notifications == notified.rows
           && outbox == notified.outbox + Fanout(MembersOf(projectId), userConnections, open, Event(TaskCreated(projectId, r.value)))
      ensures |notifications| >= |old(notifications)| && notifications[..|old(notifications)|] == old(notifications)
      ensures userConnections == old(userConnections) && projects == old(projects) && projectMembers == old(projectMembers)
    {
      if taskId in tasks {
        return Error(400);
      }
      var row := NewTaskRow(taskId, projectId, caller, input, now);
      if row.None? {
        return Error(400);
      }
      tasks := tasks[taskId := row.value];
      var task := tasks[taskId];
      var members := MembersOf(projectId);
      ghost var start := Sink(notifications, outbox);
      var i := 0;
      while i < |members|
        invariant 0 <= i <= |members|
        invariant Valid()
        invariant Sink(notifications, outbox)
               == NotifyMembers(start, userConnections, open, members[..i], noticeIds[..i], noticeOks[..i], input.title, projectId, taskId, now)
        invariant tasks == old(tasks)[taskId := task] && MembersOf(projectId) == members
        invariant userConnections == old(userConnections) && projects == old(projects) && projectMembers == old(projectMembers)
      {
        NotifyMembersSnoc(start, userConnections, open, members, noticeIds, noticeOks, input.title, projectId, taskId, now, i);
        var _ := BroadcastNotification(TaskNotice(members[i], input.title, projectId, taskId), noticeIds[i], now, now, noticeOks[i], open);
        i := i + 1;
      }
      assert members[..i] == members && noticeIds[..i] == noticeIds && noticeOks[..i] == noticeOks;
      NotifyMembersExtends(start, userConnections, open, members, noticeIds, noticeOks, input.title, projectId, taskId, now);
      BroadcastEvent(TaskCreated(projectId, task), open);
      r := Ok(task);
    }

    /**
     * `PUT /api/tasks/:taskId`: 404 with no write and no event for a missing
     * task; otherwise merge the body into the row and emit `task_updated`
     * with the stored row to the project's members.
     */
    method UpdateTask(taskId: TaskId, update: TaskUpdate, open: set<SocketId>) returns (r: Reply<Task>)
      requires Valid()
      modifies this
      ensures Valid()
      ensures taskId !in old(tasks) <==> r.Error?
      ensures r.Error? ==> r.status == 404 && unchanged(this)
      ensures r.Ok? ==>
        && r.value == Merge(old(tasks)[taskId], update)
        && tasks == old(tasks)[taskId := r.value]
        && outbox == old(outbox) + Fanout(MembersOf(r.value.projectId), userConnections, open, Event(TaskUpdated(r.value.projectId, r.value)))
        && notifications == old(notifications)
      ensures userConnections == old(userConnections) && projects == old(projects) && projectMembers == old(projectMembers)
    {
      if taskId !in tasks {
        return Error(404);
      }
      var task := tasks[taskId];
      tasks := tasks[taskId := Merge(task, update)];
      var updated := tasks[taskId];
      BroadcastEvent(TaskUpdated(task.projectId, updated), open);
      r := Ok(updated);
    }

    /** `DELETE /api/tasks/:taskId`: 404 for a missing task; otherwise delete it and emit `task_deleted`. */
    method DeleteTask(taskId: TaskId, open: set<SocketId>) returns (r: Reply<bool>)
      requires Valid()
      modifies this
      ensures Valid()
      ensures taskId !in old(tasks) <==> r.Error?
      ensures r.Error? ==> r.status == 404 && unchanged(this)
      ensures r.Ok? ==>
        && r.value
        && tasks == old(tasks) - {taskId}
        && notifications == old(notifications)
        && (var p := old(tasks)[taskId].projectId;
            outbox == old(outbox) + Fanout(MembersOf(p), userConnections, open, Event(TaskDeleted(p, taskId))))
      ensures userConnections == old(userConnections) && projects == old(projects) && projectMembers == old(projectMembers)
    {
      if taskId !in tasks {
        return Error(404);
      }
      var task := tasks[taskId];
      tasks := tasks - {taskId};
      BroadcastEvent(TaskDeleted(task.projectId, taskId), open);
      r := Ok(true);
    }

    /** `PUT /api/notifications/:notificationId/read`: set `read = 1` on the row with that id, if any. */
    method MarkNotificationRead(id: NotificationId)
      requires Valid()
      modifies this
      ensures Valid()
      ensures notifications == MarkRead(old(notifications), id)
      ensures outbox == old(outbox) && userConnections == old(userConnections)
      ensures tasks == old(tasks) && projects == old(projects) && projectMembers == old(projectMembers)
    {
      MarkReadKeepsIds(notifications, id);
      MarkReadMonotone(notifications, id);
      notifications := MarkRead(notifications, id);
    }
  }

  /** Sends that carry no notification cannot break persist-before-push. */
  lemma NoNoticeKeepsPushedPersisted(sink: Sink, extra: seq<Delivery>)
    requires PushedArePersisted(sink)
    requires forall d :: d in extra ==> !d.msg.Notification?
    ensures PushedArePersisted(Sink(sink.rows, sink.outbox + extra))
  {
    forall d | d in sink.outbox + extra && d.msg.Notification? ensures d.msg.data.id in RowIds(sink.rows) {
      if d !in extra { assert d in sink.outbox; }
    }
  }

  lemma NewRowKeepsFlagsBinary(rows: seq<NotificationRow>, row: NotificationRow)
    requires ReadFlagsBinary(rows) && row.read == 0
    ensures ReadFlagsBinary(rows + [row])
  {
  }

  /** Marking a row read keeps the set of row ids. */
  lemma MarkReadKeepsIds(rows: seq<NotificationRow>, id: NotificationId)
    ensures RowIds(MarkRead(rows, id)) == RowIds(rows)
  {
    var marked := MarkRead(rows, id);
    forall x ensures x in RowIds(marked) <==> x in RowIds(rows) {
      if x in RowIds(marked) {
        var w :| w in marked && w.id == x;
        var k :| 0 <= k < |marked| && marked[k] == w;
        assert rows[k].id == x;
      }
      if x in RowIds(rows) {
        var w :| w in rows && w.id == x;
        var k :| 0 <= k < |rows| && rows[k] == w;
        assert marked[k].id == x;
      }
    }
  }
}
