/**
 * The decisions of the browser client lifted out of its DOM code: how a
 * pushed message is routed, the unread badge, form validation and the
 * board's status columns.
 */
module ClientLogic {
  import opened JsValues
  import opened Wire
  import Tasks
  import Dispatch

  // ----- ws.onmessage routing (main.js:58-81) -----

  /** What the message handler does with one server message. */
  datatype Reaction =
    | NoReaction
    | LogConnected
    | ShowAndRecount(content: string)
    | ReloadTasks
    | ReloadComments(taskId: TaskId)

  /**
   * Route one pushed message given the selected project and whether the
   * task-details modal is active.
   */
  function Route(msg: PushMessage, currentProject: Option<ProjectId>, detailsOpen: bool): (r: Reaction)
    ensures r.ReloadTasks? <==>
      && msg.Event? && (msg.event.TaskCreated? || msg.event.TaskUpdated? || msg.event.TaskDeleted?)
      && Present(currentProject) && msg.event.projectId == currentProject.value
    ensures r.ReloadComments? <==> msg.Event? && msg.event.CommentAdded? && detailsOpen
    ensures r.ReloadComments? ==> r.taskId == msg.event.taskId
    ensures r.ShowAndRecount? <==> msg.Notification?
    ensures r.ShowAndRecount? ==> r.content == msg.data.content
    ensures r.LogConnected? <==> msg.AuthSuccess?
  {
    match msg
    case AuthSuccess => LogConnected
    case Pong => NoReaction
    case Notification(data) => ShowAndRecount(data.content)
    case Event(e) =>
      match e
      case CommentAdded(_, taskId, _) => if detailsOpen then ReloadComments(taskId) else NoReaction
      case _ => if Present(currentProject) && e.projectId == currentProject.value then ReloadTasks else NoReaction
  }

  /** With no project selected, no task event ever reloads the board. */
  lemma NoProjectNoReload(msg: PushMessage, detailsOpen: bool)
    ensures Route(msg, None, detailsOpen) != ReloadTasks
    ensures Route(msg, Some(""), detailsOpen) != ReloadTasks
  {
  }

  // ----- the unread badge (main.js:110-125) -----

  /** `notifications.filter(n => !n.read)` */
  function Unread(ns: seq<NotificationRow>): (r: seq<NotificationRow>)
    ensures |r| <= |ns|
    ensures |r| == multiset(ReadFlags(ns))[0]
    ensures forall n :: multiset(r)[n] == if n.read == 0 then multiset(ns)[n] else 0
    decreases |ns|
  {
    if ns == [] then []
    else
      var k := |ns| - 1;
      UnreadStep(ns);
      Unread(ns[..k]) + (if ns[k].read == 0 then [ns[k]] else [])
  }

  /** The `read` flag of every listed notification, in list order. */
  function ReadFlags(ns: seq<NotificationRow>): seq<int> {
    seq(|ns|, i requires 0 <= i < |ns| => ns[i].read)
  }

  /** The last notification adds its flag last, and itself once to the multiset. */
  lemma UnreadStep(ns: seq<NotificationRow>)
    requires ns != []
    ensures ReadFlags(ns) == ReadFlags(ns[..|ns| - 1]) + [ns[|ns| - 1].read]
    ensures multiset(ns) == multiset(ns[..|ns| - 1]) + multiset{ns[|ns| - 1]}
  {
    assert ns == ns[..|ns| - 1] + [ns[|ns| - 1]];
  }

  /** The badge count: how many listed notifications carry `read == 0`. */
  function UnreadCount(ns: seq<NotificationRow>): (c: nat)
    ensures c == multiset(ReadFlags(ns))[0]
    ensures c <= |ns|
  {
    |Unread(ns)|
  }

  /** The badge is hidden exactly when every listed notification has been read. */
  function BadgeHidden(ns: seq<NotificationRow>): (hidden: bool)
    ensures hidden <==> forall k :: 0 <= k < |ns| ==> ns[k].read != 0
  {
    NoZeroFlag(ns);
    UnreadCount(ns) == 0
  }

  lemma NoZeroFlag(ns: seq<NotificationRow>)
    ensures multiset(ReadFlags(ns))[0] == 0 <==> forall k :: 0 <= k < |ns| ==> ns[k].read != 0
  {
    if k :| 0 <= k < |ns| && ns[k].read == 0 {
      assert ReadFlags(ns)[k] == 0;
    }
  }

  /** A freshly stored notification is unread: it adds exactly one to the badge. */
  lemma NewRowRaisesCount(ns: seq<NotificationRow>, req: NoticeRequest, id: NotificationId, at: int)
    ensures UnreadCount(ns + [Dispatch.StoredRow(req, id, at)]) == UnreadCount(ns) + 1
  {
    assert (ns + [Dispatch.StoredRow(req, id, at)])[..|ns|] == ns;
  }

  /**
   * Marking a notification read lowers the badge by the number of unread
   * rows with that id, and never raises it.
   */
  lemma {:induction false} MarkReadLowersCount(ns: seq<NotificationRow>, id: NotificationId)
    ensures UnreadCount(Tasks.MarkRead(ns, id)) == UnreadCount(ns) - UnreadWithId(ns, id)
    ensures UnreadCount(Tasks.MarkRead(ns, id)) <= UnreadCount(ns)
    decreases |ns|
  {
    if ns != [] {
      var k := |ns| - 1;
      var m := Tasks.MarkRead(ns, id);
      MarkReadLowersCount(ns[..k], id);
      MarkReadPrefix(ns, id);
      assert m[k].read == if ns[k].id == id then 1 else ns[k].read;
      UnreadCountSnoc(m);
      UnreadWithIdBound(ns[..k], id);
    }
  }

  lemma UnreadCountSnoc(ns: seq<NotificationRow>)
    requires ns != []
    ensures UnreadCount(ns) == UnreadCount(ns[..|ns| - 1]) + (if ns[|ns| - 1].read == 0 then 1 else 0)
  {
  }

  lemma MarkReadPrefix(ns: seq<NotificationRow>, id: NotificationId)
    requires ns != []
    ensures Tasks.MarkRead(ns, id)[..|ns| - 1] == Tasks.MarkRead(ns[..|ns| - 1], id)
  {
    var k := |ns| - 1;
    var a, b := Tasks.MarkRead(ns, id)[..k], Tasks.MarkRead(ns[..k], id);
    assert |a| == |b|;
    forall i | 0 <= i < k ensures a[i] == b[i] {
      assert a[i].(read := ns[i].read) == ns[i];
      assert b[i].(read := ns[i].read) == ns[i];
    }
  }

  /** How many unread rows carry `id`. */
  function UnreadWithId(ns: seq<NotificationRow>, id: NotificationId): nat
    decreases |ns|
  {
    if ns == [] then 0
    else
      var k := |ns| - 1;
      UnreadWithId(ns[..k], id) + (if ns[k].read == 0 && ns[k].id == id then 1 else 0)
  }

  lemma {:induction false} UnreadWithIdBound(ns: seq<NotificationRow>, id: NotificationId)
    ensures UnreadWithId(ns, id) <= UnreadCount(ns)
    decreases |ns|
  {
    if ns != [] {
      UnreadWithIdBound(ns[..|ns| - 1], id);
    }
  }

  // ----- form validation (main.js:128-141, 161-168) -----

  /** Whether a form goes on to the request, or stops with a message. */
  datatype Validation = Proceed | Reject(message: string)

  /**
   * `register`: an empty name, email or password stops first; then a
   * password shorter than 6 characters.
   */
  function ValidateRegister(name: string, email: string, password: string): (r: Validation)
    ensures r == Proceed <==> name != "" && email != "" && |password| >= 6
    ensures name == "" || email == "" || password == "" ==> r == Reject("All fields required")
    ensures name != "" && email != "" && 0 < |password| < 6 ==> r == Reject("Password must be at least 6 characters")
  {
    if name == "" || email == "" || password == "" then Reject("All fields required")
    else if |password| < 6 then Reject("Password must be at least 6 characters")
    else Proceed
  }

  /** `login`: an empty email or password stops before any request. */
  function ValidateLogin(email: string, password: string): (r: Validation)
    ensures r == Proceed <==> email != "" && password != ""
    ensures r.Reject? ==> r.message == "Email and password required"
  {
    if email == "" || password == "" then Reject("Email and password required") else Proceed
  }

  /**
   * Whatever the register form lets through also passes the server's own
   * missing-field check (server.js:149).
   */
  lemma RegisterFormPassesServerCheck(name: string, email: string, password: string)
    requires ValidateRegister(name, email, password) == Proceed
    ensures Truthy(Str(name)) && Truthy(Str(email)) && Truthy(Str(password))
  {
  }

  // ----- the board (main.js:501-526) -----

  /** The board's columns, in display order. */
  const Statuses: seq<string> := ["todo", "in-progress", "done"]

  /** `tasks.filter(t => t.status === status)` */
  function Column(tasks: seq<Task>, status: string): (col: seq<Task>)
    ensures |col| <= |tasks|
    ensures forall t :: t in col <==> t in tasks && t.status == Str(status)
    decreases |tasks|
  {
    if tasks == [] then []
    else
      var k := |tasks| - 1;
      Column(tasks[..k], status) + (if tasks[k].status == Str(status) then [tasks[k]] else [])
  }

  /** Whether a status is one of the three the board renders. */
  predicate OnBoard(status: JsVal) {
    status == Str(Statuses[0]) || status == Str(Statuses[1]) || status == Str(Statuses[2])
  }

  /** Tasks whose status is none of the three: they appear in no column. */
  function OffBoard(tasks: seq<Task>): (r: seq<Task>)
    ensures forall t :: t in r <==> t in tasks && forall s :: s in Statuses ==> t.status != Str(s)
    decreases |tasks|
  {
    if tasks == [] then []
    else
      var k := |tasks| - 1;
      OffBoard(tasks[..k]) + (if OnBoard(tasks[k].status) then [] else [tasks[k]])
  }

  /** The three columns as `loadTasks` renders them. */
  function Board(tasks: seq<Task>): (b: seq<seq<Task>>)
    ensures |b| == |Statuses|
    ensures forall i, t :: 0 <= i < |b| ==> (t in b[i] <==> t in tasks && t.status == Str(Statuses[i]))
  {
    seq(3, i requires 0 <= i < 3 => Column(tasks, Statuses[i]))
  }

  /**
   * The columns and the off-board tasks partition the task list: every task
   * is counted in exactly one of them, duplicates included.
   */
  lemma {:induction false} BoardPartition(tasks: seq<Task>)
    ensures multiset(Column(tasks, "todo")) + multiset(Column(tasks, "in-progress"))
          + multiset(Column(tasks, "done")) + multiset(OffBoard(tasks)) == multiset(tasks)
    decreases |tasks|
  {
    if tasks != [] {
      var k := |tasks| - 1;
      var p, t := tasks[..k], tasks[k];
      BoardPartition(p);
      ColumnStep(tasks, "todo");
      ColumnStep(tasks, "in-progress");
      ColumnStep(tasks, "done");
      OffBoardStep(tasks);
      MultisetSnoc(tasks);
      AddToOnePart(multiset(Column(p, "todo")), multiset(Column(p, "in-progress")),
                   multiset(Column(p, "done")), multiset(OffBoard(p)),
                   multiset(Column(tasks, "todo")), multiset(Column(tasks, "in-progress")),
                   multiset(Column(tasks, "done")), multiset(OffBoard(tasks)), t);
    }
  }

  lemma MultisetSnoc(s: seq<Task>)
    requires s != []
    ensures multiset(s) == multiset(s[..|s| - 1]) + multiset{s[|s| - 1]}
  {
    assert s == s[..|s| - 1] + [s[|s| - 1]];
  }

  /** Adding one element to exactly one of four parts adds it once to their sum. */
  lemma AddToOnePart(a: multiset<Task>, b: multiset<Task>, c: multiset<Task>, d: multiset<Task>,
                     a': multiset<Task>, b': multiset<Task>, c': multiset<Task>, d': multiset<Task>, t: Task)
    requires || (a' == a + multiset{t} && b' == b && c' == c && d' == d)
             || (a' == a && b' == b + multiset{t} && c' == c && d' == d)
             || (a' == a && b' == b && c' == c + multiset{t} && d' == d)
             || (a' == a && b' == b && c' == c && d' == d + multiset{t})
    ensures a' + b' + c' + d' == a + b + c + d + multiset{t}
  {
  }

  /** The last task adds itself to its column's multiset and to no other. */
  lemma ColumnStep(tasks: seq<Task>, status: string)
    requires tasks != []
    ensures var k := |tasks| - 1;
      multiset(Column(tasks, status))
        == multiset(Column(tasks[..k], status)) + (if tasks[k].status == Str(status) then multiset{tasks[k]} else multiset{})
  {
  }

  /** The last task adds itself to the off-board multiset exactly when it has none of the three statuses. */
  lemma OffBoardStep(tasks: seq<Task>)
    requires tasks != []
    ensures var k := |tasks| - 1;
      multiset(OffBoard(tasks))
        == multiset(OffBoard(tasks[..k])) + (if OnBoard(tasks[k].status) then multiset{} else multiset{tasks[k]})
  {
  }

  /** A task whose status is one of the three shows in that column and in no other. */
  lemma TaskInExactlyItsColumn(tasks: seq<Task>, t: Task, i: nat)
    requires t in tasks && i < 3 && t.status == Str(Statuses[i])
    ensures t in Board(tasks)[i]
    ensures forall j :: 0 <= j < 3 && j != i ==> t !in Board(tasks)[j]
    ensures t !in OffBoard(tasks)
  {
  }

  /** The status of every listed task, in list order. */
  function StatusList(tasks: seq<Task>): seq<JsVal> {
    seq(|tasks|, i requires 0 <= i < |tasks| => tasks[i].status)
  }

  /** The count shown on a column is the number of tasks listed with that status. */
  lemma {:induction false} ColumnCount(tasks: seq<Task>, status: string)
    ensures |Column(tasks, status)| == multiset(StatusList(tasks))[Str(status)]
    decreases |tasks|
  {
    if tasks != [] {
      var k := |tasks| - 1;
      ColumnCount(tasks[..k], status);
      assert StatusList(tasks) == StatusList(tasks[..k]) + [tasks[k].status];
    }
  }

  /** A task the server has just created lands in the To Do column. */
  lemma CreatedTaskStartsInTodo(tasks: seq<Task>, id: TaskId, projectId: ProjectId, createdBy: UserId,
                                input: Tasks.TaskInput, now: int)
    requires Tasks.NewTaskRow(id, projectId, createdBy, input, now).Some?
    ensures var t := Tasks.NewTaskRow(id, projectId, createdBy, input, now).value;
      t in Board(tasks + [t])[0] && t !in Board(tasks + [t])[1] && t !in Board(tasks + [t])[2]
  {
    var t := Tasks.NewTaskRow(id, projectId, createdBy, input, now).value;
    TaskInExactlyItsColumn(tasks + [t], t, 0);
  }
}
