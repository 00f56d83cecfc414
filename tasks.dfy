/**
 * The pure rules of the task and notification handlers: the row a create
 * inserts, the field merge of an update, and the read flag.
 */
module Tasks {
  import opened JsValues
  import opened Wire

  /** The body of `POST /api/projects/:projectId/tasks`; a `status` in it is ignored. */
  datatype TaskInput = TaskInput(title: JsVal, description: JsVal, priority: JsVal, assigneeId: JsVal, dueDate: JsVal)

  /** The body of `PUT /api/tasks/:taskId`. */
  datatype TaskUpdate = TaskUpdate(title: JsVal, description: JsVal, status: JsVal, priority: JsVal, assigneeId: JsVal, dueDate: JsVal)

  /** A stored row: NOT NULL title, and no column ever holds `undefined`. */
  predicate WellFormed(t: Task) {
    && !IsNullish(t.title)
    && !t.description.Undefined? && !t.status.Undefined? && !t.priority.Undefined?
    && !t.assigneeId.Undefined? && !t.dueDate.Undefined?
  }

  /**
   * The row the create handler inserts: description defaults to '', priority
   * to 'medium', status to the column default 'todo'; a missing or null title
   * violates NOT NULL and the insert fails.
   */
  function NewTaskRow(id: TaskId, projectId: ProjectId, createdBy: UserId, input: TaskInput, now: int): (r: Option<Task>)
    ensures r.Some? <==> !IsNullish(input.title)
    ensures r.Some? ==>
      && WellFormed(r.value)
      && r.value.id == id && r.value.projectId == projectId && r.value.createdBy == createdBy
      && r.value.createdAt == now
      && r.value.title == input.title
      && r.value.status == Str("todo")
      && r.value.assigneeId == Bind(input.assigneeId) && r.value.dueDate == Bind(input.dueDate)
      && Truthy(r.value.priority) && Truthy(r.value.description) == Truthy(input.description)
      && (Truthy(input.priority) ==> r.value.priority == input.priority)
      && (Truthy(input.description) ==> r.value.description == input.description)
      && (!Truthy(input.priority) ==> r.value.priority == Str("medium"))
      && (!Truthy(input.description) ==> r.value.description == Str(""))
  {
    if IsNullish(input.title) then None
    else Some(Task(id, projectId, input.title, Or(input.description, Str("")), Str("todo"),
                   Or(input.priority, Str("medium")), Bind(input.assigneeId), createdBy, now, Bind(input.dueDate)))
  }

  /**
   * The update merge (server.js:375): title, status, priority, assigneeId and
   * dueDate take the new value when it is truthy and keep the old one
   * otherwise; description takes the new value unless it is undefined.
   */
  function Merge(t: Task, u: TaskUpdate): (r: Task)
    ensures r.id == t.id && r.projectId == t.projectId && r.createdBy == t.createdBy && r.createdAt == t.createdAt
    ensures Truthy(u.title) ==> r.title == u.title
    ensures !Truthy(u.title) ==> r.title == t.title
    ensures Truthy(u.status) ==> r.status == u.status
    ensures !Truthy(u.status) ==> r.status == t.status
    ensures Truthy(u.priority) ==> r.priority == u.priority
    ensures !Truthy(u.priority) ==> r.priority == t.priority
    ensures Truthy(u.assigneeId) ==> r.assigneeId == u.assigneeId
    ensures !Truthy(u.assigneeId) ==> r.assigneeId == t.assigneeId
    ensures Truthy(u.dueDate) ==> r.dueDate == u.dueDate
    ensures !Truthy(u.dueDate) ==> r.dueDate == t.dueDate
    ensures u.description.Undefined? ==> r.description == t.description
    ensures !u.description.Undefined? ==> r.description == u.description
    ensures WellFormed(t) ==> WellFormed(r)
  {
    t.(title := Or(u.title, t.title),
       description := if !u.description.Undefined? then u.description else t.description,
       status := Or(u.status, t.status),
       priority := Or(u.priority, t.priority),
       assigneeId := Or(u.assigneeId, t.assigneeId),
       dueDate := Or(u.dueDate, t.dueDate))
  }

  /** Sending the same update twice leaves the row as the first one did. */
  lemma MergeIdempotent(t: Task, u: TaskUpdate)
    ensures Merge(Merge(t, u), u) == Merge(t, u)
  {
  }

  /** An empty body (every field absent) leaves the row unchanged. */
  lemma EmptyUpdateIsIdentity(t: Task)
    ensures Merge(t, TaskUpdate(Undefined, Undefined, Undefined, Undefined, Undefined, Undefined)) == t
  {
  }

  /**
   * The task-details form sends title, description, status and priority only:
   * the assignee and due date survive such an update, and the description is
   * always replaced, even by ''.
   */
  lemma FormUpdateKeepsAssigneeAndDueDate(t: Task, title: string, description: string, status: string, priority: string)
    ensures var r := Merge(t, TaskUpdate(Str(title), Str(description), Str(status), Str(priority), Undefined, Undefined));
      && r.assigneeId == t.assigneeId && r.dueDate == t.dueDate
      && r.description == Str(description)
      && (status != "" ==> r.status == Str(status))
  {
  }

  /**
   * One concrete body: '' for title and assignee, 0 for status and due date
   * and null for priority leave all five fields as they were, so no update
   * can clear an assignee or a due date.
   */
  lemma FalsyCannotClear(t: Task)
    ensures var r := Merge(t, TaskUpdate(Str(""), Undefined, Num(0), Null, Str(""), Num(0)));
      r.title == t.title && r.status == t.status && r.priority == t.priority
      && r.assigneeId == t.assigneeId && r.dueDate == t.dueDate
  {
  }

  // ----- the read flag -----

  /** `UPDATE notifications SET read = 1 WHERE id = ?` */
  function MarkRead(rows: seq<NotificationRow>, id: NotificationId): (r: seq<NotificationRow>)
    ensures |r| == |rows|
    ensures forall k :: 0 <= k < |rows| ==> r[k].id == rows[k].id && r[k].(read := rows[k].read) == rows[k]
    ensures forall k :: 0 <= k < |rows| ==> r[k].read == if rows[k].id == id then 1 else rows[k].read
  {
    seq(|rows|, k requires 0 <= k < |rows| => if rows[k].id == id then rows[k].(read := 1) else rows[k])
  }

  /** Every row holds 0 (unread) or 1 (read). */
  predicate ReadFlagsBinary(rows: seq<NotificationRow>) {
    forall k :: 0 <= k < |rows| ==> rows[k].read == 0 || rows[k].read == 1
  }

  /** Marking a notification read twice gives the same table as marking it once. */
  lemma MarkReadIdempotent(rows: seq<NotificationRow>, id: NotificationId)
    ensures MarkRead(MarkRead(rows, id), id) == MarkRead(rows, id)
  {
    var once := MarkRead(rows, id);
    var twice := MarkRead(once, id);
    assert |twice| == |once|;
    forall k | 0 <= k < |once| ensures twice[k] == once[k] {
      assert twice[k].(read := once[k].read) == once[k];
    }
  }

  /** Marking never turns a read row back to unread, and keeps every flag 0 or 1. */
  lemma MarkReadMonotone(rows: seq<NotificationRow>, id: NotificationId)
    requires ReadFlagsBinary(rows)
    ensures ReadFlagsBinary(MarkRead(rows, id))
    ensures forall k :: 0 <= k < |rows| && rows[k].read == 1 ==> MarkRead(rows, id)[k].read == 1
    ensures forall k :: 0 <= k < |rows| && rows[k].id == id ==> MarkRead(rows, id)[k].read == 1
  {
  }
}
