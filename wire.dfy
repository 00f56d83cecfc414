/**
 * Identifiers, rows and the messages exchanged over the live channel.
 */
module Wire {
  import opened JsValues

  type UserId = string
  type ProjectId = string
  type TaskId = string
  type NotificationId = string

  /** A live duplex connection, identified by an opaque number. */
  type SocketId = nat

  /** A row of the `tasks` table. */
  datatype Task = Task(
    id: TaskId,
    projectId: ProjectId,
    title: JsVal,
    description: JsVal,
    status: JsVal,
    priority: JsVal,
    assigneeId: JsVal,
    createdBy: UserId,
    createdAt: int,
    dueDate: JsVal)

  /** A row of the `projects` table. */
  datatype Project = Project(id: ProjectId, name: JsVal, description: JsVal, ownerId: UserId, createdAt: int)

  /** The body the create-project handler answers with: the description as sent, no timestamp. */
  datatype ProjectReply = ProjectReply(id: ProjectId, name: JsVal, description: JsVal, ownerId: UserId)

  /** The body the add-member handler answers with: the membership row's id and its role. */
  datatype MemberReply = MemberReply(id: string, projectId: ProjectId, userId: UserId, role: string)

  /** A row of the `comments` table joined with its author's name. */
  datatype Comment = Comment(id: string, taskId: TaskId, userId: UserId, content: JsVal, createdAt: int, name: string)

  /** The `type` column of a notification. */
  datatype NoticeKind = ProjectCreated | AddedToProject | TaskCreatedNotice

  /** What a caller hands to `broadcastNotification`. */
  datatype NoticeRequest = NoticeRequest(
    userId: UserId,
    kind: NoticeKind,
    content: string,
    projectId: Option<ProjectId>,
    taskId: Option<TaskId>)

  /** A row of the `notifications` table; `read` is the INTEGER flag. */
  datatype NotificationRow = NotificationRow(
    id: NotificationId,
    userId: UserId,
    kind: NoticeKind,
    content: string,
    projectId: Option<ProjectId>,
    taskId: Option<TaskId>,
    read: int,
    createdAt: int)

  /** The `data` of a pushed notification: the request's own fields, the new id and a clock reading. */
  datatype NoticePayload = NoticePayload(
    id: NotificationId,
    userId: UserId,
    kind: NoticeKind,
    content: string,
    projectId: Option<ProjectId>,
    taskId: Option<TaskId>,
    createdAt: int)

  /** The `{type, data}` state-change events `broadcastEvent` fans out. */
  datatype DomainEvent =
    | TaskCreated(projectId: ProjectId, task: Task)
    | TaskUpdated(projectId: ProjectId, task: Task)
    | TaskDeleted(projectId: ProjectId, taskId: TaskId)
    | CommentAdded(projectId: ProjectId, taskId: TaskId, comment: Comment)

  /** Server to client frames. */
  datatype PushMessage =
    | AuthSuccess
    | Pong
    | Event(event: DomainEvent)
    | Notification(data: NoticePayload)

  /** One `ws.send` of the server. */
  datatype Delivery = Delivery(to: SocketId, msg: PushMessage)

  /**
   * Client to server frames as the server's message handler sees them. An
   * `auth` frame carries what verifying its token yields: the user id, or
   * None when verification throws.
   */
  datatype Frame =
    | Unparseable
    | AuthFrame(verified: Option<UserId>)
    | PingFrame
    | OtherFrame
}
