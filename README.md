# TheRealm live updates, modelled in Dafny

TheRealm is a collaborative task tracker. Users create projects, add members,
and create, update and delete tasks. A WebSocket channel pushes changes to
everyone concerned. This project models that live-update path.

- **Server** (`backend/server.js`):
  - the per-socket handshake (`auth`, `ping`, close) over the `userConnections` registry;
  - the two broadcast helpers, `broadcastEvent` and `broadcastNotification`;
  - the handlers that feed them: project creation, member addition, task create/update/delete, and marking a notification read.
- **Client** (`frontend/js/main.js`):
  - the browser's session state (`token`, `currentUser`, `currentProject`, `ws`);
  - the decisions it takes on pushed messages, the unread badge, the sign-in forms and the task board.

Files and modules:

- `js_values.dfy` (`JsValues`): JavaScript values (`undefined`, `null`, strings, integers) and their truthiness, which `||`, `!x` and `if (x)` use throughout the source.
- `wire.dfy` (`Wire`): ids, table rows, domain events, pushed messages and inbound frames.
- `registry.dfy` (`Registry`): `userConnections` as a `map<UserId, seq<SocketId>>` value, with the two updates the connection handler applies to it.
- `dispatch.dfy` (`Dispatch`): what a broadcast sends, as functions of the registry, the set of OPEN sockets and the audience. Also the notification row and push.
- `tasks.dfy` (`Tasks`): the task row a create inserts, the update merge, and the read flag.
- `server.dfy` (`Server`): two classes. `Connection` holds a socket and its mutable `userId`. `Server` holds the registry, the outbox of sends, and the notification, task, project and membership tables. Its methods are the handlers, each proved against the functions above.
- `client_logic.dfy` (`ClientLogic`): the pure decisions of `main.js`.
- `client.dfy` (`Client`): the client's session state as a class, with its methods.

How the outside world is represented:

- Socket openness (`readyState === OPEN`) is a parameter `open: set<SocketId>`.
- Every `ws.send` of the server is an append to `Server.outbox`.
- Token verification is its result, an `Option<UserId>` carried by the `auth` frame.
- `randomUUID()` and `Date.now()` are parameters.
- The store's failures are `ok` flags on inserts. PRIMARY KEY, UNIQUE and NOT NULL violations are modelled from the data itself.

Properties proved, beyond each handler's full post-state:

- The registry never keeps an empty list.
- A close undoes the `auth` that registered a socket.
- A broadcast reaches exactly the OPEN sockets registered under project members, once per registration.
- Every pushed notification names a row that is already stored (persist before push).
- Task creation keeps every stored row and earlier send, and pushes only to OPEN sockets of the members it notifies. When every insert succeeds with fresh, distinct ids, it adds exactly one unread row per member.
- Read flags only go from 0 to 1.
- The board's columns partition the task list.
- The badge is hidden exactly when everything is read.

Behaviour kept as the code has it, although a reader might expect otherwise:

- A second successful `auth` on the same socket pushes it again (server.js:484). Registration is not idempotent: the socket gets duplicate registrations, and every later broadcast to a project of that user reaches it two more times, when OPEN (`Registry.DoubleAuthLeavesOneRegistration`, `Dispatch.DoubleAuthDoubleDelivery`).
- Re-authenticating as another user rebinds the connection (server.js:479). Close then cleans only the new user's list (server.js:498), so the socket stays registered under the first user (`Registry.ReauthLeavesStaleEntry`). A channel can thus be listed under two identities at once.
- The pushed notification is not the stored row. It carries the request's own fields, the new id and a second clock reading, and has no `read` field (server.js:535-538).
- A failed notification insert is not reported to the HTTP caller. The handlers call `broadcastNotification` and `broadcastEvent` without `await` or `.catch` (server.js:211, 270, 320, 329, 379, 392). A failed insert or member query is then an unhandled promise rejection. The model does not capture its effect on the process (see "Left out").
- The create-project reply is `{id, name, description, ownerId}` with the description as sent (server.js:218), not the stored row, whose description defaults to '' (server.js:202).
- `login`'s welcome message reads `currentUser.name` (main.js:181) between `connectWebSocket` and `loadDashboard`. A reply with a token but no user therefore stores the token, opens one socket and throws before the second (`Client.Client.Login`). `register` greets by the form's name (main.js:154) and has no such path. The server's auth replies always carry the user (server.js:162, 178).
- The add-member reply is `{id, projectId, userId, role: 'member'}` (server.js:277), where `id` is the membership row's random id. The model keeps members as a list of user ids, so that id appears in the reply only.
- The close handler checks the bound user id for truthiness. A connection bound to the empty id is never cleaned up.
- A successful `login` or `register` opens two sockets: one from `connectWebSocket` (main.js:153 in `register`, main.js:180 in `login`), and one from `loadDashboard` (main.js:391). Each `onopen` sends `auth` through the global `ws`. So when the second socket opens first, it is authenticated twice, and the first socket never authenticates and survives logout (`Client.LoginAuthenticatesSecondSocketTwice`). The server then registers it twice, as above.

## Model

| member | source | states |
|---|---|---|
| `Registry.IndexOf` | backend/server.js:500 | the first position of the socket in the list, or -1 exactly when it is absent |
| `Registry.RemoveFirst` | backend/server.js:500-501 | splicing at `indexOf` removes exactly the first occurrence, keeping the order of the rest (multiset minus one), and leaves a list without it unchanged |
| `Registry.Register` | backend/server.js:481-484 | the user's list is created if absent and the socket appended last; other users' lists are untouched; no empty list appears |
| `Registry.Unregister` | backend/server.js:497-504 | for a truthy bound user with an entry, one occurrence of the socket leaves that user's list, the key goes once the list is empty, other users are untouched; otherwise nothing changes; no empty list remains |
| `Registry.CloseUndoesAuth` | backend/server.js:481-504 | closing a socket that one `auth` registered (and that was not already registered under that user) restores the registry exactly |
| `Registry.DoubleAuthLeavesOneRegistration` | backend/server.js:476-504 | two successful `auth`s on one socket register it twice; one close leaves one registration |
| `Registry.ReauthLeavesStaleEntry` | backend/server.js:479-502 | after re-authenticating as another user and closing, the socket is still listed under the first user |
| `Registry.CloseUnregisteredIsNoop` | backend/server.js:497-502 | closing changes nothing when the connection never authenticated, its user has no entry, or the socket is not in that user's list |
| `Dispatch.OpenSends` | backend/server.js:518-522 | sends go only to OPEN sockets of the list, carry the message, and number at most the list's length |
| `Dispatch.Fanout` | backend/server.js:508-525 | every send of a broadcast carries the message and goes to an OPEN socket |
| `Dispatch.OpenSendsCount` | backend/server.js:518-522 | an OPEN socket gets one copy per occurrence in the list, a socket that is not OPEN none |
| `Dispatch.FanoutCount` | backend/server.js:516-524 | each socket gets exactly as many copies as it has registrations under the members when OPEN, and none otherwise |
| `Dispatch.FanoutReachesOnlyMembers` | backend/server.js:510-524 | every send goes to an OPEN socket registered under some member of the project |
| `Dispatch.FanoutReachesEveryOpenSocket` | backend/server.js:516-524 | every OPEN socket registered under a member receives the message |
| `Dispatch.FanoutEmptyAudience` | backend/server.js:510-517 | when no member has a registry entry (an unknown project has no members at all), nothing is sent |
| `Dispatch.NonMemberSocketGetsNothing` | backend/server.js:516-524 | a socket registered under no member receives nothing |
| `Dispatch.SingleRegistrationSingleCopy` | backend/server.js:516-524 | a socket registered once, under one member only, is counted exactly once |
| `Dispatch.DoubleAuthDoubleDelivery` | backend/server.js:481-524 | for any registry and any distinct member list containing the user, two more registrations of an OPEN socket under that user give it exactly two more copies of every broadcast |
| `Dispatch.StoredRow` | backend/server.js:530-533 | the inserted row carries the request's recipient, type and content, the new id and the insert clock; `read` takes its default 0; an empty or absent project or task reference becomes NULL |
| `Dispatch.Payload` | backend/server.js:535-538 | the pushed `data` spreads the request unchanged (references included), with the new id and the push clock |
| `Dispatch.RowAndPayloadAgree` | backend/server.js:530-538 | row and payload agree on id, recipient, type and content; their references differ exactly where the request's was '', their timestamps exactly when the two clock reads differ |
| `Dispatch.Post` | backend/server.js:528-547 | a refused insert or a taken id changes nothing and pushes nothing; otherwise exactly one unread row with the new id is appended before any push, and pushes go only to the recipient's OPEN sockets with that row's payload; persist-before-push is preserved |
| `Dispatch.PostDeliveryCount` | backend/server.js:540-546 | one row is added whatever the number of sockets, and each OPEN socket of the recipient gets one copy per registration |
| `Dispatch.PostWithoutChannels` | backend/server.js:530-546 | a recipient with no registry entry gets the stored row and no push |
| `Dispatch.TaskNotice` | backend/server.js:320-326 | the per-member notice goes to that member, has type `task_created`, references the project and the task, and, for a string title, reads `New task: "<title>"`; task creation never builds it for a null or missing title, whose insert fails first |
| `Dispatch.NotifyMembers` | backend/server.js:319-327 | notifying the members one by one keeps persist-before-push |
| `Dispatch.NotifyMembersExtends` | backend/server.js:314-327 | whatever the inserts do, every row already stored and every earlier send is kept, and each new send is a notification to an OPEN socket registered under the member it names |
| `Dispatch.NotifyMembersOneRowEach` | backend/server.js:314-327 | with successful inserts and fresh, distinct ids, task creation appends exactly `NoticeRows` to the table, nothing else, and the table's ids grow by exactly the given ids |
| `Dispatch.NoticeRowsAt` | backend/server.js:319-326 | the i-th appended row is the unread `task_created` notice to the i-th member, with the i-th id |
| `Tasks.NewTaskRow` | backend/server.js:302-309 | a null or missing title fails the insert; otherwise status is 'todo', description defaults to '', priority to 'medium', assignee and due date are stored as given with undefined bound as NULL, and the row is well formed |
| `Tasks.Merge` | backend/server.js:375 | title, status, priority, assigneeId and dueDate take the new value when truthy, else keep the old; description is replaced unless undefined; identity fields and well-formedness are kept |
| `Tasks.MergeIdempotent` | backend/server.js:375 | applying the same update twice equals applying it once |
| `Tasks.EmptyUpdateIsIdentity` | backend/server.js:375 | an update with every field absent leaves the task unchanged |
| `Tasks.FormUpdateKeepsAssigneeAndDueDate` | frontend/js/main.js:669-672 | the details form's update keeps assignee and due date and always replaces the description |
| `Tasks.FalsyCannotClear` | backend/server.js:375 | one concrete body ('' for title and assignee, 0 for status and due date, null for priority) leaves all five fields unchanged; the per-field rule for any falsy value is `Tasks.Merge`'s contract |
| `Tasks.MarkRead` | backend/server.js:457 | rows with the id get `read = 1`, every other field and row is unchanged |
| `Tasks.MarkReadIdempotent` | backend/server.js:455-458 | marking read twice gives the same table as once |
| `Tasks.MarkReadMonotone` | backend/server.js:455-458 | flags stay 0 or 1, and a read row never becomes unread |
| `Server.SendToOpen` | backend/server.js:518-522 | the loop over one user's sockets sends exactly `OpenSends` of the list: one send per OPEN entry, in list order |
| `Server.SendToMembers` | backend/server.js:516-524 | the loop over the members sends exactly `Fanout`: each member's OPEN sockets in query order, nothing for members without an entry |
| `Server.Connection.constructor` | backend/server.js:469-470 | a new connection is bound to no user and not yet closed |
| `Server.Server.MembersOf` | backend/server.js:510-513 | the audience has no duplicates (UNIQUE(projectId, userId)) and is empty for an unknown project |
| `Server.Server.constructor` | backend/server.js:467 | the registry, outbox and tables start empty and the invariant holds |
| `Server.Server.OnAuth` | backend/server.js:476-487 | a verified token binds the connection to the user, registers the socket and sends one `auth_success`; a failed verification changes nothing and sends nothing |
| `Server.Server.OnPing` | backend/server.js:489-491 | a `ping` is answered with one `pong`, authenticated or not, and nothing else changes |
| `Server.Server.OnMessage` | backend/server.js:472-495 | on a connection not yet closed, an unparseable frame, a failed verification or any other type has no effect; `auth` and `ping` as above |
| `Server.Server.OnClose` | backend/server.js:497-504 | the registry becomes `Unregister` of its old value for the connection's current binding; no empty list remains; the connection is closed and receives no further event |
| `Server.Server.BroadcastEvent` | backend/server.js:508-525 | the outbox grows by exactly the fan-out of the event to the project's members; nothing else changes |
| `Server.Server.BroadcastNotification` | backend/server.js:528-547 | the table and outbox become `Post` of their old values; it reports whether the row was stored |
| `Server.Server.CreateProject` | backend/server.js:195-222 | a null name or a taken id is a 400 with no change; otherwise the project is stored with description defaulted to '', its owner is its only member, the owner is notified, and the reply is `{id, name, description, ownerId}` with the description as sent |
| `Server.Server.AddMember` | backend/server.js:256-281 | 404 for an unknown project, 403 for a non-owner, 400 for a missing or existing member, none with any change; otherwise the member is appended and notified, and the reply is `{id, projectId, userId, role: 'member'}` |
| `Server.Server.CreateTask` | backend/server.js:300-334 | a null title or a taken id is a 400 with no change; otherwise the row is stored, each member is notified once, then one `task_created` event with the stored row fans out; the notification table only grows at its end |
| `Server.Server.UpdateTask` | backend/server.js:365-384 | a missing task is a 404 with no write and no event; otherwise the merged row is stored and one `task_updated` event fans out |
| `Server.Server.DeleteTask` | backend/server.js:386-397 | a missing task is a 404 with no change; otherwise the task is removed and one `task_deleted` event fans out |
| `Server.Server.MarkNotificationRead` | backend/server.js:455-462 | the table becomes `MarkRead` of its old value; all invariants are kept |
| `ClientLogic.Route` | frontend/js/main.js:58-81 | task events reload the board iff a project is selected and the event's project is it; `comment_added` reloads that task's comments iff the details modal is active; `notification` shows its content and recounts; `auth_success` only logs; nothing else reacts |
| `ClientLogic.NoProjectNoReload` | frontend/js/main.js:70-74 | with no (or an empty) selected project no message reloads the board |
| `ClientLogic.Unread` | frontend/js/main.js:114 | the unread list holds each row with `read == 0` exactly as often as the list does, and no other row; its length is the number of zero flags |
| `ClientLogic.UnreadCount` | frontend/js/main.js:114-120 | the badge count is the number of listed notifications whose `read` flag is 0 |
| `ClientLogic.BadgeHidden` | frontend/js/main.js:117-123 | the badge is hidden iff every listed notification is read |
| `ClientLogic.NewRowRaisesCount` | frontend/js/main.js:114 | a newly stored notification raises the count by exactly one |
| `ClientLogic.MarkReadLowersCount` | frontend/js/main.js:114 | marking read lowers the count by the number of unread rows with that id, never raising it |
| `ClientLogic.ValidateRegister` | frontend/js/main.js:133-141 | proceeds iff name, email and password are non-empty and the password has at least 6 characters; missing fields are reported first |
| `ClientLogic.ValidateLogin` | frontend/js/main.js:165-168 | proceeds iff email and password are non-empty |
| `ClientLogic.RegisterFormPassesServerCheck` | backend/server.js:149-151 | what the register form lets through passes the server's missing-field check |
| `ClientLogic.Column` | frontend/js/main.js:506 | a column holds exactly the tasks with that status |
| `ClientLogic.Board` | frontend/js/main.js:501-506 | three columns, in the order To Do, In Progress, Done, each holding exactly the tasks with its status |
| `ClientLogic.OffBoard` | frontend/js/main.js:501-506 | the off-board list holds exactly the tasks whose status is none of the three |
| `ClientLogic.BoardPartition` | frontend/js/main.js:501-526 | the three columns and the off-board list partition the tasks (as multisets) |
| `ClientLogic.TaskInExactlyItsColumn` | frontend/js/main.js:505-511 | a task with one of the three statuses is in that column, in no other, and not off-board |
| `ClientLogic.ColumnCount` | frontend/js/main.js:511 | a column's count equals the number of tasks with that status |
| `ClientLogic.CreatedTaskStartsInTodo` | backend/server.js:305-309 | a newly created task shows in the To Do column only |
| `Client.Client.constructor` | frontend/js/main.js:1-6 | the session starts from the stored token and user, with no project and no socket |
| `Client.Client.ConnectWebSocket` | frontend/js/main.js:48-52 | without a token nothing happens; otherwise a new connecting socket replaces `ws` |
| `Client.Client.OnOpen` | frontend/js/main.js:54-56 | the socket becomes OPEN and `auth` with the current token goes out through `ws` when `ws` is OPEN; the opening socket has sent nothing before, so when it is `ws` its first frame is that `auth` |
| `Client.Client.KeepaliveTick` | frontend/js/main.js:88-92 | a `ping` goes out only while `ws` is OPEN |
| `Client.Client.Logout` | frontend/js/main.js:188-196 | token and user are cleared and `ws` is closed; the selected project and the `ws` reference remain |
| `Client.Client.SelectProject` | frontend/js/main.js:451-452 | the selected project becomes the given one |
| `Client.Client.LoadDashboard` | frontend/js/main.js:287-391 | without a token nothing connects; otherwise a socket is opened |
| `Client.Client.AcceptSession` | frontend/js/main.js:147-185 | a 401 logs out; a truthy token is stored with the user and two sockets are opened, except that when the welcome reads the stored user and there is none only the first is opened; any other body changes nothing |
| `Client.Client.Login` | frontend/js/main.js:161-186 | the form is checked before any request; on rejection nothing changes; then the reply is accepted: a 401 logs out and closes `ws` only, a truthy token with a user is stored and opens two sockets, a token without a user is stored and opens one socket before the welcome throws, any other body changes nothing |
| `Client.Client.Register` | frontend/js/main.js:128-159 | the form is checked before any request; on rejection nothing changes; then the reply is accepted: a 401 logs out and closes `ws` only, a truthy token is stored and opens two sockets, any other body changes nothing |
| `Client.PageLoadAuthenticates` | frontend/js/main.js:978-980 | a page load with a stored token opens one socket whose only frame is `auth` with that token |
| `Client.LoginAuthenticatesSecondSocketTwice` | frontend/js/main.js:175-182 | after a login in which the second socket opens first, that socket has sent `auth` twice and the first socket is still open after logout |

## Left out

- Express routing, the `authenticate` middleware, body parsing, CORS and static serving: each handler is a method that receives the caller's id.
- SQLite: the tables are maps and sequences of rows. Foreign keys are not enforced, as in SQLite's default. Column type affinity is not modelled: values are stored as given. Integers stand for JSON numbers.
- The read-only endpoints are not modelled: project list, member list, task list, single task, comment list and notification list. The badge is computed over whatever list the client receives; the `LIMIT 20` of that list is not modelled.
- The comment handler (server.js:401-425) is not modelled, because it needs the users and comments tables. Its `comment_added` event exists only so that the client routing can be stated.
- User registration and login on the server (server.js:146-182), bcrypt and JWT: token verification is represented by its result.
- The `ws` transport and JSON (de)serialisation: messages are datatypes and sockets are numbers. A send to a socket that is not OPEN is not attempted by the broadcasts and is not modelled.
- Member order: the member query (server.js:510-513) has no `ORDER BY`, so SQLite returns the rows in an order it chooses. The model takes the members as a list in whatever order the query returns them, and every fan-out result is stated for that list.
- `async`/`await` interleavings: each handler runs as one atomic step, and its un-awaited `broadcastNotification` calls complete in call order within it.
- Server.Server.CreateTask, Server.Server.CreateProject and Server.Server.AddMember: every clock read of the step gives the same `now` (server.js:202, 208, 267, 308, 532, 537). The second clock reading of the pushed notification is kept only in `Server.Server.BroadcastNotification`.
- Dispatch.NotifyMembers and Server.Server.CreateTask: a failed notification insert skips that row and the step carries on, notifying later members and fanning out the event. In the source the rejection of the un-awaited `broadcastNotification` (or `broadcastEvent`) is unhandled, and server.js installs no `unhandledRejection` handler, so on Node 15 and later it ends the process. Process termination is not modelled.
- Server.Server.CreateProject: the owner's membership insert always succeeds. Its UNIQUE constraint cannot fail for a new project id, and a collision of its random row id is not modelled.
- DOM rendering, `localStorage`, theme toggling, `escapeHtml`, `showNotification` and the mock collaboration data: the client's reactions are the decisions (`ClientLogic.Reaction`), not the fetches and rendering they trigger.
- Timers: each `connectWebSocket` starts its own keepalive interval, and all of them ping the global `ws`. `Client.Client.KeepaliveTick` is one tick of any of them.
- Client sockets closed by the server or the network: the client has no `onclose` handler. Only `Client.Client.OnOpen` and `Client.Client.Logout` change a socket's state.
- The client's crashes on a `null` reply from `api()` (other than in login and register) are not modelled.
- ClientLogic.ValidateRegister: counts password length in Unicode characters. JavaScript counts UTF-16 code units, so the two differ for characters outside the Basic Multilingual Plane.
