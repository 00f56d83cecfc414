/**
 * What `broadcastEvent` and `broadcastNotification` send, as functions of the
 * registry, the set of OPEN sockets and the audience.
 */
module Dispatch {
  import opened JsValues
  import opened Wire
  import opened Registry

  /** One send per OPEN entry of a user's socket list, in list order. */
  function OpenSends(conns: seq<SocketId>, open: set<SocketId>, msg: PushMessage): (r: seq<Delivery>)
    ensures |r| <= |conns|
    ensures forall d :: d in r ==> d.msg == msg && d.to in open && d.to in conns
    decreases |conns|
  {
    if conns == [] then []
    else
      var k := |conns| - 1;
      OpenSends(conns[..k], open, msg) + (if conns[k] in open then [Delivery(conns[k], msg)] else [])
  }

  /**
   * The sends of one broadcast: for every member in query order, one send to
   * each OPEN socket registered under that member; members without an entry
   * receive nothing.
   */
  function Fanout(members: seq<UserId>, reg: Connections, open: set<SocketId>, msg: PushMessage): (r: seq<Delivery>)
    ensures forall d :: d in r ==> d.msg == msg && d.to in open
    decreases |members|
  {
    if members == [] then []
    else
      var k := |members| - 1;
      Fanout(members[..k], reg, open, msg) + OpenSends(Conns(reg, members[k]), open, msg)
  }

  /** One more socket of the list: its send, if OPEN, comes last. */
  lemma OpenSendsSnoc(conns: seq<SocketId>, j: nat, open: set<SocketId>, msg: PushMessage)
    requires j < |conns|
    ensures OpenSends(conns[..j + 1], open, msg)
         == OpenSends(conns[..j], open, msg) + (if conns[j] in open then [Delivery(conns[j], msg)] else [])
  {
    assert conns[..j + 1][..j] == conns[..j];
  }

  /** One more member: that member's sends come last. */
  lemma FanoutSnoc(members: seq<UserId>, i: nat, reg: Connections, open: set<SocketId>, msg: PushMessage)
    requires i < |members|
    ensures Fanout(members[..i + 1], reg, open, msg)
         == Fanout(members[..i], reg, open, msg) + OpenSends(Conns(reg, members[i]), open, msg)
  {
    assert members[..i + 1][..i] == members[..i];
  }

  /** How many times `s` is registered under the users of `members`, counted per member. */
  function Registrations(members: seq<UserId>, reg: Connections, s: SocketId): nat
    decreases |members|
  {
    if members == [] then 0
    else
      var k := |members| - 1;
      Registrations(members[..k], reg, s) + multiset(Conns(reg, members[k]))[s]
  }

  /** Each OPEN entry of the list yields exactly one copy; a closed socket none. */
  lemma {:induction false} OpenSendsCount(conns: seq<SocketId>, open: set<SocketId>, msg: PushMessage, s: SocketId)
    ensures multiset(OpenSends(conns, open, msg))[Delivery(s, msg)] == if s in open then multiset(conns)[s] else 0
    decreases |conns|
  {
    if conns != [] {
      var k := |conns| - 1;
      OpenSendsCount(conns[..k], open, msg, s);
      assert conns == conns[..k] + [conns[k]];
    }
  }

  /**
   * Exactly once per registration: an OPEN socket receives as many copies as
   * it has registrations under the members, a socket that is not OPEN none.
   */
  lemma {:induction false} FanoutCount(members: seq<UserId>, reg: Connections, open: set<SocketId>, msg: PushMessage, s: SocketId)
    ensures multiset(Fanout(members, reg, open, msg))[Delivery(s, msg)]
         == if s in open then Registrations(members, reg, s) else 0
    decreases |members|
  {
    if members != [] {
      var k := |members| - 1;
      FanoutCount(members[..k], reg, open, msg, s);
      OpenSendsCount(Conns(reg, members[k]), open, msg, s);
    }
  }

  /** Only members' sockets are addressed: every send goes to a socket registered under some member. */
  lemma {:induction false} FanoutReachesOnlyMembers(members: seq<UserId>, reg: Connections, open: set<SocketId>, msg: PushMessage, d: Delivery)
    requires d in Fanout(members, reg, open, msg)
    ensures d.msg == msg && d.to in open
    ensures exists i :: 0 <= i < |members| && members[i] in reg && d.to in reg[members[i]]
    decreases |members|
  {
    var k := |members| - 1;
    if d in Fanout(members[..k], reg, open, msg) {
      FanoutReachesOnlyMembers(members[..k], reg, open, msg, d);
      var i :| 0 <= i < k && members[..k][i] in reg && d.to in reg[members[..k][i]];
      assert members[i] == members[..k][i];
    } else {
      assert d in OpenSends(Conns(reg, members[k]), open, msg);
      assert members[k] in reg;
    }
  }

  /** Every OPEN socket registered under a member receives the message. */
  lemma FanoutReachesEveryOpenSocket(members: seq<UserId>, reg: Connections, open: set<SocketId>, msg: PushMessage, u: UserId, s: SocketId)
    requires u in members && u in reg && s in reg[u] && s in open
    ensures Delivery(s, msg) in Fanout(members, reg, open, msg)
  {
    var i :| 0 <= i < |members| && members[i] == u;
    RegistrationsPositive(members, reg, s, i);
    FanoutCount(members, reg, open, msg, s);
  }

  lemma {:induction false} RegistrationsPositive(members: seq<UserId>, reg: Connections, s: SocketId, i: nat)
    requires i < |members| && s in Conns(reg, members[i])
    ensures Registrations(members, reg, s) > 0
    decreases |members|
  {
    var k := |members| - 1;
    if i < k {
      assert members[..k][i] == members[i];
      RegistrationsPositive(members[..k], reg, s, i);
    }
  }

  /**
   * Members without a registry entry are skipped: when none of the members
   * has an entry (in particular for an unknown project, whose member list is
   * empty), nothing is sent.
   */
  lemma {:induction false} FanoutEmptyAudience(members: seq<UserId>, reg: Connections, open: set<SocketId>, msg: PushMessage)
    requires forall u :: u in members ==> u !in reg
    ensures Fanout(members, reg, open, msg) == []
    decreases |members|
  {
    if members != [] {
      var k := |members| - 1;
      assert members[k] in members;
      FanoutEmptyAudience(members[..k], reg, open, msg);
    }
  }

  /** A socket registered only under a non-member receives nothing. */
  lemma NonMemberSocketGetsNothing(members: seq<UserId>, reg: Connections, open: set<SocketId>, msg: PushMessage, s: SocketId)
    requires forall u :: u in members && u in reg ==> s !in reg[u]
    ensures Delivery(s, msg) !in Fanout(members, reg, open, msg)
  {
    if Delivery(s, msg) in Fanout(members, reg, open, msg) {
      FanoutReachesOnlyMembers(members, reg, open, msg, Delivery(s, msg));
    }
  }

  // ----- notifications -----

  /** The row `broadcastNotification` inserts: `read` takes its default 0, empty references become NULL. */
  function StoredRow(req: NoticeRequest, id: NotificationId, insertedAt: int): (r: NotificationRow)
    ensures r.id == id && r.userId == req.userId && r.kind == req.kind && r.content == req.content
    ensures r.read == 0 && r.createdAt == insertedAt
    ensures Present(req.projectId) ==> r.projectId == req.projectId
    ensures !Present(req.projectId) ==> r.projectId == None
    ensures Present(req.taskId) ==> r.taskId == req.taskId
    ensures !Present(req.taskId) ==> r.taskId == None
  {
    NotificationRow(id, req.userId, req.kind, req.content, OrNull(req.projectId), OrNull(req.taskId), 0, insertedAt)
  }

  /** The pushed `data`: the request spread, the new id and a second clock reading. */
  function Payload(req: NoticeRequest, id: NotificationId, pushedAt: int): (p: NoticePayload)
    ensures p.id == id && p.userId == req.userId && p.kind == req.kind && p.content == req.content
    ensures p.projectId == req.projectId && p.taskId == req.taskId && p.createdAt == pushedAt
  {
    NoticePayload(id, req.userId, req.kind, req.content, req.projectId, req.taskId, pushedAt)
  }

  /**
   * The pushed payload agrees with the stored row on id, recipient, kind and
   * content; its references differ only where the request carried an empty
   * one, and its timestamp only when the two clock reads differ.
   */
  lemma RowAndPayloadAgree(req: NoticeRequest, id: NotificationId, insertedAt: int, pushedAt: int)
    ensures var row, p := StoredRow(req, id, insertedAt), Payload(req, id, pushedAt);
      && row.id == p.id && row.userId == p.userId && row.kind == p.kind && row.content == p.content
      && (row.projectId == p.projectId <==> req.projectId != Some(""))
      && (row.taskId == p.taskId <==> req.taskId != Some(""))
      && (row.createdAt == p.createdAt <==> insertedAt == pushedAt)
  {
  }

  function RowIds(rows: seq<NotificationRow>): set<NotificationId> {
    set r | r in rows :: r.id
  }

  /** The notification table together with everything sent so far. */
  datatype Sink = Sink(rows: seq<NotificationRow>, outbox: seq<Delivery>)

  /** Persist before push: every pushed notification names a row already in the table. */
  predicate PushedArePersisted(sink: Sink) {
    forall d :: d in sink.outbox && d.msg.Notification? ==> d.msg.data.id in RowIds(sink.rows)
  }

  /**
   * One `broadcastNotification`: the insert fails when the store refuses it
   * or the id is already taken (PRIMARY KEY); a failed insert rejects before
   * anything is pushed. Otherwise exactly one row is added and the payload is
   * pushed to each OPEN socket of the recipient alone.
   */
  function Post(sink: Sink, reg: Connections, open: set<SocketId>, req: NoticeRequest,
                id: NotificationId, insertedAt: int, pushedAt: int, insertOk: bool): (r: Sink)
    ensures !insertOk || id in RowIds(sink.rows) ==> r == sink
    ensures insertOk && id !in RowIds(sink.rows) ==>
      && |r.rows| == |sink.rows| + 1
      && r.rows[..|sink.rows|] == sink.rows
      && r.rows[|sink.rows|].id == id && r.rows[|sink.rows|].userId == req.userId
      && r.rows[|sink.rows|].read == 0
      && |r.outbox| >= |sink.outbox| && r.outbox[..|sink.outbox|] == sink.outbox
      && (forall d :: d in r.outbox[|sink.outbox|..] ==>
            d.to in open && d.to in Conns(reg, req.userId) && d.msg == Notification(Payload(req, id, pushedAt)))
    ensures PushedArePersisted(sink) ==> PushedArePersisted(r)
  {
    if !insertOk || id in RowIds(sink.rows) then sink
    else
      var row := StoredRow(req, id, insertedAt);
      var sends := OpenSends(Conns(reg, req.userId), open, Notification(Payload(req, id, pushedAt)));
      var r := Sink(sink.rows + [row], sink.outbox + sends);
      assert r.rows[..|sink.rows|] == sink.rows;
      assert r.outbox[..|sink.outbox|] == sink.outbox;
      assert r.outbox[|sink.outbox|..] == sends;
      assert id in RowIds(r.rows) by { assert r.rows[|sink.rows|] == row; }
      assert RowIds(sink.rows) <= RowIds(r.rows) by {
        forall x | x in RowIds(sink.rows) ensures x in RowIds(r.rows) {
          var w :| w in sink.rows && w.id == x;
          assert w in r.rows;
        }
      }
      r
  }

  /**
   * A stored notification reaches each OPEN socket of its recipient once per
   * registration, however many sockets the recipient has.
   */
  lemma PostDeliveryCount(sink: Sink, reg: Connections, open: set<SocketId>, req: NoticeRequest,
                          id: NotificationId, insertedAt: int, pushedAt: int, s: SocketId)
    requires id !in RowIds(sink.rows)
    ensures var r := Post(sink, reg, open, req, id, insertedAt, pushedAt, true);
      && |r.rows| == |sink.rows| + 1
      && multiset(r.outbox[|sink.outbox|..])[Delivery(s, Notification(Payload(req, id, pushedAt)))]
         == if s in open then multiset(Conns(reg, req.userId))[s] else 0
  {
    var msg := Notification(Payload(req, id, pushedAt));
    var sends := OpenSends(Conns(reg, req.userId), open, msg);
    assert (sink.outbox + sends)[|sink.outbox|..] == sends;
    OpenSendsCount(Conns(reg, req.userId), open, msg, s);
  }

  /** A recipient with no registry entry gets the row and no push. */
  lemma PostWithoutChannels(sink: Sink, reg: Connections, open: set<SocketId>, req: NoticeRequest,
                            id: NotificationId, insertedAt: int, pushedAt: int)
    requires req.userId !in reg && id !in RowIds(sink.rows)
    ensures var r := Post(sink, reg, open, req, id, insertedAt, pushedAt, true);
      r.rows == sink.rows + [StoredRow(req, id, insertedAt)] && r.outbox == sink.outbox
  {
  }

  /**
   * A repeated `auth` registers the socket twice more under its user: every
   * later broadcast to a project whose distinct members include that user
   * reaches the socket, when OPEN, exactly two more times than before.
   */
  lemma DoubleAuthDoubleDelivery(members: seq<UserId>, reg: Connections, open: set<SocketId>, msg: PushMessage,
                                 u: UserId, s: SocketId)
    requires forall i, j :: 0 <= i < j < |members| ==> members[i] != members[j]
    requires u in members && s in open
    ensures multiset(Fanout(members, Register(Register(reg, u, s), u, s), open, msg))[Delivery(s, msg)]
         == multiset(Fanout(members, reg, open, msg))[Delivery(s, msg)] + 2
  {
    var once := Register(reg, u, s);
    FanoutCount(members, reg, open, msg, s);
    FanoutCount(members, Register(once, u, s), open, msg, s);
    RegistrationsRegister(members, reg, u, s);
    RegistrationsRegister(members, once, u, s);
    CountOfDistinct(members, u);
  }

  /** One registration under `u` adds one per occurrence of `u` among the members. */
  lemma {:induction false} RegistrationsRegister(members: seq<UserId>, reg: Connections, u: UserId, s: SocketId)
    ensures Registrations(members, Register(reg, u, s), s) == Registrations(members, reg, s) + multiset(members)[u]
    decreases |members|
  {
    if members != [] {
      var k := |members| - 1;
      var m := members[k];
      RegistrationsRegister(members[..k], reg, u, s);
      ConnsRegister(reg, u, s, m);
      UserCountSnoc(members, u);
      assert Registrations(members, reg, s) == Registrations(members[..k], reg, s) + multiset(Conns(reg, m))[s];
    }
  }

  lemma UserCountSnoc(members: seq<UserId>, u: UserId)
    requires members != []
    ensures multiset(members)[u] == multiset(members[..|members| - 1])[u] + (if members[|members| - 1] == u then 1 else 0)
  {
    assert members == members[..|members| - 1] + [members[|members| - 1]];
  }

  lemma ConnsRegister(reg: Connections, u: UserId, s: SocketId, m: UserId)
    ensures multiset(Conns(Register(reg, u, s), m))[s] == multiset(Conns(reg, m))[s] + (if m == u then 1 else 0)
  {
  }

  /** A user listed among distinct members occurs there exactly once. */
  lemma {:induction false} CountOfDistinct(members: seq<UserId>, u: UserId)
    requires forall i, j :: 0 <= i < j < |members| ==> members[i] != members[j]
    requires u in members
    ensures multiset(members)[u] == 1
    decreases |members|
  {
    var k := |members| - 1;
    assert members == members[..k] + [members[k]];
    if members[k] == u {
      forall i | 0 <= i < k ensures members[..k][i] != u { assert members[..k][i] == members[i]; }
      assert u !in members[..k];
    } else {
      var i :| 0 <= i < |members| && members[i] == u;
      assert members[..k][i] == u;
      CountOfDistinct(members[..k], u);
    }
  }

  /**
   * With distinct members, a socket registered once under one member and
   * under no other receives exactly one copy when OPEN.
   */
  lemma {:induction false} SingleRegistrationSingleCopy(members: seq<UserId>, reg: Connections, s: SocketId, i0: nat)
    requires i0 < |members|
    requires forall i :: 0 <= i < |members| ==> multiset(Conns(reg, members[i]))[s] == if i == i0 then 1 else 0
    ensures Registrations(members, reg, s) == 1
    decreases |members|
  {
    var k := |members| - 1;
    if k == i0 {
      RegistrationsNone(members[..k], reg, s);
    } else {
      forall i | 0 <= i < k ensures multiset(Conns(reg, members[..k][i]))[s] == if i == i0 then 1 else 0 {
        assert members[..k][i] == members[i];
      }
      SingleRegistrationSingleCopy(members[..k], reg, s, i0);
    }
  }

  lemma {:induction false} RegistrationsNone(members: seq<UserId>, reg: Connections, s: SocketId)
    requires forall i :: 0 <= i < |members| ==> multiset(Conns(reg, members[i]))[s] == 0
    ensures Registrations(members, reg, s) == 0
    decreases |members|
  {
    if members != [] {
      var k := |members| - 1;
      forall i | 0 <= i < k ensures multiset(Conns(reg, members[..k][i]))[s] == 0 {
        assert members[..k][i] == members[i];
      }
      RegistrationsNone(members[..k], reg, s);
    }
  }

  /** The `task_created` notification for one member (server.js:320-326). */
  function TaskNotice(u: UserId, title: JsVal, projectId: ProjectId, taskId: TaskId): (r: NoticeRequest)
    ensures r.userId == u && r.kind == TaskCreatedNotice
    ensures r.projectId == Some(projectId) && r.taskId == Some(taskId)
    ensures title.Str? ==> r.content == "New task: \"" + title.s + "\""
  {
    NoticeRequest(u, TaskCreatedNotice, "New task: \"" + Interpolate(title) + "\"", Some(projectId), Some(taskId))
  }

  /** A successful insert with a fresh id stores exactly the row built from the request. */
  lemma PostStoresRow(sink: Sink, reg: Connections, open: set<SocketId>, req: NoticeRequest,
                      id: NotificationId, insertedAt: int, pushedAt: int)
    requires id !in RowIds(sink.rows)
    ensures Post(sink, reg, open, req, id, insertedAt, pushedAt, true).rows == sink.rows + [StoredRow(req, id, insertedAt)]
  {
  }

  /** One `broadcastNotification` per member, in query order, all clock reads giving `now`. */
  function NotifyMembers(sink: Sink, reg: Connections, open: set<SocketId>, members: seq<UserId>,
                         ids: seq<NotificationId>, oks: seq<bool>, title: JsVal, projectId: ProjectId,
                         taskId: TaskId, now: int): (r: Sink)
    requires |ids| == |members| == |oks|
    ensures PushedArePersisted(sink) ==> PushedArePersisted(r)
    decreases |members|
  {
    if members == [] then sink
    else
      var k := |members| - 1;
      var before := NotifyMembers(sink, reg, open, members[..k], ids[..k], oks[..k], title, projectId, taskId, now);
      Post(before, reg, open, TaskNotice(members[k], title, projectId, taskId), ids[k], now, now, oks[k])
  }

  /** One more member notified: the fold over a longer prefix is one more `Post`. */
  lemma NotifyMembersSnoc(sink: Sink, reg: Connections, open: set<SocketId>, members: seq<UserId>,
                          ids: seq<NotificationId>, oks: seq<bool>, title: JsVal, projectId: ProjectId,
                          taskId: TaskId, now: int, i: nat)
    requires |ids| == |members| == |oks| && i < |members|
    ensures NotifyMembers(sink, reg, open, members[..i + 1], ids[..i + 1], oks[..i + 1], title, projectId, taskId, now)
         == Post(NotifyMembers(sink, reg, open, members[..i], ids[..i], oks[..i], title, projectId, taskId, now),
                 reg, open, TaskNotice(members[i], title, projectId, taskId), ids[i], now, now, oks[i])
  {
    assert members[..i + 1][..i] == members[..i];
    assert ids[..i + 1][..i] == ids[..i];
    assert oks[..i + 1][..i] == oks[..i];
  }

  /**
   * Whatever the inserts do, task creation's notifications keep every row
   * already stored and every send already made, and each new send is a
   * notification pushed to an OPEN socket of the member it is addressed to.
   */
  lemma {:induction false} NotifyMembersExtends(sink: Sink, reg: Connections, open: set<SocketId>, members: seq<UserId>,
                                                ids: seq<NotificationId>, oks: seq<bool>, title: JsVal,
                                                projectId: ProjectId, taskId: TaskId, now: int)
    requires |ids| == |members| == |oks|
    ensures var r := NotifyMembers(sink, reg, open, members, ids, oks, title, projectId, taskId, now);
      && |r.rows| >= |sink.rows| && r.rows[..|sink.rows|] == sink.rows
      && |r.outbox| >= |sink.outbox| && r.outbox[..|sink.outbox|] == sink.outbox
      && forall d :: d in r.outbox[|sink.outbox|..] ==>
           d.to in open && d.msg.Notification? && d.msg.data.userId in members && d.to in Conns(reg, d.msg.data.userId)
    decreases |members|
  {
    if members != [] {
      var k := |members| - 1;
      NotifyMembersExtends(sink, reg, open, members[..k], ids[..k], oks[..k], title, projectId, taskId, now);
      var before := NotifyMembers(sink, reg, open, members[..k], ids[..k], oks[..k], title, projectId, taskId, now);
      var notice := TaskNotice(members[k], title, projectId, taskId);
      var r := Post(before, reg, open, notice, ids[k], now, now, oks[k]);
      PrefixTrans(sink.rows, before.rows, r.rows);
      PrefixTrans(sink.outbox, before.outbox, r.outbox);
      forall d | d in r.outbox[|sink.outbox|..]
        ensures d.to in open && d.msg.Notification? && d.msg.data.userId in members && d.to in Conns(reg, d.msg.data.userId)
      {
        SliceSplit(r.outbox, |sink.outbox|, |before.outbox|, d);
        if d in r.outbox[|sink.outbox|..|before.outbox|] {
          assert r.outbox[|sink.outbox|..|before.outbox|] == before.outbox[|sink.outbox|..];
          assert d.msg.data.userId in members[..k];
        } else {
          assert d.msg.data.userId == members[k];
        }
      }
    }
  }

  /** Being a prefix is transitive. */
  lemma PrefixTrans<T>(a: seq<T>, b: seq<T>, c: seq<T>)
    requires |a| <= |b| && b[..|a|] == a
    requires |b| <= |c| && c[..|b|] == b
    ensures c[..|a|] == a
  {
    assert c[..|a|] == c[..|b|][..|a|];
  }

  /** An element of a suffix lies before or after any later cut. */
  lemma SliceSplit<T>(s: seq<T>, m: nat, n: nat, x: T)
    requires m <= n <= |s| && x in s[m..]
    ensures x in s[m..n] || x in s[n..]
  {
    assert s[m..] == s[m..n] + s[n..];
  }

  lemma RowIdsAppend(rows: seq<NotificationRow>, row: NotificationRow)
    ensures RowIds(rows + [row]) == RowIds(rows) + {row.id}
  {
    forall x ensures x in RowIds(rows + [row]) <==> x in RowIds(rows) || x == row.id {
      if x in RowIds(rows + [row]) {
        var w :| w in rows + [row] && w.id == x;
        if w != row { assert w in rows; }
      }
      if x in RowIds(rows) {
        var w :| w in rows && w.id == x;
        assert w in rows + [row];
      }
      if x == row.id { assert row in rows + [row]; }
    }
  }

  function IdSet(ids: seq<NotificationId>): set<NotificationId> {
    set i | 0 <= i < |ids| :: ids[i]
  }

  lemma IdSetPrefix(ids: seq<NotificationId>, k: nat)
    requires k < |ids|
    ensures IdSet(ids[..k + 1]) == IdSet(ids[..k]) + {ids[k]}
  {
    var a, b := ids[..k + 1], ids[..k];
    forall x ensures x in IdSet(a) <==> x in IdSet(b) || x == ids[k] {
      if x in IdSet(a) {
        var i :| 0 <= i < |a| && a[i] == x;
        if i < k { assert b[i] == x; }
      }
      if x in IdSet(b) {
        var i :| 0 <= i < |b| && b[i] == x;
        assert a[i] == x;
      }
      if x == ids[k] { assert a[k] == x; }
    }
  }

  /** The last id is neither among the original rows nor among the earlier ids, so it is fresh after them. */
  lemma LastIdFresh(start: seq<NotificationRow>, before: seq<NotificationRow>, ids: seq<NotificationId>, k: nat)
    requires k + 1 == |ids| && ids[k] !in RowIds(start)
    requires forall i, j :: 0 <= i < j < |ids| ==> ids[i] != ids[j]
    requires RowIds(before) == RowIds(start) + IdSet(ids[..k])
    ensures ids[k] !in RowIds(before)
  {
    forall i | 0 <= i < k ensures ids[..k][i] != ids[k] { assert ids[..k][i] == ids[i]; }
  }

  /** The rows task creation stores when every insert succeeds: one `task_created` row per member, in member order. */
  function NoticeRows(members: seq<UserId>, ids: seq<NotificationId>, title: JsVal, projectId: ProjectId,
                      taskId: TaskId, now: int): (r: seq<NotificationRow>)
    requires |ids| == |members|
    ensures |r| == |members|
    decreases |members|
  {
    if members == [] then []
    else
      var k := |members| - 1;
      NoticeRows(members[..k], ids[..k], title, projectId, taskId, now)
        + [StoredRow(TaskNotice(members[k], title, projectId, taskId), ids[k], now)]
  }

  /** The i-th new row is the unread notice to the i-th member, with the i-th id. */
  lemma {:induction false} NoticeRowsAt(members: seq<UserId>, ids: seq<NotificationId>, title: JsVal,
                                        projectId: ProjectId, taskId: TaskId, now: int, i: nat)
    requires |ids| == |members| && i < |members|
    ensures var row := NoticeRows(members, ids, title, projectId, taskId, now)[i];
      && row == StoredRow(TaskNotice(members[i], title, projectId, taskId), ids[i], now)
      && row.userId == members[i] && row.id == ids[i] && row.read == 0
    decreases |members|
  {
    var k := |members| - 1;
    if i < k {
      NoticeRowsAt(members[..k], ids[..k], title, projectId, taskId, now, i);
    }
  }

  /**
   * When every insert succeeds with a fresh, distinct id, task creation adds
   * exactly one unread `task_created` row per member, in member order, and
   * nothing else to the table.
   */
  lemma {:induction false} NotifyMembersOneRowEach(sink: Sink, reg: Connections, open: set<SocketId>, members: seq<UserId>,
                                                   ids: seq<NotificationId>, oks: seq<bool>, title: JsVal,
                                                   projectId: ProjectId, taskId: TaskId, now: int)
    requires |ids| == |members| == |oks|
    requires forall i :: 0 <= i < |oks| ==> oks[i]
    requires forall i :: 0 <= i < |ids| ==> ids[i] !in RowIds(sink.rows)
    requires forall i, j :: 0 <= i < j < |ids| ==> ids[i] != ids[j]
    ensures var r := NotifyMembers(sink, reg, open, members, ids, oks, title, projectId, taskId, now);
      && r.rows == sink.rows + NoticeRows(members, ids, title, projectId, taskId, now)
      && RowIds(r.rows) == RowIds(sink.rows) + IdSet(ids)
  {
    NotifyMembersRows(sink, reg, open, members, ids, oks, title, projectId, taskId, now);
    NoticeRowIds(members, ids, title, projectId, taskId, now);
    RowIdsConcat(sink.rows, NoticeRows(members, ids, title, projectId, taskId, now));
  }

  /** The rows half of `NotifyMembersOneRowEach`, by induction on the members. */
  lemma {:induction false} NotifyMembersRows(sink: Sink, reg: Connections, open: set<SocketId>, members: seq<UserId>,
                                             ids: seq<NotificationId>, oks: seq<bool>, title: JsVal,
                                             projectId: ProjectId, taskId: TaskId, now: int)
    requires |ids| == |members| == |oks|
    requires forall i :: 0 <= i < |oks| ==> oks[i]
    requires forall i :: 0 <= i < |ids| ==> ids[i] !in RowIds(sink.rows)
    requires forall i, j :: 0 <= i < j < |ids| ==> ids[i] != ids[j]
    ensures NotifyMembers(sink, reg, open, members, ids, oks, title, projectId, taskId, now).rows
         == sink.rows + NoticeRows(members, ids, title, projectId, taskId, now)
    decreases |members|
  {
    if members != [] {
      var k := |members| - 1;
      NotifyMembersRows(sink, reg, open, members[..k], ids[..k], oks[..k], title, projectId, taskId, now);
      var prefix := NoticeRows(members[..k], ids[..k], title, projectId, taskId, now);
      NoticeRowIds(members[..k], ids[..k], title, projectId, taskId, now);
      assert oks[k];
      OneRowStep(sink.rows, NotifyMembers(sink, reg, open, members[..k], ids[..k], oks[..k], title, projectId, taskId, now),
                 reg, open, TaskNotice(members[k], title, projectId, taskId), prefix, ids, k, now);
    }
  }

  /** One more successful `Post` with a fresh id appends its row after the earlier ones. */
  lemma OneRowStep(start: seq<NotificationRow>, before: Sink, reg: Connections, open: set<SocketId>,
                   notice: NoticeRequest, prefix: seq<NotificationRow>, ids: seq<NotificationId>, k: nat, now: int)
    requires before.rows == start + prefix
    requires k + 1 == |ids| && ids[k] !in RowIds(start)
    requires forall i, j :: 0 <= i < j < |ids| ==> ids[i] != ids[j]
    requires RowIds(prefix) == IdSet(ids[..k])
    ensures Post(before, reg, open, notice, ids[k], now, now, true).rows == start + (prefix + [StoredRow(notice, ids[k], now)])
  {
    RowIdsConcat(start, prefix);
    LastIdFresh(start, before.rows, ids, k);
    PostStoresRow(before, reg, open, notice, ids[k], now, now);
    SnocAssoc(start, prefix, StoredRow(notice, ids[k], now));
  }

  /** The ids of task creation's rows are exactly the given ids. */
  lemma {:induction false} NoticeRowIds(members: seq<UserId>, ids: seq<NotificationId>, title: JsVal, projectId: ProjectId,
                                        taskId: TaskId, now: int)
    requires |ids| == |members|
    ensures RowIds(NoticeRows(members, ids, title, projectId, taskId, now)) == IdSet(ids)
    decreases |members|
  {
    if members != [] {
      var k := |members| - 1;
      NoticeRowIds(members[..k], ids[..k], title, projectId, taskId, now);
      RowIdsAppend(NoticeRows(members[..k], ids[..k], title, projectId, taskId, now),
                   StoredRow(TaskNotice(members[k], title, projectId, taskId), ids[k], now));
      IdSetPrefix(ids, k);
      assert ids[..k + 1] == ids;
    }
  }

  lemma RowIdsConcat(a: seq<NotificationRow>, b: seq<NotificationRow>)
    ensures RowIds(a + b) == RowIds(a) + RowIds(b)
  {
    forall x ensures x in RowIds(a + b) <==> x in RowIds(a) || x in RowIds(b) {
      if x in RowIds(a + b) {
        var w :| w in a + b && w.id == x;
        if w !in a { assert w in b; }
      }
      if x in RowIds(a) {
        var w :| w in a && w.id == x;
        assert w in a + b;
      }
      if x in RowIds(b) {
        var w :| w in b && w.id == x;
        assert w in a + b;
      }
    }
  }

  lemma SnocAssoc(a: seq<NotificationRow>, b: seq<NotificationRow>, x: NotificationRow)
    ensures a + b + [x] == a + (b + [x])
  {
  }

}
