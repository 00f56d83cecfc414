/**
 * The `userConnections` map of the server as a value: user id to the list of
 * sockets authenticated as that user, and the two updates the connection
 * handler applies to it.
 */
module Registry {
  import opened JsValues
  import opened Wire

  type Connections = map<UserId, seq<SocketId>>

  /** No user is kept with an empty list. */
  predicate NoEmptyLists(reg: Connections) {
    forall u :: u in reg ==> |reg[u]| > 0
  }

  /** The sockets registered under `u`; none when `u` has no entry. */
  function Conns(reg: Connections, u: UserId): seq<SocketId> {
    if u in reg then reg[u] else []
  }

  /** `Array.prototype.indexOf`: the first position of `x`, or -1. */
  function IndexOf(s: seq<SocketId>, x: SocketId): (i: int)
    ensures -1 <= i < |s|
    ensures i == -1 <==> x !in s
    ensures 0 <= i ==> s[i] == x && x !in s[..i]
  {
    if |s| == 0 then -1
    else if s[0] == x then 0
    else
      var j := IndexOf(s[1..], x);
      if j == -1 then -1 else j + 1
  }

  /** `if (index > -1) connections.splice(index, 1)` */
  function RemoveFirst(s: seq<SocketId>, x: SocketId): (r: seq<SocketId>)
    ensures x !in s ==> r == s
    ensures x in s ==> |r| == |s| - 1 && r == s[..IndexOf(s, x)] + s[IndexOf(s, x) + 1..]
    ensures multiset(r) == multiset(s) - multiset{x}
  {
    var i := IndexOf(s, x);
    if i > -1 then
      assert s == s[..i] + [x] + s[i + 1..];
      s[..i] + s[i + 1..]
    else s
  }

  /**
   * A successful `auth`: create the user's list if missing, then push the
   * socket onto it (server.js:481-484).
   */
  function Register(reg: Connections, u: UserId, s: SocketId): (r: Connections)
    ensures u in r && r.Keys == reg.Keys + {u}
    ensures |r[u]| == |Conns(reg, u)| + 1 && r[u][|r[u]| - 1] == s
    ensures r[u][..|r[u]| - 1] == Conns(reg, u)
    ensures multiset(r[u]) == multiset(Conns(reg, u)) + multiset{s}
    ensures forall v :: v in reg && v != u ==> r[v] == reg[v]
    ensures NoEmptyLists(reg) ==> NoEmptyLists(r)
  {
    reg[u := Conns(reg, u) + [s]]
  }

  /**
   * The close handler (server.js:497-504): when the connection's bound user id
   * is truthy and has an entry, splice out the first occurrence of the socket
   * and drop the entry once its list is empty.
   */
  function Unregister(reg: Connections, bound: Option<UserId>, s: SocketId): (r: Connections)
    ensures !Present(bound) || bound.value !in reg ==> r == reg
    ensures Present(bound) && bound.value in reg ==>
      var u := bound.value;
      && r.Keys <= reg.Keys
      && (forall v :: v in reg && v != u ==> v in r && r[v] == reg[v])
      && multiset(Conns(r, u)) == multiset(reg[u]) - multiset{s}
      && (u !in r <==> |reg[u]| <= 1 && (reg[u] == [] || reg[u][0] == s))
    ensures NoEmptyLists(reg) ==> NoEmptyLists(r)
  {
    if Present(bound) && bound.value in reg then
      var u := bound.value;
      var rest := RemoveFirst(reg[u], s);
      LengthOneRemoval(reg[u], s);
      if |rest| == 0 then reg - {u} else reg[u := rest]
    else reg
  }

  /** Removing `s` from a list empties it exactly when the list is empty or is `[s]`. */
  lemma LengthOneRemoval(c: seq<SocketId>, s: SocketId)
    ensures |RemoveFirst(c, s)| == 0 <==> |c| <= 1 && (c == [] || c[0] == s)
  {
    if |c| == 1 && c[0] == s {
      assert s in c;
    } else if |c| == 1 {
      assert s !in c;
    }
  }

  /** Pushing a socket that was not yet in the list and splicing it out again gives the list back. */
  lemma {:induction false} RemoveAppended(c: seq<SocketId>, s: SocketId)
    requires s !in c
    ensures RemoveFirst(c + [s], s) == c
  {
    assert (c + [s])[|c|] == s;
    assert (c + [s])[..|c|] == c;
    assert IndexOf(c + [s], s) == |c|;
  }

  /**
   * Closing a socket that one `auth` registered, and that was not registered
   * under that user before, restores the registry exactly.
   */
  lemma {:induction false} CloseUndoesAuth(reg: Connections, u: UserId, s: SocketId)
    requires NoEmptyLists(reg)
    requires u != "" && s !in Conns(reg, u)
    ensures Unregister(Register(reg, u, s), Some(u), s) == reg
  {
    RemoveAppended(Conns(reg, u), s);
    if u in reg {
      CloseUndoesAuthKnownUser(reg, u, s);
    } else {
      CloseUndoesAuthNewUser(reg, u, s);
    }
  }

  lemma CloseUndoesAuthKnownUser(reg: Connections, u: UserId, s: SocketId)
    requires u in reg && |reg[u]| > 0 && u != ""
    requires RemoveFirst(reg[u] + [s], s) == reg[u]
    ensures Unregister(Register(reg, u, s), Some(u), s) == reg
  {
    var registered := reg[u := reg[u] + [s]];
    assert Unregister(registered, Some(u), s) == registered[u := reg[u]];
    assert registered[u := reg[u]] == reg;
  }

  lemma CloseUndoesAuthNewUser(reg: Connections, u: UserId, s: SocketId)
    requires u !in reg && u != ""
    requires RemoveFirst([s], s) == []
    ensures Unregister(Register(reg, u, s), Some(u), s) == reg
  {
    var registered := reg[u := [s]];
    assert Unregister(registered, Some(u), s) == registered - {u};
    assert registered - {u} == reg;
  }

  /**
   * A second successful `auth` on the same socket registers it twice under
   * the same user; one close then leaves one registration behind.
   */
  lemma DoubleAuthLeavesOneRegistration(reg: Connections, u: UserId, s: SocketId)
    requires u != ""
    ensures var twice := Register(Register(reg, u, s), u, s);
      && multiset(twice[u])[s] == multiset(Conns(reg, u))[s] + 2
      && var closed := Unregister(twice, Some(u), s);
         u in closed && multiset(closed[u])[s] == multiset(Conns(reg, u))[s] + 1
  {
    var twice := Register(Register(reg, u, s), u, s);
    assert |twice[u]| >= 2;
  }

  /**
   * Re-authenticating a socket as another user rebinds the connection to the
   * new user, so closing it cleans only the new user's list and the socket
   * stays registered under the first one.
   */
  lemma ReauthLeavesStaleEntry(reg: Connections, u1: UserId, u2: UserId, s: SocketId)
    requires u1 != u2 && u2 != ""
    ensures var closed := Unregister(Register(Register(reg, u1, s), u2, s), Some(u2), s);
      u1 in closed && s in closed[u1]
  {
    var once := Register(reg, u1, s);
    var twice := Register(once, u2, s);
    var closed := Unregister(twice, Some(u2), s);
    assert s in once[u1] by { assert once[u1][|once[u1]| - 1] == s; }
    assert twice[u1] == once[u1];
    assert u1 in closed && closed[u1] == twice[u1];
  }

  /**
   * Closing changes nothing when the connection never authenticated, when its
   * user has no entry, or when the socket is not in that user's list (the
   * splice is skipped and the non-empty list is written back unchanged).
   */
  lemma CloseUnregisteredIsNoop(reg: Connections, bound: Option<UserId>, s: SocketId)
    requires NoEmptyLists(reg)
    requires Present(bound) && bound.value in reg ==> s !in reg[bound.value]
    ensures Unregister(reg, bound, s) == reg
  {
    if Present(bound) && bound.value in reg {
      var u := bound.value;
      assert RemoveFirst(reg[u], s) == reg[u];
      assert reg[u := reg[u]] == reg;
    }
  }
}
