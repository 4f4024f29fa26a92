/**
 * The socket server's `onlineUser` list: which user is reachable on which
 * socket. A user is added when the socket announces it (`addUser`, first
 * connection wins), entries are dropped by socket id when a socket
 * disconnects (`removeUser`), and direct messages look users up by id
 * (`getUser`).
 */
module Registry {
  import opened Wrappers
  import opened Keyed

  type UserId = string
  type SocketId = string

  /** One `{ userId, socketId }` element of `onlineUser`. */
  datatype Entry = Entry(userId: UserId, socketId: SocketId)

  function UserOf(e: Entry): UserId { e.userId }
  function SocketOf(e: Entry): SocketId { e.socketId }

  /** The registry invariant: at most one entry per user. */
  predicate OnePerUser(es: seq<Entry>) {
    Unique(es, UserOf)
  }

  predicate IsOnline(es: seq<Entry>, u: UserId) {
    Has(es, u, UserOf)
  }

  /** `getUser(u)`: the entry of user `u`, if one is registered. */
  function Lookup(es: seq<Entry>, u: UserId): (r: Option<Entry>)
    ensures r.None? <==> !IsOnline(es, u)
    ensures r.Some? ==> r.value in es && r.value.userId == u
  {
    Find(es, u, UserOf)
  }

  /** `addUser(u, s)`: append `{u, s}` unless `u` already has an entry. */
  function Added(es: seq<Entry>, u: UserId, s: SocketId): (r: seq<Entry>)
    ensures OnePerUser(es) ==> OnePerUser(r)
    ensures IsOnline(r, u)
  {
    if IsOnline(es, u) then es
    else
      assert Entry(u, s) == (es + [Entry(u, s)])[|es|];
      assert OnePerUser(es) ==> OnePerUser(es + [Entry(u, s)]);
      es + [Entry(u, s)]
  }

  /** `removeUser(s)`: drop every entry on socket `s`, keep the others in order. */
  function Removed(es: seq<Entry>, s: SocketId): (r: seq<Entry>)
    ensures OnePerUser(es) ==> OnePerUser(r)
    ensures forall i :: 0 <= i < |r| ==> r[i] in es && r[i].socketId != s
    ensures forall i :: 0 <= i < |es| && es[i].socketId != s ==> es[i] in r
    ensures (forall i :: 0 <= i < |es| ==> es[i].socketId != s) ==> r == es
  {
    WithoutKeepsUnique(es, s, SocketOf, UserOf);
    Without(es, s, SocketOf)
  }

  /** A second `addUser` for a user already online changes nothing: the first connection wins. */
  lemma AddExistingIsNoOp(es: seq<Entry>, u: UserId, s: SocketId)
    requires IsOnline(es, u)
    ensures Added(es, u, s) == es
    ensures Lookup(Added(es, u, s), u) == Lookup(es, u)
  {
  }

  /**
   * `addUser` of a new user appends exactly `{u, s}`; afterwards `getUser(u)`
   * finds it and every other user resolves as before.
   */
  lemma {:induction false} AddNewResolves(es: seq<Entry>, u: UserId, s: SocketId)
    requires !IsOnline(es, u)
    ensures Added(es, u, s) == es + [Entry(u, s)]
    ensures Lookup(Added(es, u, s), u) == Some(Entry(u, s))
    ensures forall v :: v != u ==> Lookup(Added(es, u, s), v) == Lookup(es, v)
  {
    var r := es + [Entry(u, s)];
    FindFirst(r, u, UserOf, |es|);
    forall v | v != u ensures Lookup(r, v) == Lookup(es, v) {
      if IsOnline(es, v) {
        var i := FirstIndex(es, v);
        FindFirst(es, v, UserOf, i);
        FindFirst(r, v, UserOf, i);
      } else {
        assert !IsOnline(r, v);
      }
    }
  }

  /** The position of the first entry of user `u`. */
  function FirstIndex(es: seq<Entry>, u: UserId): (i: nat)
    requires IsOnline(es, u)
    ensures i < |es| && es[i].userId == u
    ensures forall j :: 0 <= j < i ==> es[j].userId != u
  {
    if es[0].userId == u then 0
    else
      assert IsOnline(es[1..], u) by {
        var k :| 0 <= k < |es| && es[k].userId == u;
        assert es[1..][k - 1] == es[k];
      }
      1 + FirstIndex(es[1..], u)
  }

  /** `removeUser` of a socket nobody is registered on changes nothing. */
  lemma RemoveUnknownIsNoOp(es: seq<Entry>, s: SocketId)
    requires !Has(es, s, SocketOf)
    ensures Removed(es, s) == es
  {
  }

  /** `removeUser` keeps the remaining entries in their original order (filtering distributes over `+`). */
  lemma RemoveKeepsOrder(a: seq<Entry>, b: seq<Entry>, s: SocketId)
    ensures Removed(a + b, s) == Removed(a, s) + Removed(b, s)
  {
    WithoutConcat(a, b, s, SocketOf);
  }

  // ----- the registry as a map from users to sockets -----

  /** What the list denotes: each listed user mapped to the socket of its first entry. */
  function AsMap(es: seq<Entry>): map<UserId, SocketId> {
    if es == [] then map[] else AsMap(es[1..])[es[0].userId := es[0].socketId]
  }

  /** The users in the map are exactly the users online. */
  lemma {:induction false} AsMapKeys(es: seq<Entry>, u: UserId)
    ensures u in AsMap(es) <==> IsOnline(es, u)
  {
    if es != [] {
      AsMapKeys(es[1..], u);
      if IsOnline(es[1..], u) {
        var i :| 0 <= i < |es[1..]| && es[1..][i].userId == u;
        assert es[i + 1].userId == u;
      }
      if IsOnline(es, u) && es[0].userId != u {
        var i :| 0 <= i < |es| && es[i].userId == u;
        assert es[1..][i - 1].userId == u;
      }
    }
  }

  /** `getUser` agrees with the map view. */
  lemma {:induction false} LookupIsMapLookup(es: seq<Entry>, u: UserId)
    ensures Lookup(es, u) == if u in AsMap(es) then Some(Entry(u, AsMap(es)[u])) else None
  {
    AsMapKeys(es, u);
    if es != [] && es[0].userId != u {
      LookupIsMapLookup(es[1..], u);
    }
  }

  /** Appending an entry for a user not yet listed adds it to the map; otherwise the map is unchanged. */
  lemma {:induction false} AsMapAppend(es: seq<Entry>, e: Entry)
    ensures AsMap(es + [e]) == if e.userId in AsMap(es) then AsMap(es) else AsMap(es)[e.userId := e.socketId]
  {
    if es != [] {
      var h, t := es[0], es[1..];
      assert (es + [e])[0] == h && (es + [e])[1..] == t + [e];
      AsMapAppend(t, e);
      var m := AsMap(t);
      assert AsMap(es + [e]) == AsMap(t + [e])[h.userId := h.socketId];
      if e.userId !in m && e.userId != h.userId {
        assert m[e.userId := e.socketId][h.userId := h.socketId] == m[h.userId := h.socketId][e.userId := e.socketId];
      } else if e.userId !in m {
        assert m[e.userId := e.socketId][h.userId := h.socketId] == m[h.userId := h.socketId];
      }
    }
  }

  /** With one entry per user, dropping socket `s` drops exactly the users mapped to `s`. */
  lemma {:induction false} AsMapRemoved(es: seq<Entry>, s: SocketId)
    requires OnePerUser(es)
    ensures AsMap(Removed(es, s)) == DropSocket(AsMap(es), s)
  {
    if es != [] {
      var e, rest := es[0], es[1..];
      assert OnePerUser(rest);
      AsMapRemoved(rest, s);
      var tail := Removed(rest, s);
      assert !IsOnline(rest, e.userId) by {
        forall i | 0 <= i < |rest| ensures rest[i].userId != e.userId {
          assert rest[i] == es[i + 1];
        }
      }
      AsMapKeys(rest, e.userId);
      assert AsMap(es) == AsMap(rest)[e.userId := e.socketId];
      DropSocketUpdate(AsMap(rest), e.userId, e.socketId, s);
      if e.socketId == s {
        assert Removed(es, s) == tail;
      } else {
        assert Removed(es, s) == [e] + tail;
        assert ([e] + tail)[1..] == tail;
        assert AsMap([e] + tail) == AsMap(tail)[e.userId := e.socketId];
      }
    }
  }

  lemma DropSocketUpdate(m: map<UserId, SocketId>, u: UserId, v: SocketId, s: SocketId)
    requires u !in m
    ensures DropSocket(m[u := v], s) == if v == s then DropSocket(m, s) else DropSocket(m, s)[u := v]
  {
  }

  /** The map after disconnecting socket `s`. */
  function DropSocket(m: map<UserId, SocketId>, s: SocketId): (r: map<UserId, SocketId>)
    ensures forall u :: u in r <==> u in m && m[u] != s
    ensures forall u :: u in r ==> r[u] == m[u]
  {
    map u | u in m && m[u] != s :: m[u]
  }

  // ----- histories of connects and disconnects -----

  /** What the server does to the list: `newUser` on socket `s` or the disconnect of socket `s`. */
  datatype RegistryOp = AddUser(userId: UserId, socketId: SocketId) | RemoveUser(socketId: SocketId)

  function Step(es: seq<Entry>, op: RegistryOp): seq<Entry> {
    match op
    case AddUser(u, s) => Added(es, u, s)
    case RemoveUser(s) => Removed(es, s)
  }

  /** The list after a history of operations, starting from the empty list of line 9. */
  function Replay(ops: seq<RegistryOp>): seq<Entry> {
    if ops == [] then [] else Step(Replay(ops[..|ops| - 1]), ops[|ops| - 1])
  }

  /** The net effect of a history on the map view: the reference semantics of the registry. */
  function NetEffect(ops: seq<RegistryOp>): map<UserId, SocketId> {
    if ops == [] then map[]
    else
      var m := NetEffect(ops[..|ops| - 1]);
      match ops[|ops| - 1]
      case AddUser(u, s) => if u in m then m else m[u := s]
      case RemoveUser(s) => DropSocket(m, s)
  }

  /** Every history keeps one entry per user, and the list denotes the net effect. */
  lemma {:induction false} ReplayRefinesNetEffect(ops: seq<RegistryOp>)
    ensures OnePerUser(Replay(ops))
    ensures AsMap(Replay(ops)) == NetEffect(ops)
  {
    if ops != [] {
      var prefix := ops[..|ops| - 1];
      ReplayRefinesNetEffect(prefix);
      var es := Replay(prefix);
      match ops[|ops| - 1]
      case AddUser(u, s) =>
        AsMapKeys(es, u);
        if !IsOnline(es, u) {
          AsMapAppend(es, Entry(u, s));
        }
      case RemoveUser(s) =>
        AsMapRemoved(es, s);
    }
  }

  /**
   * After any history, `getUser(u)` finds an entry exactly when the net effect
   * leaves `u` registered, and the entry carries the socket the net effect gives.
   */
  lemma ResolveAfterHistory(ops: seq<RegistryOp>, u: UserId)
    ensures Lookup(Replay(ops), u).Some? <==> u in NetEffect(ops)
    ensures Lookup(Replay(ops), u).Some? ==> Lookup(Replay(ops), u).value.socketId == NetEffect(ops)[u]
  {
    ReplayRefinesNetEffect(ops);
    LookupIsMapLookup(Replay(ops), u);
  }

  /** The module-level `onlineUser` array of the socket server. */
  class OnlineUsers {
    var entries: seq<Entry>

    ghost predicate Valid()
      reads this
    {
      OnePerUser(entries)
    }

    constructor ()
      ensures Valid() && entries == []
    {
      entries := [];
    }

    /** `getUser`: a linear search for the first entry of user `u`. */
    method Resolve(u: UserId) returns (r: Option<Entry>)
      ensures r == Lookup(entries, u)
      ensures r.Some? ==> r.value in entries && r.value.userId == u
      ensures r.None? ==> forall i :: 0 <= i < |entries| ==> entries[i].userId != u
    {
      var i := 0;
      while i < |entries|
        invariant 0 <= i <= |entries|
        invariant forall j :: 0 <= j < i ==> entries[j].userId != u
      {
        if entries[i].userId == u {
          FindFirst(entries, u, UserOf, i);
          return Some(entries[i]);
        }
        i := i + 1;
      }
      return None;
    }

    /** `addUser`: push `{u, s}` unless `u` is already online. */
    method Register(u: UserId, s: SocketId)
      requires Valid()
      modifies this
      ensures Valid()
      ensures entries == Added(old(entries), u, s)
    {
      var existing := Resolve(u);
      if existing.None? {
        entries := entries + [Entry(u, s)];
      }
    }

    /** `removeUser`: replace the list by its entries not on socket `s`. */
    method Unregister(s: SocketId)
      requires Valid()
      modifies this
      ensures Valid()
      ensures entries == Removed(old(entries), s)
    {
      entries := Removed(entries, s);
    }
  }
}
