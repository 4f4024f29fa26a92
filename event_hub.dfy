/**
 * The socket server's `connection` handler: for every event a socket sends,
 * the deliveries the server emits. `newUser` and `disconnect` change the
 * registry; `sendMessage` is unicast to the registered receiver; every
 * comment event is re-emitted to all sockets under a new name.
 * Payloads are opaque (`V`); the server never looks inside them.
 */
module EventHub {
  import opened Wrappers
  import opened Registry

  /** The events a socket emits to the server, with the arguments its handler receives. */
  datatype Inbound<V> =
    | NewUser(userId: UserId)
    | SendMessage(receiverId: UserId, data: V)
    | NewComment(comment: V)
    | NewReply(reply: V)
    | DeleteComment(commentId: V)
      /** `parentId` (the handler's second argument, `commentId`) is `None` when the sender passes only one argument, as the comment page does. */
    | DeleteReply(replyId: V, parentId: Option<V>)
    | Disconnect
    | LikeComment(commentId: V)
    | UnlikeComment(commentId: V)

  /** `io.emit` reaches every connected socket, the sender included; `io.to(s)` only socket `s`. */
  datatype Target = Everyone | To(socketId: SocketId)

  /** What is emitted: the payload as received, or the `{ replyId, commentId }` object built by the first `deleteReply` handler. */
  datatype Payload<V> = Raw(value: V) | ReplyRef(replyId: V, commentId: Option<V>)

  /** The names the server emits under, spelled as on the wire. */
  datatype EventName =
    | getMessage | receiveComment | receiveReply | commentDeleted
    | replyDeleted | receiveDeleteReply | likeComment | unlikeComment

  datatype Delivery<V> = Delivery(target: Target, name: EventName, payload: Payload<V>)

  function Broadcast<V>(name: EventName, v: V): Delivery<V> {
    Delivery(Everyone, name, Raw(v))
  }

  /** The inbound events the server only relays, never interprets. */
  predicate IsRelayed<V>(e: Inbound<V>) {
    !(e.NewUser? || e.Disconnect? || e.SendMessage?)
  }

  /**
   * The deliveries one inbound event produces, given the registry at that
   * moment. Handlers registered twice for the same event name both run, in
   * registration order.
   */
  function Route<V>(es: seq<Entry>, e: Inbound<V>): (out: seq<Delivery<V>>)
    ensures |out| == 0 <==> e.NewUser? || e.Disconnect? || (e.SendMessage? && !IsOnline(es, e.receiverId))
    ensures IsRelayed(e) ==> forall i :: 0 <= i < |out| ==> out[i].target == Everyone
    ensures e.SendMessage? ==> forall i :: 0 <= i < |out| ==> out[i].target.To? && out[i].name == getMessage
  {
    match e
    case NewUser(_) => []
    case Disconnect => []
    case SendMessage(u, data) =>
      (match Lookup(es, u)
       case Some(receiver) => [Delivery(To(receiver.socketId), getMessage, Raw(data))]
       case None => [])
    case NewComment(c) => [Broadcast(receiveComment, c)]
    case NewReply(r) => [Broadcast(receiveReply, r)]
    case DeleteComment(id) => [Broadcast(commentDeleted, id)]
    case DeleteReply(replyId, commentId) =>
      [Delivery(Everyone, replyDeleted, ReplyRef(replyId, commentId)), Broadcast(receiveDeleteReply, replyId)]
    case LikeComment(id) => [Broadcast(likeComment, id)]
    case UnlikeComment(id) => [Broadcast(unlikeComment, id)]
  }

  /**
   * What an inbound event from socket `from` does to the registry: `newUser`
   * puts its user online, `disconnect` takes every user on `from` offline,
   * every other event leaves it alone; one entry per user is kept throughout.
   */
  function Effect<V>(es: seq<Entry>, from: SocketId, e: Inbound<V>): (r: seq<Entry>)
    ensures OnePerUser(es) ==> OnePerUser(r)
    ensures e.NewUser? ==> IsOnline(r, e.userId)
    ensures e.Disconnect? ==> forall i :: 0 <= i < |r| ==> r[i].socketId != from
    ensures !e.NewUser? && !e.Disconnect? ==> r == es
  {
    match e
    case NewUser(u) => Added(es, u, from)
    case Disconnect => Removed(es, from)
    case _ => es
  }

  /**
   * `sendMessage` yields exactly one `getMessage` delivery, to the socket the
   * receiver is registered on, when the receiver is online, and none otherwise.
   */
  lemma SendMessageIsUnicast<V>(es: seq<Entry>, receiverId: UserId, data: V)
    ensures IsOnline(es, receiverId) ==>
      (receiverId in AsMap(es) &&
       Route(es, SendMessage(receiverId, data)) == [Delivery(To(AsMap(es)[receiverId]), getMessage, Raw(data))])
    ensures !IsOnline(es, receiverId) ==> Route(es, SendMessage(receiverId, data)) == []
  {
    AsMapKeys(es, receiverId);
    LookupIsMapLookup(es, receiverId);
  }

  /**
   * A relayed event is routed the same whatever the registry holds, leaves the
   * registry unchanged, and passes its payload through untouched: one broadcast
   * under the renamed event, or two for `deleteReply`.
   */
  lemma RelayIgnoresRegistry<V>(es: seq<Entry>, es': seq<Entry>, from: SocketId, e: Inbound<V>)
    requires IsRelayed(e)
    ensures Route(es, e) == Route(es', e)
    ensures Effect(es, from, e) == es
    ensures e.NewComment? ==> Route(es, e) == [Broadcast(receiveComment, e.comment)]
    ensures e.NewReply? ==> Route(es, e) == [Broadcast(receiveReply, e.reply)]
    ensures e.DeleteComment? ==> Route(es, e) == [Broadcast(commentDeleted, e.commentId)]
    ensures e.LikeComment? ==> Route(es, e) == [Broadcast(likeComment, e.commentId)]
    ensures e.UnlikeComment? ==> Route(es, e) == [Broadcast(unlikeComment, e.commentId)]
  {
  }

  /** One inbound `deleteReply` is emitted twice: first as `replyDeleted`, then as `receiveDeleteReply` with the raw reply id. */
  lemma DeleteReplyBroadcastsTwice<V>(es: seq<Entry>, replyId: V, commentId: Option<V>)
    ensures var out := Route(es, DeleteReply(replyId, commentId));
      |out| == 2 &&
      out[0] == Delivery(Everyone, replyDeleted, ReplyRef(replyId, commentId)) &&
      out[1] == Broadcast(receiveDeleteReply, replyId)
  {
  }

  /**
   * The `connection` handler for one event arriving on socket `from`: update
   * the registry for `newUser`/`disconnect`, resolve the receiver for
   * `sendMessage`, relay everything else.
   */
  method Dispatch<V>(registry: OnlineUsers, from: SocketId, e: Inbound<V>) returns (out: seq<Delivery<V>>)
    requires registry.Valid()
    modifies registry
    ensures registry.Valid()
    ensures registry.entries == Effect(old(registry.entries), from, e)
    ensures out == Route(old(registry.entries), e)
  {
    match e
    case NewUser(u) =>
      registry.Register(u, from);
      out := [];
    case Disconnect =>
      registry.Unregister(from);
      out := [];
    case SendMessage(u, data) =>
      var receiver := registry.Resolve(u);
      if receiver.Some? {
        out := [Delivery(To(receiver.value.socketId), getMessage, Raw(data))];
      } else {
        out := [];
      }
    case _ =>
      out := Route(registry.entries, e);
  }
}
