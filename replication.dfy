/**
 * The two halves together: what a comment page does with the deliveries the
 * socket server emits for each event a page publishes. A page registers
 * listeners for `receiveComment`, `receiveReply`, `receiveDeleteReply`,
 * `likeComment`, `unlikeComment` and `commentDeleted`; deliveries under any
 * other name (`getMessage`, `replyDeleted`) are ignored by it.
 */
module Replication {
  import opened Wrappers
  import opened Keyed
  import opened Comments
  import opened CommentPage
  import opened Registry
  import opened EventHub

  /** The listener a delivery triggers on the page, and the event it hands over. */
  function Listen(d: Delivery<Message>): (r: Option<Event>)
    ensures d.name == replyDeleted || d.name == getMessage ==> r.None?
    ensures r.Some? ==> d.payload.Raw?
  {
    match d.payload
    case ReplyRef(_, _) => None
    case Raw(m) =>
      match d.name
      case receiveComment => if m.CommentMsg? then Some(ReceiveComment(m.comment)) else None
      case receiveReply => if m.ReplyMsg? then Some(ReceiveReply(m.reply)) else None
      case receiveDeleteReply => if m.IdMsg? then Some(ReceiveDeleteReply(m.id)) else None
      case likeComment => if m.IdMsg? then Some(Comments.LikeComment(m.id)) else None
      case unlikeComment => if m.IdMsg? then Some(Comments.UnlikeComment(m.id)) else None
      case commentDeleted => if m.IdMsg? then Some(CommentDeleted(m.id)) else None
      case _ => None
  }

  /** A delivery reaches the page on socket `me` when it is broadcast or addressed to `me`. */
  predicate Reaches(d: Delivery<Message>, me: SocketId) {
    d.target == Everyone || d.target == To(me)
  }

  /** The page's comments after the deliveries `ds`, in order, reach socket `me`. */
  function Deliver(cs: seq<Comment>, me: SocketId, ds: seq<Delivery<Message>>): seq<Comment>
    decreases |ds|
  {
    if ds == [] then cs
    else
      var next := if Reaches(ds[0], me) && Listen(ds[0]).Some? then Apply(cs, Listen(ds[0]).value) else cs;
      Deliver(next, me, ds[1..])
  }

  /**
   * Every event a page publishes reaches every page, the publisher included,
   * whatever the registry holds, and is applied there exactly once by the
   * matching updater: the two broadcasts of `deleteReply` act once, because
   * no page listens to `replyDeleted`.
   */
  lemma PublishedEventAppliedOnce(es: seq<Entry>, me: SocketId, cs: seq<Comment>, e: Inbound<Message>)
    ensures e.NewComment? && e.comment.CommentMsg? ==>
      Deliver(cs, me, Route(es, e)) == UpsertComment(cs, e.comment.comment)
    ensures e.NewReply? && e.reply.ReplyMsg? ==>
      Deliver(cs, me, Route(es, e)) == UpsertReply(cs, e.reply.reply)
    ensures e.DeleteComment? && e.commentId.IdMsg? ==>
      Deliver(cs, me, Route(es, e)) == RemoveComment(cs, e.commentId.id)
    ensures e.DeleteReply? && e.replyId.IdMsg? ==>
      Deliver(cs, me, Route(es, e)) == RemoveReplyEverywhere(cs, e.replyId.id)
    ensures e.LikeComment? && e.commentId.IdMsg? ==>
      Deliver(cs, me, Route(es, e)) == AdjustLikes(cs, e.commentId.id, 1)
    ensures e.UnlikeComment? && e.commentId.IdMsg? ==>
      Deliver(cs, me, Route(es, e)) == AdjustLikes(cs, e.commentId.id, -1)
  {
    match e
    case NewComment(m) =>
      if m.CommentMsg? {
        assert Route(es, e) == [Broadcast(receiveComment, m)];
        BroadcastApplied(cs, me, receiveComment, m, ReceiveComment(m.comment));
      }
    case NewReply(m) =>
      if m.ReplyMsg? {
        assert Route(es, e) == [Broadcast(receiveReply, m)];
        BroadcastApplied(cs, me, receiveReply, m, ReceiveReply(m.reply));
      }
    case DeleteComment(m) =>
      if m.IdMsg? {
        assert Route(es, e) == [Broadcast(commentDeleted, m)];
        BroadcastApplied(cs, me, commentDeleted, m, CommentDeleted(m.id));
      }
    case LikeComment(m) =>
      if m.IdMsg? {
        assert Route(es, e) == [Broadcast(likeComment, m)];
        BroadcastApplied(cs, me, likeComment, m, Comments.LikeComment(m.id));
      }
    case UnlikeComment(m) =>
      if m.IdMsg? {
        assert Route(es, e) == [Broadcast(unlikeComment, m)];
        BroadcastApplied(cs, me, unlikeComment, m, Comments.UnlikeComment(m.id));
      }
    case DeleteReply(m, parent) =>
      if m.IdMsg? {
        var out := Route(es, e);
        assert out == [Delivery(Everyone, replyDeleted, ReplyRef(m, parent)), Broadcast(receiveDeleteReply, m)];
        assert Deliver(cs, me, out) == Deliver(cs, me, out[1..]);
        BroadcastApplied(cs, me, receiveDeleteReply, m, ReceiveDeleteReply(m.id));
      }
    case _ =>
  }

  /** A broadcast the page has a listener for applies the event that listener hands over. */
  lemma BroadcastApplied(cs: seq<Comment>, me: SocketId, name: EventName, m: Message, ev: Event)
    requires Listen(Broadcast(name, m)) == Some(ev)
    ensures Deliver(cs, me, [Broadcast(name, m)]) == Apply(cs, ev)
  {
    DeliverSingle(cs, me, [Broadcast(name, m)]);
  }

  /** One delivery: the page applies the event its listener hands over, if it has a listener for it. */
  lemma DeliverSingle(cs: seq<Comment>, me: SocketId, ds: seq<Delivery<Message>>)
    requires |ds| == 1
    ensures Deliver(cs, me, ds) == if Reaches(ds[0], me) && Listen(ds[0]).Some? then Apply(cs, Listen(ds[0]).value) else cs
  {
  }

  /** Direct messages never change a comment page. */
  lemma DirectMessagesLeaveCommentsAlone(es: seq<Entry>, me: SocketId, cs: seq<Comment>, receiverId: UserId, data: Message)
    ensures Deliver(cs, me, Route(es, SendMessage(receiverId, data))) == cs
  {
  }

  /**
   * The author of a new comment appends it locally and then gets the broadcast
   * echo back: the page ends with the comment exactly once, as it was appended.
   */
  lemma NewCommentConvergesAtPublisher(es: seq<Entry>, me: SocketId, cs: seq<Comment>, created: Comment, user: CurrentUser)
    requires !HasComment(cs, created.id)
    ensures var c := NewCommentData(created, user);
      var after := Deliver(cs + [c], me, Route(es, NewComment(CommentMsg(c))));
      after == cs + [c] && Count(after, c.id, CommentId) == 1
  {
    var c := NewCommentData(created, user);
    PublishedEventAppliedOnce(es, me, cs + [c], NewComment(CommentMsg(c)));
    EchoAfterLocalAppend(cs, c);
  }

  /** The author of a new reply appends it locally; the echo then changes nothing. */
  lemma NewReplyConvergesAtPublisher(es: seq<Entry>, me: SocketId, cs: seq<Comment>, commentId: Id, created: Reply, user: CurrentUser)
    requires forall i :: 0 <= i < |cs| && cs[i].id == commentId ==> !HasReply(cs[i].replies, created.id)
    ensures var r := NewReplyData(created, user, commentId);
      Deliver(AppendReply(cs, commentId, r), me, Route(es, NewReply(ReplyMsg(r)))) == AppendReply(cs, commentId, r)
  {
    var r := NewReplyData(created, user, commentId);
    PublishedEventAppliedOnce(es, me, AppendReply(cs, commentId, r), NewReply(ReplyMsg(r)));
    EchoAfterLocalReply(cs, commentId, r);
  }

  /** The author of a reply deletion drops it locally; after the echo it is gone from every comment. */
  lemma ReplyDeletionConvergesAtPublisher(es: seq<Entry>, me: SocketId, cs: seq<Comment>, commentId: Id, replyId: Id)
    ensures Deliver(RemoveReplyIn(cs, commentId, replyId), me, Route(es, DeleteReply(IdMsg(replyId), None)))
         == RemoveReplyEverywhere(cs, replyId)
  {
    PublishedEventAppliedOnce(es, me, RemoveReplyIn(cs, commentId, replyId), DeleteReply(IdMsg(replyId), None));
    EchoAfterLocalReplyRemoval(cs, commentId, replyId);
  }

  /** The author of a comment deletion removes it locally; the echo then changes nothing. */
  lemma CommentDeletionConvergesAtPublisher(es: seq<Entry>, me: SocketId, cs: seq<Comment>, commentId: Id)
    ensures Deliver(RemoveComment(cs, commentId), me, Route(es, DeleteComment(IdMsg(commentId))))
         == RemoveComment(cs, commentId)
  {
  }

  /**
   * A like is counted once on every page, the liker's included: the liker's
   * handler changes only its liked list, and the echo adds exactly one. A page
   * that receives the broadcast twice counts it twice.
   */
  lemma LikeCountedOnceByEcho(es: seq<Entry>, me: SocketId, cs: seq<Comment>, id: Id)
    ensures Deliver(cs, me, Route(es, EventHub.LikeComment(IdMsg(id)))) == AdjustLikes(cs, id, 1)
    ensures var once := Route(es, EventHub.LikeComment(IdMsg(id)));
      Deliver(cs, me, once + once) == AdjustLikes(cs, id, 2)
  {
    PublishedEventAppliedOnce(es, me, cs, EventHub.LikeComment(IdMsg(id)));
    PublishedEventAppliedOnce(es, me, AdjustLikes(cs, id, 1), EventHub.LikeComment(IdMsg(id)));
    var once := Route(es, EventHub.LikeComment(IdMsg(id)));
    DeliverConcat(cs, me, once, once);
    AdjustLikesAdds(cs, id, 1, 1);
  }

  /** Delivering two batches is delivering the first, then the second. */
  lemma {:induction false} DeliverConcat(cs: seq<Comment>, me: SocketId, a: seq<Delivery<Message>>, b: seq<Delivery<Message>>)
    ensures Deliver(cs, me, a + b) == Deliver(Deliver(cs, me, a), me, b)
    decreases |a|
  {
    if a == [] {
      assert a + b == b;
    } else {
      assert (a + b)[0] == a[0];
      assert (a + b)[1..] == a[1..] + b;
      var next := if Reaches(a[0], me) && Listen(a[0]).Some? then Apply(cs, Listen(a[0]).value) else cs;
      DeliverConcat(next, me, a[1..], b);
    }
  }
}
