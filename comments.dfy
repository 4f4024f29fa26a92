/**
 * The comment page's `comments` state (comments with their nested replies)
 * and the pure "previous state to next state" updaters the page hands to
 * `setComments`: those run when a socket event arrives, and those the page
 * applies optimistically after its own successful request.
 */
module Comments {
  import opened Wrappers
  import opened Keyed

  type Id = string

  /** The `user` snapshot attached to a comment or reply when it is created or fetched. */
  datatype Author = Author(username: string, avatar: string)

  datatype Reply = Reply(id: Id, commentId: Id, userId: Id, text: string, createdAt: string, user: Author)

  /** `likes` is a plain number: nothing keeps it from going below zero. */
  datatype Comment = Comment(
    id: Id, postId: Id, userId: Id, text: string, likes: int,
    createdAt: string, replies: seq<Reply>, user: Author)

  function CommentId(c: Comment): Id { c.id }
  function ReplyId(r: Reply): Id { r.id }
  function Self(id: Id): Id { id }

  predicate HasComment(cs: seq<Comment>, id: Id) {
    Has(cs, id, CommentId)
  }

  predicate HasReply(rs: seq<Reply>, id: Id) {
    Has(rs, id, ReplyId)
  }

  // ----- updaters run when a socket event arrives -----

  /** `receiveComment`: replace the comment with that id in place, or append it at the end. */
  function UpsertComment(cs: seq<Comment>, c: Comment): (r: seq<Comment>)
    ensures c in r
    ensures HasComment(cs, c.id) ==> |r| == |cs|
    ensures !HasComment(cs, c.id) ==> r == cs + [c]
    ensures forall i {:trigger r[i]} :: 0 <= i < |cs| ==> r[i].id == cs[i].id
    ensures forall i {:trigger r[i]} :: 0 <= i < |cs| && cs[i].id != c.id ==> r[i] == cs[i]
    ensures forall i :: 0 <= i < |r| && r[i].id == c.id ==> r[i] == c
  {
    Upsert(cs, c, CommentId)
  }

  function ReplyUpserted(c: Comment, reply: Reply): Comment {
    if c.id == reply.commentId then c.(replies := Upsert(c.replies, reply, ReplyId)) else c
  }

  /**
   * `receiveReply`: upsert the reply into the replies of the comment it
   * belongs to; when that comment is not loaded the event is dropped.
   */
  function UpsertReply(cs: seq<Comment>, reply: Reply): (r: seq<Comment>)
    ensures |r| == |cs|
    ensures forall i {:trigger r[i]} :: 0 <= i < |cs| ==> r[i].(replies := cs[i].replies) == cs[i]
    ensures forall i {:trigger r[i]} :: 0 <= i < |cs| && cs[i].id != reply.commentId ==> r[i] == cs[i]
    ensures forall i :: 0 <= i < |cs| && cs[i].id == reply.commentId ==>
      reply in r[i].replies && r[i].replies == Upsert(cs[i].replies, reply, ReplyId)
    ensures !HasComment(cs, reply.commentId) ==> r == cs
  {
    seq(|cs|, i requires 0 <= i < |cs| => ReplyUpserted(cs[i], reply))
  }

  /**
   * `receiveDeleteReply`: drop the reply from every comment. The number, order,
   * ids and likes of the comments never change.
   */
  function RemoveReplyEverywhere(cs: seq<Comment>, replyId: Id): (r: seq<Comment>)
    ensures |r| == |cs|
    ensures forall i {:trigger r[i]} :: 0 <= i < |cs| ==> r[i].(replies := cs[i].replies) == cs[i]
    ensures forall i {:trigger r[i]} :: 0 <= i < |cs| ==> r[i].replies == Without(cs[i].replies, replyId, ReplyId)
    ensures forall i {:trigger r[i]} :: 0 <= i < |cs| ==> !HasReply(r[i].replies, replyId)
    ensures (forall i :: 0 <= i < |cs| ==> !HasReply(cs[i].replies, replyId)) ==> r == cs
  {
    seq(|cs|, i requires 0 <= i < |cs| => cs[i].(replies := Without(cs[i].replies, replyId, ReplyId)))
  }

  /**
   * `likeComment` (`delta` = 1) and `unlikeComment` (`delta` = -1): only the
   * likes of the comments with that id change, by exactly `delta`, with no
   * lower bound.
   */
  function AdjustLikes(cs: seq<Comment>, id: Id, delta: int): (r: seq<Comment>)
    ensures |r| == |cs|
    ensures forall i {:trigger r[i]} :: 0 <= i < |cs| ==> r[i].(likes := cs[i].likes) == cs[i]
    ensures forall i {:trigger r[i]} :: 0 <= i < |cs| ==> r[i].likes == cs[i].likes + (if cs[i].id == id then delta else 0)
    ensures !HasComment(cs, id) ==> r == cs
  {
    seq(|cs|, i requires 0 <= i < |cs| => if cs[i].id == id then cs[i].(likes := cs[i].likes + delta) else cs[i])
  }

  /** `commentDeleted`, and the page's own removal after a delete: filter the comment out. */
  function RemoveComment(cs: seq<Comment>, id: Id): (r: seq<Comment>)
    ensures forall i :: 0 <= i < |r| ==> r[i] in cs && r[i].id != id
    ensures forall i :: 0 <= i < |cs| && cs[i].id != id ==> cs[i] in r
    ensures !HasComment(r, id)
    ensures !HasComment(cs, id) ==> r == cs
  {
    Without(cs, id, CommentId)
  }

  // ----- optimistic updaters the page applies after its own request succeeded -----

  /** After `handleAddReply`: append the new reply to the comment it was written under (no upsert). */
  function AppendReply(cs: seq<Comment>, commentId: Id, reply: Reply): (r: seq<Comment>)
    ensures |r| == |cs|
    ensures forall i {:trigger r[i]} :: 0 <= i < |cs| ==> r[i].(replies := cs[i].replies) == cs[i]
    ensures forall i {:trigger r[i]} :: 0 <= i < |cs| && cs[i].id == commentId ==> r[i].replies == cs[i].replies + [reply]
    ensures forall i {:trigger r[i]} :: 0 <= i < |cs| && cs[i].id != commentId ==> r[i] == cs[i]
  {
    seq(|cs|, i requires 0 <= i < |cs| =>
      if cs[i].id == commentId then cs[i].(replies := cs[i].replies + [reply]) else cs[i])
  }

  /** After `handleDeleteReply`: drop the reply from the comment it was shown under only. */
  function RemoveReplyIn(cs: seq<Comment>, commentId: Id, replyId: Id): (r: seq<Comment>)
    ensures |r| == |cs|
    ensures forall i {:trigger r[i]} :: 0 <= i < |cs| ==> r[i].(replies := cs[i].replies) == cs[i]
    ensures forall i {:trigger r[i]} :: 0 <= i < |cs| && cs[i].id == commentId ==> r[i].replies == Without(cs[i].replies, replyId, ReplyId)
    ensures forall i {:trigger r[i]} :: 0 <= i < |cs| && cs[i].id == commentId ==> !HasReply(r[i].replies, replyId)
    ensures forall i {:trigger r[i]} :: 0 <= i < |cs| && cs[i].id != commentId ==> r[i] == cs[i]
  {
    seq(|cs|, i requires 0 <= i < |cs| =>
      if cs[i].id == commentId then cs[i].(replies := Without(cs[i].replies, replyId, ReplyId)) else cs[i])
  }

  /** `handleLikeComment` on `likedComments`: remove every occurrence of the id if present, else append it. */
  function ToggleLiked(liked: seq<Id>, id: Id): (r: seq<Id>)
    ensures id in r <==> id !in liked
    ensures forall x :: x != id ==> (x in r <==> x in liked)
    ensures id !in liked ==> r == liked + [id]
  {
    if id in liked then Without(liked, id, Self) else liked + [id]
  }

  // ----- the socket events the page listens to -----

  datatype Event =
    | ReceiveComment(comment: Comment)
    | ReceiveReply(reply: Reply)
    | ReceiveDeleteReply(replyId: Id)
    | LikeComment(commentId: Id)
    | UnlikeComment(commentId: Id)
    | CommentDeleted(commentId: Id)

  /**
   * The updater each listener passes to `setComments`. Only `receiveComment`
   * can add a comment and only `commentDeleted` can remove one; every other
   * listener keeps the comments, their order and their ids.
   */
  function Apply(cs: seq<Comment>, e: Event): (r: seq<Comment>)
    ensures e.ReceiveComment? ==> e.comment in r && |cs| <= |r| <= |cs| + 1
    ensures e.CommentDeleted? ==> |r| <= |cs| && !HasComment(r, e.commentId)
    ensures !e.ReceiveComment? && !e.CommentDeleted? ==>
      |r| == |cs| && forall i {:trigger r[i]} :: 0 <= i < |cs| ==> r[i].id == cs[i].id
  {
    match e
    case ReceiveComment(c) => UpsertComment(cs, c)
    case ReceiveReply(r) => UpsertReply(cs, r)
    case ReceiveDeleteReply(id) => RemoveReplyEverywhere(cs, id)
    case LikeComment(id) => AdjustLikes(cs, id, 1)
    case UnlikeComment(id) => AdjustLikes(cs, id, -1)
    case CommentDeleted(id) => RemoveComment(cs, id)
  }

  /** The same event delivered `n` times (delivery is at-least-once). */
  function Redeliver(cs: seq<Comment>, e: Event, n: nat): seq<Comment> {
    if n == 0 then cs else Apply(Redeliver(cs, e, n - 1), e)
  }

  // ----- properties -----

  /** An echoed or redelivered `receiveComment` changes nothing more. */
  lemma UpsertCommentIdempotent(cs: seq<Comment>, c: Comment)
    ensures UpsertComment(UpsertComment(cs, c), c) == UpsertComment(cs, c)
  {
  }

  /** `receiveComment` keeps comment ids unique and leaves exactly one comment with the received id. */
  lemma UpsertCommentKeepsIdsUnique(cs: seq<Comment>, c: Comment)
    requires Unique(cs, CommentId)
    ensures Unique(UpsertComment(cs, c), CommentId)
    ensures Count(UpsertComment(cs, c), c.id, CommentId) == 1
  {
    UpsertKeepsUnique(cs, c, CommentId);
  }

  /**
   * The page appends its new comment locally, then receives the broadcast echo
   * of the same comment: the echo changes nothing and the id occurs once.
   */
  lemma EchoAfterLocalAppend(cs: seq<Comment>, c: Comment)
    requires !HasComment(cs, c.id)
    ensures UpsertComment(cs + [c], c) == cs + [c]
    ensures Count(cs + [c], c.id, CommentId) == 1
  {
  }

  /** A redelivered `receiveReply` changes nothing more. */
  lemma UpsertReplyIdempotent(cs: seq<Comment>, reply: Reply)
    ensures UpsertReply(UpsertReply(cs, reply), reply) == UpsertReply(cs, reply)
  {
    var once := UpsertReply(cs, reply);
    var twice := UpsertReply(once, reply);
    forall i | 0 <= i < |cs| ensures twice[i] == once[i] {
      if cs[i].id == reply.commentId {
        UpsertIdempotent(cs[i].replies, reply, ReplyId);
      }
    }
  }

  /**
   * The page appends its new reply locally, then receives the echo: when the
   * reply id was new under that comment, the echo changes nothing.
   */
  lemma EchoAfterLocalReply(cs: seq<Comment>, commentId: Id, reply: Reply)
    requires reply.commentId == commentId
    requires forall i :: 0 <= i < |cs| && cs[i].id == commentId ==> !HasReply(cs[i].replies, reply.id)
    ensures UpsertReply(AppendReply(cs, commentId, reply), reply) == AppendReply(cs, commentId, reply)
  {
    var local := AppendReply(cs, commentId, reply);
    var echoed := UpsertReply(local, reply);
    forall i | 0 <= i < |cs| ensures echoed[i] == local[i] {
      if cs[i].id == commentId {
        assert local[i].replies == cs[i].replies + [reply];
        EchoAfterLocalReplyAt(cs[i].replies, reply);
      }
    }
  }

  lemma EchoAfterLocalReplyAt(rs: seq<Reply>, reply: Reply)
    requires !HasReply(rs, reply.id)
    ensures Upsert(rs + [reply], reply, ReplyId) == rs + [reply]
  {
    var local := rs + [reply];
    assert local[|rs|] == reply;
    var echoed := Upsert(local, reply, ReplyId);
    forall i | 0 <= i < |local| ensures echoed[i] == local[i] {
      if i < |rs| {
        assert rs[i].id != reply.id;
      }
    }
  }

  /** A redelivered `receiveDeleteReply` changes nothing more. */
  lemma RemoveReplyEverywhereIdempotent(cs: seq<Comment>, replyId: Id)
    ensures RemoveReplyEverywhere(RemoveReplyEverywhere(cs, replyId), replyId) == RemoveReplyEverywhere(cs, replyId)
  {
  }

  /**
   * The page drops its reply locally under one comment, then the echo drops it
   * everywhere: together they are the same as the echo alone.
   */
  lemma EchoAfterLocalReplyRemoval(cs: seq<Comment>, commentId: Id, replyId: Id)
    ensures RemoveReplyEverywhere(RemoveReplyIn(cs, commentId, replyId), replyId) == RemoveReplyEverywhere(cs, replyId)
  {
  }

  /**
   * Deleting one reply and receiving another reply commute: whichever arrives
   * first, the new reply is under its comment and the deleted one is nowhere.
   */
  lemma ReplyDeleteAndCreateCommute(cs: seq<Comment>, reply: Reply, deletedId: Id)
    requires reply.id != deletedId
    ensures RemoveReplyEverywhere(UpsertReply(cs, reply), deletedId)
         == UpsertReply(RemoveReplyEverywhere(cs, deletedId), reply)
    ensures forall i :: 0 <= i < |cs| && cs[i].id == reply.commentId ==>
      reply in RemoveReplyEverywhere(UpsertReply(cs, reply), deletedId)[i].replies
  {
    var a := RemoveReplyEverywhere(UpsertReply(cs, reply), deletedId);
    var b := UpsertReply(RemoveReplyEverywhere(cs, deletedId), reply);
    forall i | 0 <= i < |cs| ensures a[i] == b[i] {
      if cs[i].id == reply.commentId {
        UpsertWithoutCommute(cs[i].replies, reply, deletedId, ReplyId);
      }
    }
  }

  /** Two like deltas add up. */
  lemma AdjustLikesAdds(cs: seq<Comment>, id: Id, a: int, b: int)
    ensures AdjustLikes(AdjustLikes(cs, id, a), id, b) == AdjustLikes(cs, id, a + b)
  {
  }

  /** An `unlikeComment` undoes a `likeComment`. */
  lemma LikeThenUnlikeRestores(cs: seq<Comment>, id: Id)
    ensures Apply(Apply(cs, LikeComment(id)), UnlikeComment(id)) == cs
  {
  }

  /** A zero delta changes nothing. */
  lemma AdjustLikesZero(cs: seq<Comment>, id: Id)
    ensures AdjustLikes(cs, id, 0) == cs
  {
  }

  /** One `likeComment` or `unlikeComment` delivery is a delta of one. */
  lemma ApplyLikeIsDelta(cs: seq<Comment>, id: Id)
    ensures Apply(cs, LikeComment(id)) == AdjustLikes(cs, id, 1)
    ensures Apply(cs, UnlikeComment(id)) == AdjustLikes(cs, id, -1)
  {
  }

  /** `likeComment` delivered `n` times adds `n`: the delta is not idempotent. */
  lemma {:induction false} LikeDeliveredNTimes(cs: seq<Comment>, id: Id, n: nat)
    ensures Redeliver(cs, LikeComment(id), n) == AdjustLikes(cs, id, n)
  {
    if n == 0 {
      AdjustLikesZero(cs, id);
    } else {
      LikeDeliveredNTimes(cs, id, n - 1);
      RedeliverOnceMore(cs, LikeComment(id), id, n, n, 1);
    }
  }

  /** `unlikeComment` delivered `n` times subtracts `n`, with no lower bound. */
  lemma {:induction false} UnlikeDeliveredNTimes(cs: seq<Comment>, id: Id, n: nat)
    ensures Redeliver(cs, UnlikeComment(id), n) == AdjustLikes(cs, id, -(n as int))
  {
    if n == 0 {
      AdjustLikesZero(cs, id);
    } else {
      UnlikeDeliveredNTimes(cs, id, n - 1);
      RedeliverOnceMore(cs, UnlikeComment(id), id, n, -(n as int), -1);
    }
  }

  /** One more delivery of a like event adds its delta to what the earlier deliveries added. */
  lemma RedeliverOnceMore(cs: seq<Comment>, e: Event, id: Id, n: nat, a: int, d: int)
    requires (e == LikeComment(id) && d == 1) || (e == UnlikeComment(id) && d == -1)
    requires n > 0 && Redeliver(cs, e, n - 1) == AdjustLikes(cs, id, a - d)
    ensures Redeliver(cs, e, n) == AdjustLikes(cs, id, a)
  {
    var prev := Redeliver(cs, e, n - 1);
    assert Redeliver(cs, e, n) == Apply(prev, e);
    ApplyLikeIsDelta(prev, id);
    AdjustLikesAdds(cs, id, a - d, d);
  }

  /** A `likeComment` for a loaded comment, delivered twice, counts twice. */
  lemma LikeIsNotIdempotent(cs: seq<Comment>, id: Id)
    requires HasComment(cs, id)
    ensures Apply(Apply(cs, LikeComment(id)), LikeComment(id)) != Apply(cs, LikeComment(id))
  {
    var i :| 0 <= i < |cs| && cs[i].id == id;
    var once := Apply(cs, LikeComment(id));
    assert once[i].id == id;
    assert Apply(once, LikeComment(id))[i].likes == once[i].likes + 1;
  }

  /** A redelivered `commentDeleted` changes nothing more. */
  lemma RemoveCommentIdempotent(cs: seq<Comment>, id: Id)
    ensures RemoveComment(RemoveComment(cs, id), id) == RemoveComment(cs, id)
  {
  }

  /** Liking and then unliking an id that was not liked restores the liked list. */
  lemma ToggleLikedTwiceRestores(liked: seq<Id>, id: Id)
    requires id !in liked
    ensures ToggleLiked(ToggleLiked(liked, id), id) == liked
  {
    WithoutConcat(liked, [id], id, Self);
  }

  /** Every socket event keeps comment ids unique. */
  lemma ApplyKeepsIdsUnique(cs: seq<Comment>, e: Event)
    requires Unique(cs, CommentId)
    ensures Unique(Apply(cs, e), CommentId)
  {
    match e
    case ReceiveComment(c) => UpsertCommentKeepsIdsUnique(cs, c);
    case CommentDeleted(id) => WithoutKeepsUnique(cs, id, CommentId, CommentId);
    case _ =>
  }

  /**
   * `receiveComment` does not look at the post: on a page showing only the
   * comments of post `postId`, a new comment written under another post is
   * appended and shown until the page reloads.
   */
  lemma ForeignCommentIsShown(cs: seq<Comment>, postId: Id, c: Comment)
    requires forall i :: 0 <= i < |cs| ==> cs[i].postId == postId
    requires c.postId != postId && !HasComment(cs, c.id)
    ensures Apply(cs, ReceiveComment(c)) == cs + [c]
    ensures exists i :: 0 <= i < |Apply(cs, ReceiveComment(c))| && Apply(cs, ReceiveComment(c))[i].postId != postId
  {
    assert (cs + [c])[|cs|] == c;
  }
}
