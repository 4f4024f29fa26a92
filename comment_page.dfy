/**
 * The comment page component: its `comments`, `likedComments` and `error`
 * state, and the handlers that replace that state step by step. Each request
 * to the CRUD service is a parameter holding its outcome (`None` or `false`
 * when the request failed); what the page emits on its socket is returned.
 */
module CommentPage {
  import opened Wrappers
  import opened Keyed
  import opened Comments
  import EventHub

  /** The payloads the page puts on its socket. */
  datatype Message = CommentMsg(comment: Comment) | ReplyMsg(reply: Reply) | IdMsg(id: Id)

  /** Which request failed; the page shows one fixed message for each. */
  datatype PageError = FetchFailed | AddCommentFailed | AddReplyFailed | DeleteCommentFailed | DeleteReplyFailed | LikeFailed

  /** The logged-in user; an empty string stands for a missing username or avatar. */
  datatype CurrentUser = CurrentUser(id: Id, username: string, avatar: string)

  /** JavaScript's `s || fallback` on strings. */
  function OrElse(s: string, fallback: string): string {
    if s == "" then fallback else s
  }

  /** The author snapshot shown with a new comment or reply: never blank, and the user's own name and avatar when they have them. */
  function AuthorOf(me: CurrentUser): (a: Author)
    ensures a.username != "" && a.avatar != ""
    ensures me.username != "" ==> a.username == me.username
    ensures me.avatar != "" ==> a.avatar == me.avatar
    ensures me.username == "" ==> a.username == "Anonymous"
    ensures me.avatar == "" ==> a.avatar == "/noavatar.jpg"
  {
    Author(OrElse(me.username, "Anonymous"), OrElse(me.avatar, "/noavatar.jpg"))
  }

  /** `newCommentData`: the comment the server created, with the author attached and no replies. */
  function NewCommentData(created: Comment, me: CurrentUser): (c: Comment)
    ensures c.(user := created.user, replies := created.replies) == created
    ensures c.replies == [] && c.user == AuthorOf(me)
  {
    created.(user := AuthorOf(me), replies := [])
  }

  /** `newReplyData`: the reply the server created, with the author and the comment it was written under. */
  function NewReplyData(created: Reply, me: CurrentUser, commentId: Id): (r: Reply)
    ensures r.(user := created.user, commentId := created.commentId) == created
    ensures r.commentId == commentId && r.user == AuthorOf(me)
  {
    created.(user := AuthorOf(me), commentId := commentId)
  }

  class Page {
    var comments: seq<Comment>
    var likedComments: seq<Id>
    var error: Option<PageError>

    constructor ()
      ensures comments == [] && likedComments == [] && error == None
    {
      comments, likedComments, error := [], [], None;
    }

    /**
     * The initial fetch of user, post and comments: the comment list replaces
     * the state; if any of the three requests fails nothing is replaced.
     */
    method Load(fetched: Option<seq<Comment>>)
      modifies this
      ensures likedComments == old(likedComments)
      ensures fetched.Some? ==> comments == fetched.value && error == old(error)
      ensures fetched.None? ==> comments == old(comments) && error == Some(FetchFailed)
    {
      if fetched.Some? {
        comments := fetched.value;
      } else {
        error := Some(FetchFailed);
      }
    }

    /** The liked list read back from local storage, or the empty list when nothing is stored. */
    method LoadLikedComments(stored: Option<seq<Id>>)
      modifies this`likedComments
      ensures likedComments == stored.GetOr([])
    {
      likedComments := stored.GetOr([]);
    }

    /** A socket listener: hand the event's updater to `setComments`. */
    method Receive(e: Event)
      modifies this`comments
      ensures comments == Apply(old(comments), e)
    {
      comments := Apply(comments, e);
    }

    /**
     * `handleAddComment`: after the create request succeeds, append the comment
     * locally and emit `newComment`. Without a socket object (`hasSocket`
     * false: the context's `socket` is unset, not merely disconnected, since a
     * disconnected socket.io client buffers emits) the emit throws after the append: the append stays, the handler's error is
     * set and nothing is emitted.
     */
    method HandleAddComment(me: CurrentUser, created: Option<Comment>, hasSocket: bool)
      returns (emit: Option<EventHub.Inbound<Message>>)
      modifies this
      ensures likedComments == old(likedComments)
      ensures created.None? ==> comments == old(comments) && error == Some(AddCommentFailed) && emit == None
      ensures created.Some? ==> comments == old(comments) + [NewCommentData(created.value, me)]
      ensures created.Some? && hasSocket ==>
        error == old(error) && emit == Some(EventHub.NewComment(CommentMsg(NewCommentData(created.value, me))))
      ensures created.Some? && !hasSocket ==> error == Some(AddCommentFailed) && emit == None
    {
      if created.None? {
        error := Some(AddCommentFailed);
        return None;
      }
      var c := NewCommentData(created.value, me);
      comments := comments + [c];
      if !hasSocket {
        error := Some(AddCommentFailed);
        return None;
      }
      emit := Some(EventHub.NewComment(CommentMsg(c)));
    }

    /**
     * `handleAddReply`: after the create request succeeds, append the reply
     * under its comment and emit `newReply`; without a socket the append
     * stays, the error is set and nothing is emitted.
     */
    method HandleAddReply(me: CurrentUser, commentId: Id, created: Option<Reply>, hasSocket: bool)
      returns (emit: Option<EventHub.Inbound<Message>>)
      modifies this
      ensures likedComments == old(likedComments)
      ensures created.None? ==> comments == old(comments) && error == Some(AddReplyFailed) && emit == None
      ensures created.Some? ==> comments == AppendReply(old(comments), commentId, NewReplyData(created.value, me, commentId))
      ensures created.Some? && hasSocket ==>
        error == old(error) && emit == Some(EventHub.NewReply(ReplyMsg(NewReplyData(created.value, me, commentId))))
      ensures created.Some? && !hasSocket ==> error == Some(AddReplyFailed) && emit == None
    {
      if created.None? {
        error := Some(AddReplyFailed);
        return None;
      }
      var r := NewReplyData(created.value, me, commentId);
      comments := AppendReply(comments, commentId, r);
      if !hasSocket {
        error := Some(AddReplyFailed);
        return None;
      }
      emit := Some(EventHub.NewReply(ReplyMsg(r)));
    }

    /**
     * `handleDeleteComment`: a comment with replies is never deleted (no
     * request, no state change, nothing emitted); an id not on the page fails
     * before any request is made; otherwise, once the delete request succeeds,
     * the comment is removed locally and `deleteComment` is emitted, or, without
     * a socket, the removal stays and the error is set.
     */
    method HandleDeleteComment(commentId: Id, deleted: bool, hasSocket: bool) returns (emit: Option<EventHub.Inbound<Message>>)
      modifies this
      ensures likedComments == old(likedComments)
      ensures var target := Find(old(comments), commentId, CommentId);
        if target.None? then
          comments == old(comments) && error == Some(DeleteCommentFailed) && emit == None
        else if |target.value.replies| > 0 then
          comments == old(comments) && error == old(error) && emit == None
        else if !deleted then
          comments == old(comments) && error == Some(DeleteCommentFailed) && emit == None
        else if !hasSocket then
          comments == RemoveComment(old(comments), commentId) && error == Some(DeleteCommentFailed) && emit == None
        else
          comments == RemoveComment(old(comments), commentId) && error == old(error)
          && emit == Some(EventHub.DeleteComment(IdMsg(commentId)))
    {
      var target := Find(comments, commentId, CommentId);
      if target.None? {
        // reading `replies` of `undefined` throws, and the handler's catch reports it
        error := Some(DeleteCommentFailed);
        return None;
      }
      if |target.value.replies| > 0 {
        return None;
      }
      if !deleted {
        error := Some(DeleteCommentFailed);
        return None;
      }
      comments := RemoveComment(comments, commentId);
      if !hasSocket {
        error := Some(DeleteCommentFailed);
        return None;
      }
      emit := Some(EventHub.DeleteComment(IdMsg(commentId)));
    }

    /**
     * `handleDeleteReply`: after the delete request succeeds, drop the reply
     * under its comment and emit `deleteReply` with the reply id only; without
     * a socket the removal stays and the error is set.
     */
    method HandleDeleteReply(replyId: Id, commentId: Id, deleted: bool, hasSocket: bool)
      returns (emit: Option<EventHub.Inbound<Message>>)
      modifies this
      ensures likedComments == old(likedComments)
      ensures !deleted ==> comments == old(comments) && error == Some(DeleteReplyFailed) && emit == None
      ensures deleted ==> comments == RemoveReplyIn(old(comments), commentId, replyId)
      ensures deleted && hasSocket ==> error == old(error) && emit == Some(EventHub.DeleteReply(IdMsg(replyId), None))
      ensures deleted && !hasSocket ==> error == Some(DeleteReplyFailed) && emit == None
    {
      if !deleted {
        error := Some(DeleteReplyFailed);
        return None;
      }
      comments := RemoveReplyIn(comments, commentId, replyId);
      if !hasSocket {
        error := Some(DeleteReplyFailed);
        return None;
      }
      emit := Some(EventHub.DeleteReply(IdMsg(replyId), None));
    }

    /**
     * `handleLikeComment`: unlike if the id is in the liked list, like
     * otherwise; after the request succeeds, toggle the id in the liked list
     * and emit the matching event (without a socket: toggle, set the error,
     * emit nothing). Likes shown on the page are not changed here: only the
     * broadcast echo changes them.
     */
    method HandleLikeComment(commentId: Id, succeeded: bool, hasSocket: bool) returns (emit: Option<EventHub.Inbound<Message>>)
      modifies this
      ensures comments == old(comments)
      ensures !succeeded ==> likedComments == old(likedComments) && error == Some(LikeFailed) && emit == None
      ensures succeeded ==> likedComments == ToggleLiked(old(likedComments), commentId)
      ensures succeeded && hasSocket ==>
        error == old(error)
        && emit == Some(if commentId in old(likedComments) then EventHub.UnlikeComment(IdMsg(commentId))
                        else EventHub.LikeComment(IdMsg(commentId)))
      ensures succeeded && !hasSocket ==> error == Some(LikeFailed) && emit == None
    {
      if !succeeded {
        error := Some(LikeFailed);
        return None;
      }
      var unlike := commentId in likedComments;
      if unlike {
        likedComments := Without(likedComments, commentId, Self);
      } else {
        likedComments := likedComments + [commentId];
      }
      if !hasSocket {
        error := Some(LikeFailed);
        return None;
      }
      emit := Some(if unlike then EventHub.UnlikeComment(IdMsg(commentId)) else EventHub.LikeComment(IdMsg(commentId)));
    }
  }
}
