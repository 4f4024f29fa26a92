# Realtime comment replication: a verified model

This project models, in Dafny, the realtime part of the EstateFinder listing
site: the socket server that keeps track of which user is online on which
socket and relays comment events between browsers (`socket/app.js`), and the
comment page that merges those events into its own copy of the comments of the post it shows
(`client/src/routes/commentPage/commentPage.jsx`).

- `keyed.dfy` (module `Keyed`): the list idioms both sides are written with —
  `find` by key, `filter` by key, and "replace by id, else append" (upsert) —
  with their laws: idempotence, order preservation, uniqueness of keys,
  commutation of an upsert with a removal of another key.
- `registry.dfy` (module `Registry`): the server's `onlineUser` list as the
  class `OnlineUsers` (`Register` = `addUser`, `Unregister` = `removeUser`,
  `Resolve` = `getUser`, a linear search proved against `Lookup`), the
  invariant "at most one entry per user", the map the list denotes, and the
  theorem that after any history of connects and disconnects `getUser(u)`
  succeeds exactly when the net effect of the history leaves `u` registered.
- `event_hub.dfy` (module `EventHub`): the `connection` handler as the
  function `Route` from an inbound event and the registry to the list of
  deliveries (target, event name, payload), and the method `Dispatch` that
  runs one event against an `OnlineUsers` object.
- `comments.dfy` (module `Comments`): comments and replies as datatypes, every
  updater the page passes to `setComments` as a function, and their laws.
- `comment_page.dfy` (module `CommentPage`): the page component as the class
  `Page`, whose handlers branch on the current state and on the outcome of
  the CRUD request (a parameter) and return what they emit on the socket.
- `replication.dfy` (module `Replication`): the page's socket listeners, and
  end-to-end lemmas: what every page does with the server's deliveries for
  each event a page publishes, and how the publisher's optimistic update and
  the broadcast echo of the same event converge.

Behaviour of the code that the model keeps as it is:

- A second `newUser` for a user already online is ignored: the first socket wins
  until it disconnects.
- `deleteReply` has two handlers on the server, so one inbound `deleteReply`
  is broadcast twice: as `replyDeleted` with `{ replyId, commentId }` (whose
  `commentId` is absent, because the page sends only the reply id) and as
  `receiveDeleteReply` with the raw id. The page listens only to the second,
  so the reply is removed once.
- Likes travel as ±1 deltas. The liker's handler changes only its liked list,
  not the displayed count, so every page, the liker's included, counts one
  like per delivery; a redelivered like counts twice, and nothing keeps the
  count from going below zero.
  A second path to double counting is not modelled: the like handler reads
  the liked list at click time and writes it after its request returns, so
  two clicks while the first like is pending send two likes.
- Deleting a comment that has replies is refused on the page before any
  request is made. Deleting an id not on the page fails with the page's
  "error deleting comment" state, because reading `replies` of the missing
  comment throws.
- `receiveComment` is broadcast to every socket and the page's listener does
  not look at the comment's post, so a new comment written under another post
  is appended to this page and shown until it reloads.
- The page registers its listeners only when it has a socket, but the
  handlers call `socket.emit` unguarded after their optimistic update; without
  a socket that call throws into the handler's `catch`, so the update stays,
  the handler's error is set and nothing is emitted (the `hasSocket`
  parameter of each handler; it stands for an unset `socket`, not a
  disconnected one, whose emits socket.io buffers).
- The liked list is read from local storage when the page mounts, but the
  page never writes it back (`storeLikedCommentsInStorage` is never called).

## Model

| member | source | states |
|---|---|---|
| `Keyed.Find` | socket/app.js:22-24 | `find`: no result exactly when no element has the key; a result is an element with that key |
| `Keyed.FindFirst` | socket/app.js:22-24 | `find` returns the element at the first position whose key matches |
| `Keyed.CountUnique` | client/src/routes/commentPage/commentPage.jsx:55-62 | in a list with unique keys a present key occurs exactly once |
| `Keyed.Replace` | client/src/routes/commentPage/commentPage.jsx:58 | every element with the new element's key is replaced by it, all others stay at their positions |
| `Keyed.Upsert` | client/src/routes/commentPage/commentPage.jsx:56-61 | the element ends up in the list; with its key present the length is unchanged and keys and other elements keep their positions; otherwise it is appended at the end |
| `Keyed.UpsertIdempotent` | client/src/routes/commentPage/commentPage.jsx:55-62 | upserting the same element twice equals upserting it once |
| `Keyed.UpsertKeepsUnique` | client/src/routes/commentPage/commentPage.jsx:55-62 | upsert keeps keys unique and leaves the key occurring exactly once |
| `Keyed.Without` | socket/app.js:19 | `filter` by key: the result holds exactly the elements without the key, none with it, and is the input when the key is absent |
| `Keyed.WithoutConcat` | socket/app.js:19 | filtering distributes over concatenation, so the kept elements stay in their original order |
| `Keyed.WithoutIdempotent` | client/src/routes/commentPage/commentPage.jsx:247 | filtering twice by the same key equals filtering once |
| `Keyed.WithoutKeepsUnique` | socket/app.js:18-20 | filtering by one key keeps another key unique |
| `Keyed.UpsertWithoutCommute` | client/src/routes/commentPage/commentPage.jsx:68-102 | removing one key and upserting an element with a different key give the same list in either order |
| `Registry.Lookup` | socket/app.js:22-24 | `getUser(u)` finds nothing exactly when `u` is not online; what it finds is an entry of `u` |
| `Registry.Added` | socket/app.js:11-16 | after `addUser(u, s)` the user is online and the one-entry-per-user invariant is kept |
| `Registry.Removed` | socket/app.js:18-20 | `removeUser(s)` keeps exactly the entries not on `s` and the invariant; an unknown socket changes nothing |
| `Registry.AddExistingIsNoOp` | socket/app.js:11-16 | `addUser` for a user already online leaves the list and its lookup unchanged: the first connection wins |
| `Registry.AddNewResolves` | socket/app.js:11-24 | `addUser` for a new user appends exactly `{u, s}`; `getUser(u)` then finds it and every other user resolves as before |
| `Registry.RemoveUnknownIsNoOp` | socket/app.js:18-20 | `removeUser` of a socket with no entry is a no-op |
| `Registry.RemoveKeepsOrder` | socket/app.js:18-20 | `removeUser` keeps the other entries in their original order |
| `Registry.AsMapKeys` | socket/app.js:9 | a user is in the map view exactly when it is online |
| `Registry.LookupIsMapLookup` | socket/app.js:22-24 | `getUser` agrees with the map view |
| `Registry.AsMapAppend` | socket/app.js:12-15 | on the map view, `addUser` adds the user only if absent |
| `Registry.AsMapRemoved` | socket/app.js:18-20 | on the map view, `removeUser(s)` drops exactly the users mapped to `s` (given one entry per user) |
| `Registry.DropSocket` | socket/app.js:19 | reference semantics of a disconnect on the map view, against which `AsMapRemoved` proves the list filter: the users not on that socket, with their sockets |
| `Registry.ReplayRefinesNetEffect` | socket/app.js:9-24 | every history of connects and disconnects from the empty list keeps one entry per user and denotes the net effect of the history |
| `Registry.ResolveAfterHistory` | socket/app.js:9-24 | after any history, `getUser(u)` succeeds exactly when the net effect leaves `u` registered, with the socket that net effect gives |
| `Registry.OnlineUsers.constructor` | socket/app.js:9 | the list starts empty and valid |
| `Registry.OnlineUsers.Resolve` | socket/app.js:22-24 | the linear search returns `Lookup`: the first entry of the user, or none when no entry has it |
| `Registry.OnlineUsers.Register` | socket/app.js:11-16 | `addUser` in place: the list becomes `Added`, the invariant is kept |
| `Registry.OnlineUsers.Unregister` | socket/app.js:18-20 | `removeUser` in place: the list becomes `Removed`, the invariant is kept |
| `EventHub.Route` | socket/app.js:26-72 | no delivery exactly for `newUser`, `disconnect` and a message to a user not online; relayed events go to everyone; a message goes to one socket as `getMessage` |
| `EventHub.Effect` | socket/app.js:26-56 | `newUser` puts its user online, `disconnect` takes every user on the socket offline, every other event leaves the registry alone; one entry per user is kept |
| `EventHub.SendMessageIsUnicast` | socket/app.js:31-36 | `sendMessage` gives one `getMessage` delivery of the data to the receiver's socket when online, none otherwise |
| `EventHub.RelayIgnoresRegistry` | socket/app.js:38-69 | relayed events do not depend on or change the registry and pass the payload through under the renamed event |
| `EventHub.DeleteReplyBroadcastsTwice` | socket/app.js:50-60 | one `deleteReply` gives `replyDeleted` with `{replyId, commentId}`, then `receiveDeleteReply` with the raw id |
| `EventHub.Dispatch` | socket/app.js:26-72 | one event on socket `from` changes the registry as `newUser`/`disconnect` say and emits `Route` of the registry before it |
| `Comments.UpsertComment` | client/src/routes/commentPage/commentPage.jsx:55-62 | `receiveComment`: the comment ends up in the list; an existing id is replaced in place with length and other comments' positions unchanged; a new id is appended at the end |
| `Comments.UpsertCommentIdempotent` | client/src/routes/commentPage/commentPage.jsx:55-62 | receiving the same comment twice equals receiving it once |
| `Comments.UpsertCommentKeepsIdsUnique` | client/src/routes/commentPage/commentPage.jsx:55-62 | `receiveComment` keeps ids unique and leaves exactly one comment with the received id |
| `Comments.EchoAfterLocalAppend` | client/src/routes/commentPage/commentPage.jsx:149-159 | the local append of a new comment followed by its `receiveComment` echo leaves the list as appended, with that id exactly once |
| `Comments.UpsertReply` | client/src/routes/commentPage/commentPage.jsx:68-92 | `receiveReply`: only `replies` change; the parent's replies get the reply upserted; other comments are unchanged; an absent parent leaves the list unchanged |
| `Comments.UpsertReplyIdempotent` | client/src/routes/commentPage/commentPage.jsx:68-92 | receiving the same reply twice equals receiving it once |
| `Comments.EchoAfterLocalReply` | client/src/routes/commentPage/commentPage.jsx:174-192 | the local append of a new reply followed by its `receiveReply` echo leaves the list as appended |
| `Comments.RemoveReplyEverywhere` | client/src/routes/commentPage/commentPage.jsx:97-102 | `receiveDeleteReply`: the reply is gone from every comment; number, order, ids and likes of comments are unchanged; an absent id is a no-op |
| `Comments.RemoveReplyEverywhereIdempotent` | client/src/routes/commentPage/commentPage.jsx:97-102 | receiving the same reply deletion twice equals receiving it once |
| `Comments.EchoAfterLocalReplyRemoval` | client/src/routes/commentPage/commentPage.jsx:227-234 | the local removal under one comment followed by the echo equals the echo alone |
| `Comments.ReplyDeleteAndCreateCommute` | client/src/routes/commentPage/commentPage.jsx:68-102 | a reply deletion and the arrival of a different reply give the same state in either order, with the new reply under its comment |
| `Comments.AdjustLikes` | client/src/routes/commentPage/commentPage.jsx:106-124 | only the likes of comments with the id change, by exactly the delta, with no lower bound; an absent id is a no-op |
| `Comments.AdjustLikesAdds` | client/src/routes/commentPage/commentPage.jsx:106-124 | two like deltas add up |
| `Comments.AdjustLikesZero` | client/src/routes/commentPage/commentPage.jsx:106-124 | a zero delta changes nothing |
| `Comments.LikeThenUnlikeRestores` | client/src/routes/commentPage/commentPage.jsx:106-124 | `unlikeComment` undoes `likeComment` |
| `Comments.LikeDeliveredNTimes` | client/src/routes/commentPage/commentPage.jsx:106-114 | `likeComment` delivered N times adds N |
| `Comments.UnlikeDeliveredNTimes` | client/src/routes/commentPage/commentPage.jsx:116-124 | `unlikeComment` delivered N times subtracts N |
| `Comments.LikeIsNotIdempotent` | client/src/routes/commentPage/commentPage.jsx:106-114 | a like for a loaded comment delivered twice differs from delivered once |
| `Comments.RemoveComment` | client/src/routes/commentPage/commentPage.jsx:245-249 | `commentDeleted`: exactly the comments with other ids remain, none with the id; an absent id is a no-op |
| `Comments.RemoveCommentIdempotent` | client/src/routes/commentPage/commentPage.jsx:245-249 | receiving the same deletion twice equals receiving it once |
| `Comments.Apply` | client/src/routes/commentPage/commentPage.jsx:51-257 | each listener's updater (the effect at 51-139 and the `commentDeleted` one at 243-257): only `receiveComment` can add a comment (the received one) and only `commentDeleted` removes one; every other listener keeps the comments' count, order and ids |
| `Comments.AppendReply` | client/src/routes/commentPage/commentPage.jsx:183-189 | the optimistic reply append changes only the named comment's replies, by appending the reply |
| `Comments.RemoveReplyIn` | client/src/routes/commentPage/commentPage.jsx:227-233 | the optimistic reply removal filters the reply out of the named comment's replies, keeping its other replies, and changes no other comment and no other field |
| `Comments.ToggleLiked` | client/src/routes/commentPage/commentPage.jsx:281-289 | the id's membership in the liked list flips; other ids' membership is unchanged; an unliked id is appended |
| `Comments.ToggleLikedTwiceRestores` | client/src/routes/commentPage/commentPage.jsx:281-289 | liking then unliking an id that was not liked restores the liked list |
| `Comments.ApplyKeepsIdsUnique` | client/src/routes/commentPage/commentPage.jsx:51-257 | every socket event keeps comment ids unique, the `commentDeleted` listener at 245-249 included |
| `Comments.ForeignCommentIsShown` | client/src/routes/commentPage/commentPage.jsx:53-62 | on a page showing one post's comments, a new comment from another post is appended and shown |
| `CommentPage.AuthorOf` | client/src/routes/commentPage/commentPage.jsx:151-154 | the author snapshot is never blank: the user's own name and avatar when set, else "Anonymous" and "/noavatar.jpg" |
| `CommentPage.NewCommentData` | client/src/routes/commentPage/commentPage.jsx:149-156 | the created comment with every field kept except the author, which is the current user's snapshot, and the replies, which are empty |
| `CommentPage.NewReplyData` | client/src/routes/commentPage/commentPage.jsx:174-181 | the created reply with every field kept except the author, which is the current user's snapshot, and the comment id, which is the one it was written under |
| `CommentPage.Page.constructor` | client/src/routes/commentPage/commentPage.jsx:21-26 | the page starts with no comments, no liked ids and no error |
| `CommentPage.Page.Load` | client/src/routes/commentPage/commentPage.jsx:28-48 | a successful fetch replaces the comments with the snapshot; a failed one sets the fetch error and changes nothing else |
| `CommentPage.Page.LoadLikedComments` | client/src/routes/commentPage/commentPage.jsx:263-277 | the liked list is what storage holds, or empty |
| `CommentPage.Page.Receive` | client/src/routes/commentPage/commentPage.jsx:51-124 | a socket listener replaces the comments by the event's updater applied to them |
| `CommentPage.Page.HandleAddComment` | client/src/routes/commentPage/commentPage.jsx:141-165 | on success the enriched comment is appended and emitted as `newComment`; without a socket the append stays, the error is set and nothing is emitted; on a failed request only the error is set |
| `CommentPage.Page.HandleAddReply` | client/src/routes/commentPage/commentPage.jsx:167-198 | on success the enriched reply is appended under its comment and emitted as `newReply`; without a socket the append stays, the error is set and nothing is emitted; on a failed request only the error is set |
| `CommentPage.Page.HandleDeleteComment` | client/src/routes/commentPage/commentPage.jsx:202-221 | a comment with replies is left alone with nothing emitted; an id not on the page sets the error; a successful delete removes the comment and emits `deleteComment`, or without a socket removes it and sets the error |
| `CommentPage.Page.HandleDeleteReply` | client/src/routes/commentPage/commentPage.jsx:224-240 | on success the reply is dropped under its comment and `deleteReply` is emitted with the reply id only; without a socket the removal stays and the error is set |
| `CommentPage.Page.HandleLikeComment` | client/src/routes/commentPage/commentPage.jsx:279-293 | on success the id is toggled in the liked list and `unlikeComment` or `likeComment` is emitted, or without a socket the toggle stays and the error is set; the comments, likes included, never change here |
| `Replication.Listen` | client/src/routes/commentPage/commentPage.jsx:51-257 | the page has no listener for `replyDeleted` or `getMessage`; it only handles raw payloads |
| `Replication.DeliverSingle` | client/src/routes/commentPage/commentPage.jsx:53-124 | one delivery applies the listener's updater when it reaches the page and has a listener, else nothing |
| `Replication.DeliverConcat` | client/src/routes/commentPage/commentPage.jsx:53-124 | delivering two batches is delivering the first and then the second |
| `Replication.PublishedEventAppliedOnce` | socket/app.js:38-69 | each event a page publishes is applied exactly once on every page by the matching updater, `deleteReply` included |
| `Replication.DirectMessagesLeaveCommentsAlone` | socket/app.js:31-36 | a direct message never changes a comment page |
| `Replication.NewCommentConvergesAtPublisher` | client/src/routes/commentPage/commentPage.jsx:149-159 | the author's local append and the server's echo leave the new comment exactly once |
| `Replication.NewReplyConvergesAtPublisher` | client/src/routes/commentPage/commentPage.jsx:174-192 | the author's local reply append and the echo leave the list as appended |
| `Replication.ReplyDeletionConvergesAtPublisher` | client/src/routes/commentPage/commentPage.jsx:224-234 | the author's local reply removal and the echo leave the reply gone from every comment |
| `Replication.CommentDeletionConvergesAtPublisher` | client/src/routes/commentPage/commentPage.jsx:213-215 | the author's local comment removal and the echo equal the removal alone |
| `Replication.LikeCountedOnceByEcho` | client/src/routes/commentPage/commentPage.jsx:279-289 | a like adds exactly one on every page, the liker's included; a doubled delivery adds two |

## Left out

- The socket.io transport (`new Server`, CORS, `io.listen(4000)`, `io.to(...).emit`, `socket.on`/`off`): deliveries are returned as a list, not sent.
- The set of connected sockets: a broadcast targets `Everyone`, meaning every connected socket, including sockets that never sent `newUser`; the model does not track connections separately from the registry.
- CommentPage.Page.HandleLikeComment: modelled as one atomic step, whereas `handleLikeComment` reads `likedComments` when clicked and writes a list computed from that same value after the request's `await`, with no `prev =>` updater; two clicks before the first like request returns both see the id as not liked, send two likes and two `likeComment` emits (+2 on every page and in the store), and leave the id in the liked list once.
- CommentPage.Page.HandleDeleteComment: modelled as one atomic step, whereas `handleDeleteComment` checks the "no replies" guard on the `comments` seen at click time and filters only after the request's `await`, so a reply that arrives in between does not stop the deletion.
- Concurrency and timing between clients: each page is a sequence of updater applications on one copy of the state.
- The CRUD service and `api/`: each request is a parameter holding its outcome (the created entity, or success/failure); the stored data is not modelled.
- The fetched user and post, loading flags, form inputs (`newComment`, `replyText`, `replyingTo`), `toast`, console logging, date formatting and all rendering.
- Error messages are modelled as one error kind per handler, not as strings.
- Writing the liked list to local storage: the page never does it, and storage is a parameter when it is read.
- `createdAt` and the `user` snapshot are plain fields; the `||` fallbacks of the author snapshot are modelled, nothing else about them.
- Replication.Listen: a delivery whose payload does not have the shape its listener expects is ignored, whereas the page would run the updater on `undefined` fields.
- Ids are strings compared with `===`; JavaScript type coercion and number precision of `likes` are not modelled.
