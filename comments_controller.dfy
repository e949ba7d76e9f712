/** The comment endpoints: the privacy gate every endpoint applies, the
    (user, comment) like set with its conflict errors, comment deletion, and
    the notification each successful step causes. Each endpoint is first a
    function from one Tables value to a Reply; the controller class performs
    it step by step over the repositories and the notification service. */
module Comments {
  import opened Wrappers
  import D = Domain
  import opened NotificationEntity
  import opened Repository
  import opened Service

  /** A row of the comment-like table. */
  datatype Like = Like(userId: nat, commentId: nat)

  /** Spring's Authentication: the principal's name (an email) and whether it is authenticated. */
  datatype Authentication = Authentication(name: string, isAuthenticated: bool)

  datatype Status = Unauthorized | NotFound | Forbidden | Conflict

  function StatusCode(s: Status): (code: nat)
    ensures 400 <= code < 500
  {
    match s
    case Unauthorized => 401
    case NotFound => 404
    case Forbidden => 403
    case Conflict => 409
  }

  /** A ResponseStatusException: its status and reason. */
  datatype ApiError = ApiError(status: Status, reason: string)

  const MissingToken := ApiError(Unauthorized, "Missing or invalid token")
  const UserNotFound := ApiError(NotFound, "User not found")
  const CommentNotFound := ApiError(NotFound, "Comment not found")
  const PrivateAccount := ApiError(Forbidden, "This account is private")
  const NotOwner := ApiError(Forbidden, "You can only delete your own comments")
  const AlreadyLiked := ApiError(Conflict, "Already liked")
  const NotLikedYet := ApiError(Conflict, "Not liked yet")

  // ---------------------------------------------------------------- gate

  /** The privacy predicate: a private author's posts are closed to everyone
      but the author and the author's followers. */
  predicate AccessDenied(postAuthor: D.User, viewer: D.User)
    ensures AccessDenied(postAuthor, viewer) ==> postAuthor.isPrivate
    ensures postAuthor.id == viewer.id ==> !AccessDenied(postAuthor, viewer)
    ensures postAuthor.id in viewer.following ==> !AccessDenied(postAuthor, viewer)
  {
    postAuthor.isPrivate && postAuthor.id != viewer.id && postAuthor.id !in viewer.following
  }

  /** The caller and the comment once every shared check has passed. */
  datatype Access = Access(viewer: D.User, comment: D.Comment)

  /** The checks every endpoint makes first, in the order they are made:
      authentication, the caller's account, the comment, privacy. */
  function Gate(auth: Option<Authentication>, usersByEmail: map<string, D.User>,
                comments: map<nat, D.Comment>, commentId: nat): (r: Result<Access, ApiError>)
    ensures (r == Failure(MissingToken)) <==> auth.None? || !auth.value.isAuthenticated
    ensures (r == Failure(UserNotFound)) <==>
      auth.Some? && auth.value.isAuthenticated && auth.value.name !in usersByEmail
    ensures (r == Failure(CommentNotFound)) <==>
      auth.Some? && auth.value.isAuthenticated && auth.value.name in usersByEmail && commentId !in comments
    ensures (r == Failure(PrivateAccount)) <==>
      auth.Some? && auth.value.isAuthenticated && auth.value.name in usersByEmail && commentId in comments &&
      AccessDenied(comments[commentId].post.author, usersByEmail[auth.value.name])
    ensures r.Success? <==>
      auth.Some? && auth.value.isAuthenticated && auth.value.name in usersByEmail && commentId in comments &&
      !AccessDenied(comments[commentId].post.author, usersByEmail[auth.value.name])
    ensures r.Success? ==> r.value == Access(usersByEmail[auth.value.name], comments[commentId])
  {
    if auth.None? || !auth.value.isAuthenticated then Failure(MissingToken)
    else if auth.value.name !in usersByEmail then Failure(UserNotFound)
    else if commentId !in comments then Failure(CommentNotFound)
    else
      var viewer := usersByEmail[auth.value.name];
      var comment := comments[commentId];
      if AccessDenied(comment.post.author, viewer) then Failure(PrivateAccount)
      else Success(Access(viewer, comment))
  }

  // -------------------------------------------------------------- state

  /** The state the endpoints read and write: the like table, the comment
      table and the notification store. */
  datatype Tables = Tables(likes: set<Like>, comments: map<nat, D.Comment>, store: Store)

  /** The comment table is keyed by comment id. */
  predicate Keyed(comments: map<nat, D.Comment>) {
    forall id :: id in comments ==> comments[id].id == id
  }

  /** What an endpoint answers and the state it leaves. */
  datatype Reply<T> = Reply(response: Result<T, ApiError>, after: Tables)

  /** commentLikeRepository.deleteByCommentId. */
  function LikesWithout(likes: set<Like>, commentId: nat): (r: set<Like>)
    ensures forall l :: l in r <==> l in likes && l.commentId != commentId
  {
    set l | l in likes && l.commentId != commentId
  }

  /** The COMMENT_LIKE notification key of a like, as removeCommentLikeNotification deletes it. */
  function LikeNotificationKey(a: Access, commentId: nat): Where {
    ByTypeAndComment(a.comment.author.id, a.viewer.id, CommentLike, commentId)
  }

  // ---------------------------------------------------------- endpoints

  /** deleteComment: the shared checks, then ownership by email; on success the
      comment's notifications, its likes and the comment itself are removed. */
  function DeleteCommentReply(auth: Option<Authentication>, usersByEmail: map<string, D.User>,
                              t: Tables, commentId: nat): (r: Reply<string>)
    ensures r.response.Failure? ==> r.after == t
    ensures Gate(auth, usersByEmail, t.comments, commentId).Failure? ==>
      r.response == Failure(Gate(auth, usersByEmail, t.comments, commentId).error)
    ensures r.response.Success? <==>
      Gate(auth, usersByEmail, t.comments, commentId).Success? && t.comments[commentId].author.email == auth.value.name
    ensures Gate(auth, usersByEmail, t.comments, commentId).Success? && r.response.Failure? ==> r.response.error == NotOwner
  {
    var gate := Gate(auth, usersByEmail, t.comments, commentId);
    if gate.Failure? then Reply(Failure(gate.error), t)
    else if gate.value.comment.author.email != auth.value.name then Reply(Failure(NotOwner), t)
    else
      Reply(Success("Comment deleted successfully"),
            Tables(LikesWithout(t.likes, commentId), t.comments - {commentId}, Purged(t.store, AboutComment(commentId))))
  }

  /** likeComment: the shared checks, 409 on a second like, else one more like and,
      unless the author likes their own comment, a COMMENT_LIKE notification. */
  function LikeCommentReply(auth: Option<Authentication>, usersByEmail: map<string, D.User>,
                            t: Tables, commentId: nat, now: int): (r: Reply<string>)
    ensures r.response.Failure? ==> r.after == t
    ensures Gate(auth, usersByEmail, t.comments, commentId).Failure? ==>
      r.response == Failure(Gate(auth, usersByEmail, t.comments, commentId).error)
    ensures Gate(auth, usersByEmail, t.comments, commentId).Success? ==>
      var like := Like(usersByEmail[auth.value.name].id, commentId);
      (like in t.likes ==> r.response == Failure(AlreadyLiked)) &&
      (like !in t.likes ==> r.response.Success? && r.after.likes == t.likes + {like} && r.after.comments == t.comments)
  {
    var gate := Gate(auth, usersByEmail, t.comments, commentId);
    if gate.Failure? then Reply(Failure(gate.error), t)
    else
      var a := gate.value;
      var like := Like(a.viewer.id, commentId);
      if like in t.likes then Reply(Failure(AlreadyLiked), t)
      else
        var store := if a.comment.author.id != a.viewer.id
          then Created(t.store, a.comment.author, a.viewer, CommentLike, Some(a.comment.post), Some(a.comment), now)
          else t.store;
        Reply(Success("Comment liked successfully"), Tables(t.likes + {like}, t.comments, store))
  }

  /** unlikeComment: the shared checks, 409 when there was nothing to delete, else
      the like is gone and, unless it was the author's own, so is its notification. */
  function UnlikeCommentReply(auth: Option<Authentication>, usersByEmail: map<string, D.User>,
                              t: Tables, commentId: nat): (r: Reply<string>)
    ensures r.response.Failure? ==> r.after == t
    ensures Gate(auth, usersByEmail, t.comments, commentId).Failure? ==>
      r.response == Failure(Gate(auth, usersByEmail, t.comments, commentId).error)
    ensures Gate(auth, usersByEmail, t.comments, commentId).Success? ==>
      var like := Like(usersByEmail[auth.value.name].id, commentId);
      (like !in t.likes ==> r.response == Failure(NotLikedYet)) &&
      (like in t.likes ==> r.response.Success? && r.after.likes == t.likes - {like} && r.after.comments == t.comments)
    ensures r.response.Success? ==>
      var a := Gate(auth, usersByEmail, t.comments, commentId).value;
      r.after.store.nextId == t.store.nextId && r.after.store.outbox == t.store.outbox &&
      (a.comment.author.id != a.viewer.id ==> r.after.store.rows == Without(t.store.rows, LikeNotificationKey(a, commentId))) &&
      (a.comment.author.id == a.viewer.id ==> r.after.store.rows == t.store.rows)
  {
    var gate := Gate(auth, usersByEmail, t.comments, commentId);
    if gate.Failure? then Reply(Failure(gate.error), t)
    else
      var a := gate.value;
      var like := Like(a.viewer.id, commentId);
      if like !in t.likes then Reply(Failure(NotLikedYet), t)
      else
        var store := if a.comment.author.id != a.viewer.id
          then Purged(t.store, LikeNotificationKey(a, commentId))
          else t.store;
        Reply(Success("Comment unliked successfully"), Tables(t.likes - {like}, t.comments, store))
  }

  /** checkCommentLike: the shared checks, then whether the caller's like exists. */
  function CheckCommentLikeReply(auth: Option<Authentication>, usersByEmail: map<string, D.User>,
                                 t: Tables, commentId: nat): (r: Reply<bool>)
    ensures r.after == t
    ensures Gate(auth, usersByEmail, t.comments, commentId).Failure? ==>
      r.response == Failure(Gate(auth, usersByEmail, t.comments, commentId).error)
    ensures Gate(auth, usersByEmail, t.comments, commentId).Success? ==>
      r.response == Success(Like(usersByEmail[auth.value.name].id, commentId) in t.likes)
  {
    var gate := Gate(auth, usersByEmail, t.comments, commentId);
    if gate.Failure? then Reply(Failure(gate.error), t)
    else Reply(Success(Like(gate.value.viewer.id, commentId) in t.likes), t)
  }

  // ------------------------------------------------------------ objects

  /** The comment-like table. */
  class CommentLikeRepository {
    var likes: set<Like>

    constructor (likes: set<Like>)
      ensures this.likes == likes
    {
      this.likes := likes;
    }

    predicate ExistsByUserIdAndCommentId(userId: nat, commentId: nat)
      reads this
    {
      Like(userId, commentId) in likes
    }

    method Save(like: Like)
      modifies this
      ensures likes == old(likes) + {like}
    {
      likes := likes + {like};
    }

    /** Deletes the like, returning the number of rows removed. */
    method DeleteByUserIdAndCommentId(userId: nat, commentId: nat) returns (deleted: nat)
      modifies this
      ensures deleted == (if Like(userId, commentId) in old(likes) then 1 else 0)
      ensures likes == old(likes) - {Like(userId, commentId)}
    {
      deleted := if Like(userId, commentId) in likes then 1 else 0;
      likes := likes - {Like(userId, commentId)};
    }

    method DeleteByCommentId(commentId: nat)
      modifies this
      ensures likes == LikesWithout(old(likes), commentId)
    {
      likes := LikesWithout(likes, commentId);
    }
  }

  /** The comment table. */
  class CommentRepository {
    var comments: map<nat, D.Comment>

    constructor (comments: map<nat, D.Comment>)
      ensures this.comments == comments
    {
      this.comments := comments;
    }

    method Delete(comment: D.Comment)
      modifies this
      ensures comments == old(comments) - {comment.id}
    {
      comments := comments - {comment.id};
    }
  }

  class CommentsController {
    const commentRepository: CommentRepository
    /** userRepository.findByEmail, whose table is not changed here. */
    const usersByEmail: map<string, D.User>
    const commentLikeRepository: CommentLikeRepository
    const notificationService: NotificationService

    ghost predicate Valid()
      reads this, commentRepository, notificationService, notificationService.repo, notificationService.template
    {
      notificationService.Valid() && Keyed(commentRepository.comments)
    }

    ghost function State(): Tables
      reads this, commentLikeRepository, commentRepository, notificationService, notificationService.repo, notificationService.template
    {
      Tables(commentLikeRepository.likes, commentRepository.comments, notificationService.State())
    }

    constructor (commentRepository: CommentRepository, usersByEmail: map<string, D.User>,
                 commentLikeRepository: CommentLikeRepository, notificationService: NotificationService)
      requires notificationService.Valid() && Keyed(commentRepository.comments)
      ensures Valid()
      ensures this.commentRepository == commentRepository && this.usersByEmail == usersByEmail
      ensures this.commentLikeRepository == commentLikeRepository && this.notificationService == notificationService
    {
      this.commentRepository := commentRepository;
      this.usersByEmail := usersByEmail;
      this.commentLikeRepository := commentLikeRepository;
      this.notificationService := notificationService;
    }

    /** The shared checks, made against the current tables. */
    method CheckAccess(auth: Option<Authentication>, commentId: nat) returns (gate: Result<Access, ApiError>)
      ensures gate == Gate(auth, usersByEmail, commentRepository.comments, commentId)
    {
      if auth.None? || !auth.value.isAuthenticated {
        return Failure(MissingToken);
      }
      var email := auth.value.name;
      if email !in usersByEmail {
        return Failure(UserNotFound);
      }
      var viewer := usersByEmail[email];
      if commentId !in commentRepository.comments {
        return Failure(CommentNotFound);
      }
      var comment := commentRepository.comments[commentId];
      var postAuthor := comment.post.author;
      if AccessDenied(postAuthor, viewer) {
        return Failure(PrivateAccount);
      }
      return Success(Access(viewer, comment));
    }

    method DeleteComment(auth: Option<Authentication>, commentId: nat) returns (response: Result<string, ApiError>)
      requires Valid()
      modifies commentRepository, commentLikeRepository, notificationService.repo
      ensures Valid()
      ensures response == DeleteCommentReply(auth, usersByEmail, old(State()), commentId).response
      ensures State() == DeleteCommentReply(auth, usersByEmail, old(State()), commentId).after
    {
      var gate := CheckAccess(auth, commentId);
      if gate.Failure? {
        return Failure(gate.error);
      }
      var comment := gate.value.comment;
      if comment.author.email != auth.value.name {
        return Failure(NotOwner);
      }
      notificationService.CleanupNotificationsForComment(commentId);
      commentLikeRepository.DeleteByCommentId(commentId);
      commentRepository.Delete(comment);
      return Success("Comment deleted successfully");
    }

    method LikeComment(auth: Option<Authentication>, commentId: nat, now: int) returns (response: Result<string, ApiError>)
      requires Valid()
      modifies commentLikeRepository, notificationService.repo, notificationService.template
      ensures Valid()
      ensures response == LikeCommentReply(auth, usersByEmail, old(State()), commentId, now).response
      ensures State() == LikeCommentReply(auth, usersByEmail, old(State()), commentId, now).after
    {
      var gate := CheckAccess(auth, commentId);
      if gate.Failure? {
        return Failure(gate.error);
      }
      var user, comment := gate.value.viewer, gate.value.comment;
      if commentLikeRepository.ExistsByUserIdAndCommentId(user.id, commentId) {
        return Failure(AlreadyLiked);
      }
      commentLikeRepository.Save(Like(user.id, commentId));
      var commentAuthor := comment.author;
      if commentAuthor.id != user.id {
        notificationService.CreateAndSendNotification(commentAuthor, user, CommentLike, Some(comment.post), Some(comment), now);
      }
      return Success("Comment liked successfully");
    }

    method UnlikeComment(auth: Option<Authentication>, commentId: nat) returns (response: Result<string, ApiError>)
      requires Valid()
      modifies commentLikeRepository, notificationService.repo
      ensures Valid()
      ensures response == UnlikeCommentReply(auth, usersByEmail, old(State()), commentId).response
      ensures State() == UnlikeCommentReply(auth, usersByEmail, old(State()), commentId).after
    {
      var gate := CheckAccess(auth, commentId);
      if gate.Failure? {
        return Failure(gate.error);
      }
      var user, comment := gate.value.viewer, gate.value.comment;
      var deleted := commentLikeRepository.DeleteByUserIdAndCommentId(user.id, commentId);
      if deleted == 0 {
        return Failure(NotLikedYet);
      }
      var commentAuthor := comment.author;
      if commentAuthor.id != user.id {
        notificationService.RemoveCommentLikeNotification(commentAuthor.id, user.id, commentId);
      }
      return Success("Comment unliked successfully");
    }

    method CheckCommentLike(auth: Option<Authentication>, commentId: nat) returns (response: Result<bool, ApiError>)
      ensures response == CheckCommentLikeReply(auth, usersByEmail, State(), commentId).response
    {
      var gate := CheckAccess(auth, commentId);
      if gate.Failure? {
        return Failure(gate.error);
      }
      var isLiked := commentLikeRepository.ExistsByUserIdAndCommentId(gate.value.viewer.id, commentId);
      return Success(isLiked);
    }
  }

  // -------------------------------------------------------------- laws

  /** An unauthenticated caller gets 401 from every endpoint, whatever the tables hold, and changes nothing. */
  lemma UnauthenticatedComesFirst(auth: Option<Authentication>, usersByEmail: map<string, D.User>,
                                  t: Tables, commentId: nat, now: int)
    requires auth.None? || !auth.value.isAuthenticated
    ensures DeleteCommentReply(auth, usersByEmail, t, commentId) == Reply(Failure(MissingToken), t)
    ensures LikeCommentReply(auth, usersByEmail, t, commentId, now) == Reply(Failure(MissingToken), t)
    ensures UnlikeCommentReply(auth, usersByEmail, t, commentId) == Reply(Failure(MissingToken), t)
    ensures CheckCommentLikeReply(auth, usersByEmail, t, commentId) == Reply(Failure(MissingToken), t)
  {
  }

  /** A like that succeeded cannot be repeated: the second one is a 409 that changes nothing. */
  lemma SecondLikeConflicts(auth: Option<Authentication>, usersByEmail: map<string, D.User>,
                            t: Tables, commentId: nat, now: int, later: int)
    requires LikeCommentReply(auth, usersByEmail, t, commentId, now).response.Success?
    ensures var t1 := LikeCommentReply(auth, usersByEmail, t, commentId, now).after;
      LikeCommentReply(auth, usersByEmail, t1, commentId, later) == Reply(Failure(AlreadyLiked), t1)
  {
    var t1 := LikeCommentReply(auth, usersByEmail, t, commentId, now).after;
    assert Gate(auth, usersByEmail, t1.comments, commentId) == Gate(auth, usersByEmail, t.comments, commentId);
  }

  /** checkCommentLike reports true after a successful like and false after a successful unlike. */
  lemma CheckFollowsLikeAndUnlike(auth: Option<Authentication>, usersByEmail: map<string, D.User>,
                                  t: Tables, commentId: nat, now: int)
    ensures LikeCommentReply(auth, usersByEmail, t, commentId, now).response.Success? ==>
      CheckCommentLikeReply(auth, usersByEmail, LikeCommentReply(auth, usersByEmail, t, commentId, now).after, commentId).response == Success(true)
    ensures UnlikeCommentReply(auth, usersByEmail, t, commentId).response.Success? ==>
      CheckCommentLikeReply(auth, usersByEmail, UnlikeCommentReply(auth, usersByEmail, t, commentId).after, commentId).response == Success(false)
  {
  }

  /** No one can unlike twice: the second unlike is a 409 that changes nothing. */
  lemma SecondUnlikeConflicts(auth: Option<Authentication>, usersByEmail: map<string, D.User>,
                              t: Tables, commentId: nat)
    requires UnlikeCommentReply(auth, usersByEmail, t, commentId).response.Success?
    ensures var t1 := UnlikeCommentReply(auth, usersByEmail, t, commentId).after;
      UnlikeCommentReply(auth, usersByEmail, t1, commentId) == Reply(Failure(NotLikedYet), t1)
  {
    var t1 := UnlikeCommentReply(auth, usersByEmail, t, commentId).after;
    assert Gate(auth, usersByEmail, t1.comments, commentId) == Gate(auth, usersByEmail, t.comments, commentId);
  }

  /** A like notifies the comment's author, once, unless the author is the liker. */
  lemma LikeNotifiesAuthor(auth: Option<Authentication>, usersByEmail: map<string, D.User>,
                           t: Tables, commentId: nat, now: int)
    requires Keyed(t.comments)
    requires LikeCommentReply(auth, usersByEmail, t, commentId, now).response.Success?
    ensures var a := Gate(auth, usersByEmail, t.comments, commentId).value;
      var t1 := LikeCommentReply(auth, usersByEmail, t, commentId, now).after;
      (a.comment.author.id == a.viewer.id ==> t1.store == t.store) &&
      (a.comment.author.id != a.viewer.id && !Exists(t.store.rows, LikeNotificationKey(a, commentId)) ==>
        t1.store.nextId == t.store.nextId + 1 &&
        t1.store.rows == t.store.rows + [Row(t.store.nextId, a.comment.author, a.viewer, CommentLike, Some(a.comment.post), Some(a.comment), false, now)]) &&
      (Exists(t.store.rows, LikeNotificationKey(a, commentId)) ==> t1.store == t.store)
  {
    var a := Gate(auth, usersByEmail, t.comments, commentId).value;
    assert a.comment.id == commentId;
    assert DedupKey(a.comment.author.id, a.viewer.id, CommentLike, PostIdOf(Some(a.comment.post)), CommentIdOf(Some(a.comment)))
      == LikeNotificationKey(a, commentId);
    if a.comment.author.id != a.viewer.id && !Exists(t.store.rows, LikeNotificationKey(a, commentId)) {
      AcceptedCreation(t.store, a.comment.author, a.viewer, CommentLike, Some(a.comment.post), Some(a.comment), now);
    }
  }

  /** Like then unlike gives back the like table, and the notification table
      without the like's key, which is the table itself if no such row was there. */
  lemma {:induction false} LikeThenUnlikeRestores(auth: Option<Authentication>, usersByEmail: map<string, D.User>,
                                                  t: Tables, commentId: nat, now: int)
    requires Keyed(t.comments)
    requires LikeCommentReply(auth, usersByEmail, t, commentId, now).response.Success?
    ensures var a := Gate(auth, usersByEmail, t.comments, commentId).value;
      var t1 := LikeCommentReply(auth, usersByEmail, t, commentId, now).after;
      var t2 := UnlikeCommentReply(auth, usersByEmail, t1, commentId);
      t2.response.Success? &&
      t2.after.likes == t.likes && t2.after.comments == t.comments &&
      (a.comment.author.id != a.viewer.id ==> t2.after.store.rows == Without(t.store.rows, LikeNotificationKey(a, commentId))) &&
      (a.comment.author.id == a.viewer.id ==> t2.after.store == t.store) &&
      (!Exists(t.store.rows, LikeNotificationKey(a, commentId)) ==> t2.after.store.rows == t.store.rows)
  {
    var a := Gate(auth, usersByEmail, t.comments, commentId).value;
    var key := LikeNotificationKey(a, commentId);
    var t1 := LikeCommentReply(auth, usersByEmail, t, commentId, now).after;
    var like := Like(a.viewer.id, commentId);
    assert like !in t.likes;
    assert Gate(auth, usersByEmail, t1.comments, commentId) == Gate(auth, usersByEmail, t.comments, commentId);
    assert t1.likes - {like} == t.likes;
    LikeNotifiesAuthor(auth, usersByEmail, t, commentId, now);
    if !Exists(t.store.rows, key) {
      WithoutNothingMatching(t.store.rows, key);
      if a.comment.author.id != a.viewer.id {
        var row := Row(t.store.nextId, a.comment.author, a.viewer, CommentLike, Some(a.comment.post), Some(a.comment), false, now);
        assert a.comment.id == commentId;
        assert Matches(key, row);
        WithoutUndoesAppend(t.store.rows, row, key);
      }
    }
  }

  /** A successful delete is the owner's, and leaves no trace of the comment:
      it is gone from the comment table, no like and no notification refers to
      it, and everything else is kept. */
  lemma DeleteLeavesNoTrace(auth: Option<Authentication>, usersByEmail: map<string, D.User>,
                            t: Tables, commentId: nat)
    requires DeleteCommentReply(auth, usersByEmail, t, commentId).response.Success?
    ensures auth.Some? && commentId in t.comments && t.comments[commentId].author.email == auth.value.name
    ensures var t1 := DeleteCommentReply(auth, usersByEmail, t, commentId).after;
      commentId !in t1.comments &&
      (forall id :: id in t.comments && id != commentId ==> id in t1.comments && t1.comments[id] == t.comments[id]) &&
      (forall l :: l in t1.likes <==> l in t.likes && l.commentId != commentId) &&
      !Exists(t1.store.rows, AboutComment(commentId)) &&
      (forall x :: x in t1.store.rows <==> x in t.store.rows && !Matches(AboutComment(commentId), x)) &&
      t1.store.outbox == t.store.outbox && t1.store.nextId == t.store.nextId
  {
    var rows := Without(t.store.rows, AboutComment(commentId));
    forall i | 0 <= i < |rows| ensures !Matches(AboutComment(commentId), rows[i]) {
      assert rows[i] in rows;
    }
  }
}
