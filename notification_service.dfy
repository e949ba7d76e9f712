/** The notification service: create-or-skip, undo, read state and the
    follow-request resurface, over the repository and an outbox of pushed
    messages. Each operation is first a function from one Store (table, id
    sequence, outbox) to the next; the service class below performs it step
    by step and is proved to reach exactly that Store. */
module Service {
  import opened Wrappers
  import opened Strings
  import D = Domain
  import opened NotificationEntity
  import opened Repository
  import opened Projection

  // ------------------------------------------------------------ messages

  /** The `type` of a NotificationWebSocketMessage. */
  datatype MessageKind = NewNotification | UnreadCountUpdate

  function MessageKindName(k: MessageKind): (name: string)
    ensures name == "NEW_NOTIFICATION" || name == "UNREAD_COUNT_UPDATE"
  {
    match k
    case NewNotification => "NEW_NOTIFICATION"
    case UnreadCountUpdate => "UNREAD_COUNT_UPDATE"
  }

  datatype WebSocketMessage = WebSocketMessage(
    kind: MessageKind,
    notification: Option<NotificationResponse>,
    unreadCount: Option<nat>)

  /** One convertAndSend call: a destination and the message sent to it. */
  datatype Envelope = Envelope(destination: string, message: WebSocketMessage)

  const TopicPrefix := "/topic/notifications/"

  /** The per-user destination, the prefix followed by the decimal user id. */
  function Topic(userId: nat): (t: string)
    ensures TopicPrefix <= t && t[|TopicPrefix|..] == NatToString(userId)
  {
    TopicPrefix + NatToString(userId)
  }

  /** Different users never share a destination. */
  lemma TopicInjective(a: nat, b: nat)
    requires Topic(a) == Topic(b)
    ensures a == b
  {
    assert Topic(a)[|TopicPrefix|..] == Topic(b)[|TopicPrefix|..];
    NatToStringInjective(a, b);
  }

  /** What sendNotificationByWebSocket sends. */
  function NotificationEnvelope(userId: nat, response: NotificationResponse): Envelope {
    Envelope(Topic(userId), WebSocketMessage(NewNotification, Some(response), None))
  }

  /** What sendUnreadCountUpdate sends, given the table at send time. */
  function CountEnvelope(rows: seq<Row>, userId: nat): Envelope {
    Envelope(Topic(userId), WebSocketMessage(UnreadCountUpdate, None, Some(Count(rows, UnreadOf(userId)))))
  }

  /** A new notification carries a payload and no count; a count update the reverse. */
  predicate WellFormed(e: Envelope) {
    match e.message.kind
    case NewNotification => e.message.notification.Some? && e.message.unreadCount.None?
    case UnreadCountUpdate => e.message.notification.None? && e.message.unreadCount.Some?
  }

  // ------------------------------------------------------ store and keys

  /** Everything the service changes: the table, the next identity value and the outbox. */
  datatype Store = Store(rows: seq<Row>, nextId: nat, outbox: seq<Envelope>)

  function PostIdOf(post: Option<D.Post>): Option<nat> {
    if post.Some? then Some(post.value.id) else None
  }

  function CommentIdOf(comment: Option<D.Comment>): Option<nat> {
    if comment.Some? then Some(comment.value.id) else None
  }

  /** The lookup shouldSkipNotification performs, chosen by which subject ids are present. */
  function DedupKey(recipientId: nat, actorId: nat, kind: NotificationType,
                    postId: Option<nat>, commentId: Option<nat>): (w: Where)
    ensures (w.ByType? || w.ByTypeAndPost? || w.ByTypeAndComment?) &&
      w.recipientId == recipientId && w.actorId == actorId && w.kind == kind
    ensures w.ByType? <==> postId.None?
    ensures w.ByTypeAndComment? ==> commentId == Some(w.commentId)
    ensures w.ByTypeAndPost? ==> postId == Some(w.postId)
  {
    if postId.Some? && commentId.Some? then ByTypeAndComment(recipientId, actorId, kind, commentId.value)
    else if postId.Some? then ByTypeAndPost(recipientId, actorId, kind, postId.value)
    else ByType(recipientId, actorId, kind)
  }

  /** A row with the same recipient and actor matches the key exactly when the
      type agrees and, when both subjects are given, the comment does; when
      only the post is given, the post does; otherwise no subject is compared. */
  lemma DedupKeyMeaning(recipientId: nat, actorId: nat, kind: NotificationType,
                        postId: Option<nat>, commentId: Option<nat>, row: Row)
    ensures Matches(DedupKey(recipientId, actorId, kind, postId, commentId), row) <==>
      row.recipient.id == recipientId && row.actor.id == actorId && row.kind == kind &&
      (postId.Some? && commentId.Some? ==> row.comment.Some? && row.comment.value.id == commentId.value) &&
      (postId.Some? && commentId.None? ==> row.post.Some? && row.post.value.id == postId.value)
  {
  }

  predicate ShouldSkip(rows: seq<Row>, recipientId: nat, actorId: nat, kind: NotificationType,
                       postId: Option<nat>, commentId: Option<nat>)
    ensures ShouldSkip(rows, recipientId, actorId, kind, postId, commentId) <==>
      Count(rows, DedupKey(recipientId, actorId, kind, postId, commentId)) > 0
  {
    CountPositiveIffExists(rows, DedupKey(recipientId, actorId, kind, postId, commentId));
    Exists(rows, DedupKey(recipientId, actorId, kind, postId, commentId))
  }

  // ------------------------------------------ the operations, as functions

  /** createAndSendNotification: nothing for oneself or for a duplicate; otherwise
      one unread row, then the new notification and the count are pushed. */
  function Created(s: Store, recipient: D.User, actor: D.User, kind: NotificationType,
                   post: Option<D.Post>, comment: Option<D.Comment>, now: int): (r: Store)
    ensures r == s <==> recipient.id == actor.id || ShouldSkip(s.rows, recipient.id, actor.id, kind, PostIdOf(post), CommentIdOf(comment))
    ensures r != s ==> r.nextId == s.nextId + 1 && r.rows == s.rows + [Row(s.nextId, recipient, actor, kind, post, comment, false, now)]
    ensures r != s ==> |r.outbox| == |s.outbox| + 2 && r.outbox[..|s.outbox|] == s.outbox
  {
    if recipient.id == actor.id || ShouldSkip(s.rows, recipient.id, actor.id, kind, PostIdOf(post), CommentIdOf(comment)) then s
    else
      var row := Row(s.nextId, recipient, actor, kind, post, comment, false, now);
      var rows := s.rows + [row];
      Store(rows, s.nextId + 1,
            s.outbox + [NotificationEnvelope(recipient.id, ConvertToResponse(StateOf(row))), CountEnvelope(rows, recipient.id)])
  }

  /** A creation that is neither for oneself nor a duplicate appends its row and two envelopes. */
  lemma AcceptedCreation(s: Store, recipient: D.User, actor: D.User, kind: NotificationType,
                         post: Option<D.Post>, comment: Option<D.Comment>, now: int)
    requires recipient.id != actor.id
    requires !ShouldSkip(s.rows, recipient.id, actor.id, kind, PostIdOf(post), CommentIdOf(comment))
    ensures var row := Row(s.nextId, recipient, actor, kind, post, comment, false, now);
      Created(s, recipient, actor, kind, post, comment, now) ==
        Store(s.rows + [row], s.nextId + 1,
              s.outbox + [NotificationEnvelope(recipient.id, ConvertToResponse(StateOf(row))), CountEnvelope(s.rows + [row], recipient.id)])
  {
    var skip := recipient.id == actor.id || ShouldSkip(s.rows, recipient.id, actor.id, kind, PostIdOf(post), CommentIdOf(comment));
    assert !skip;
  }

  /** removeNotification: delete by the key, then push the count whatever was deleted. */
  function Removed(s: Store, w: Where, recipientId: nat): (r: Store)
    ensures !Exists(r.rows, w)
    ensures forall x :: x in r.rows <==> x in s.rows && !Matches(w, x)
    ensures r.nextId == s.nextId && r.outbox == s.outbox + [CountEnvelope(r.rows, recipientId)]
  {
    WithoutLeavesNoMatch(s.rows, w);
    var rows := Without(s.rows, w);
    Store(rows, s.nextId, s.outbox + [CountEnvelope(rows, recipientId)])
  }

  /** markAllAsRead: the update, and a count push only when some row changed. */
  function MarkedAll(s: Store, userId: nat): (r: Store)
    ensures Count(r.rows, UnreadOf(userId)) == 0
    ensures |r.rows| == |s.rows| && r.nextId == s.nextId
    ensures r.outbox == s.outbox <==> Count(s.rows, UnreadOf(userId)) == 0
  {
    MarkAllReadCounts(s.rows, userId, userId);
    var rows := MarkRead(s.rows, UnreadOf(userId));
    Store(rows, s.nextId, if Count(s.rows, UnreadOf(userId)) > 0 then s.outbox + [CountEnvelope(rows, userId)] else s.outbox)
  }

  lemma MarkedAllShape(s: Store, userId: nat)
    ensures var rows := MarkRead(s.rows, UnreadOf(userId));
      Count(s.rows, UnreadOf(userId)) > 0 ==> MarkedAll(s, userId) == Store(rows, s.nextId, s.outbox + [CountEnvelope(rows, userId)])
    ensures Count(s.rows, UnreadOf(userId)) == 0 ==> MarkedAll(s, userId) == s.(rows := MarkRead(s.rows, UnreadOf(userId)))
  {
  }

  /** markAsRead: the same for the one row with that id and recipient. */
  function MarkedOne(s: Store, userId: nat, notificationId: nat): (r: Store)
    ensures Count(r.rows, UnreadOf(userId)) <= Count(s.rows, UnreadOf(userId))
    ensures |r.rows| == |s.rows| && r.nextId == s.nextId
    ensures r.outbox == s.outbox <==> !Exists(s.rows, IdOfRecipient(notificationId, userId))
  {
    MarkOneReadCounts(s.rows, notificationId, userId, userId);
    CountPositiveIffExists(s.rows, IdOfRecipient(notificationId, userId));
    var w := IdOfRecipient(notificationId, userId);
    var rows := MarkRead(s.rows, w);
    Store(rows, s.nextId, if Count(s.rows, w) > 0 then s.outbox + [CountEnvelope(rows, userId)] else s.outbox)
  }

  /** The entity after the resurface's two setters. */
  function Bumped(row: Row, now: int): Row {
    row.(createdAt := now, isRead := false)
  }

  /** updateAndResendFollowRequestNotification, with every column of the bumped
      entity written back; `users` stands for userRepository.findById. */
  function Resurfaced(s: Store, users: map<nat, D.User>, recipientId: nat, actorId: nat, now: int): (r: Store)
    ensures Exists(s.rows, ByType(recipientId, actorId, FollowRequest)) ==>
      |r.rows| == |s.rows| && r.nextId == s.nextId && |r.outbox| == |s.outbox| + 2 &&
      r.rows[FirstMatch(s.rows, ByType(recipientId, actorId, FollowRequest))].createdAt == now
    ensures !Exists(s.rows, ByType(recipientId, actorId, FollowRequest)) && (recipientId !in users || actorId !in users) ==> r == s
  {
    var w := ByType(recipientId, actorId, FollowRequest);
    if Exists(s.rows, w) then
      var bumped := Bumped(s.rows[FirstMatch(s.rows, w)], now);
      var rows := Overwrite(s.rows, bumped);
      Store(rows, s.nextId,
            s.outbox + [NotificationEnvelope(recipientId, ConvertToResponse(StateOf(bumped))), CountEnvelope(rows, recipientId)])
    else if recipientId in users && actorId in users then
      Created(s, users[recipientId], users[actorId], FollowRequest, None, None, now)
    else s
  }

  /** The resurface of an existing request, unfolded. */
  lemma ResurfaceOfExisting(s: Store, users: map<nat, D.User>, recipientId: nat, actorId: nat, now: int)
    requires Exists(s.rows, ByType(recipientId, actorId, FollowRequest))
    ensures var bumped := Bumped(s.rows[FirstMatch(s.rows, ByType(recipientId, actorId, FollowRequest))], now);
      var rows := Overwrite(s.rows, bumped);
      Resurfaced(s, users, recipientId, actorId, now) ==
        Store(rows, s.nextId,
              s.outbox + [NotificationEnvelope(recipientId, ConvertToResponse(StateOf(bumped))), CountEnvelope(rows, recipientId)])
  {
  }

  lemma ResurfaceOfExistingRows(s: Store, users: map<nat, D.User>, recipientId: nat, actorId: nat, now: int)
    requires Exists(s.rows, ByType(recipientId, actorId, FollowRequest))
    ensures Resurfaced(s, users, recipientId, actorId, now).rows ==
      Overwrite(s.rows, Bumped(s.rows[FirstMatch(s.rows, ByType(recipientId, actorId, FollowRequest))], now))
    ensures Resurfaced(s, users, recipientId, actorId, now).nextId == s.nextId
  {
    ResurfaceOfExisting(s, users, recipientId, actorId, now);
  }

  /** The same as the entity is mapped: the UPDATE leaves created_at alone,
      while the pushed notification still carries the object's new timestamp. */
  function ResurfacedAsMapped(s: Store, users: map<nat, D.User>, recipientId: nat, actorId: nat, now: int): (r: Store)
    ensures Exists(s.rows, ByType(recipientId, actorId, FollowRequest)) ==>
      |r.rows| == |s.rows| && r.nextId == s.nextId && |r.outbox| == |s.outbox| + 2 &&
      forall i :: 0 <= i < |s.rows| ==> r.rows[i].createdAt == s.rows[i].createdAt
    ensures !Exists(s.rows, ByType(recipientId, actorId, FollowRequest)) && (recipientId !in users || actorId !in users) ==> r == s
  {
    var w := ByType(recipientId, actorId, FollowRequest);
    if Exists(s.rows, w) then
      var bumped := Bumped(s.rows[FirstMatch(s.rows, w)], now);
      var rows := OverwriteAsMapped(s.rows, bumped);
      AsMappedSaveKeepsAllCreatedAt(s.rows, bumped);
      Store(rows, s.nextId,
            s.outbox + [NotificationEnvelope(recipientId, ConvertToResponse(StateOf(bumped))), CountEnvelope(rows, recipientId)])
    else if recipientId in users && actorId in users then
      Created(s, users[recipientId], users[actorId], FollowRequest, None, None, now)
    else s
  }

  /** A delete that pushes nothing (the comment clean-ups the controller calls). */
  function Purged(s: Store, w: Where): (r: Store)
    ensures !Exists(r.rows, w)
    ensures forall x :: x in r.rows <==> x in s.rows && !Matches(w, x)
    ensures r.nextId == s.nextId && r.outbox == s.outbox
  {
    WithoutLeavesNoMatch(s.rows, w);
    s.(rows := Without(s.rows, w))
  }

  // ------------------------------------------------------------- objects

  lemma AppendTwo<T>(s: seq<T>, a: T, b: T)
    ensures s + [a] + [b] == s + [a, b]
  {
  }

  /** SimpMessagingTemplate as an append-only outbox. */
  class MessagingTemplate {
    var sent: seq<Envelope>

    constructor ()
      ensures sent == []
    {
      sent := [];
    }

    method ConvertAndSend(destination: string, message: WebSocketMessage)
      modifies this
      ensures sent == old(sent) + [Envelope(destination, message)]
    {
      sent := sent + [Envelope(destination, message)];
    }
  }

  class NotificationService {
    const repo: NotificationRepository
    const template: MessagingTemplate
    /** The users userRepository.findById can find, by id. */
    const users: map<nat, D.User>

    ghost predicate Valid()
      reads this, repo, template
    {
      repo.Valid()
      && (forall id :: id in users ==> users[id].id == id)
      && (forall i :: 0 <= i < |template.sent| ==> WellFormed(template.sent[i]))
    }

    ghost function State(): Store
      reads this, repo, template
    {
      Store(repo.rows, repo.nextId, template.sent)
    }

    constructor (repo: NotificationRepository, template: MessagingTemplate, users: map<nat, D.User>)
      requires repo.Valid() && template.sent == []
      requires forall id :: id in users ==> users[id].id == id
      ensures this.repo == repo && this.template == template && this.users == users
      ensures Valid()
    {
      this.repo := repo;
      this.template := template;
      this.users := users;
    }

    predicate ShouldSkipNotification(recipientId: nat, actorId: nat, kind: NotificationType,
                                     postId: Option<nat>, commentId: Option<nat>)
      reads repo
      ensures ShouldSkipNotification(recipientId, actorId, kind, postId, commentId) <==>
        Count(repo.rows, DedupKey(recipientId, actorId, kind, postId, commentId)) > 0
    {
      ShouldSkip(repo.rows, recipientId, actorId, kind, postId, commentId)
    }

    method SendNotificationByWebSocket(userId: nat, response: NotificationResponse)
      requires Valid()
      modifies template
      ensures Valid()
      ensures template.sent == old(template.sent) + [NotificationEnvelope(userId, response)]
    {
      template.ConvertAndSend(Topic(userId), WebSocketMessage(NewNotification, Some(response), None));
    }

    method SendUnreadCountUpdate(userId: nat)
      requires Valid()
      modifies template
      ensures Valid()
      ensures template.sent == old(template.sent) + [CountEnvelope(repo.rows, userId)]
    {
      var count := repo.CountByRecipientIdAndIsReadFalse(userId);
      template.ConvertAndSend(Topic(userId), WebSocketMessage(UnreadCountUpdate, None, Some(count)));
    }

    /** The five-argument createAndSendNotification. */
    method CreateAndSendNotification(recipient: D.User, actor: D.User, kind: NotificationType,
                                     post: Option<D.Post>, comment: Option<D.Comment>, now: int)
      requires Valid()
      modifies repo, template
      ensures Valid()
      ensures State() == Created(old(State()), recipient, actor, kind, post, comment, now)
    {
      if recipient.id == actor.id {
        return;
      }
      if ShouldSkipNotification(recipient.id, actor.id, kind, PostIdOf(post), CommentIdOf(comment)) {
        return;
      }
      ghost var s0 := State();
      ghost var row := Row(s0.nextId, recipient, actor, kind, post, comment, false, now);
      var notification := new Notification.ForComment(recipient, actor, kind, post, comment);
      repo.Persist(notification, now);
      assert notification.State() == StateOf(row);
      assert template.sent == s0.outbox;
      var response := ConvertToResponse(notification.State());
      SendNotificationByWebSocket(recipient.id, response);
      ghost var e1 := NotificationEnvelope(recipient.id, response);
      assert template.sent == s0.outbox + [e1];
      SendUnreadCountUpdate(recipient.id);
      ghost var e2 := CountEnvelope(s0.rows + [row], recipient.id);
      assert template.sent == s0.outbox + [e1] + [e2];
      assert repo.rows == s0.rows + [row];
      assert repo.nextId == s0.nextId + 1;
      assert response == ConvertToResponse(StateOf(row));
      AppendTwo(s0.outbox, e1, e2);
      AcceptedCreation(s0, recipient, actor, kind, post, comment, now);
    }

    /** createAndSendNotification(recipient, actor, type). */
    method CreateAndSendWithoutSubject(recipient: D.User, actor: D.User, kind: NotificationType, now: int)
      requires Valid()
      modifies repo, template
      ensures Valid()
      ensures State() == Created(old(State()), recipient, actor, kind, None, None, now)
    {
      CreateAndSendNotification(recipient, actor, kind, None, None, now);
    }

    /** createAndSendNotification(recipient, actor, type, post). */
    method CreateAndSendForPost(recipient: D.User, actor: D.User, kind: NotificationType, post: Option<D.Post>, now: int)
      requires Valid()
      modifies repo, template
      ensures Valid()
      ensures State() == Created(old(State()), recipient, actor, kind, post, None, now)
    {
      CreateAndSendNotification(recipient, actor, kind, post, None, now);
    }

    /** removeNotification(recipient, actor, type). */
    method RemoveNotification(recipient: D.User, actor: D.User, kind: NotificationType)
      requires Valid()
      modifies repo, template
      ensures Valid()
      ensures State() == Removed(old(State()), ByType(recipient.id, actor.id, kind), recipient.id)
    {
      var _ := repo.DeleteByRecipientIdAndActorIdAndType(recipient.id, actor.id, kind);
      SendUnreadCountUpdate(recipient.id);
    }

    /** removeNotification(recipient, actor, type, post). */
    method RemoveNotificationForPost(recipient: D.User, actor: D.User, kind: NotificationType, post: D.Post)
      requires Valid()
      modifies repo, template
      ensures Valid()
      ensures State() == Removed(old(State()), ByTypeAndPost(recipient.id, actor.id, kind, post.id), recipient.id)
    {
      var _ := repo.DeleteByRecipientIdAndActorIdAndTypeAndPostId(recipient.id, actor.id, kind, post.id);
      SendUnreadCountUpdate(recipient.id);
    }

    /** removeNotification(recipient, actor, type, comment). */
    method RemoveNotificationForComment(recipient: D.User, actor: D.User, kind: NotificationType, comment: D.Comment)
      requires Valid()
      modifies repo, template
      ensures Valid()
      ensures State() == Removed(old(State()), ByTypeAndComment(recipient.id, actor.id, kind, comment.id), recipient.id)
    {
      var _ := repo.DeleteByRecipientIdAndActorIdAndTypeAndCommentId(recipient.id, actor.id, kind, comment.id);
      SendUnreadCountUpdate(recipient.id);
    }

    /** getUnreadCount: the recipient's unread rows, nothing changed. */
    method GetUnreadCount(userId: nat) returns (count: nat)
      ensures count == |Select(repo.rows, UnreadOf(userId))|
      ensures count > 0 <==> Exists(repo.rows, UnreadOf(userId))
    {
      count := repo.CountByRecipientIdAndIsReadFalse(userId);
      CountPositiveIffExists(repo.rows, UnreadOf(userId));
    }

    method MarkAllAsRead(userId: nat) returns (updated: nat)
      requires Valid()
      modifies repo, template
      ensures Valid()
      ensures updated == Count(old(repo.rows), UnreadOf(userId))
      ensures State() == MarkedAll(old(State()), userId)
    {
      ghost var s0 := State();
      updated := repo.MarkAllAsReadByRecipientId(userId);
      MarkedAllShape(s0, userId);
      if updated > 0 {
        SendUnreadCountUpdate(userId);
      }
    }

    method MarkAsRead(userId: nat, notificationId: nat) returns (marked: bool)
      requires Valid()
      modifies repo, template
      ensures Valid()
      ensures marked <==> Exists(old(repo.rows), IdOfRecipient(notificationId, userId))
      ensures State() == MarkedOne(old(State()), userId, notificationId)
    {
      ghost var s0 := State();
      CountPositiveIffExists(repo.rows, IdOfRecipient(notificationId, userId));
      var updated := repo.MarkAsReadByIdAndRecipientId(notificationId, userId);
      ghost var rows := repo.rows;
      if updated > 0 {
        SendUnreadCountUpdate(userId);
        ghost var e := CountEnvelope(rows, userId);
        assert template.sent == s0.outbox + [e];
        assert MarkedOne(s0, userId, notificationId) == Store(rows, s0.nextId, s0.outbox + [e]);
        return true;
      }
      assert MarkedOne(s0, userId, notificationId) == Store(rows, s0.nextId, s0.outbox);
      return false;
    }

    /** updateAndResendFollowRequestNotification; `now` is Instant.now(). The save
        goes through the entity's mapping, so the table keeps the row's created_at. */
    method UpdateAndResendFollowRequestNotification(recipientId: nat, actorId: nat, now: int)
      requires Valid()
      modifies repo, template
      ensures Valid()
      ensures State() == ResurfacedAsMapped(old(State()), users, recipientId, actorId, now)
    {
      var existing := repo.FindByRecipientIdAndActorIdAndType(recipientId, actorId, FollowRequest);
      if existing == null {
        if recipientId in users && actorId in users {
          CreateAndSendNotification(users[recipientId], users[actorId], FollowRequest, None, None, now);
        }
        return;
      }
      ghost var s0 := State();
      ghost var bumped := Bumped(s0.rows[FirstMatch(s0.rows, ByType(recipientId, actorId, FollowRequest))], now);
      existing.SetCreatedAt(Some(now));
      existing.SetRead(false);
      assert existing.State() == StateOf(bumped);
      assert Matches(WithId(existing.id.value), s0.rows[FirstMatch(s0.rows, ByType(recipientId, actorId, FollowRequest))]);
      assert template.sent == s0.outbox;
      repo.MergeAsMapped(existing);
      ghost var rows := repo.rows;
      assert rows == OverwriteAsMapped(s0.rows, bumped);
      assert template.sent == s0.outbox;
      assert Valid();
      var response := ConvertToResponse(existing.State());
      SendNotificationByWebSocket(recipientId, response);
      ghost var e1 := NotificationEnvelope(recipientId, response);
      SendUnreadCountUpdate(recipientId);
      ghost var e2 := CountEnvelope(rows, recipientId);
      assert template.sent == s0.outbox + [e1] + [e2];
      AppendTwo(s0.outbox, e1, e2);
      assert ResurfacedAsMapped(s0, users, recipientId, actorId, now) == Store(rows, s0.nextId, s0.outbox + [e1, e2]);
    }

    /** cleanupNotificationsForComment: every notification about the comment, no push. */
    method CleanupNotificationsForComment(commentId: nat)
      requires Valid()
      modifies repo
      ensures Valid()
      ensures State() == Purged(old(State()), AboutComment(commentId))
    {
      var _ := repo.DeleteByCommentId(commentId);
    }

    /** removeCommentLikeNotification: the COMMENT_LIKE row of that actor, recipient and comment, no push. */
    method RemoveCommentLikeNotification(recipientId: nat, actorId: nat, commentId: nat)
      requires Valid()
      modifies repo
      ensures Valid()
      ensures State() == Purged(old(State()), ByTypeAndComment(recipientId, actorId, CommentLike, commentId))
    {
      var _ := repo.DeleteByRecipientIdAndActorIdAndTypeAndCommentId(recipientId, actorId, CommentLike, commentId);
    }
  }
}
