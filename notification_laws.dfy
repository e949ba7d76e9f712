/** What the notification service promises, stated over the Store functions
    its methods are proved to follow: suppression of self-notifications and
    duplicates, the exact effect of an accepted creation, undo, the read-state
    operations and the follow-request resurface. */
module ServiceLaws {
  import opened Wrappers
  import D = Domain
  import opened NotificationEntity
  import opened Repository
  import opened Projection
  import opened Service

  // ----------------------------------------------------- table helpers

  /** Replacing one row changes a count by what that row contributed. */
  lemma {:induction false} CountAfterUpdate(rows: seq<Row>, i: nat, x: Row, w: Where)
    requires i < |rows|
    ensures Count(rows[i := x], w) + (if Matches(w, rows[i]) then 1 else 0)
         == Count(rows, w) + (if Matches(w, x) then 1 else 0)
  {
    var n := |rows| - 1;
    var init := rows[..n];
    assert rows == init + [rows[n]];
    CountSnoc(init, rows[n], w);
    if i == n {
      assert rows[i := x] == init + [x];
      CountSnoc(init, x, w);
    } else {
      assert rows[i := x] == init[i := x] + [rows[n]];
      CountAfterUpdate(init, i, x, w);
      CountSnoc(init[i := x], rows[n], w);
    }
  }

  /** With unique ids, saving an entity replaces exactly the row with its id. */
  lemma OverwriteOneRow(rows: seq<Row>, i: nat, e: Row)
    requires IdsUnique(rows) && i < |rows| && e.id == rows[i].id
    ensures Overwrite(rows, e) == rows[i := e]
  {
    var r := Overwrite(rows, e);
    forall j | 0 <= j < |rows| ensures r[j] == rows[i := e][j] {
      if j < i {
        assert rows[j].id != rows[i].id;
      } else if j > i {
        assert rows[i].id != rows[j].id;
      }
    }
  }

  /** The same for a save under the entity's mapping: the row keeps its createdAt. */
  lemma OverwriteAsMappedOneRow(rows: seq<Row>, i: nat, e: Row)
    requires IdsUnique(rows) && i < |rows| && e.id == rows[i].id
    ensures OverwriteAsMapped(rows, e) == rows[i := e.(createdAt := rows[i].createdAt)]
  {
    var r := OverwriteAsMapped(rows, e);
    forall j | 0 <= j < |rows| ensures r[j] == rows[i := e.(createdAt := rows[i].createdAt)][j] {
      if j < i {
        assert rows[j].id != rows[i].id;
      } else if j > i {
        assert rows[i].id != rows[j].id;
      }
    }
  }

  /** An update whose clause matches nothing leaves the table as it was. */
  lemma MarkReadOfNothing(rows: seq<Row>, w: Where)
    requires Count(rows, w) == 0
    ensures MarkRead(rows, w) == rows
  {
    CountPositiveIffExists(rows, w);
    var r := MarkRead(rows, w);
    forall i | 0 <= i < |rows| ensures r[i] == rows[i] {
      assert !Matches(w, rows[i]);
    }
  }

  lemma InUpdatedRows(rows: seq<Row>, i: nat, y: Row, x: Row)
    requires i < |rows| && x in rows[i := y]
    ensures x == y || x in rows
  {
    var j :| 0 <= j < |rows| && rows[i := y][j] == x;
    if j != i {
      assert rows[j] == x;
    }
  }

  // -------------------------------------------------------- creation

  /** Creation changes nothing exactly when the recipient is the actor or the
      key lookup finds a row. */
  lemma CreateRefusesSelfAndDuplicates(s: Store, recipient: D.User, actor: D.User, kind: NotificationType,
                                       post: Option<D.Post>, comment: Option<D.Comment>, now: int)
    ensures Created(s, recipient, actor, kind, post, comment, now) == s <==>
      recipient.id == actor.id || ShouldSkip(s.rows, recipient.id, actor.id, kind, PostIdOf(post), CommentIdOf(comment))
  {
    if recipient.id != actor.id && !ShouldSkip(s.rows, recipient.id, actor.id, kind, PostIdOf(post), CommentIdOf(comment)) {
      AcceptedCreation(s, recipient, actor, kind, post, comment, now);
      assert |Created(s, recipient, actor, kind, post, comment, now).rows| == |s.rows| + 1;
    }
  }

  /** An accepted creation appends one unread row with a fresh id and the given
      fields, leaves every earlier row as it was, and pushes to the recipient's
      topic the new notification and then a count one higher than before. */
  lemma AcceptedCreationEffects(s: Store, recipient: D.User, actor: D.User, kind: NotificationType,
                                post: Option<D.Post>, comment: Option<D.Comment>, now: int)
    requires IdsBelow(s.rows, s.nextId)
    requires recipient.id != actor.id
    requires !ShouldSkip(s.rows, recipient.id, actor.id, kind, PostIdOf(post), CommentIdOf(comment))
    ensures var s1 := Created(s, recipient, actor, kind, post, comment, now);
      |s1.rows| == |s.rows| + 1 && s1.rows[..|s.rows|] == s.rows && s1.nextId == s.nextId + 1 &&
      var row := s1.rows[|s.rows|];
      row.recipient == recipient && row.actor == actor && row.kind == kind &&
      row.post == post && row.comment == comment && !row.isRead && row.createdAt == now &&
      (forall x :: x in s.rows ==> x.id != row.id)
    ensures var s1 := Created(s, recipient, actor, kind, post, comment, now);
      |s1.outbox| == |s.outbox| + 2 && s1.outbox[..|s.outbox|] == s.outbox &&
      s1.outbox[|s.outbox|].destination == Topic(recipient.id) &&
      s1.outbox[|s.outbox|].message.kind == NewNotification &&
      s1.outbox[|s.outbox|].message.unreadCount.None? &&
      s1.outbox[|s.outbox|].message.notification == Some(ConvertToResponse(StateOf(s1.rows[|s.rows|]))) &&
      s1.outbox[|s.outbox| + 1].destination == Topic(recipient.id) &&
      s1.outbox[|s.outbox| + 1].message.kind == UnreadCountUpdate &&
      s1.outbox[|s.outbox| + 1].message.notification.None? &&
      s1.outbox[|s.outbox| + 1].message.unreadCount == Some(Count(s1.rows, UnreadOf(recipient.id))) &&
      Count(s1.rows, UnreadOf(recipient.id)) == Count(s.rows, UnreadOf(recipient.id)) + 1
  {
    AcceptedCreation(s, recipient, actor, kind, post, comment, now);
    var row := Row(s.nextId, recipient, actor, kind, post, comment, false, now);
    CountSnoc(s.rows, row, UnreadOf(recipient.id));
    assert (s.rows + [row])[..|s.rows|] == s.rows;
  }

  /** The created row is found by its own key, so asking again adds nothing. */
  lemma CreateIsIdempotent(s: Store, recipient: D.User, actor: D.User, kind: NotificationType,
                           post: Option<D.Post>, comment: Option<D.Comment>, now: int, later: int)
    ensures var s1 := Created(s, recipient, actor, kind, post, comment, now);
      Created(s1, recipient, actor, kind, post, comment, later) == s1
  {
    var s1 := Created(s, recipient, actor, kind, post, comment, now);
    if recipient.id != actor.id && !ShouldSkip(s.rows, recipient.id, actor.id, kind, PostIdOf(post), CommentIdOf(comment)) {
      AcceptedCreation(s, recipient, actor, kind, post, comment, now);
      var key := DedupKey(recipient.id, actor.id, kind, PostIdOf(post), CommentIdOf(comment));
      assert Matches(key, s1.rows[|s.rows|]);
      assert ShouldSkip(s1.rows, recipient.id, actor.id, kind, PostIdOf(post), CommentIdOf(comment));
    }
  }

  /** A comment given without its post is deduplicated on (recipient, actor, type) alone. */
  lemma CommentWithoutPostUsesTypeKey(s: Store, recipient: D.User, actor: D.User, kind: NotificationType,
                                      c: D.Comment, other: D.Comment, now: int, later: int)
    requires c.id != other.id
    ensures var s1 := Created(s, recipient, actor, kind, None, Some(c), now);
      Created(s1, recipient, actor, kind, None, Some(other), later) == s1
  {
    var s1 := Created(s, recipient, actor, kind, None, Some(c), now);
    if recipient.id != actor.id && !ShouldSkip(s.rows, recipient.id, actor.id, kind, None, Some(c.id)) {
      AcceptedCreation(s, recipient, actor, kind, None, Some(c), now);
      assert Matches(ByType(recipient.id, actor.id, kind), s1.rows[|s.rows|]);
    } else {
      assert Exists(s.rows, ByType(recipient.id, actor.id, kind)) || recipient.id == actor.id;
    }
  }

  // ------------------------------------------------------------- undo

  /** Undoing an accepted creation with the removeNotification overload for the
      same subjects gives the table back, and the count pushed last is the
      count from before the creation. */
  lemma UndoRestoresTable(s: Store, recipient: D.User, actor: D.User, kind: NotificationType,
                          post: Option<D.Post>, comment: Option<D.Comment>, now: int)
    requires recipient.id != actor.id
    requires !ShouldSkip(s.rows, recipient.id, actor.id, kind, PostIdOf(post), CommentIdOf(comment))
    ensures var s1 := Created(s, recipient, actor, kind, post, comment, now);
      var s2 := Removed(s1, DedupKey(recipient.id, actor.id, kind, PostIdOf(post), CommentIdOf(comment)), recipient.id);
      s2.rows == s.rows && s2.nextId == s.nextId + 1 &&
      s2.outbox == s1.outbox + [Envelope(Topic(recipient.id), WebSocketMessage(UnreadCountUpdate, None, Some(Count(s.rows, UnreadOf(recipient.id)))))]
  {
    AcceptedCreation(s, recipient, actor, kind, post, comment, now);
    var key := DedupKey(recipient.id, actor.id, kind, PostIdOf(post), CommentIdOf(comment));
    var row := Row(s.nextId, recipient, actor, kind, post, comment, false, now);
    WithoutUndoesAppend(s.rows, row, key);
  }

  /** Repeating an undo deletes nothing more and pushes the same count again. */
  lemma RepeatedUndoIsHarmless(s: Store, w: Where, recipientId: nat)
    ensures var s1 := Removed(s, w, recipientId);
      var s2 := Removed(s1, w, recipientId);
      s2.rows == s1.rows && s2.nextId == s.nextId &&
      s2.outbox == s1.outbox + [s1.outbox[|s1.outbox| - 1]]
  {
    WithoutIdempotent(s.rows, w);
  }

  /** An undo whose key matches nothing still pushes the current count. */
  lemma UndoOfNothingStillPushes(s: Store, w: Where, recipientId: nat)
    requires !Exists(s.rows, w)
    ensures Removed(s, w, recipientId) ==
      s.(outbox := s.outbox + [Envelope(Topic(recipientId), WebSocketMessage(UnreadCountUpdate, None, Some(Count(s.rows, UnreadOf(recipientId)))))])
  {
    WithoutNothingMatching(s.rows, w);
  }

  // ------------------------------------------------------- read state

  /** markAllAsRead leaves no unread row for the user, keeps every other user's
      count, pushes exactly when something changed (and then pushes 0), and a
      second call changes nothing. */
  lemma MarkAllAsReadEffects(s: Store, userId: nat, other: nat)
    ensures Count(MarkedAll(s, userId).rows, UnreadOf(userId)) == 0
    ensures other != userId ==> Count(MarkedAll(s, userId).rows, UnreadOf(other)) == Count(s.rows, UnreadOf(other))
    ensures MarkedAll(s, userId).outbox != s.outbox <==> Count(s.rows, UnreadOf(userId)) > 0
    ensures Count(s.rows, UnreadOf(userId)) > 0 ==>
      MarkedAll(s, userId).outbox == s.outbox + [Envelope(Topic(userId), WebSocketMessage(UnreadCountUpdate, None, Some(0)))]
    ensures MarkedAll(MarkedAll(s, userId), userId) == MarkedAll(s, userId)
  {
    MarkAllReadCounts(s.rows, userId, other);
    var s1 := MarkedAll(s, userId);
    MarkReadOfNothing(s1.rows, UnreadOf(userId));
    if Count(s.rows, UnreadOf(userId)) > 0 {
      assert |s1.outbox| == |s.outbox| + 1;
    }
  }

  /** markAsRead touches at most the one row with that id, only when it belongs
      to the user, reports and pushes exactly in that case, and leaves every
      other user's count alone. */
  lemma MarkAsReadEffects(s: Store, userId: nat, notificationId: nat, other: nat)
    requires IdsUnique(s.rows)
    ensures Count(s.rows, IdOfRecipient(notificationId, userId)) <= 1
    ensures MarkedOne(s, userId, notificationId).outbox != s.outbox <==> Exists(s.rows, IdOfRecipient(notificationId, userId))
    ensures !Exists(s.rows, IdOfRecipient(notificationId, userId)) ==> MarkedOne(s, userId, notificationId) == s
    ensures other != userId ==> Count(MarkedOne(s, userId, notificationId).rows, UnreadOf(other)) == Count(s.rows, UnreadOf(other))
    ensures Count(MarkedOne(s, userId, notificationId).rows, UnreadOf(userId)) <= Count(s.rows, UnreadOf(userId))
  {
    var w := IdOfRecipient(notificationId, userId);
    AtMostOneRowPerId(s.rows, notificationId, userId);
    CountPositiveIffExists(s.rows, w);
    MarkOneReadCounts(s.rows, notificationId, userId, other);
    MarkOneReadCounts(s.rows, notificationId, userId, userId);
    if !Exists(s.rows, w) {
      MarkReadOfNothing(s.rows, w);
    } else {
      assert |MarkedOne(s, userId, notificationId).outbox| == |s.outbox| + 1;
    }
  }

  /** There is no isRead filter: marking a row that is already read leaves the
      table as it is but still reports success and pushes a count. */
  lemma MarkAsReadOfReadRow(s: Store, userId: nat, i: nat)
    requires IdsUnique(s.rows)
    requires i < |s.rows| && s.rows[i].recipient.id == userId && s.rows[i].isRead
    ensures MarkedOne(s, userId, s.rows[i].id) == s.(outbox := s.outbox + [CountEnvelope(s.rows, userId)])
  {
    var w := IdOfRecipient(s.rows[i].id, userId);
    var r := MarkRead(s.rows, w);
    forall j | 0 <= j < |s.rows| ensures r[j] == s.rows[j] {
      if j < i {
        assert s.rows[j].id != s.rows[i].id;
      } else if j > i {
        assert s.rows[i].id != s.rows[j].id;
      } else {
        assert s.rows[i].(isRead := true) == s.rows[i];
      }
    }
    assert r == s.rows;
    assert Matches(w, s.rows[i]);
    CountPositiveIffExists(s.rows, w);
  }

  // --------------------------------------------------------- resurface

  /** With a FOLLOW_REQUEST row for the pair, the resurface bumps that row alone
      (createdAt = now, unread) and keeps the row count and the id sequence;
      the recipient's unread count grows by one exactly when the row had been read. */
  lemma ResurfaceBumpsExistingRow(s: Store, users: map<nat, D.User>, recipientId: nat, actorId: nat, now: int)
    requires IdsUnique(s.rows)
    requires Exists(s.rows, ByType(recipientId, actorId, FollowRequest))
    ensures var i := FirstMatch(s.rows, ByType(recipientId, actorId, FollowRequest));
      var s1 := Resurfaced(s, users, recipientId, actorId, now);
      s1.rows == s.rows[i := s.rows[i].(createdAt := now, isRead := false)] && s1.nextId == s.nextId &&
      Count(s1.rows, UnreadOf(recipientId)) == Count(s.rows, UnreadOf(recipientId)) + (if s.rows[i].isRead then 1 else 0)
  {
    var i := FirstMatch(s.rows, ByType(recipientId, actorId, FollowRequest));
    var bumped := Bumped(s.rows[i], now);
    assert Matches(UnreadOf(recipientId), bumped);
    assert Matches(UnreadOf(recipientId), s.rows[i]) <==> !s.rows[i].isRead;
    CountAfterUpdate(s.rows, i, bumped, UnreadOf(recipientId));
    OverwriteOneRow(s.rows, i, bumped);
    ResurfaceOfExistingRows(s, users, recipientId, actorId, now);
  }

  /** ... and pushes to the recipient the bumped notification, stamped now and
      unread, and then the recipient's count after the bump. */
  lemma ResurfacePushesBumped(s: Store, users: map<nat, D.User>, recipientId: nat, actorId: nat, now: int)
    requires Exists(s.rows, ByType(recipientId, actorId, FollowRequest))
    ensures var s1 := Resurfaced(s, users, recipientId, actorId, now);
      |s1.outbox| == |s.outbox| + 2 && s1.outbox[..|s.outbox|] == s.outbox &&
      s1.outbox[|s.outbox|].destination == Topic(recipientId) &&
      s1.outbox[|s.outbox|].message.kind == NewNotification &&
      s1.outbox[|s.outbox|].message.notification.Some? &&
      s1.outbox[|s.outbox|].message.notification.value.createdAt == Some(now) &&
      !s1.outbox[|s.outbox|].message.notification.value.isRead &&
      s1.outbox[|s.outbox| + 1] == CountEnvelope(s1.rows, recipientId)
  {
    ResurfaceOfExisting(s, users, recipientId, actorId, now);
  }

  /** When no other notification of the recipient is newer than now, the
      bumped request heads the recipient's listing. */
  lemma ResurfacedIsListedFirst(s: Store, users: map<nat, D.User>, recipientId: nat, actorId: nat, now: int)
    requires IdsUnique(s.rows)
    requires Exists(s.rows, ByType(recipientId, actorId, FollowRequest))
    requires forall x :: x in s.rows && x.recipient.id == recipientId ==> x.createdAt <= now
    ensures var l := ListNewestFirst(Resurfaced(s, users, recipientId, actorId, now).rows, recipientId);
      l != [] && l[0].createdAt == now
  {
    var w := ByType(recipientId, actorId, FollowRequest);
    var i := FirstMatch(s.rows, w);
    var s1 := Resurfaced(s, users, recipientId, actorId, now);
    ResurfaceBumpsExistingRow(s, users, recipientId, actorId, now);
    var x := s1.rows[i];
    var l := ListNewestFirst(s1.rows, recipientId);
    assert x in s1.rows && x.recipient.id == recipientId;
    assert x in l;
    var k :| 0 <= k < |l| && l[k] == x;
    assert l[0].createdAt >= now by {
      if k > 0 {
        assert l[0].createdAt >= l[k].createdAt;
      }
    }
    assert l[0] in s1.rows && l[0].recipient.id == recipientId;
    OverwriteOneRow(s.rows, i, Bumped(s.rows[i], now));
    InUpdatedRows(s.rows, i, Bumped(s.rows[i], now), l[0]);
  }

  /** Without such a row the resurface creates a fresh FOLLOW_REQUEST for two
      distinct known users, and does nothing when either is unknown. */
  lemma ResurfaceFallback(s: Store, users: map<nat, D.User>, recipientId: nat, actorId: nat, now: int)
    requires forall id :: id in users ==> users[id].id == id
    requires !Exists(s.rows, ByType(recipientId, actorId, FollowRequest))
    ensures recipientId !in users || actorId !in users || recipientId == actorId ==>
      Resurfaced(s, users, recipientId, actorId, now) == s
    ensures recipientId in users && actorId in users && recipientId != actorId ==>
      var s1 := Resurfaced(s, users, recipientId, actorId, now);
      |s1.rows| == |s.rows| + 1 && s1.rows[..|s.rows|] == s.rows &&
      s1.rows[|s.rows|] == Row(s.nextId, users[recipientId], users[actorId], FollowRequest, None, None, false, now) &&
      |s1.outbox| == |s.outbox| + 2
  {
    if recipientId in users && actorId in users && recipientId != actorId {
      assert DedupKey(recipientId, actorId, FollowRequest, None, None) == ByType(recipientId, actorId, FollowRequest);
      AcceptedCreation(s, users[recipientId], users[actorId], FollowRequest, None, None, now);
      var row := Row(s.nextId, users[recipientId], users[actorId], FollowRequest, None, None, false, now);
      assert (s.rows + [row])[..|s.rows|] == s.rows;
    }
  }

  /** The resurface as the entity is mapped: the FOLLOW_REQUEST row becomes
      unread and keeps its createdAt, no other row changes, the id sequence is
      kept, and the unread count grows by one exactly when the row had been read. */
  lemma ResurfaceAsMappedMarksUnread(s: Store, users: map<nat, D.User>, recipientId: nat, actorId: nat, now: int)
    requires IdsUnique(s.rows)
    requires Exists(s.rows, ByType(recipientId, actorId, FollowRequest))
    ensures var i := FirstMatch(s.rows, ByType(recipientId, actorId, FollowRequest));
      var s1 := ResurfacedAsMapped(s, users, recipientId, actorId, now);
      s1.rows == s.rows[i := s.rows[i].(isRead := false)] && s1.nextId == s.nextId &&
      Count(s1.rows, UnreadOf(recipientId)) == Count(s.rows, UnreadOf(recipientId)) + (if s.rows[i].isRead then 1 else 0)
  {
    var i := FirstMatch(s.rows, ByType(recipientId, actorId, FollowRequest));
    var bumped := Bumped(s.rows[i], now);
    var stored := s.rows[i].(isRead := false);
    assert bumped.(createdAt := s.rows[i].createdAt) == stored;
    assert Matches(UnreadOf(recipientId), stored);
    assert Matches(UnreadOf(recipientId), s.rows[i]) <==> !s.rows[i].isRead;
    CountAfterUpdate(s.rows, i, stored, UnreadOf(recipientId));
    OverwriteAsMappedOneRow(s.rows, i, bumped);
    assert ResurfacedAsMapped(s, users, recipientId, actorId, now).rows == OverwriteAsMapped(s.rows, bumped);
  }

  /** Either save leaves the same unread count, so the two pushes are the same. */
  lemma ResurfaceSavesPushAlike(s: Store, users: map<nat, D.User>, recipientId: nat, actorId: nat, now: int)
    requires IdsUnique(s.rows)
    requires Exists(s.rows, ByType(recipientId, actorId, FollowRequest))
    ensures ResurfacedAsMapped(s, users, recipientId, actorId, now).outbox == Resurfaced(s, users, recipientId, actorId, now).outbox
  {
    var w := ByType(recipientId, actorId, FollowRequest);
    var bumped := Bumped(s.rows[FirstMatch(s.rows, w)], now);
    var e := NotificationEnvelope(recipientId, ConvertToResponse(StateOf(bumped)));
    var corrected, asMapped := Overwrite(s.rows, bumped), OverwriteAsMapped(s.rows, bumped);
    ResurfaceOfExisting(s, users, recipientId, actorId, now);
    assert ResurfacedAsMapped(s, users, recipientId, actorId, now).outbox == s.outbox + [e, CountEnvelope(asMapped, recipientId)];
    ResurfaceBumpsExistingRow(s, users, recipientId, actorId, now);
    ResurfaceAsMappedMarksUnread(s, users, recipientId, actorId, now);
    assert Count(corrected, UnreadOf(recipientId)) == Count(asMapped, UnreadOf(recipientId));
    assert CountEnvelope(corrected, recipientId) == CountEnvelope(asMapped, recipientId);
  }

  /** As mapped, the client is told the request is new while the table keeps
      the old timestamp. */
  lemma AsMappedResurfaceDisagrees(s: Store, users: map<nat, D.User>, recipientId: nat, actorId: nat, now: int)
    requires Exists(s.rows, ByType(recipientId, actorId, FollowRequest))
    requires now != s.rows[FirstMatch(s.rows, ByType(recipientId, actorId, FollowRequest))].createdAt
    ensures var i := FirstMatch(s.rows, ByType(recipientId, actorId, FollowRequest));
      var s1 := ResurfacedAsMapped(s, users, recipientId, actorId, now);
      s1.rows[i].createdAt == s.rows[i].createdAt &&
      s1.outbox[|s.outbox|].message.notification.value.createdAt == Some(now) &&
      Some(s1.rows[i].createdAt) != s1.outbox[|s.outbox|].message.notification.value.createdAt
  {
    var i := FirstMatch(s.rows, ByType(recipientId, actorId, FollowRequest));
    AsMappedSaveKeepsCreatedAt(s.rows, i, now);
  }

  /** ... and the listing does not move it: a notification of the recipient that
      was newer than the request before still comes before it afterwards. */
  lemma AsMappedResurfaceKeepsPlace(s: Store, users: map<nat, D.User>, recipientId: nat, actorId: nat, now: int, j: nat)
    requires IdsUnique(s.rows)
    requires Exists(s.rows, ByType(recipientId, actorId, FollowRequest))
    requires j < |s.rows| && s.rows[j].recipient.id == recipientId
    requires s.rows[j].createdAt > s.rows[FirstMatch(s.rows, ByType(recipientId, actorId, FollowRequest))].createdAt
    ensures var i := FirstMatch(s.rows, ByType(recipientId, actorId, FollowRequest));
      var s1 := ResurfacedAsMapped(s, users, recipientId, actorId, now);
      var l := ListNewestFirst(s1.rows, recipientId);
      l != [] && l[0] != s1.rows[i] && l[0].createdAt > s1.rows[i].createdAt
  {
    var i := FirstMatch(s.rows, ByType(recipientId, actorId, FollowRequest));
    var s1 := ResurfacedAsMapped(s, users, recipientId, actorId, now);
    ResurfaceAsMappedMarksUnread(s, users, recipientId, actorId, now);
    assert j != i;
    var y := s1.rows[j];
    assert y == s.rows[j];
    assert y in s1.rows && y.recipient.id == recipientId;
    var l := ListNewestFirst(s1.rows, recipientId);
    assert y in l;
    var k :| 0 <= k < |l| && l[k] == y;
    assert l[0].createdAt >= y.createdAt by {
      if k > 0 {
        assert l[0].createdAt >= l[k].createdAt;
      }
    }
  }
}
