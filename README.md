# Notification engine of the social network, modelled in Dafny

This project models the notification core of a Spring Boot social network. It covers:

- the `Notification` entity and its repository, which is a table of rows read by count, exists and ordered-find queries and changed by `@Modifying` UPDATE and DELETE statements;
- the `NotificationService`, which creates notifications with deduplication, undoes them, marks them read, resurfaces follow requests, and pushes STOMP messages to `/topic/notifications/{userId}`;
- the projection `convertToResponse`, with its name fallbacks and 50-character previews;
- the WebSocket handshake interceptor, which takes a bearer token from the `Authorization` header (section 2.1 of RFC 6750) or from a hand-rolled `token=` query scan;
- the comment endpoints, which apply a privacy gate, keep a (user, comment) like set, and cause notification side effects.

Each module has the same layout:

- Every operation is first a function from one state to the next. The stateful code is a Dafny class with the source's fields, and its methods are proved to reach exactly the state that function gives.
- The message broker is an outbox sequence (`MessagingTemplate.sent`).
- Time (`Instant.now()`) is a parameter.
- The generated identity is a `nextId` counter.
- The JWT service is a pair of functions passed in.

Files:

| file | contents |
|---|---|
| `wrappers.dfy` | `Option`, standing for nullable references, and `Result`, for thrown status errors |
| `strings.dfy` | the Java `String` behaviour the core relies on: `Long.toString`, `trim()`/`isEmpty()`, `contains`, and `split` with its dropping of trailing empty strings |
| `domain.dfy` | the `User`, `Post` and `Comment` values the core reads |
| `notification.dfy` | the `NotificationType` enum and the mutable `Notification` entity |
| `notification_repository.dfy` | rows, query clauses, the table operations and their laws, and the repository class |
| `notification_projection.dfy` | `truncateText`, the display-name fallbacks and `convertToResponse` |
| `notification_service.dfy` | messages, the service operations as functions over a `Store`, and the service class |
| `notification_laws.dfy` | the properties of the service operations |
| `websocket_config.dfy` | `beforeHandshake` and the endpoint registration |
| `comments_controller.dfy` | the comment endpoints and their laws |

Where the code and the evident design differ, the model follows the code:

- `removeNotification` always pushes a count update, even when nothing was deleted.
- `markAllAsRead` pushes only when some row changed.
- The dedup key depends on which subjects are supplied, not on the type.
- `markAsReadByIdAndRecipientId` has no `isRead` filter.
- `updateAndResendFollowRequestNotification` saves the bumped entity through its `updatable = false` mapping, so the table keeps the old createdAt. The service class reaches `ResurfacedAsMapped`, which models this. `Resurfaced` models the save the code evidently intends, as the corrected half of the finding below.
- `truncateText` leaves a text of at most `maxLength` characters unchanged. The converse does not hold: a longer text that already ends in `"..."` at position `maxLength` is also returned unchanged. So `TruncateText` states the implication only.

The files as given do not compile together, and the model resolves this as follows:

- `NotificationType` lacks `FOLLOW_REQUEST`, but the service uses it (`NotificationService.java:287`). The model adds it; `DeclaredByEntity` marks it as the one value the entity does not declare.
- The service calls `find…(…).isPresent()` on finders that the repository does not declare. These are modelled as "a matching row exists", and the finder returns the first match.
- The controller calls `cleanupNotificationsForComment` and `removeCommentLikeNotification`, which the service does not define. They are assumed to be a `deleteByCommentId`, and a `deleteByRecipientIdAndActorIdAndTypeAndCommentId` with `COMMENT_LIKE`, both without a push.

## Model

Source paths are relative to the repository root.

| member | source | states |
|---|---|---|
| NotificationEntity.TypeName | src/main/java/com/team/socialnetwork/entity/Notification.java:110-116 | every type has a non-empty enum name |
| NotificationEntity.TypeNameInjective | src/main/java/com/team/socialnetwork/entity/Notification.java:110-116 | distinct types have distinct names, so the `type` string of a response identifies the type |
| NotificationEntity.Notification.WithoutSubject | src/main/java/com/team/socialnetwork/entity/Notification.java:63-67 | the 3-argument constructor sets recipient, actor and type, leaves post, comment, id and createdAt null, and starts unread |
| NotificationEntity.Notification.ForPost | src/main/java/com/team/socialnetwork/entity/Notification.java:69-74 | the 4-argument constructor also sets the post and leaves the comment null; unread |
| NotificationEntity.Notification.ForComment | src/main/java/com/team/socialnetwork/entity/Notification.java:76-82 | the 5-argument constructor sets all five; unread |
| NotificationEntity.Notification.SetId | src/main/java/com/team/socialnetwork/entity/Notification.java:86 | changes the id and no other field |
| NotificationEntity.Notification.SetRecipient | src/main/java/com/team/socialnetwork/entity/Notification.java:89 | changes the recipient and no other field |
| NotificationEntity.Notification.SetActor | src/main/java/com/team/socialnetwork/entity/Notification.java:92 | changes the actor and no other field |
| NotificationEntity.Notification.SetType | src/main/java/com/team/socialnetwork/entity/Notification.java:95 | changes the type and no other field |
| NotificationEntity.Notification.SetPost | src/main/java/com/team/socialnetwork/entity/Notification.java:98 | changes the post and no other field |
| NotificationEntity.Notification.SetComment | src/main/java/com/team/socialnetwork/entity/Notification.java:101 | changes the comment and no other field |
| NotificationEntity.Notification.SetRead | src/main/java/com/team/socialnetwork/entity/Notification.java:104 | changes isRead and no other field |
| NotificationEntity.Notification.SetCreatedAt | src/main/java/com/team/socialnetwork/entity/Notification.java:107 | changes createdAt (in the object) and no other field |
| Repository.RowOf | src/main/java/com/team/socialnetwork/entity/Notification.java:29-58 | a persisted entity (id and createdAt set) and its table row determine each other: `StateOf(RowOf(s)) == s` |
| Repository.Count | src/main/java/com/team/socialnetwork/repository/NotificationRepository.java:24 | a count never exceeds the number of rows |
| Repository.Select | src/main/java/com/team/socialnetwork/repository/NotificationRepository.java:18 | the selected rows are exactly the table's rows satisfying the clause, and as many as `Count` says |
| Repository.Without | src/main/java/com/team/socialnetwork/repository/NotificationRepository.java:50-94 | a DELETE keeps exactly the rows not satisfying its clause, and removes `Count` rows |
| Repository.MarkRead | src/main/java/com/team/socialnetwork/repository/NotificationRepository.java:26-36 | an UPDATE sets isRead on exactly the rows satisfying its clause, each in place, and changes nothing else |
| Repository.FirstMatch | src/main/java/com/team/socialnetwork/service/NotificationService.java:283-288 | the finder's row satisfies its clause and no earlier row does |
| Repository.CountPositiveIffExists | src/main/java/com/team/socialnetwork/repository/NotificationRepository.java:39-48 | `exists…` holds exactly when the corresponding count is positive |
| Repository.SelectWithoutPartition | src/main/java/com/team/socialnetwork/repository/NotificationRepository.java:50-94 | the deleted rows and the surviving rows together are the old table, as a multiset |
| Repository.WithoutNothingMatching | src/main/java/com/team/socialnetwork/repository/NotificationRepository.java:50-94 | a DELETE matching no row leaves the table unchanged |
| Repository.WithoutIdempotent | src/main/java/com/team/socialnetwork/repository/NotificationRepository.java:50-94 | repeating a DELETE removes nothing more, and afterwards no row satisfies its clause |
| Repository.WithoutLeavesNoMatch | src/main/java/com/team/socialnetwork/repository/NotificationRepository.java:50-94 | after a DELETE no row satisfies its clause |
| Repository.WithoutUndoesAppend | src/main/java/com/team/socialnetwork/repository/NotificationRepository.java:50-94 | deleting by the key of a row appended to a table without that key gives back the table |
| Repository.MarkAllReadCounts | src/main/java/com/team/socialnetwork/repository/NotificationRepository.java:29-30 | after mark-all the recipient has no unread row, and every other recipient's unread count is unchanged |
| Repository.MarkOneReadCounts | src/main/java/com/team/socialnetwork/repository/NotificationRepository.java:35-36 | marking one row never raises an unread count, and leaves other recipients' counts unchanged |
| Repository.WithoutKeepsIdsUnique | src/main/java/com/team/socialnetwork/entity/Notification.java:29-31 | deleting keeps primary keys unique |
| Repository.AtMostOneRowPerId | src/main/java/com/team/socialnetwork/repository/NotificationRepository.java:35-36 | with unique ids, mark-one updates at most one row |
| Repository.InsertNewestFirst | src/main/java/com/team/socialnetwork/repository/NotificationRepository.java:18 | inserting into a createdAt-descending list keeps it descending and adds exactly that row |
| Repository.HeadIsNewest | src/main/java/com/team/socialnetwork/repository/NotificationRepository.java:18 | the head of a descending list is at least as new as every other element |
| Repository.PrependNewest | src/main/java/com/team/socialnetwork/repository/NotificationRepository.java:18 | a row no older than a descending list can be put in front of it |
| Repository.SortNewestFirst | src/main/java/com/team/socialnetwork/repository/NotificationRepository.java:18 | `ORDER BY createdAt DESC` yields a descending permutation of its input |
| Repository.ListNewestFirst | src/main/java/com/team/socialnetwork/repository/NotificationRepository.java:18 | the listing holds exactly the recipient's rows, as a permutation, newest first |
| Repository.Top50 | src/main/java/com/team/socialnetwork/repository/NotificationRepository.java:21 | `findTop50…` is a prefix of the listing of length min(50, the recipient's row count) |
| Repository.Top50AreNewest | src/main/java/com/team/socialnetwork/repository/NotificationRepository.java:21 | every row in the top 50 is at least as new as every row of the recipient left out of it |
| Repository.Overwrite | src/main/java/com/team/socialnetwork/service/NotificationService.java:309 | the evidently intended save (the corrected half of the finding below): the row with the entity's id is replaced column for column, createdAt included, and every other row is kept |
| Repository.OverwriteAsMapped | src/main/java/com/team/socialnetwork/entity/Notification.java:56-58 | the same save as the entity is mapped: the rewritten row keeps its stored createdAt |
| Repository.AsMappedSaveKeepsCreatedAt | src/main/java/com/team/socialnetwork/entity/Notification.java:56-58 | under the mapping, a save after `setCreatedAt(now)`, with now different from the stored value, leaves the row's createdAt as it was |
| Repository.AsMappedSaveKeepsAllCreatedAt | src/main/java/com/team/socialnetwork/entity/Notification.java:56-58 | a save under the mapping keeps the number of rows and every row's createdAt |
| Repository.NotificationRepository.FindByRecipientIdAndActorIdAndType | src/main/java/com/team/socialnetwork/service/NotificationService.java:283-288 | the finder returns null iff no row matches (recipient, actor, type), else a fresh entity holding the first match |
| Repository.NotificationRepository.FindByRecipientIdOrderByCreatedAtDesc | src/main/java/com/team/socialnetwork/repository/NotificationRepository.java:18 | the listing is newest first, holds a row iff the table has it with that recipient, and has as many rows as the recipient has |
| Repository.NotificationRepository.FindTop50ByRecipientIdOrderByCreatedAtDesc | src/main/java/com/team/socialnetwork/repository/NotificationRepository.java:21 | at most 50 rows, a prefix of the full newest-first listing, and exactly 50 when the recipient has at least 50 |
| Repository.NotificationRepository.CountByRecipientIdAndIsReadFalse | src/main/java/com/team/socialnetwork/repository/NotificationRepository.java:24 | the count never exceeds the table, and is positive iff some row of that recipient is unread |
| Repository.NotificationRepository.ExistsByRecipientIdAndActorIdAndTypeAndPostId | src/main/java/com/team/socialnetwork/repository/NotificationRepository.java:39-40 | holds iff the count of rows matching recipient, actor, type and post id is positive |
| Repository.NotificationRepository.ExistsByRecipientIdAndActorIdAndTypeAndCommentId | src/main/java/com/team/socialnetwork/repository/NotificationRepository.java:43-44 | holds iff the count of rows matching recipient, actor, type and comment id is positive |
| Repository.NotificationRepository.ExistsByRecipientIdAndActorIdAndType | src/main/java/com/team/socialnetwork/repository/NotificationRepository.java:47-48 | holds iff the count of rows matching recipient, actor and type is positive |
| Repository.NotificationRepository.Persist | src/main/java/com/team/socialnetwork/service/NotificationService.java:70-71 | `save` of a new entity assigns the next id and the creation timestamp and appends exactly its row |
| Repository.NotificationRepository.Merge | src/main/java/com/team/socialnetwork/service/NotificationService.java:309 | the evidently intended `save` of a persisted entity, the corrected half of the finding below: `Overwrite` with the entity's current fields |
| Repository.NotificationRepository.MergeAsMapped | src/main/java/com/team/socialnetwork/entity/Notification.java:56-58 | `save` of a persisted entity as the code maps it (`updatable = false`): `OverwriteAsMapped`, so the row's stored createdAt survives |
| Repository.NotificationRepository.MarkAllAsReadByRecipientId | src/main/java/com/team/socialnetwork/repository/NotificationRepository.java:27-30 | returns the number of the recipient's unread rows and marks exactly those read |
| Repository.NotificationRepository.MarkAsReadByIdAndRecipientId | src/main/java/com/team/socialnetwork/repository/NotificationRepository.java:33-36 | returns 0 or 1, the count of rows with that id and recipient, whether read or not, and marks them read |
| Repository.NotificationRepository.DeleteWhere | src/main/java/com/team/socialnetwork/repository/NotificationRepository.java:50-94 | a DELETE returns the number of matching rows and keeps exactly the others |
| Repository.NotificationRepository.DeleteByRecipientIdAndActorIdAndTypeAndPostId | src/main/java/com/team/socialnetwork/repository/NotificationRepository.java:51-58 | removes exactly the rows matching all four fields; a row without a post never matches |
| Repository.NotificationRepository.DeleteByRecipientIdAndActorIdAndType | src/main/java/com/team/socialnetwork/repository/NotificationRepository.java:61-66 | removes every row matching the three fields, whatever its post or comment |
| Repository.NotificationRepository.DeleteByRecipientIdAndActorIdAndTypeAndCommentId | src/main/java/com/team/socialnetwork/repository/NotificationRepository.java:69-76 | removes exactly the rows matching all four fields; a row without a comment never matches |
| Repository.NotificationRepository.DeleteByPostId | src/main/java/com/team/socialnetwork/repository/NotificationRepository.java:79-82 | removes every row about the post, across recipients, and nothing else |
| Repository.NotificationRepository.DeleteByCommentId | src/main/java/com/team/socialnetwork/repository/NotificationRepository.java:85-88 | removes every row about the comment, across recipients, and nothing else |
| Repository.NotificationRepository.DeleteOldNotifications | src/main/java/com/team/socialnetwork/repository/NotificationRepository.java:91-94 | removes the rows created strictly before the threshold; rows at or after it survive |
| Strings.NatToString | src/main/java/com/team/socialnetwork/service/NotificationService.java:164 | `Long.toString` of an id is a non-empty string of decimal digits, of one digit exactly below 10 |
| Strings.NatToStringInjective | src/main/java/com/team/socialnetwork/service/NotificationService.java:164 | distinct ids print differently |
| Strings.Trim | src/main/java/com/team/socialnetwork/service/NotificationService.java:212-213 | `trim()` gives the infix of s left after removing only leading and trailing characters at or below U+0020: everything before and after it is at or below U+0020, and the result neither starts nor ends with such a character |
| Strings.TrimIdempotent | src/main/java/com/team/socialnetwork/service/NotificationService.java:212-213 | trimming twice is trimming once |
| Strings.BlankIffAllTrimmable | src/main/java/com/team/socialnetwork/service/NotificationService.java:200 | `trim().isEmpty()` holds iff every character is at or below U+0020 |
| Strings.JavaSplit | src/main/java/com/team/socialnetwork/config/WebSocketConfig.java:53-55 | `split` on a single-character separator gives pieces free of it, `[s]` when it does not occur, and otherwise drops trailing empty strings, so the result is empty or its last piece is non-empty |
| Strings.JavaSplitRoundTrip | src/main/java/com/team/socialnetwork/config/WebSocketConfig.java:53-55 | joining the pieces and re-adding the dropped trailing separators gives back the string |
| Projection.TruncateText | src/main/java/com/team/socialnetwork/service/NotificationService.java:266-271 | null stays null; a text of at most max characters is unchanged; a longer one becomes its first max characters followed by `"..."`, of length max+3 |
| Projection.TruncateIdempotent | src/main/java/com/team/socialnetwork/service/NotificationService.java:266-271 | a preview truncated again is unchanged |
| Projection.PreviewExamples | src/main/java/com/team/socialnetwork/service/NotificationService.java:221 | a 120-character description previews as 50 characters followed by "...", 53 in all; a 10-character one as itself |
| Projection.PrefixedIdIsTrimmed | src/main/java/com/team/socialnetwork/service/NotificationService.java:200-208 | a fallback name `prefix + id` is already trimmed |
| Projection.DisplayName | src/main/java/com/team/socialnetwork/service/NotificationService.java:196-214 | a null or blank name becomes `prefix + id`, any other is trimmed; either way the result is non-empty and trimmed (the source trims the fallback too, which by PrefixedIdIsTrimmed changes nothing) |
| Projection.ActorOf | src/main/java/com/team/socialnetwork/service/NotificationService.java:196-214 | the actor info keeps the id; its username is the trimmed stored username, or "user_" followed by the id when that is null or blank; its full name is the trimmed stored full name, or "Usuario " followed by the id when that is null or blank |
| Projection.PostPreview | src/main/java/com/team/socialnetwork/service/NotificationService.java:216-223 | the post info keeps the id; its description is `truncateText(description, 50)` when present and "Sin descripción" when null, at most 53 characters either way |
| Projection.CommentPreview | src/main/java/com/team/socialnetwork/service/NotificationService.java:225-232 | the comment info keeps the id; its text is `truncateText(text, 50)` when present and "Sin comentario" when null, at most 53 characters either way |
| Projection.ConvertToResponse | src/main/java/com/team/socialnetwork/service/NotificationService.java:234-242 | the response keeps id, isRead, createdAt and the actor's id, its type is the enum name of the notification's type, and it has post/comment info exactly when the entity has a post/comment, equal to `PostPreview`/`CommentPreview` of it |
| Projection.ResponseShowsActor | src/main/java/com/team/socialnetwork/service/NotificationService.java:210-214 | the response's actor is `ActorOf` the notification's actor, with non-empty username and full name |
| Projection.ResponseDeterminesType | src/main/java/com/team/socialnetwork/service/NotificationService.java:234-242 | equal responses come from notifications with the same type, id, actor and subject ids |
| Service.MessageKindName | src/main/java/com/team/socialnetwork/service/NotificationService.java:165 | the message type is "NEW_NOTIFICATION" or "UNREAD_COUNT_UPDATE" |
| Service.Topic | src/main/java/com/team/socialnetwork/service/NotificationService.java:164 | the destination is "/topic/notifications/" followed by the decimal user id |
| Service.TopicInjective | src/main/java/com/team/socialnetwork/service/NotificationService.java:182 | two users never share a destination |
| Service.DedupKeyMeaning | src/main/java/com/team/socialnetwork/service/NotificationService.java:147-160 | the dedup lookup matches by (recipient, actor, type, commentId) with both subjects, by postId with the post only, and by (recipient, actor, type) otherwise |
| Service.DedupKey | src/main/java/com/team/socialnetwork/service/NotificationService.java:147-160 | the lookup carries the given recipient, actor and type; it is by type alone iff no post id is given, by the comment id when both ids are given, and by the post id when only the post is |
| Service.ShouldSkip | src/main/java/com/team/socialnetwork/service/NotificationService.java:147-160 | a creation is skipped iff some row matches its dedup key |
| Service.Created | src/main/java/com/team/socialnetwork/service/NotificationService.java:54-79 | the store is unchanged iff the recipient is the actor or the dedup key matches; otherwise the next id is used, the old rows are followed by one unread row of the arguments created at now, and two envelopes follow the old outbox |
| Service.Removed | src/main/java/com/team/socialnetwork/service/NotificationService.java:84-103 | afterwards no row matches the key, exactly the old non-matching rows remain, ids are unchanged, and one count envelope of the new table is appended |
| Service.MarkedAll | src/main/java/com/team/socialnetwork/service/NotificationService.java:125-132 | afterwards the user has no unread row, the table keeps its size, and the outbox changes iff the user had an unread row |
| Service.MarkedOne | src/main/java/com/team/socialnetwork/service/NotificationService.java:137-145 | the user's unread count never rises, the table keeps its size, and the outbox changes iff a row with that id belongs to the user |
| Service.Resurfaced | src/main/java/com/team/socialnetwork/service/NotificationService.java:276-329 | the evidently intended resurface (the corrected half of the finding below): with an existing request the table keeps its size and ids, the matched row's createdAt becomes now, and two envelopes are pushed; with none and a user missing nothing changes |
| Service.ResurfacedAsMapped | src/main/java/com/team/socialnetwork/service/NotificationService.java:276-329 | the resurface as written: with an existing request the table keeps its size and ids, every row keeps its createdAt, and two envelopes are pushed; with none and a user missing nothing changes |
| Service.Purged | src/main/java/com/team/socialnetwork/controller/CommentsController.java:79 | a clean-up delete: afterwards no row matches, exactly the old non-matching rows remain, and nothing is pushed |
| Service.MessagingTemplate.ConvertAndSend | src/main/java/com/team/socialnetwork/service/NotificationService.java:172 | a send appends exactly one envelope to the outbox |
| Service.NotificationService.SendNotificationByWebSocket | src/main/java/com/team/socialnetwork/service/NotificationService.java:162-178 | appends one NEW_NOTIFICATION with the response and a null count to the user's topic |
| Service.NotificationService.SendUnreadCountUpdate | src/main/java/com/team/socialnetwork/service/NotificationService.java:180-184 | appends one UNREAD_COUNT_UPDATE whose notification is null and whose count is the user's unread rows at send time |
| Service.NotificationService.ShouldSkipNotification | src/main/java/com/team/socialnetwork/service/NotificationService.java:147-160 | holds iff the repository has a row matching the dedup key |
| Service.NotificationService.CreateAndSendNotification | src/main/java/com/team/socialnetwork/service/NotificationService.java:54-79 | reaches exactly `Created`: nothing on self-notification or an existing key, else one row and two pushes |
| Service.NotificationService.CreateAndSendWithoutSubject | src/main/java/com/team/socialnetwork/service/NotificationService.java:44-47 | the 3-argument overload is the 5-argument one with null post and comment |
| Service.NotificationService.CreateAndSendForPost | src/main/java/com/team/socialnetwork/service/NotificationService.java:49-52 | the 4-argument overload is the 5-argument one with a null comment |
| Service.NotificationService.RemoveNotification | src/main/java/com/team/socialnetwork/service/NotificationService.java:84-89 | deletes by (recipient, actor, type), then always pushes the count |
| Service.NotificationService.RemoveNotificationForPost | src/main/java/com/team/socialnetwork/service/NotificationService.java:91-96 | deletes by (recipient, actor, type, postId), then always pushes the count |
| Service.NotificationService.RemoveNotificationForComment | src/main/java/com/team/socialnetwork/service/NotificationService.java:98-103 | deletes by (recipient, actor, type, commentId), then always pushes the count |
| Service.NotificationService.GetUnreadCount | src/main/java/com/team/socialnetwork/service/NotificationService.java:117-120 | the count is the number of the user's unread rows, positive iff one exists, and nothing changes |
| Service.NotificationService.MarkAllAsRead | src/main/java/com/team/socialnetwork/service/NotificationService.java:125-132 | returns the number of rows it marked and reaches `MarkedAll`: a push only if that number is positive |
| Service.NotificationService.MarkAsRead | src/main/java/com/team/socialnetwork/service/NotificationService.java:137-145 | returns true iff a row with that id belongs to the user, and pushes only then |
| Service.NotificationService.UpdateAndResendFollowRequestNotification | src/main/java/com/team/socialnetwork/service/NotificationService.java:276-329 | reaches exactly `ResurfacedAsMapped`: an existing request is bumped in memory and saved through the `updatable = false` mapping, so the table keeps its createdAt while the push says now; else one is created if both users exist; else nothing |
| Service.NotificationService.CleanupNotificationsForComment | src/main/java/com/team/socialnetwork/controller/CommentsController.java:79 | deletes every notification about the comment and pushes nothing |
| Service.NotificationService.RemoveCommentLikeNotification | src/main/java/com/team/socialnetwork/controller/CommentsController.java:212-213 | deletes the COMMENT_LIKE notifications of that recipient, actor and comment and pushes nothing |
| ServiceLaws.CreateRefusesSelfAndDuplicates | src/main/java/com/team/socialnetwork/service/NotificationService.java:57-67 | creation leaves the store (table, ids and outbox) unchanged iff recipient and actor are one id or the dedup key already matches |
| ServiceLaws.AcceptedCreationEffects | src/main/java/com/team/socialnetwork/service/NotificationService.java:69-78 | an accepted creation keeps every old row, adds one unread row with a fresh id and the given fields, raises the recipient's unread count by one, and pushes NEW_NOTIFICATION then UNREAD_COUNT_UPDATE, both to the recipient's topic |
| ServiceLaws.CreateIsIdempotent | src/main/java/com/team/socialnetwork/service/NotificationService.java:62-67 | creating the same notification a second time, at any time, changes nothing |
| ServiceLaws.CommentWithoutPostUsesTypeKey | src/main/java/com/team/socialnetwork/service/NotificationService.java:150-159 | with a comment but no post the lookup ignores the comment, so a second comment by the same actor is not notified |
| ServiceLaws.UndoRestoresTable | src/main/java/com/team/socialnetwork/service/NotificationService.java:84-103 | removing by the creation's key right after an accepted creation restores the table and pushes the pre-creation count |
| ServiceLaws.RepeatedUndoIsHarmless | src/main/java/com/team/socialnetwork/service/NotificationService.java:84-103 | a second identical removal leaves the table and repeats the last push |
| ServiceLaws.UndoOfNothingStillPushes | src/main/java/com/team/socialnetwork/service/NotificationService.java:84-89 | a removal that matches nothing still pushes the unchanged count |
| ServiceLaws.MarkAllAsReadEffects | src/main/java/com/team/socialnetwork/service/NotificationService.java:125-132 | afterwards the user has no unread row and others' counts are unchanged; it pushes iff some row was unread, and the push carries 0; a second call changes nothing |
| ServiceLaws.MarkAsReadEffects | src/main/java/com/team/socialnetwork/service/NotificationService.java:137-145 | at most one row changes; it pushes iff such a row exists, and otherwise nothing changes; others' counts are unchanged and the user's never rises |
| ServiceLaws.MarkAsReadOfReadRow | src/main/java/com/team/socialnetwork/repository/NotificationRepository.java:35-36 | marking an already read row leaves the table unchanged but still reports success and pushes the count |
| ServiceLaws.ResurfaceBumpsExistingRow | src/main/java/com/team/socialnetwork/service/NotificationService.java:302-309 | under the corrected save: an existing follow request becomes unread with createdAt = now in place; no other row changes and no row is added; the unread count rises iff it was read |
| ServiceLaws.ResurfacePushesBumped | src/main/java/com/team/socialnetwork/service/NotificationService.java:314-321 | the resurface pushes the bumped, unread notification with createdAt = now, then the count |
| ServiceLaws.ResurfacedIsListedFirst | src/main/java/com/team/socialnetwork/service/NotificationService.java:304-309 | under the corrected save: when now is no earlier than any of the recipient's rows, the recipient's listing afterwards starts with a row created at now, so the bumped request is listed first (ties aside) |
| ServiceLaws.ResurfaceFallback | src/main/java/com/team/socialnetwork/service/NotificationService.java:290-298 | without an existing request, a new one is created when both users exist and differ, and nothing happens otherwise |
| ServiceLaws.AsMappedResurfaceDisagrees | src/main/java/com/team/socialnetwork/entity/Notification.java:56-58 | under the `updatable = false` mapping, the stored createdAt stays old while the pushed notification says now |
| ServiceLaws.ResurfaceAsMappedMarksUnread | src/main/java/com/team/socialnetwork/service/NotificationService.java:302-309 | as written: the existing follow request becomes unread and keeps its createdAt; no other row changes, no row is added, and the unread count rises iff it was read |
| ServiceLaws.ResurfaceSavesPushAlike | src/main/java/com/team/socialnetwork/service/NotificationService.java:314-321 | both saves push the same envelopes, since they leave the same unread count |
| ServiceLaws.AsMappedResurfaceKeepsPlace | src/main/java/com/team/socialnetwork/entity/Notification.java:56-58 | as written, a row of the recipient that was newer than the request still lists ahead of it after the resurface |
| ServiceLaws.OverwriteAsMappedOneRow | src/main/java/com/team/socialnetwork/entity/Notification.java:56-58 | with unique ids, the save as mapped rewrites only the row with that id, taking every column but createdAt from the entity |
| Handshake.HeaderToken | src/main/java/com/team/socialnetwork/config/WebSocketConfig.java:44-48 | a header yields a token iff it starts with "Bearer " (case-sensitive, with the space), and the header is "Bearer " followed by that token |
| Handshake.TokenOfPair | src/main/java/com/team/socialnetwork/config/WebSocketConfig.java:55-57 | a pair's token is non-empty and holds no '=' |
| Handshake.FirstToken | src/main/java/com/team/socialnetwork/config/WebSocketConfig.java:54-61 | the scan's token is that of the first pair that yields one, and there is none only when no pair yields one |
| Handshake.TokenOfSimplePair | src/main/java/com/team/socialnetwork/config/WebSocketConfig.java:55-57 | "token=" followed by a non-empty value without '=' yields exactly that value |
| Handshake.TokenPairShape | src/main/java/com/team/socialnetwork/config/WebSocketConfig.java:55-57 | a pair that yields a token is "token=", the token, then only '=' characters |
| Handshake.EmptyTokenPairYieldsNothing | src/main/java/com/team/socialnetwork/config/WebSocketConfig.java:55-56 | "token=" alone yields no token |
| Handshake.TokenWithEqualsYieldsNothing | src/main/java/com/team/socialnetwork/config/WebSocketConfig.java:55-56 | "token=a=b" yields no token |
| Handshake.FirstTokenPairWins | src/main/java/com/team/socialnetwork/config/WebSocketConfig.java:52-61 | the query "x=1&token=abc&token=def", as `getQuery()` returns it, yields "abc" |
| Handshake.HeaderTokenWins | src/main/java/com/team/socialnetwork/config/WebSocketConfig.java:44-48 | with a bearer header the token is the header from index 7, whatever the query |
| Handshake.QueryIsTheFallback | src/main/java/com/team/socialnetwork/config/WebSocketConfig.java:49-52 | without a bearer header the token is the query scan's |
| Handshake.QueryToken | src/main/java/com/team/socialnetwork/config/WebSocketConfig.java:49-61 | no query, or one without "token=", gives no token; otherwise a token, non-empty and without '=', comes back iff some '&'-separated pair yields one |
| Handshake.ExtractToken | src/main/java/com/team/socialnetwork/config/WebSocketConfig.java:41-63 | a bearer header gives the header from index 7; any token comes either from such a header or, non-empty and without '=', from a query containing "token=" |
| Handshake.Authenticate | src/main/java/com/team/socialnetwork/config/WebSocketConfig.java:65-84 | a subject is accepted only when a token was found, the subject was extracted from it, and the token is valid for that subject |
| Handshake.AuthenticateDecision | src/main/java/com/team/socialnetwork/config/WebSocketConfig.java:65-84 | no token means rejection; with one, acceptance iff the subject is extracted without an exception and the token is valid for it, and the principal is that subject |
| Handshake.HandshakeAttributes.Put | src/main/java/com/team/socialnetwork/config/WebSocketConfig.java:71 | a put changes exactly that key |
| Handshake.BeforeHandshake | src/main/java/com/team/socialnetwork/config/WebSocketConfig.java:41-84 | returns true iff `Authenticate` gives a subject; then "principal" maps to that subject and nothing else changes, otherwise the attributes are untouched |
| Handshake.RegisteredEndpoints | src/main/java/com/team/socialnetwork/config/WebSocketConfig.java:96-106 | every registered endpoint is behind the interceptor, with SockJS |
| Handshake.BothEndpointsGuarded | src/main/java/com/team/socialnetwork/config/WebSocketConfig.java:96-106 | both /chat and /notifications are registered and guarded |
| Comments.Gate | src/main/java/com/team/socialnetwork/controller/CommentsController.java:53-70 | errors in order: 401 iff unauthenticated, then 404 "User not found", then 404 "Comment not found", then 403 "This account is private" iff the privacy predicate holds; success yields the caller and the comment |
| Comments.StatusCode | src/main/java/com/team/socialnetwork/controller/CommentsController.java:53-76 | every error the endpoints throw carries a 4xx client-error status: 401, 404, 403 or 409 |
| Comments.AccessDenied | src/main/java/com/team/socialnetwork/controller/CommentsController.java:67 | access is denied only to a private author's posts, and never to the author or a follower |
| Comments.LikesWithout | src/main/java/com/team/socialnetwork/controller/CommentsController.java:82 | deleting a comment's likes keeps exactly the likes of other comments |
| Comments.DeleteCommentReply | src/main/java/com/team/socialnetwork/controller/CommentsController.java:51-85 | after the gate, succeeds iff the caller's email is the comment author's, else 403 "You can only delete your own comments"; a failure changes nothing |
| Comments.LikeCommentReply | src/main/java/com/team/socialnetwork/controller/CommentsController.java:145-180 | after the gate, 409 "Already liked" iff the like exists, else exactly that like is added; a failure changes nothing |
| Comments.UnlikeCommentReply | src/main/java/com/team/socialnetwork/controller/CommentsController.java:184-217 | after the gate, 409 "Not liked yet" iff there was no like to delete, else exactly that like is removed; on success the COMMENT_LIKE rows of that key go when the comment's author is not the caller and are kept otherwise, ids are unchanged and nothing is pushed; a failure changes nothing |
| Comments.CheckCommentLikeReply | src/main/java/com/team/socialnetwork/controller/CommentsController.java:219-247 | after the gate, answers whether the caller's like exists, and changes nothing |
| Comments.CommentLikeRepository.Save | src/main/java/com/team/socialnetwork/controller/CommentsController.java:168 | saving adds that like |
| Comments.CommentLikeRepository.DeleteByUserIdAndCommentId | src/main/java/com/team/socialnetwork/controller/CommentsController.java:203 | removes the like and returns 1 if it existed, 0 otherwise |
| Comments.CommentLikeRepository.DeleteByCommentId | src/main/java/com/team/socialnetwork/controller/CommentsController.java:82 | removes every like of the comment |
| Comments.CommentRepository.Delete | src/main/java/com/team/socialnetwork/controller/CommentsController.java:83 | removes the comment with that id |
| Comments.CommentsController.CheckAccess | src/main/java/com/team/socialnetwork/controller/CommentsController.java:53-70 | the checks each endpoint makes, in order, against the current tables, giving `Gate` |
| Comments.CommentsController.DeleteComment | src/main/java/com/team/socialnetwork/controller/CommentsController.java:51-85 | answers and changes the tables as `DeleteCommentReply` says |
| Comments.CommentsController.LikeComment | src/main/java/com/team/socialnetwork/controller/CommentsController.java:145-180 | answers and changes the tables as `LikeCommentReply` says |
| Comments.CommentsController.UnlikeComment | src/main/java/com/team/socialnetwork/controller/CommentsController.java:184-217 | answers and changes the tables as `UnlikeCommentReply` says |
| Comments.CommentsController.CheckCommentLike | src/main/java/com/team/socialnetwork/controller/CommentsController.java:219-247 | answers as `CheckCommentLikeReply` says, changing nothing |
| Comments.UnauthenticatedComesFirst | src/main/java/com/team/socialnetwork/controller/CommentsController.java:53-56 | an unauthenticated caller gets 401 from all four endpoints, whatever the tables hold, and nothing changes |
| Comments.SecondLikeConflicts | src/main/java/com/team/socialnetwork/controller/CommentsController.java:164-167 | after a successful like, the same like again is a 409 "Already liked" that changes nothing |
| Comments.SecondUnlikeConflicts | src/main/java/com/team/socialnetwork/controller/CommentsController.java:203-207 | after a successful unlike, a second one is a 409 "Not liked yet" that changes nothing |
| Comments.CheckFollowsLikeAndUnlike | src/main/java/com/team/socialnetwork/controller/CommentsController.java:243 | the check answers true after a successful like and false after a successful unlike |
| Comments.LikeNotifiesAuthor | src/main/java/com/team/socialnetwork/controller/CommentsController.java:171-177 | a like by the author notifies no one; otherwise exactly one unread COMMENT_LIKE row for the author, with post and comment, unless one already exists |
| Comments.LikeThenUnlikeRestores | src/main/java/com/team/socialnetwork/controller/CommentsController.java:164-214 | like then unlike succeeds and restores the like set; the notification table loses the like's key, so it is restored when that key was absent before |
| Comments.DeleteLeavesNoTrace | src/main/java/com/team/socialnetwork/controller/CommentsController.java:73-83 | a successful delete is the owner's; afterwards the comment, its likes and its notifications are gone, and everything else is kept |

## Left out

- Pagination: `getUserNotifications` (NotificationService.java:108-112) and `findByRecipientIdOrderByCreatedAtDesc` are modelled as the ordered listing `ListNewestFirst`. `PageRequest` slicing is not modelled, and neither are `countCommentLikes`, `listCommentLikes` and the `SafeUser` projection.
- `convertToResponse`:
  - The null-actor branch (NotificationService.java:190-193) cannot happen, since the actor is a mandatory field and the model's entity always has one.
  - The exception fallback (NotificationService.java:243-262) is not modelled, because nothing in the modelled projection throws.
- Logging and `printStackTrace`:
  - `sendNotificationByWebSocket` swallows send failures; the model's send always appends.
  - `updateAndResendFollowRequestNotification` swallows all exceptions; the model has no failing step.
- Transactions and concurrency: the model is sequential and each call is atomic. This leaves out the check-then-insert race between `shouldSkipNotification` and `save`, and the rollbacks of `@Transactional`.
- `find…` finders: the repository does not declare the `Optional` finders the service calls. They are modelled as "the first matching row". Spring's error when several rows match is not modelled.
- Time and the database:
  - `Instant.now()` and `@CreationTimestamp` are the `now` parameter.
  - The IDENTITY column is the `nextId` counter.
- JWT checking is not modelled:
  - `jwtService.extractSubject` and `isTokenValid` are parameters.
  - An exception from `extractSubject` is `None`.
  - An exception from `isTokenValid` is folded into `false`, which the interceptor treats the same way.
- Other repositories: `userRepository.findById` and `userRepository.findByEmail` are fixed maps, since no modelled operation changes users.
- `User.getFollowing().contains(postAuthor)` compares users by id.
- `configureMessageBroker` (WebSocketConfig.java:110-113), subscriber fan-out, SockJS transport and `afterHandshake` are transport concerns and are not modelled.
- The `removeNotification` overloads with a null post or comment would throw `NullPointerException`. The model's parameters are non-null.
- Comments.CommentsController.DeleteComment: the order of the three deletions (notifications, likes, comment) exists to satisfy foreign-key constraints, which are not modelled. Only the final state is stated.
- Projection.TruncateText: lengths are counted in Unicode code points, while Java's `length()` and `substring` count UTF-16 code units. The two agree inside the Basic Multilingual Plane. A text with characters outside it, such as emoji, can be cut at a different place, or left whole where Java cuts it.
- Projection.ConvertToResponse: the value of the actor field is stated by the lemma `ResponseShowsActor`, not by the function's own contract. Keeping that equality out of the contract keeps the proofs of its callers small.
- Percent-decoding of the query is not modelled. `HandshakeRequest.query` is the string `URI.getQuery()` returns, which is already decoded, so "token=a%3Db" is scanned as "token=a=b".
- `cleanupNotificationsForComment` and `removeCommentLikeNotification` are absent from the service. They are modelled as the assumption stated above.

## Findings

| source | as written | input that shows it | evidently intended | confidence | as-written member | corrected member |
|---|---|---|---|---|---|---|
| src/main/java/com/team/socialnetwork/entity/Notification.java:56-58 | `createdAt` is mapped `updatable = false`, so the `save` after `setCreatedAt(Instant.now())` in `updateAndResendFollowRequestNotification` (NotificationService.java:305-309) writes every column except created_at | an unread or read FOLLOW_REQUEST row created at time 5, resurfaced at time 9: the table keeps 5, the pushed notification says 9, and the listing by createdAt does not move it to the top (`AsMappedResurfaceKeepsPlace`) | the resurfaced request gets createdAt = now in the table, so it is listed first, as the comment "Actualizar timestamp" and the resend indicate | not executed; follows from the documented meaning of `updatable = false` | ServiceLaws.AsMappedResurfaceDisagrees | ServiceLaws.ResurfacedIsListedFirst |
