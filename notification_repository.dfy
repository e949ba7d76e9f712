/** The notifications table and the queries the repository declares on it.
    The table is a sequence of rows in insertion order; each derived query and
    each @Query statement is a function over that sequence, selected by a
    `Where` clause. The class at the end is the repository object: its
    @Modifying statements replace the table and return the affected-row count. */
module Repository {
  import opened Wrappers
  import D = Domain
  import opened NotificationEntity

  /** One persisted row. `createdAt` is an Instant, here an integer timestamp. */
  datatype Row = Row(
    id: nat,
    recipient: D.User,
    actor: D.User,
    kind: NotificationType,
    post: Option<D.Post>,
    comment: Option<D.Comment>,
    isRead: bool,
    createdAt: int)

  /** The entity object the persistence layer hands back for a row. */
  function StateOf(row: Row): (s: NotificationState)
    ensures s.id == Some(row.id) && s.createdAt == Some(row.createdAt)
  {
    NotificationState(Some(row.id), row.recipient, row.actor, row.kind, row.post, row.comment, row.isRead, Some(row.createdAt))
  }

  /** The row an entity object is written as, once it has an id and a timestamp. */
  function RowOf(s: NotificationState): (row: Row)
    requires s.id.Some? && s.createdAt.Some?
    ensures StateOf(row) == s
  {
    Row(s.id.value, s.recipient, s.actor, s.kind, s.post, s.comment, s.isRead, s.createdAt.value)
  }

  /** The WHERE clauses of the repository's queries. */
  datatype Where =
    | WithId(id: nat)                                                  // primary key
    | OfRecipient(recipientId: nat)                                    // findBy…RecipientId…
    | UnreadOf(recipientId: nat)                                       // countByRecipientIdAndIsReadFalse, markAll
    | IdOfRecipient(id: nat, recipientId: nat)                         // markAsReadByIdAndRecipientId
    | ByType(recipientId: nat, actorId: nat, kind: NotificationType)   // …AndActorIdAndType
    | ByTypeAndPost(recipientId: nat, actorId: nat, kind: NotificationType, postId: nat)
    | ByTypeAndComment(recipientId: nat, actorId: nat, kind: NotificationType, commentId: nat)
    | AboutPost(postId: nat)                                           // deleteByPostId
    | AboutComment(commentId: nat)                                     // deleteByCommentId
    | CreatedBefore(threshold: int)                                    // deleteOldNotifications

  /** SQL semantics: `n.post.id = :postId` is never true of a row whose post is null. */
  predicate Matches(w: Where, row: Row) {
    match w
    case WithId(i) => row.id == i
    case OfRecipient(r) => row.recipient.id == r
    case UnreadOf(r) => row.recipient.id == r && !row.isRead
    case IdOfRecipient(i, r) => row.id == i && row.recipient.id == r
    case ByType(r, a, t) => row.recipient.id == r && row.actor.id == a && row.kind == t
    case ByTypeAndPost(r, a, t, p) =>
      row.recipient.id == r && row.actor.id == a && row.kind == t && row.post.Some? && row.post.value.id == p
    case ByTypeAndComment(r, a, t, c) =>
      row.recipient.id == r && row.actor.id == a && row.kind == t && row.comment.Some? && row.comment.value.id == c
    case AboutPost(p) => row.post.Some? && row.post.value.id == p
    case AboutComment(c) => row.comment.Some? && row.comment.value.id == c
    case CreatedBefore(t) => row.createdAt < t
  }

  // ------------------------------------------------------------- queries

  /** count…: the number of rows satisfying w. */
  function Count(rows: seq<Row>, w: Where): (n: nat)
    ensures n <= |rows|
  {
    if rows == [] then 0
    else Count(rows[..|rows| - 1], w) + (if Matches(w, rows[|rows| - 1]) then 1 else 0)
  }

  /** exists…: some row satisfies w. */
  predicate Exists(rows: seq<Row>, w: Where) {
    exists i :: 0 <= i < |rows| && Matches(w, rows[i])
  }

  /** The rows satisfying w, in table order. */
  function Select(rows: seq<Row>, w: Where): (r: seq<Row>)
    ensures |r| == Count(rows, w)
    ensures forall x :: x in r <==> x in rows && Matches(w, x)
  {
    if rows == [] then []
    else
      var init, last := rows[..|rows| - 1], rows[|rows| - 1];
      assert rows == init + [last];
      if Matches(w, last) then Select(init, w) + [last] else Select(init, w)
  }

  /** DELETE … WHERE w: the rows that do not satisfy w, in table order. */
  function Without(rows: seq<Row>, w: Where): (r: seq<Row>)
    ensures |r| == |rows| - Count(rows, w)
    ensures forall x :: x in r <==> x in rows && !Matches(w, x)
  {
    if rows == [] then []
    else
      var init, last := rows[..|rows| - 1], rows[|rows| - 1];
      assert rows == init + [last];
      if Matches(w, last) then Without(init, w) else Without(init, w) + [last]
  }

  /** UPDATE … SET isRead = true WHERE w: every other row and every other column unchanged. */
  function MarkRead(rows: seq<Row>, w: Where): (r: seq<Row>)
    ensures |r| == |rows|
    ensures forall i :: 0 <= i < |rows| ==> r[i] == if Matches(w, rows[i]) then rows[i].(isRead := true) else rows[i]
  {
    if rows == [] then []
    else
      var last := rows[|rows| - 1];
      MarkRead(rows[..|rows| - 1], w) + [if Matches(w, last) then last.(isRead := true) else last]
  }

  /** The position of the first row satisfying w (what a single-result finder returns). */
  function FirstMatch(rows: seq<Row>, w: Where): (i: nat)
    requires Exists(rows, w)
    ensures i < |rows| && Matches(w, rows[i])
    ensures forall j :: 0 <= j < i ==> !Matches(w, rows[j])
  {
    if Matches(w, rows[0]) then 0
    else
      var k :| 0 <= k < |rows| && Matches(w, rows[k]);
      assert Matches(w, rows[1..][k - 1]);
      1 + FirstMatch(rows[1..], w)
  }

  // -------------------------------------------------- facts about queries

  lemma {:induction false} CountSnoc(rows: seq<Row>, x: Row, w: Where)
    ensures Count(rows + [x], w) == Count(rows, w) + (if Matches(w, x) then 1 else 0)
  {
    assert (rows + [x])[..|rows|] == rows;
  }

  /** exists… and count… > 0 agree. */
  lemma {:induction false} CountPositiveIffExists(rows: seq<Row>, w: Where)
    ensures Count(rows, w) > 0 <==> Exists(rows, w)
  {
    if rows != [] {
      var init := rows[..|rows| - 1];
      CountPositiveIffExists(init, w);
      if Exists(init, w) {
        var k :| 0 <= k < |init| && Matches(w, init[k]);
        assert Matches(w, rows[k]);
      }
      if Exists(rows, w) && !Matches(w, rows[|rows| - 1]) {
        var k :| 0 <= k < |rows| && Matches(w, rows[k]);
        assert Matches(w, init[k]);
      }
    }
  }

  /** A delete and the matching select split the table between them. */
  lemma {:induction false} SelectWithoutPartition(rows: seq<Row>, w: Where)
    ensures multiset(Select(rows, w)) + multiset(Without(rows, w)) == multiset(rows)
  {
    if rows != [] {
      var init, last := rows[..|rows| - 1], rows[|rows| - 1];
      assert rows == init + [last];
      SelectWithoutPartition(init, w);
    }
  }

  /** A table with no row satisfying w is left as it is by the delete. */
  lemma {:induction false} WithoutNothingMatching(rows: seq<Row>, w: Where)
    requires !Exists(rows, w)
    ensures Without(rows, w) == rows
  {
    if rows != [] {
      var init := rows[..|rows| - 1];
      assert !Matches(w, rows[|rows| - 1]);
      forall k | 0 <= k < |init| ensures !Matches(w, init[k]) {
        assert init[k] == rows[k];
      }
      WithoutNothingMatching(init, w);
      assert rows == init + [rows[|rows| - 1]];
    }
  }

  /** Repeating a delete removes nothing more, so undo can be repeated safely. */
  lemma WithoutIdempotent(rows: seq<Row>, w: Where)
    ensures Without(Without(rows, w), w) == Without(rows, w)
    ensures Count(Without(rows, w), w) == 0
  {
    var r := Without(rows, w);
    forall k | 0 <= k < |r| ensures !Matches(w, r[k]) {
      assert r[k] in r;
    }
    WithoutNothingMatching(r, w);
    CountPositiveIffExists(r, w);
  }

  /** A row appended after a table holding nothing that satisfies w is exactly what the delete removes. */
  lemma WithoutUndoesAppend(rows: seq<Row>, x: Row, w: Where)
    requires !Exists(rows, w) && Matches(w, x)
    ensures Without(rows + [x], w) == rows
  {
    assert (rows + [x])[..|rows|] == rows;
    WithoutNothingMatching(rows, w);
  }

  /** After a delete no row satisfies its clause. */
  lemma WithoutLeavesNoMatch(rows: seq<Row>, w: Where)
    ensures !Exists(Without(rows, w), w)
  {
    var r := Without(rows, w);
    forall k | 0 <= k < |r| ensures !Matches(w, r[k]) {
      assert r[k] in r;
    }
  }

  /** mark-all leaves the recipient with no unread row, and every other recipient's unread count as it was. */
  lemma {:induction false} MarkAllReadCounts(rows: seq<Row>, r: nat, other: nat)
    ensures Count(MarkRead(rows, UnreadOf(r)), UnreadOf(r)) == 0
    ensures other != r ==> Count(MarkRead(rows, UnreadOf(r)), UnreadOf(other)) == Count(rows, UnreadOf(other))
  {
    if rows != [] {
      var init := rows[..|rows| - 1];
      MarkAllReadCounts(init, r, other);
      assert MarkRead(rows, UnreadOf(r))[..|rows| - 1] == MarkRead(init, UnreadOf(r));
    }
  }

  /** mark-one never raises an unread count, and leaves other recipients' counts alone. */
  lemma {:induction false} MarkOneReadCounts(rows: seq<Row>, id: nat, r: nat, other: nat)
    ensures Count(MarkRead(rows, IdOfRecipient(id, r)), UnreadOf(other)) <= Count(rows, UnreadOf(other))
    ensures other != r ==> Count(MarkRead(rows, IdOfRecipient(id, r)), UnreadOf(other)) == Count(rows, UnreadOf(other))
  {
    if rows != [] {
      var init := rows[..|rows| - 1];
      MarkOneReadCounts(init, id, r, other);
      assert MarkRead(rows, IdOfRecipient(id, r))[..|rows| - 1] == MarkRead(init, IdOfRecipient(id, r));
    }
  }

  // ------------------------------------------------------- row identities

  /** IDENTITY columns: every id is below the next one to be assigned ... */
  predicate IdsBelow(rows: seq<Row>, next: nat) {
    forall x :: x in rows ==> x.id < next
  }

  /** ... and no two rows share an id. */
  predicate IdsUnique(rows: seq<Row>) {
    forall i, j :: 0 <= i < j < |rows| ==> rows[i].id != rows[j].id
  }

  lemma {:induction false} WithoutKeepsIdsUnique(rows: seq<Row>, w: Where)
    requires IdsUnique(rows)
    ensures IdsUnique(Without(rows, w))
  {
    if rows != [] {
      var init, last := rows[..|rows| - 1], rows[|rows| - 1];
      assert IdsUnique(init);
      WithoutKeepsIdsUnique(init, w);
      if !Matches(w, last) {
        var r := Without(init, w);
        forall i | 0 <= i < |r| ensures r[i].id != last.id {
          assert r[i] in init;
          var k :| 0 <= k < |init| && init[k] == r[i];
          assert rows[k] == init[k];
        }
      }
    }
  }

  /** With unique ids the update by id and recipient touches at most one row. */
  lemma {:induction false} AtMostOneRowPerId(rows: seq<Row>, id: nat, r: nat)
    requires IdsUnique(rows)
    ensures Count(rows, IdOfRecipient(id, r)) <= 1
  {
    if rows != [] {
      var init := rows[..|rows| - 1];
      assert IdsUnique(init);
      AtMostOneRowPerId(init, id, r);
      if Matches(IdOfRecipient(id, r), rows[|rows| - 1]) {
        forall k | 0 <= k < |init| ensures !Matches(IdOfRecipient(id, r), init[k]) {
          assert rows[k] == init[k];
        }
        CountPositiveIffExists(init, IdOfRecipient(id, r));
      }
    }
  }

  // ------------------------------------------------------------ ordering

  /** Non-increasing createdAt. */
  predicate NewestFirst(s: seq<Row>) {
    forall i, j :: 0 <= i < j < |s| ==> s[i].createdAt >= s[j].createdAt
  }

  function InsertNewestFirst(x: Row, s: seq<Row>): (r: seq<Row>)
    requires NewestFirst(s)
    ensures NewestFirst(r)
    ensures multiset(r) == multiset(s) + multiset{x}
    ensures forall y :: y in r ==> y in s || y == x
  {
    if s == [] || x.createdAt >= s[0].createdAt then [x] + s
    else
      var rest := InsertNewestFirst(x, s[1..]);
      assert s == [s[0]] + s[1..];
      HeadIsNewest(s);
      PrependNewest(s[0], rest);
      [s[0]] + rest
  }

  lemma HeadIsNewest(s: seq<Row>)
    requires NewestFirst(s) && s != []
    ensures forall y :: y in s[1..] ==> y.createdAt <= s[0].createdAt
  {
    forall y | y in s[1..] ensures y.createdAt <= s[0].createdAt {
      var k :| 0 <= k < |s[1..]| && s[1..][k] == y;
      assert s[k + 1] == y;
    }
  }

  lemma PrependNewest(h: Row, rest: seq<Row>)
    requires NewestFirst(rest)
    requires forall y :: y in rest ==> y.createdAt <= h.createdAt
    ensures NewestFirst([h] + rest)
  {
    var r := [h] + rest;
    forall i, j | 0 <= i < j < |r| ensures r[i].createdAt >= r[j].createdAt {
      assert r[j] == rest[j - 1] && r[j] in rest;
      if i > 0 {
        assert r[i] == rest[i - 1];
      }
    }
  }

  function SortNewestFirst(s: seq<Row>): (r: seq<Row>)
    ensures NewestFirst(r)
    ensures multiset(r) == multiset(s)
  {
    if s == [] then []
    else
      assert s == [s[0]] + s[1..];
      InsertNewestFirst(s[0], SortNewestFirst(s[1..]))
  }

  /** findByRecipientIdOrderByCreatedAtDesc, without the paging: exactly the
      recipient's rows, newest first. Rows with equal createdAt come in no promised order. */
  function ListNewestFirst(rows: seq<Row>, r: nat): (l: seq<Row>)
    ensures NewestFirst(l)
    ensures multiset(l) == multiset(Select(rows, OfRecipient(r)))
    ensures forall x :: x in l <==> x in rows && x.recipient.id == r
  {
    var sel := Select(rows, OfRecipient(r));
    var l := SortNewestFirst(sel);
    assert forall x :: x in l <==> x in multiset(l);
    assert forall x :: x in sel <==> x in multiset(sel);
    l
  }

  /** findTop50ByRecipientIdOrderByCreatedAtDesc. */
  function Top50(rows: seq<Row>, r: nat): (t: seq<Row>)
    ensures |t| <= 50
    ensures t <= ListNewestFirst(rows, r)
    ensures |t| == if Count(rows, OfRecipient(r)) < 50 then Count(rows, OfRecipient(r)) else 50
  {
    var l := ListNewestFirst(rows, r);
    assert |l| == |multiset(l)|;
    if |l| <= 50 then l else l[..50]
  }

  /** The fifty returned are the newest: no row left out is newer than one returned. */
  lemma Top50AreNewest(rows: seq<Row>, r: nat, x: Row, y: Row)
    requires x in Top50(rows, r)
    requires y in ListNewestFirst(rows, r) && y !in Top50(rows, r)
    ensures x.createdAt >= y.createdAt
  {
    var l, t := ListNewestFirst(rows, r), Top50(rows, r);
    var i :| 0 <= i < |t| && t[i] == x;
    var j :| 0 <= j < |l| && l[j] == y;
    assert forall k :: 0 <= k < |t| ==> l[k] == t[k] && t[k] in t;
    assert l[i] == x;
  }

  // --------------------------------------------------------------- saves

  /** save() of an existing entity, as the evidently intended behaviour has it:
      the row with the entity's id takes every column from the entity. */
  function Overwrite(rows: seq<Row>, e: Row): (r: seq<Row>)
    ensures |r| == |rows|
    ensures forall i :: 0 <= i < |rows| ==> r[i] == if rows[i].id == e.id then e else rows[i]
  {
    if rows == [] then []
    else
      var last := rows[|rows| - 1];
      Overwrite(rows[..|rows| - 1], e) + [if last.id == e.id then e else last]
  }

  /** save() of an existing entity as the entity is mapped: `created_at` is
      declared `updatable = false`, so the UPDATE leaves that column as it was. */
  function OverwriteAsMapped(rows: seq<Row>, e: Row): (r: seq<Row>)
    ensures |r| == |rows|
    ensures forall i :: 0 <= i < |rows| ==>
      r[i] == if rows[i].id == e.id then e.(createdAt := rows[i].createdAt) else rows[i]
  {
    if rows == [] then []
    else
      var last := rows[|rows| - 1];
      OverwriteAsMapped(rows[..|rows| - 1], e) + [if last.id == e.id then e.(createdAt := last.createdAt) else last]
  }

  /** A save as mapped changes no row's createdAt. */
  lemma AsMappedSaveKeepsAllCreatedAt(rows: seq<Row>, e: Row)
    ensures var r := OverwriteAsMapped(rows, e);
      |r| == |rows| && forall i :: 0 <= i < |rows| ==> r[i].createdAt == rows[i].createdAt
  {
  }

  /** As written, a save that moves createdAt forward never reaches the table. */
  lemma AsMappedSaveKeepsCreatedAt(rows: seq<Row>, i: nat, now: int)
    requires i < |rows| && now != rows[i].createdAt
    ensures OverwriteAsMapped(rows, rows[i].(createdAt := now, isRead := false))[i].createdAt == rows[i].createdAt
    ensures OverwriteAsMapped(rows, rows[i].(createdAt := now, isRead := false))[i].createdAt != now
  {
  }

  // ------------------------------------------------------------ the object

  class NotificationRepository {
    var rows: seq<Row>
    var nextId: nat

    ghost predicate Valid()
      reads this
    {
      IdsBelow(rows, nextId) && IdsUnique(rows)
    }

    /** An empty table whose IDENTITY sequence starts at 1. */
    constructor ()
      ensures Valid() && rows == [] && nextId == 1
    {
      rows := [];
      nextId := 1;
    }

    function FindByRecipientIdOrderByCreatedAtDesc(recipientId: nat): (l: seq<Row>)
      reads this
      ensures NewestFirst(l)
      ensures forall x :: x in l <==> x in rows && x.recipient.id == recipientId
      ensures |l| == Count(rows, OfRecipient(recipientId))
    {
      var l := ListNewestFirst(rows, recipientId);
      assert |l| == |multiset(l)| == |multiset(Select(rows, OfRecipient(recipientId)))|;
      l
    }

    function FindTop50ByRecipientIdOrderByCreatedAtDesc(recipientId: nat): (t: seq<Row>)
      reads this
      ensures |t| <= 50 && t <= FindByRecipientIdOrderByCreatedAtDesc(recipientId)
      ensures Count(rows, OfRecipient(recipientId)) >= 50 ==> |t| == 50
    {
      Top50(rows, recipientId)
    }

    function CountByRecipientIdAndIsReadFalse(recipientId: nat): (n: nat)
      reads this
      ensures n <= |rows|
      ensures n > 0 <==> exists i :: 0 <= i < |rows| && rows[i].recipient.id == recipientId && !rows[i].isRead
    {
      CountPositiveIffExists(rows, UnreadOf(recipientId));
      Count(rows, UnreadOf(recipientId))
    }

    predicate ExistsByRecipientIdAndActorIdAndTypeAndPostId(recipientId: nat, actorId: nat, kind: NotificationType, postId: nat)
      reads this
      ensures ExistsByRecipientIdAndActorIdAndTypeAndPostId(recipientId, actorId, kind, postId) <==>
        Count(rows, ByTypeAndPost(recipientId, actorId, kind, postId)) > 0
    {
      CountPositiveIffExists(rows, ByTypeAndPost(recipientId, actorId, kind, postId));
      Exists(rows, ByTypeAndPost(recipientId, actorId, kind, postId))
    }

    predicate ExistsByRecipientIdAndActorIdAndTypeAndCommentId(recipientId: nat, actorId: nat, kind: NotificationType, commentId: nat)
      reads this
      ensures ExistsByRecipientIdAndActorIdAndTypeAndCommentId(recipientId, actorId, kind, commentId) <==>
        Count(rows, ByTypeAndComment(recipientId, actorId, kind, commentId)) > 0
    {
      CountPositiveIffExists(rows, ByTypeAndComment(recipientId, actorId, kind, commentId));
      Exists(rows, ByTypeAndComment(recipientId, actorId, kind, commentId))
    }

    predicate ExistsByRecipientIdAndActorIdAndType(recipientId: nat, actorId: nat, kind: NotificationType)
      reads this
      ensures ExistsByRecipientIdAndActorIdAndType(recipientId, actorId, kind) <==>
        Count(rows, ByType(recipientId, actorId, kind)) > 0
    {
      CountPositiveIffExists(rows, ByType(recipientId, actorId, kind));
      Exists(rows, ByType(recipientId, actorId, kind))
    }

    /** The single-result finder on (recipient, actor, type): a fresh entity
        object for the first matching row, or null. */
    method FindByRecipientIdAndActorIdAndType(recipientId: nat, actorId: nat, kind: NotificationType)
      returns (found: Notification?)
      ensures found == null <==> !Exists(rows, ByType(recipientId, actorId, kind))
      ensures found != null ==>
        fresh(found) && found.State() == StateOf(rows[FirstMatch(rows, ByType(recipientId, actorId, kind))])
    {
      var w := ByType(recipientId, actorId, kind);
      if !Exists(rows, w) {
        return null;
      }
      var row := rows[FirstMatch(rows, w)];
      found := new Notification.ForComment(row.recipient, row.actor, row.kind, row.post, row.comment);
      found.SetId(Some(row.id));
      found.SetRead(row.isRead);
      found.SetCreatedAt(Some(row.createdAt));
    }

    /** save() of a new entity: the IDENTITY column and @CreationTimestamp fill
        in the object's id and createdAt, and the row is appended. */
    method Persist(n: Notification, now: int)
      requires Valid() && n.id.None?
      modifies this, n
      ensures Valid()
      ensures n.State() == old(n.State()).(id := Some(old(nextId)), createdAt := Some(now))
      ensures rows == old(rows) + [RowOf(n.State())]
      ensures nextId == old(nextId) + 1
    {
      n.SetId(Some(nextId));
      n.SetCreatedAt(Some(now));
      rows := rows + [RowOf(n.State())];
      nextId := nextId + 1;
    }

    /** save() of an entity whose row exists, writing every column (the corrected mapping). */
    method Merge(n: Notification)
      requires Valid() && n.id.Some? && n.createdAt.Some? && Exists(rows, WithId(n.id.value))
      modifies this
      ensures Valid()
      ensures rows == Overwrite(old(rows), RowOf(n.State())) && nextId == old(nextId)
    {
      rows := Overwrite(rows, RowOf(n.State()));
    }

    /** save() of an entity whose row exists, under the entity's mapping as written. */
    method MergeAsMapped(n: Notification)
      requires Valid() && n.id.Some? && n.createdAt.Some? && Exists(rows, WithId(n.id.value))
      modifies this
      ensures Valid()
      ensures rows == OverwriteAsMapped(old(rows), RowOf(n.State())) && nextId == old(nextId)
    {
      rows := OverwriteAsMapped(rows, RowOf(n.State()));
    }

    method MarkAllAsReadByRecipientId(recipientId: nat) returns (updated: nat)
      requires Valid()
      modifies this
      ensures Valid()
      ensures updated == Count(old(rows), UnreadOf(recipientId))
      ensures rows == MarkRead(old(rows), UnreadOf(recipientId)) && nextId == old(nextId)
    {
      updated := Count(rows, UnreadOf(recipientId));
      rows := MarkRead(rows, UnreadOf(recipientId));
    }

    /** No isRead filter: a row that is already read still counts as updated. */
    method MarkAsReadByIdAndRecipientId(notificationId: nat, recipientId: nat) returns (updated: nat)
      requires Valid()
      modifies this
      ensures Valid()
      ensures updated == Count(old(rows), IdOfRecipient(notificationId, recipientId)) && updated <= 1
      ensures rows == MarkRead(old(rows), IdOfRecipient(notificationId, recipientId)) && nextId == old(nextId)
    {
      AtMostOneRowPerId(rows, notificationId, recipientId);
      updated := Count(rows, IdOfRecipient(notificationId, recipientId));
      rows := MarkRead(rows, IdOfRecipient(notificationId, recipientId));
    }

    /** The shared body of the DELETE statements. */
    method DeleteWhere(w: Where) returns (deleted: nat)
      requires Valid()
      modifies this
      ensures Valid()
      ensures deleted == Count(old(rows), w)
      ensures rows == Without(old(rows), w) && nextId == old(nextId)
    {
      WithoutKeepsIdsUnique(rows, w);
      deleted := Count(rows, w);
      rows := Without(rows, w);
    }

    method DeleteByRecipientIdAndActorIdAndTypeAndPostId(recipientId: nat, actorId: nat, kind: NotificationType, postId: nat)
      returns (deleted: nat)
      requires Valid()
      modifies this
      ensures Valid()
      ensures deleted == Count(old(rows), ByTypeAndPost(recipientId, actorId, kind, postId))
      ensures rows == Without(old(rows), ByTypeAndPost(recipientId, actorId, kind, postId)) && nextId == old(nextId)
    {
      deleted := DeleteWhere(ByTypeAndPost(recipientId, actorId, kind, postId));
    }

    method DeleteByRecipientIdAndActorIdAndType(recipientId: nat, actorId: nat, kind: NotificationType)
      returns (deleted: nat)
      requires Valid()
      modifies this
      ensures Valid()
      ensures deleted == Count(old(rows), ByType(recipientId, actorId, kind))
      ensures rows == Without(old(rows), ByType(recipientId, actorId, kind)) && nextId == old(nextId)
    {
      deleted := DeleteWhere(ByType(recipientId, actorId, kind));
    }

    method DeleteByRecipientIdAndActorIdAndTypeAndCommentId(recipientId: nat, actorId: nat, kind: NotificationType, commentId: nat)
      returns (deleted: nat)
      requires Valid()
      modifies this
      ensures Valid()
      ensures deleted == Count(old(rows), ByTypeAndComment(recipientId, actorId, kind, commentId))
      ensures rows == Without(old(rows), ByTypeAndComment(recipientId, actorId, kind, commentId)) && nextId == old(nextId)
    {
      deleted := DeleteWhere(ByTypeAndComment(recipientId, actorId, kind, commentId));
    }

    method DeleteByPostId(postId: nat) returns (deleted: nat)
      requires Valid()
      modifies this
      ensures Valid()
      ensures deleted == Count(old(rows), AboutPost(postId))
      ensures rows == Without(old(rows), AboutPost(postId)) && nextId == old(nextId)
    {
      deleted := DeleteWhere(AboutPost(postId));
    }

    method DeleteByCommentId(commentId: nat) returns (deleted: nat)
      requires Valid()
      modifies this
      ensures Valid()
      ensures deleted == Count(old(rows), AboutComment(commentId))
      ensures rows == Without(old(rows), AboutComment(commentId)) && nextId == old(nextId)
    {
      deleted := DeleteWhere(AboutComment(commentId));
    }

    method DeleteOldNotifications(threshold: int) returns (deleted: nat)
      requires Valid()
      modifies this
      ensures Valid()
      ensures deleted == Count(old(rows), CreatedBefore(threshold))
      ensures rows == Without(old(rows), CreatedBefore(threshold)) && nextId == old(nextId)
    {
      deleted := DeleteWhere(CreatedBefore(threshold));
    }
  }
}
