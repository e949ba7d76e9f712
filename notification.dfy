/** The Notification entity: a mutable record whose setters overwrite one field
    each. Recipient, actor and type are mandatory (non-optional types); post and
    comment are optional; `id` and `createdAt` stay null until the row is
    persisted, when the store assigns the identity and the creation timestamp. */
module NotificationEntity {
  import opened Wrappers
  import D = Domain

  /** The type column. The entity's enum declares FOLLOW, POST_LIKE,
      COMMENT_LIKE, COMMENT and FOLLOW_REQUEST_APPROVED; the service also uses
      FOLLOW_REQUEST, so it is included here. */
  datatype NotificationType =
    | Follow
    | FollowRequest
    | PostLike
    | CommentLike
    | Comment
    | FollowRequestApproved

  /** Enum.toString: the constant's name as stored and as sent to clients. */
  function TypeName(t: NotificationType): (name: string)
    ensures |name| > 0
  {
    match t
    case Follow => "FOLLOW"
    case FollowRequest => "FOLLOW_REQUEST"
    case PostLike => "POST_LIKE"
    case CommentLike => "COMMENT_LIKE"
    case Comment => "COMMENT"
    case FollowRequestApproved => "FOLLOW_REQUEST_APPROVED"
  }

  /** Distinct types have distinct names, so clients can tell them apart. */
  lemma TypeNameInjective(a: NotificationType, b: NotificationType)
    ensures TypeName(a) == TypeName(b) ==> a == b
  {
  }

  /** The constants declared by the entity's own enum: all but FOLLOW_REQUEST. */
  predicate DeclaredByEntity(t: NotificationType) {
    !t.FollowRequest?
  }

  /** Every field of an entity object at one moment. */
  datatype NotificationState = NotificationState(
    id: Option<nat>,
    recipient: D.User,
    actor: D.User,
    kind: NotificationType,
    post: Option<D.Post>,
    comment: Option<D.Comment>,
    isRead: bool,
    createdAt: Option<int>)

  class Notification {
    var id: Option<nat>
    var recipient: D.User
    var actor: D.User
    var kind: NotificationType
    var post: Option<D.Post>
    var comment: Option<D.Comment>
    var isRead: bool
    var createdAt: Option<int>

    function State(): NotificationState
      reads this
    {
      NotificationState(id, recipient, actor, kind, post, comment, isRead, createdAt)
    }

    /** new Notification(recipient, actor, type): no post, no comment, unread. */
    constructor WithoutSubject(recipient: D.User, actor: D.User, kind: NotificationType)
      ensures State() == NotificationState(None, recipient, actor, kind, None, None, false, None)
    {
      this.id := None;
      this.recipient := recipient;
      this.actor := actor;
      this.kind := kind;
      this.post := None;
      this.comment := None;
      this.isRead := false;
      this.createdAt := None;
    }

    /** new Notification(recipient, actor, type, post): no comment, unread. */
    constructor ForPost(recipient: D.User, actor: D.User, kind: NotificationType, post: Option<D.Post>)
      ensures State() == NotificationState(None, recipient, actor, kind, post, None, false, None)
    {
      this.id := None;
      this.recipient := recipient;
      this.actor := actor;
      this.kind := kind;
      this.post := post;
      this.comment := None;
      this.isRead := false;
      this.createdAt := None;
    }

    /** new Notification(recipient, actor, type, post, comment): all five set, unread. */
    constructor ForComment(recipient: D.User, actor: D.User, kind: NotificationType,
                           post: Option<D.Post>, comment: Option<D.Comment>)
      ensures State() == NotificationState(None, recipient, actor, kind, post, comment, false, None)
    {
      this.id := None;
      this.recipient := recipient;
      this.actor := actor;
      this.kind := kind;
      this.post := post;
      this.comment := comment;
      this.isRead := false;
      this.createdAt := None;
    }

    method SetId(id: Option<nat>)
      modifies this
      ensures State() == old(State()).(id := id)
    {
      this.id := id;
    }

    method SetRecipient(recipient: D.User)
      modifies this
      ensures State() == old(State()).(recipient := recipient)
    {
      this.recipient := recipient;
    }

    method SetActor(actor: D.User)
      modifies this
      ensures State() == old(State()).(actor := actor)
    {
      this.actor := actor;
    }

    method SetType(kind: NotificationType)
      modifies this
      ensures State() == old(State()).(kind := kind)
    {
      this.kind := kind;
    }

    method SetPost(post: Option<D.Post>)
      modifies this
      ensures State() == old(State()).(post := post)
    {
      this.post := post;
    }

    method SetComment(comment: Option<D.Comment>)
      modifies this
      ensures State() == old(State()).(comment := comment)
    {
      this.comment := comment;
    }

    method SetRead(read: bool)
      modifies this
      ensures State() == old(State()).(isRead := read)
    {
      this.isRead := read;
    }

    /** Changes the object's field only: the column is mapped `updatable = false`,
        so a later save does not write it (see NotificationRepository.MergeAsMapped). */
    method SetCreatedAt(createdAt: Option<int>)
      modifies this
      ensures State() == old(State()).(createdAt := createdAt)
    {
      this.createdAt := createdAt;
    }
  }
}
