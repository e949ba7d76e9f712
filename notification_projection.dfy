/** The client-facing projection of a notification (convertToResponse):
    the actor's display names with their fallbacks, and previews of the
    post description and the comment text cut to fifty characters. */
module Projection {
  import opened Wrappers
  import opened Strings
  import D = Domain
  import opened NotificationEntity

  const PreviewLength: nat := 50
  const Ellipsis := "..."
  const NoDescription := "Sin descripción"
  const NoCommentText := "Sin comentario"
  const UsernamePrefix := "user_"
  const FullNamePrefix := "Usuario "

  /** truncateText: null stays null, short text is kept, long text is cut to
      maxLength characters and marked with "...". */
  function TruncateText(text: Option<string>, maxLength: nat): (r: Option<string>)
    ensures r.Some? <==> text.Some?
    ensures text.Some? ==> |r.value| <= maxLength + |Ellipsis|
    ensures text.Some? && |text.value| <= maxLength ==> r == text
    ensures text.Some? && |text.value| > maxLength ==>
      |r.value| == maxLength + |Ellipsis| && r.value[..maxLength] == text.value[..maxLength] && r.value[maxLength..] == Ellipsis
  {
    if text.None? || |text.value| <= maxLength then text
    else Some(text.value[..maxLength] + Ellipsis)
  }

  /** A preview survives a second truncation unchanged. */
  lemma TruncateIdempotent(text: Option<string>, maxLength: nat)
    ensures TruncateText(TruncateText(text, maxLength), maxLength) == TruncateText(text, maxLength)
  {
    if text.Some? && |text.value| > maxLength {
      var r := TruncateText(text, maxLength).value;
      assert r[..maxLength] + Ellipsis == r;
    }
  }

  /** The preview of a 120-character text is 50 characters and "...", that of a
      10-character text is the text itself. */
  lemma PreviewExamples(long: string, short: string)
    requires |long| == 120 && |short| == 10
    ensures TruncateText(Some(long), PreviewLength) == Some(long[..50] + "...")
    ensures |TruncateText(Some(long), PreviewLength).value| == 53
    ensures TruncateText(Some(short), PreviewLength) == Some(short)
  {
  }

  lemma {:induction false} DecimalIsSolid(n: nat)
    ensures forall i :: 0 <= i < |NatToString(n)| ==> !IsTrimmable(NatToString(n)[i])
  {
  }

  /** prefix + id has no character trim() would remove, when prefix does not end in one. */
  lemma PrefixedIdIsTrimmed(prefix: string, id: nat)
    requires prefix != [] && !IsTrimmable(prefix[0])
    ensures Trim(prefix + NatToString(id)) == prefix + NatToString(id)
  {
    var digits := NatToString(id);
    var s := prefix + digits;
    DecimalIsSolid(id);
    assert s[0] == prefix[0];
    assert s[|s| - 1] == digits[|digits| - 1];
    assert !IsTrimmable(s[|s| - 1]);
    TrimFixedPoint(s);
  }

  /** The name used when the stored one is null or blank, trimmed like any other. */
  function DisplayName(stored: Option<string>, fallbackPrefix: string, id: nat): (name: string)
    requires fallbackPrefix != [] && !IsTrimmable(fallbackPrefix[0])
    ensures name != [] && Trim(name) == name
    ensures stored.None? || IsBlank(stored.value) ==> name == fallbackPrefix + NatToString(id)
    ensures stored.Some? && !IsBlank(stored.value) ==> name == Trim(stored.value)
  {
    if stored.None? || IsBlank(stored.value) then
      PrefixedIdIsTrimmed(fallbackPrefix, id);
      fallbackPrefix + NatToString(id)
    else
      TrimIdempotent(stored.value);
      Trim(stored.value)
  }

  datatype ActorInfo = ActorInfo(id: nat, username: string, fullName: string)
  datatype PostInfo = PostInfo(id: nat, description: string)
  datatype CommentInfo = CommentInfo(id: nat, text: string)

  /** What convertToResponse builds; `kind` is the type's name. */
  datatype NotificationResponse = NotificationResponse(
    id: Option<nat>,
    kind: string,
    actor: ActorInfo,
    post: Option<PostInfo>,
    comment: Option<CommentInfo>,
    isRead: bool,
    createdAt: Option<int>)

  /** The actor block: a stored name that is not blank is shown trimmed, and a
      null or blank one is replaced by "user_" + id or "Usuario " + id. */
  function ActorOf(u: D.User): (info: ActorInfo)
    ensures info.id == u.id
    ensures info.username != [] && Trim(info.username) == info.username
    ensures info.fullName != [] && Trim(info.fullName) == info.fullName
    ensures u.username.Some? && !IsBlank(u.username.value) ==> info.username == Trim(u.username.value)
    ensures u.username.None? || IsBlank(u.username.value) ==> info.username == UsernamePrefix + NatToString(u.id)
    ensures u.fullName.Some? && !IsBlank(u.fullName.value) ==> info.fullName == Trim(u.fullName.value)
    ensures u.fullName.None? || IsBlank(u.fullName.value) ==> info.fullName == FullNamePrefix + NatToString(u.id)
  {
    ActorInfo(u.id, DisplayName(u.username, UsernamePrefix, u.id), DisplayName(u.fullName, FullNamePrefix, u.id))
  }

  function PostPreview(p: D.Post): (info: PostInfo)
    ensures info.id == p.id
    ensures |info.description| <= PreviewLength + |Ellipsis|
    ensures p.description.None? ==> info.description == NoDescription
    ensures p.description.Some? ==> Some(info.description) == TruncateText(p.description, PreviewLength)
  {
    PostInfo(p.id, TruncateText(Some(p.description.GetOr(NoDescription)), PreviewLength).value)
  }

  function CommentPreview(c: D.Comment): (info: CommentInfo)
    ensures info.id == c.id
    ensures |info.text| <= PreviewLength + |Ellipsis|
    ensures c.text.None? ==> info.text == NoCommentText
    ensures c.text.Some? ==> Some(info.text) == TruncateText(c.text, PreviewLength)
  {
    CommentInfo(c.id, TruncateText(Some(c.text.GetOr(NoCommentText)), PreviewLength).value)
  }

  /** convertToResponse on an entity whose actor is present. */
  function ConvertToResponse(n: NotificationState): (r: NotificationResponse)
    ensures r.id == n.id && r.isRead == n.isRead && r.createdAt == n.createdAt
    ensures r.actor.id == n.actor.id
    ensures (r.post.Some? <==> n.post.Some?) && (r.comment.Some? <==> n.comment.Some?)
    ensures r.kind == TypeName(n.kind)
    ensures n.post.Some? ==> r.post == Some(PostPreview(n.post.value))
    ensures n.comment.Some? ==> r.comment == Some(CommentPreview(n.comment.value))
  {
    NotificationResponse(
      n.id,
      TypeName(n.kind),
      ActorOf(n.actor),
      if n.post.Some? then Some(PostPreview(n.post.value)) else None,
      if n.comment.Some? then Some(CommentPreview(n.comment.value)) else None,
      n.isRead,
      n.createdAt)
  }

  /** The actor block of the response is the actor's, with the name fallbacks of ActorOf. */
  lemma ResponseShowsActor(n: NotificationState)
    ensures ConvertToResponse(n).actor == ActorOf(n.actor)
    ensures ConvertToResponse(n).actor.username != [] && ConvertToResponse(n).actor.fullName != []
  {
  }

  /** The projection loses nothing a client needs to tell notifications apart:
      it determines the type and, when present, the previewed subjects' ids. */
  lemma ResponseDeterminesType(a: NotificationState, b: NotificationState)
    requires ConvertToResponse(a) == ConvertToResponse(b)
    ensures a.kind == b.kind && a.id == b.id && a.actor.id == b.actor.id
    ensures a.post.Some? ==> b.post.Some? && a.post.value.id == b.post.value.id
    ensures a.comment.Some? ==> b.comment.Some? && a.comment.value.id == b.comment.value.id
  {
    TypeNameInjective(a.kind, b.kind);
  }
}
