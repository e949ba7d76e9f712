/** The entities the notification core reads but does not own. They come from
    the user, post and comment repositories, which are not part of this model;
    only the attributes the core looks at are kept. */
module Domain {
  import opened Wrappers

  /** A user. `following` holds the ids of the users this user follows
      (User.getFollowing(), compared here by id). */
  datatype User = User(
    id: nat,
    email: string,
    username: Option<string>,
    fullName: Option<string>,
    isPrivate: bool,
    following: set<nat>)

  /** A post and its (mandatory) author. */
  datatype Post = Post(id: nat, description: Option<string>, author: User)

  /** A comment, its (mandatory) author and the post it belongs to. */
  datatype Comment = Comment(id: nat, text: Option<string>, author: User, post: Post)
}
