/** internal/models: the values the services hand back to callers. Creation
    timestamps are not modelled (the clock is outside the model). */
module Models {
  import opened Common

  /** `models.User`: the public part of an account. */
  datatype User = User(id: int, username: string, avatarUrl: Option<string>)

  /** `models.Post`. */
  datatype Post = Post(
    id: int,
    userId: int,
    content: string,
    spoilerOf: Option<string>,
    nsfw: bool,
    user: User,
    mine: bool)

  /** `models.TimelineItem`: a post as it appears in one user's feed. */
  datatype TimelineItem = TimelineItem(id: int, userId: int, postId: int, post: Post)

  /** `models.UserProfile`: a user with counters and the viewer-relative flags. */
  datatype UserProfile = UserProfile(
    user: User,
    email: string,
    followersCount: int,
    followeesCount: int,
    me: bool,
    following: bool,
    followed: bool)

  /** Go's zero values, which a declared-but-unassigned variable holds. */
  const ZeroUser := User(0, "", None)
  const ZeroPost := Post(0, 0, "", None, false, ZeroUser, false)
  const ZeroItem := TimelineItem(0, 0, 0, ZeroPost)
}
