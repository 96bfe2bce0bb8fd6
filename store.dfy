/** The PostgreSQL tables the services write, as values, with the effect of
    each statement the core issues and the consistency the toggles keep:
    every denormalised counter equals the number of relationship rows it
    counts. Serial ids are positions: the row at index i of `users`,
    `posts` or `timeline` has id i + 1. */
module Store {
  import opened Common
  import opened Models

  datatype UserRow = UserRow(
    email: string,
    username: string,
    avatarUrl: Option<string>,
    followersCount: int,
    followeesCount: int)

  datatype PostRow = PostRow(
    userId: int,
    content: string,
    spoilerOf: Option<string>,
    nsfw: bool,
    likesCount: int)

  datatype TimelineRow = TimelineRow(userId: int, postId: int)

  /** `follows` holds (follower_id, followee_id) pairs and `likes` holds
      (user_id, post_id) pairs: both tables are unique on the pair. */
  datatype Tables = Tables(
    users: seq<UserRow>,
    follows: set<(int, int)>,
    posts: seq<PostRow>,
    likes: set<(int, int)>,
    timeline: seq<TimelineRow>)

  predicate IsUser(t: Tables, id: int) {
    1 <= id <= |t.users|
  }

  predicate IsPost(t: Tables, id: int) {
    1 <= id <= |t.posts|
  }

  function Followers(follows: set<(int, int)>, u: int): set<int> {
    set p | p in follows && p.1 == u :: p.0
  }

  function Followees(follows: set<(int, int)>, u: int): set<int> {
    set p | p in follows && p.0 == u :: p.1
  }

  function Likers(likes: set<(int, int)>, post: int): set<int> {
    set l | l in likes && l.1 == post :: l.0
  }

  /** Relationship rows refer to existing users and posts. */
  predicate RefsValid(t: Tables) {
    && (forall p | p in t.follows :: IsUser(t, p.0) && IsUser(t, p.1))
    && (forall l | l in t.likes :: IsUser(t, l.0) && IsPost(t, l.1))
  }

  /** The unique email and username columns. */
  predicate NamesUnique(t: Tables) {
    forall i, j | 0 <= i < j < |t.users| ::
      t.users[i].email != t.users[j].email && t.users[i].username != t.users[j].username
  }

  /** Every user's followers_count and followees_count, and every post's
      likes_count, equals the number of rows that name it. */
  predicate CountersConsistent(t: Tables) {
    && (forall i | 0 <= i < |t.users| ::
          && t.users[i].followersCount == |Followers(t.follows, i + 1)|
          && t.users[i].followeesCount == |Followees(t.follows, i + 1)|)
    && (forall i | 0 <= i < |t.posts| :: t.posts[i].likesCount == |Likers(t.likes, i + 1)|)
  }

  predicate Consistent(t: Tables) {
    RefsValid(t) && NamesUnique(t) && CountersConsistent(t)
  }

  // ---------------------------------------------------------------------
  // Reads
  // ---------------------------------------------------------------------

  function IndexOfUsername(users: seq<UserRow>, name: string): (r: Option<nat>)
    ensures r.Some? ==> r.value < |users| && users[r.value].username == name
    ensures r.None? ==> forall i | 0 <= i < |users| :: users[i].username != name
  {
    if users == [] then None
    else if users[0].username == name then Some(0)
    else
      var r := IndexOfUsername(users[1..], name);
      if r.None? then None else Some(r.value + 1)
  }

  /** `select id from users where username = $1`. */
  function UserIdByName(t: Tables, name: string): (r: Option<int>)
    ensures r.Some? ==> IsUser(t, r.value) && t.users[r.value - 1].username == name
    ensures r.None? ==> forall i | 0 <= i < |t.users| :: t.users[i].username != name
  {
    var i := IndexOfUsername(t.users, name);
    if i.None? then None else Some(i.value + 1)
  }

  /** `GetUserById`: the public part of a user row. */
  function UserById(t: Tables, id: int): (r: Option<User>)
    ensures r.Some? <==> IsUser(t, id)
    ensures r.Some? ==> r.value == User(id, t.users[id - 1].username, t.users[id - 1].avatarUrl)
  {
    if IsUser(t, id) then Some(User(id, t.users[id - 1].username, t.users[id - 1].avatarUrl))
    else None
  }

  predicate EmailTaken(t: Tables, email: string) {
    exists i | 0 <= i < |t.users| :: t.users[i].email == email
  }

  predicate UsernameTaken(t: Tables, username: string) {
    exists i | 0 <= i < |t.users| :: t.users[i].username == username
  }

  // ---------------------------------------------------------------------
  // Counter updates: `update ... set c = c + delta where id = $1`, which
  // changes no row when there is no such id
  // ---------------------------------------------------------------------

  function AddFollowers(t: Tables, id: int, delta: int): (r: Tables)
    ensures r.follows == t.follows && r.posts == t.posts && r.likes == t.likes && r.timeline == t.timeline
    ensures |r.users| == |t.users|
    ensures IsUser(t, id) ==> r.users[id - 1] == t.users[id - 1].(followersCount := t.users[id - 1].followersCount + delta)
    ensures forall i | 0 <= i < |t.users| && i != id - 1 :: r.users[i] == t.users[i]
    ensures !IsUser(t, id) ==> r == t
  {
    if IsUser(t, id) then
      var u := t.users[id - 1];
      t.(users := t.users[id - 1 := u.(followersCount := u.followersCount + delta)])
    else t
  }

  function AddFollowees(t: Tables, id: int, delta: int): (r: Tables)
    ensures r.follows == t.follows && r.posts == t.posts && r.likes == t.likes && r.timeline == t.timeline
    ensures |r.users| == |t.users|
    ensures IsUser(t, id) ==> r.users[id - 1] == t.users[id - 1].(followeesCount := t.users[id - 1].followeesCount + delta)
    ensures forall i | 0 <= i < |t.users| && i != id - 1 :: r.users[i] == t.users[i]
    ensures !IsUser(t, id) ==> r == t
  {
    if IsUser(t, id) then
      var u := t.users[id - 1];
      t.(users := t.users[id - 1 := u.(followeesCount := u.followeesCount + delta)])
    else t
  }

  function AddLikes(t: Tables, id: int, delta: int): (r: Tables)
    ensures r.users == t.users && r.follows == t.follows && r.likes == t.likes && r.timeline == t.timeline
    ensures |r.posts| == |t.posts|
    ensures IsPost(t, id) ==> r.posts[id - 1] == t.posts[id - 1].(likesCount := t.posts[id - 1].likesCount + delta)
    ensures forall i | 0 <= i < |t.posts| && i != id - 1 :: r.posts[i] == t.posts[i]
    ensures !IsPost(t, id) ==> r == t
  {
    if IsPost(t, id) then
      var p := t.posts[id - 1];
      t.(posts := t.posts[id - 1 := p.(likesCount := p.likesCount + delta)])
    else t
  }

  // ---------------------------------------------------------------------
  // Follow toggle
  // ---------------------------------------------------------------------

  /** The state after one committed follow toggle of `f` toward `e`: the
      pair is deleted if present and inserted otherwise, and the follower's
      followees_count and the followee's followers_count move with it. */
  function FollowToggled(t: Tables, f: int, e: int): Tables {
    if (f, e) in t.follows then
      AddFollowers(AddFollowees(t.(follows := t.follows - {(f, e)}), f, -1), e, -1)
    else
      AddFollowers(AddFollowees(t.(follows := t.follows + {(f, e)}), f, 1), e, 1)
  }

  /** What the toggle changes: exactly the pair (f, e) flips, f's
      followees_count and e's followers_count move by one in the same
      direction, and nothing else changes. */
  lemma FollowToggledEffect(t: Tables, f: int, e: int)
    requires IsUser(t, f) && IsUser(t, e) && f != e
    ensures var t' := FollowToggled(t, f, e);
      var d := if (f, e) in t.follows then -1 else 1;
      && ((f, e) in t'.follows <==> (f, e) !in t.follows)
      && (forall p | p != (f, e) :: p in t'.follows <==> p in t.follows)
      && |t'.users| == |t.users|
      && t'.users[f - 1] == t.users[f - 1].(followeesCount := t.users[f - 1].followeesCount + d)
      && t'.users[e - 1] == t.users[e - 1].(followersCount := t.users[e - 1].followersCount + d)
      && (forall i | 0 <= i < |t.users| && i != f - 1 && i != e - 1 :: t'.users[i] == t.users[i])
      && t'.posts == t.posts && t'.likes == t.likes && t'.timeline == t.timeline
  {
  }

  lemma FollowersAdd(follows: set<(int, int)>, f: int, e: int, u: int)
    requires (f, e) !in follows
    ensures Followers(follows + {(f, e)}, u) == if u == e then Followers(follows, u) + {f} else Followers(follows, u)
    ensures u == e ==> f !in Followers(follows, u)
    ensures Followees(follows + {(f, e)}, u) == if u == f then Followees(follows, u) + {e} else Followees(follows, u)
    ensures u == f ==> e !in Followees(follows, u)
  {
  }

  lemma FollowersRemove(follows: set<(int, int)>, f: int, e: int, u: int)
    requires (f, e) in follows
    ensures Followers(follows - {(f, e)}, u) == if u == e then Followers(follows, u) - {f} else Followers(follows, u)
    ensures u == e ==> f in Followers(follows, u)
    ensures Followees(follows - {(f, e)}, u) == if u == f then Followees(follows, u) - {e} else Followees(follows, u)
    ensures u == f ==> e in Followees(follows, u)
  {
  }

  /** The counters of row i after the toggle. */
  lemma FollowToggledRow(t: Tables, f: int, e: int, i: int)
    requires IsUser(t, f) && IsUser(t, e) && f != e
    requires 0 <= i < |t.users|
    ensures var t' := FollowToggled(t, f, e);
      var d := if (f, e) in t.follows then -1 else 1;
      && |t'.users| == |t.users|
      && t'.users[i].followersCount == t.users[i].followersCount + (if i + 1 == e then d else 0)
      && t'.users[i].followeesCount == t.users[i].followeesCount + (if i + 1 == f then d else 0)
      && t'.users[i].email == t.users[i].email && t'.users[i].username == t.users[i].username
  {
    FollowToggledEffect(t, f, e);
  }

  /** The sizes of user u's follower and followee sets after the toggle. */
  lemma FollowToggledSizes(t: Tables, f: int, e: int, u: int)
    ensures var t' := FollowToggled(t, f, e);
      var d := if (f, e) in t.follows then -1 else 1;
      && |Followers(t'.follows, u)| == |Followers(t.follows, u)| + (if u == e then d else 0)
      && |Followees(t'.follows, u)| == |Followees(t.follows, u)| + (if u == f then d else 0)
  {
    var follows := FollowToggled(t, f, e).follows;
    if (f, e) in t.follows {
      assert follows == t.follows - {(f, e)};
      FollowersRemove(t.follows, f, e, u);
    } else {
      assert follows == t.follows + {(f, e)};
      FollowersAdd(t.follows, f, e, u);
    }
  }

  lemma FollowToggledCounts(t: Tables, f: int, e: int, i: int)
    requires CountersConsistent(t) && IsUser(t, f) && IsUser(t, e) && f != e
    requires 0 <= i < |t.users|
    ensures var t' := FollowToggled(t, f, e);
      && t'.users[i].followersCount == |Followers(t'.follows, i + 1)|
      && t'.users[i].followeesCount == |Followees(t'.follows, i + 1)|
  {
    FollowToggledRow(t, f, e, i);
    FollowToggledSizes(t, f, e, i + 1);
  }

  /** A committed toggle keeps every counter equal to its row count. */
  lemma FollowToggledConsistent(t: Tables, f: int, e: int)
    requires Consistent(t) && IsUser(t, f) && IsUser(t, e) && f != e
    ensures Consistent(FollowToggled(t, f, e))
  {
    var t' := FollowToggled(t, f, e);
    assert |t'.users| == |t.users| && t'.posts == t.posts && t'.likes == t.likes;
    forall i | 0 <= i < |t'.users|
      ensures t'.users[i].followersCount == |Followers(t'.follows, i + 1)|
      ensures t'.users[i].followeesCount == |Followees(t'.follows, i + 1)|
      ensures t'.users[i].email == t.users[i].email && t'.users[i].username == t.users[i].username
    {
      FollowToggledRow(t, f, e, i);
      FollowToggledCounts(t, f, e, i);
    }
    assert RefsValid(t') by {
      FollowToggledEffect(t, f, e);
    }
  }

  /** Toggling twice restores the relation and every counter. */
  lemma FollowToggledTwice(t: Tables, f: int, e: int)
    requires IsUser(t, f) && IsUser(t, e) && f != e
    ensures FollowToggled(FollowToggled(t, f, e), f, e) == t
  {
    var t1 := FollowToggled(t, f, e);
    var t2 := FollowToggled(t1, f, e);
    FollowToggledEffect(t, f, e);
    FollowToggledEffect(t1, f, e);
    assert t2.follows == t.follows;
    assert t2.users == t.users;
  }

  // ---------------------------------------------------------------------
  // Likes
  // ---------------------------------------------------------------------

  /** The state after a committed like: the pair is inserted and the post's
      likes_count grows by one. */
  function LikeAdded(t: Tables, u: int, p: int): Tables {
    AddLikes(t.(likes := t.likes + {(u, p)}), p, 1)
  }

  /** The state after a committed unlike. */
  function LikeRemoved(t: Tables, u: int, p: int): Tables {
    AddLikes(t.(likes := t.likes - {(u, p)}), p, -1)
  }

  /** The toggle as intended: remove an existing like, add a missing one. */
  function LikeFlipped(t: Tables, u: int, p: int): Tables {
    if (u, p) in t.likes then LikeRemoved(t, u, p) else LikeAdded(t, u, p)
  }

  lemma LikeFlippedEffect(t: Tables, u: int, p: int)
    requires IsPost(t, p)
    ensures var t' := LikeFlipped(t, u, p);
      var d := if (u, p) in t.likes then -1 else 1;
      && ((u, p) in t'.likes <==> (u, p) !in t.likes)
      && (forall l | l != (u, p) :: l in t'.likes <==> l in t.likes)
      && |t'.posts| == |t.posts|
      && t'.posts[p - 1] == t.posts[p - 1].(likesCount := t.posts[p - 1].likesCount + d)
      && (forall i | 0 <= i < |t.posts| && i != p - 1 :: t'.posts[i] == t.posts[i])
      && t'.users == t.users && t'.follows == t.follows && t'.timeline == t.timeline
  {
  }

  lemma LikersFlip(likes: set<(int, int)>, u: int, p: int, q: int)
    ensures (u, p) !in likes ==>
      && Likers(likes + {(u, p)}, q) == (if q == p then Likers(likes, q) + {u} else Likers(likes, q))
      && (q == p ==> u !in Likers(likes, q))
    ensures (u, p) in likes ==>
      && Likers(likes - {(u, p)}, q) == (if q == p then Likers(likes, q) - {u} else Likers(likes, q))
      && (q == p ==> u in Likers(likes, q))
  {
  }

  /** A committed like or unlike keeps likes_count equal to the row count. */
  lemma LikeFlippedConsistent(t: Tables, u: int, p: int)
    requires Consistent(t) && IsUser(t, u) && IsPost(t, p)
    ensures Consistent(LikeFlipped(t, u, p))
  {
    var t' := LikeFlipped(t, u, p);
    LikeFlippedEffect(t, u, p);
    forall i | 0 <= i < |t'.posts|
      ensures t'.posts[i].likesCount == |Likers(t'.likes, i + 1)|
    {
      LikersFlip(t.likes, u, p, i + 1);
    }
  }

  /** Liking and unliking again restores the likes and the counter. */
  lemma LikeFlippedTwice(t: Tables, u: int, p: int)
    requires IsPost(t, p)
    ensures LikeFlipped(LikeFlipped(t, u, p), u, p) == t
  {
    var t1 := LikeFlipped(t, u, p);
    var t2 := LikeFlipped(t1, u, p);
    LikeFlippedEffect(t, u, p);
    LikeFlippedEffect(t1, u, p);
    assert t2.likes == t.likes;
    assert t2.posts == t.posts;
  }

  // ---------------------------------------------------------------------
  // Inserts
  // ---------------------------------------------------------------------

  /** `insert into users(email, username)`: counters start at zero. */
  function UserInserted(t: Tables, email: string, username: string): Tables {
    t.(users := t.users + [UserRow(email, username, None, 0, 0)])
  }

  /** A new user with an unused email and username keeps the tables consistent. */
  lemma UserInsertedConsistent(t: Tables, email: string, username: string)
    requires Consistent(t) && !EmailTaken(t, email) && !UsernameTaken(t, username)
    ensures Consistent(UserInserted(t, email, username))
  {
    var t' := UserInserted(t, email, username);
    var id := |t'.users|;
    assert Followers(t.follows, id) == {};
    assert Followees(t.follows, id) == {};
  }

  /** `insert into posts (...)`: likes_count starts at zero. */
  function PostInserted(t: Tables, author: int, content: string, spoilerOf: Option<string>, nsfw: bool): Tables {
    t.(posts := t.posts + [PostRow(author, content, spoilerOf, nsfw, 0)])
  }

  lemma PostInsertedConsistent(t: Tables, author: int, content: string, spoilerOf: Option<string>, nsfw: bool)
    requires Consistent(t)
    ensures Consistent(PostInserted(t, author, content, spoilerOf, nsfw))
  {
    var t' := PostInserted(t, author, content, spoilerOf, nsfw);
    assert Likers(t.likes, |t'.posts|) == {};
  }

  /** `insert into timeline (user_id, post_id)`. */
  function ItemInserted(t: Tables, owner: int, post: int): Tables {
    t.(timeline := t.timeline + [TimelineRow(owner, post)])
  }

  /** The rows the fan-out statement inserts: one per follower, in the order
      the database produces them. */
  function FanoutRows(order: seq<int>, post: int): (rows: seq<TimelineRow>)
    ensures |rows| == |order|
    ensures forall i | 0 <= i < |order| :: rows[i] == TimelineRow(order[i], post)
  {
    seq(|order|, i requires 0 <= i < |order| => TimelineRow(order[i], post))
  }

  function FannedOut(t: Tables, order: seq<int>, post: int): Tables {
    t.(timeline := t.timeline + FanoutRows(order, post))
  }

  /** How many timeline rows show `post`. */
  function ItemsOf(timeline: seq<TimelineRow>, post: int): nat {
    if timeline == [] then 0
    else (if timeline[0].postId == post then 1 else 0) + ItemsOf(timeline[1..], post)
  }

  lemma {:induction false} ItemsOfAppend(a: seq<TimelineRow>, b: seq<TimelineRow>, post: int)
    ensures ItemsOf(a + b, post) == ItemsOf(a, post) + ItemsOf(b, post)
    decreases |a|
  {
    if a == [] {
      assert a + b == b;
    } else {
      assert (a + b)[0] == a[0];
      assert (a + b)[1..] == a[1..] + b;
      ItemsOfAppend(a[1..], b, post);
    }
  }

  lemma {:induction false} ItemsOfFanout(order: seq<int>, post: int)
    ensures ItemsOf(FanoutRows(order, post), post) == |order|
    decreases |order|
  {
    if order != [] {
      assert FanoutRows(order, post)[1..] == FanoutRows(order[1..], post);
      ItemsOfFanout(order[1..], post);
    }
  }

  /** Fan-out completeness: after the author's own item and the fan-out, a
      post by an author with N followers is on N + 1 timelines, and the
      new rows belong exactly to the followers. */
  lemma FanoutComplete(t: Tables, author: int, post: int, order: seq<int>)
    requires ItemsOf(t.timeline, post) == 0
    requires IsEnumeration(order, Followers(t.follows, author))
    ensures var t' := FannedOut(ItemInserted(t, author, post), order, post);
      && ItemsOf(t'.timeline, post) == |Followers(t.follows, author)| + 1
      && (forall i | |t.timeline| < i < |t'.timeline| :: t'.timeline[i].userId in Followers(t.follows, author))
      && (forall f | f in Followers(t.follows, author) ::
            exists i | |t.timeline| < i < |t'.timeline| :: t'.timeline[i] == TimelineRow(f, post))
  {
    var t1 := ItemInserted(t, author, post);
    var t' := FannedOut(t1, order, post);
    var rows := FanoutRows(order, post);
    ItemsOfAppend(t.timeline, [TimelineRow(author, post)], post);
    ItemsOfAppend(t1.timeline, rows, post);
    ItemsOfFanout(order, post);
    EnumerationSize(order, Followers(t.follows, author));
    assert forall i | |t.timeline| < i < |t'.timeline| :: t'.timeline[i] == rows[i - |t1.timeline|];
    forall f | f in Followers(t.follows, author)
      ensures exists i | |t.timeline| < i < |t'.timeline| :: t'.timeline[i] == TimelineRow(f, post)
    {
      var k :| 0 <= k < |order| && order[k] == f;
      assert t'.timeline[|t1.timeline| + k] == rows[k];
    }
  }
}
