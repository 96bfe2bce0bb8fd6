/** The `Service` methods of internal/services/user.go and post.go that
    write: CreateUser, ToggleFollow, CreatePost with its fan-out, and
    TogglePostLike.

    The database is the `db` field. A transaction works on a local copy
    `tx`: a commit writes it back, and the deferred `tx.Rollback()` is the
    copy being dropped on every other path. Whether a statement fails for a
    reason outside the model (connection loss, a broken SQL text) is
    decided by the `failing` parameter; constraint violations the model
    can see (unique and foreign keys) are checked against the tables. */
module Services {
  import opened Common
  import opened GoStrings
  import opened Models
  import opened Store
  import Users
  import Posts

  /** The statements the core issues, one constructor each. */
  datatype Stmt =
    | BeginTx | CommitTx
    | InsertUser
    | SelectFollowee | SelectFollowExists
    | DeleteFollow | DecFollowees | DecFollowers
    | InsertFollow | IncFollowees | IncFollowers
    | InsertPost | InsertAuthorItem | SelectAuthor | FanoutInsert
    | SelectLikeExists | DeleteLike | DecLikes | InsertLike | IncLikes

  datatype ServiceError =
    | BadEmail            // "bad email address"
    | BadUsername         // "bad username"
    | CouldNotInsertUser  // "could not insert user"
    | NotAuthenticated    // "user not authenticated"
    | InvalidUsername     // "invalid username"
    | UserNotFound        // "could not find user"
    | CannotFollowSelf    // "you cannot follow yourself"
    | Unauthorized        // "unauthorized"
    | BadContent          // "bad content"
    | InvalidSpoiler      // "invalid spoiler"
    | DbFailure(stmt: Stmt)

  datatype ToggleFollowOutput = ToggleFollowOutput(following: bool, followersCount: int)

  datatype ToggleLikeOutput = ToggleLikeOutput(liked: bool, likesCount: int)

  /** Every statement ToggleFollow runs succeeds. */
  predicate FollowSucceeds(t: Tables, auth: Option<int>, name: string, failing: set<Stmt>) {
    && auth.Some?
    && Users.ValidUsername(name)
    && BeginTx !in failing && SelectFollowee !in failing
    && UserIdByName(t, name).Some?
    && UserIdByName(t, name).value != auth.value
    && SelectFollowExists !in failing
    && CommitTx !in failing
    && var f, e := auth.value, UserIdByName(t, name).value;
       if (f, e) in t.follows
       then DeleteFollow !in failing && DecFollowees !in failing && DecFollowers !in failing
       else InsertFollow !in failing && IsUser(t, f) && IncFollowees !in failing && IncFollowers !in failing
  }

  /** Every statement TogglePostLike runs up to its return succeeds. */
  predicate LikeSucceeds(t: Tables, auth: Option<int>, post: int, failing: set<Stmt>) {
    && auth.Some?
    && BeginTx !in failing && SelectLikeExists !in failing
    && IsPost(t, post)
    && if (auth.value, post) in t.likes
       then DeleteLike !in failing && DecLikes !in failing
       else InsertLike !in failing && IsUser(t, auth.value) && IncLikes !in failing && CommitTx !in failing
  }

  /** The same, for the toggle that also commits the unlike. */
  predicate FlipSucceeds(t: Tables, auth: Option<int>, post: int, failing: set<Stmt>) {
    && auth.Some?
    && BeginTx !in failing && SelectLikeExists !in failing
    && IsPost(t, post)
    && (if (auth.value, post) in t.likes
        then DeleteLike !in failing && DecLikes !in failing
        else InsertLike !in failing && IsUser(t, auth.value) && IncLikes !in failing)
    && CommitTx !in failing
  }

  /** One row returned by the fan-out insert, (id, user_id), as a timeline
      item for `p`: the row's user owns the item. */
  function ScanFanoutRow(id: int, owner: int, p: Post): (item: TimelineItem)
    ensures item.id == id && item.userId == owner
    ensures item.postId == p.id && item.post == p
  {
    TimelineItem(id, owner, p.id, p)
  }

  /** The same scan as the source writes it: user_id lands in PostId, which
      is then overwritten with the post's id, so UserId keeps its zero value. */
  function ScanFanoutRowAsWritten(id: int, owner: int, p: Post): (item: TimelineItem)
    ensures item.id == id && item.postId == p.id && item.post == p
    ensures item.userId == 0
  {
    var item := ZeroItem.(id := id, postId := owner);
    item.(postId := p.id, post := p)
  }

  /** The as-written scan drops the owner: no follower's item says whose
      timeline it is on (user ids start at 1). */
  lemma FanoutScanDropsOwner(id: int, owner: int, p: Post)
    requires owner >= 1
    ensures ScanFanoutRowAsWritten(id, owner, p).userId != owner
    ensures ScanFanoutRow(id, owner, p).userId == owner
  {
  }

  class Service {
    var db: Tables

    ghost predicate Valid()
      reads this
    {
      Consistent(db)
    }

    constructor (t: Tables)
      requires Consistent(t)
      ensures Valid() && db == t
    {
      db := t;
    }

    /** `CreateUser`: validate, then one insert, which the unique email and
        username columns refuse for a taken value. */
    method CreateUser(email: string, username: string, failing: set<Stmt>)
      returns (r: Result<(), ServiceError>)
      requires Valid()
      modifies this
      ensures Valid()
      ensures Users.ValidateNewUser(email, username) == Err(Users.BadEmail) ==> r == Err(BadEmail)
      ensures Users.ValidateNewUser(email, username) == Err(Users.BadUsername) ==> r == Err(BadUsername)
      ensures r.Err? ==> db == old(db)
      ensures var v := Users.ValidateNewUser(email, username);
        v.Ok? ==>
          if InsertUser in failing || EmailTaken(old(db), v.value.email) || UsernameTaken(old(db), v.value.username)
          then r == Err(CouldNotInsertUser)
          else r == Ok(()) && db == UserInserted(old(db), v.value.email, v.value.username)
    {
      var v := Users.ValidateNewUser(email, username);
      if v.Err? {
        return if v.error == Users.BadEmail then Err(BadEmail) else Err(BadUsername);
      }
      var e, u := v.value.email, v.value.username;
      if InsertUser in failing || EmailTaken(db, e) || UsernameTaken(db, u) {
        return Err(CouldNotInsertUser);
      }
      UserInsertedConsistent(db, e, u);
      db := UserInserted(db, e, u);
      r := Ok(());
    }

    /** `ToggleFollow`: the signed-in user `auth` follows or unfollows
        `username` in one transaction. */
    method ToggleFollow(auth: Option<int>, username: string, failing: set<Stmt>)
      returns (r: Result<ToggleFollowOutput, ServiceError>)
      requires Valid()
      modifies this
      ensures Valid()
      ensures auth.None? ==> r == Err(NotAuthenticated)
      ensures auth.Some? && !Users.ValidUsername(TrimSpace(username)) ==> r == Err(InvalidUsername)
      ensures auth.Some? && Users.ValidUsername(TrimSpace(username)) && BeginTx !in failing
              && (SelectFollowee in failing || UserIdByName(old(db), TrimSpace(username)).None?)
              ==> r == Err(UserNotFound)
      ensures auth.Some? && Users.ValidUsername(TrimSpace(username)) && BeginTx !in failing
              && SelectFollowee !in failing && UserIdByName(old(db), TrimSpace(username)) == Some(auth.value)
              ==> r == Err(CannotFollowSelf)
      ensures r.Ok? <==> FollowSucceeds(old(db), auth, TrimSpace(username), failing)
      ensures r.Err? ==> db == old(db)
      ensures r.Ok? ==>
        var f, e := auth.value, UserIdByName(old(db), TrimSpace(username)).value;
        && db == FollowToggled(old(db), f, e)
        && r.value == ToggleFollowOutput((f, e) !in old(db).follows, db.users[e - 1].followersCount)
    {
      if auth.None? {
        return Err(NotAuthenticated);
      }
      var followerId := auth.value;
      var name := TrimSpace(username);
      Users.MatchUsernameCorrect(name);
      if !Users.MatchUsername(name) {
        return Err(InvalidUsername);
      }
      if BeginTx in failing {
        return Err(DbFailure(BeginTx));
      }
      var tx := db;
      var found := UserIdByName(tx, name);
      if SelectFollowee in failing || found.None? {
        return Err(UserNotFound);
      }
      var followeeId := found.value;
      if followeeId == followerId {
        return Err(CannotFollowSelf);
      }
      if SelectFollowExists in failing {
        return Err(DbFailure(SelectFollowExists));
      }
      var following := (followerId, followeeId) in tx.follows;
      var count: int;
      if following {
        if DeleteFollow in failing {
          return Err(DbFailure(DeleteFollow));
        }
        tx := tx.(follows := tx.follows - {(followerId, followeeId)});
        if DecFollowees in failing {
          return Err(DbFailure(DecFollowees));
        }
        tx := AddFollowees(tx, followerId, -1);
        if DecFollowers in failing {
          return Err(DbFailure(DecFollowers));
        }
        tx := AddFollowers(tx, followeeId, -1);
        count := tx.users[followeeId - 1].followersCount;
      } else {
        if InsertFollow in failing || !IsUser(tx, followerId) {
          return Err(DbFailure(InsertFollow));
        }
        tx := tx.(follows := tx.follows + {(followerId, followeeId)});
        if IncFollowees in failing {
          return Err(DbFailure(IncFollowees));
        }
        tx := AddFollowees(tx, followerId, 1);
        if IncFollowers in failing {
          return Err(DbFailure(IncFollowers));
        }
        tx := AddFollowers(tx, followeeId, 1);
        count := tx.users[followeeId - 1].followersCount;
      }
      if CommitTx in failing {
        return Err(DbFailure(CommitTx));
      }
      assert IsUser(db, followerId);
      FollowToggledConsistent(db, followerId, followeeId);
      db := tx;
      r := Ok(ToggleFollowOutput(!following, count));
    }

    /** `TogglePostLike` as written: the unlike branch returns without
        committing, so the deferred rollback undoes it, and its answer
        keeps `Liked` true while reporting the decremented count. */
    method TogglePostLike(auth: Option<int>, postId: int, failing: set<Stmt>)
      returns (r: Result<ToggleLikeOutput, ServiceError>)
      requires Valid()
      modifies this
      ensures Valid()
      ensures auth.None? ==> r == Err(Unauthorized)
      ensures r.Ok? <==> LikeSucceeds(old(db), auth, postId, failing)
      ensures r.Err? ==> db == old(db)
      ensures r.Ok? && (auth.value, postId) in old(db).likes ==>
        && db == old(db)
        && r.value == ToggleLikeOutput(true, old(db).posts[postId - 1].likesCount - 1)
      ensures r.Ok? && (auth.value, postId) !in old(db).likes ==>
        && db == LikeAdded(old(db), auth.value, postId)
        && r.value == ToggleLikeOutput(true, db.posts[postId - 1].likesCount)
    {
      if auth.None? {
        return Err(Unauthorized);
      }
      var userId := auth.value;
      if BeginTx in failing {
        return Err(DbFailure(BeginTx));
      }
      var tx := db;
      if SelectLikeExists in failing {
        return Err(DbFailure(SelectLikeExists));
      }
      var liked := (userId, postId) in tx.likes;
      if liked {
        if DeleteLike in failing {
          return Err(DbFailure(DeleteLike));
        }
        tx := tx.(likes := tx.likes - {(userId, postId)});
        if DecLikes in failing || !IsPost(tx, postId) {
          return Err(DbFailure(DecLikes));
        }
        tx := AddLikes(tx, postId, -1);
        r := Ok(ToggleLikeOutput(liked, tx.posts[postId - 1].likesCount));
      } else {
        if InsertLike in failing || !IsUser(tx, userId) || !IsPost(tx, postId) {
          return Err(DbFailure(InsertLike));
        }
        tx := tx.(likes := tx.likes + {(userId, postId)});
        if IncLikes in failing {
          return Err(DbFailure(IncLikes));
        }
        tx := AddLikes(tx, postId, 1);
        var count := tx.posts[postId - 1].likesCount;
        if CommitTx in failing {
          return Err(DbFailure(CommitTx));
        }
        LikeFlippedConsistent(db, userId, postId);
        db := tx;
        r := Ok(ToggleLikeOutput(!liked, count));
      }
    }

    /** The like toggle as evidently intended: both branches commit and
        `Liked` is the negation of the prior state. */
    method TogglePostLikeFixed(auth: Option<int>, postId: int, failing: set<Stmt>)
      returns (r: Result<ToggleLikeOutput, ServiceError>)
      requires Valid()
      modifies this
      ensures Valid()
      ensures auth.None? ==> r == Err(Unauthorized)
      ensures r.Ok? <==> FlipSucceeds(old(db), auth, postId, failing)
      ensures r.Err? ==> db == old(db)
      ensures r.Ok? ==>
        && db == LikeFlipped(old(db), auth.value, postId)
        && r.value == ToggleLikeOutput((auth.value, postId) !in old(db).likes, db.posts[postId - 1].likesCount)
    {
      if auth.None? {
        return Err(Unauthorized);
      }
      var userId := auth.value;
      if BeginTx in failing {
        return Err(DbFailure(BeginTx));
      }
      var tx := db;
      if SelectLikeExists in failing {
        return Err(DbFailure(SelectLikeExists));
      }
      var liked := (userId, postId) in tx.likes;
      if liked {
        if DeleteLike in failing {
          return Err(DbFailure(DeleteLike));
        }
        tx := tx.(likes := tx.likes - {(userId, postId)});
        if DecLikes in failing || !IsPost(tx, postId) {
          return Err(DbFailure(DecLikes));
        }
        tx := AddLikes(tx, postId, -1);
      } else {
        if InsertLike in failing || !IsUser(tx, userId) || !IsPost(tx, postId) {
          return Err(DbFailure(InsertLike));
        }
        tx := tx.(likes := tx.likes + {(userId, postId)});
        if IncLikes in failing {
          return Err(DbFailure(IncLikes));
        }
        tx := AddLikes(tx, postId, 1);
      }
      var count := tx.posts[postId - 1].likesCount;
      if CommitTx in failing {
        return Err(DbFailure(CommitTx));
      }
      assert IsUser(db, userId);
      LikeFlippedConsistent(db, userId, postId);
      db := tx;
      r := Ok(ToggleLikeOutput(!liked, count));
    }

    /** `fanoutPost`: one statement inserts a timeline row for every
        follower of the author, in the order `order` the database returns
        them; the loop turns the returned rows into items with the scan as
        written, so no item names the follower it was made for. */
    method FanoutPost(p: Post, order: seq<int>, failing: set<Stmt>)
      returns (r: Result<seq<TimelineItem>, ServiceError>)
      requires Valid()
      requires IsEnumeration(order, Followers(db.follows, p.userId))
      modifies this
      ensures Valid()
      ensures FanoutInsert in failing ==> r == Err(DbFailure(FanoutInsert)) && db == old(db)
      ensures FanoutInsert !in failing ==>
        && db == FannedOut(old(db), order, p.id)
        && r.Ok? && |r.value| == |order|
        && forall i | 0 <= i < |order| :: r.value[i] == ScanFanoutRowAsWritten(|old(db).timeline| + 1 + i, order[i], p)
    {
      if FanoutInsert in failing {
        return Err(DbFailure(FanoutInsert));
      }
      var firstId := |db.timeline| + 1;
      db := FannedOut(db, order, p.id);
      var items: seq<TimelineItem> := [];
      var i := 0;
      while i < |order|
        invariant 0 <= i <= |order|
        invariant |items| == i
        invariant forall j | 0 <= j < i :: items[j] == ScanFanoutRowAsWritten(firstId + j, order[j], p)
      {
        var row := db.timeline[firstId - 1 + i];
        items := items + [ScanFanoutRowAsWritten(firstId + i, row.userId, p)];
        i := i + 1;
      }
      r := Ok(items);
    }

    /** The fan-out as evidently intended: each returned row's user_id
        becomes the owner of its item. The tables change as in `FanoutPost`. */
    method FanoutPostFixed(p: Post, order: seq<int>, failing: set<Stmt>)
      returns (r: Result<seq<TimelineItem>, ServiceError>)
      requires Valid()
      requires IsEnumeration(order, Followers(db.follows, p.userId))
      modifies this
      ensures Valid()
      ensures FanoutInsert in failing ==> r == Err(DbFailure(FanoutInsert)) && db == old(db)
      ensures FanoutInsert !in failing ==>
        && db == FannedOut(old(db), order, p.id)
        && r.Ok? && |r.value| == |order|
        && forall i | 0 <= i < |order| :: r.value[i] == ScanFanoutRow(|old(db).timeline| + 1 + i, order[i], p)
    {
      if FanoutInsert in failing {
        return Err(DbFailure(FanoutInsert));
      }
      var firstId := |db.timeline| + 1;
      db := FannedOut(db, order, p.id);
      var items: seq<TimelineItem> := [];
      var i := 0;
      while i < |order|
        invariant 0 <= i <= |order|
        invariant |items| == i
        invariant forall j | 0 <= j < i :: items[j] == ScanFanoutRow(firstId + j, order[j], p)
      {
        var row := db.timeline[firstId - 1 + i];
        items := items + [ScanFanoutRow(firstId + i, row.userId, p)];
        i := i + 1;
      }
      r := Ok(items);
    }

    /** The transaction of `CreatePost`: insert the post and the author's
        timeline item. The commit's error is not checked, so the answer is
        a success even when the commit fails and nothing is stored. */
    method StorePost(userId: int, text: string, spoiler: Option<string>, nsfw: bool, failing: set<Stmt>)
      returns (r: Result<TimelineItem, ServiceError>)
      requires Valid()
      modifies this
      ensures Valid()
      ensures r.Ok? <==> BeginTx !in failing && InsertPost !in failing && InsertAuthorItem !in failing
      ensures r.Err? ==> db == old(db)
      ensures r.Ok? ==>
        var postId := |old(db).posts| + 1;
        && r.value == TimelineItem(|old(db).timeline| + 1, userId, postId,
                                   Post(postId, userId, text, spoiler, nsfw, ZeroUser, true))
        && db == if CommitTx in failing then old(db)
                 else ItemInserted(PostInserted(old(db), userId, text, spoiler, nsfw), userId, postId)
    {
      if BeginTx in failing {
        return Err(DbFailure(BeginTx));
      }
      var tx := db;
      if InsertPost in failing {
        return Err(DbFailure(InsertPost));
      }
      var postId := |tx.posts| + 1;
      tx := PostInserted(tx, userId, text, spoiler, nsfw);
      if InsertAuthorItem in failing {
        return Err(DbFailure(InsertAuthorItem));
      }
      var itemId := |tx.timeline| + 1;
      tx := ItemInserted(tx, userId, postId);
      if CommitTx !in failing {
        PostInsertedConsistent(db, userId, text, spoiler, nsfw);
        db := tx;
      }
      r := Ok(TimelineItem(itemId, userId, postId, Post(postId, userId, text, spoiler, nsfw, ZeroUser, true)));
    }

    /** `CreatePost`: validate, store, answer, then fan out. The fan-out (a
        goroutine in the source, run here after the answer is built) loads
        the author, marks the post as not the reader's own and copies it to
        the followers' timelines; its failure is only logged. */
    method CreatePost(auth: Option<int>, content: string, spoilerOf: Option<string>, nsfw: bool,
                      order: seq<int>, failing: set<Stmt>)
      returns (r: Result<TimelineItem, ServiceError>)
      requires Valid()
      requires auth.Some? ==> IsEnumeration(order, Followers(db.follows, auth.value))
      modifies this
      ensures Valid()
      ensures auth.None? ==> r == Err(Unauthorized)
      ensures auth.Some? && Posts.CheckContent(content).Err? ==> r == Err(BadContent)
      ensures auth.Some? && Posts.CheckContent(content).Ok? && Posts.CheckSpoiler(spoilerOf).Err?
              ==> r == Err(InvalidSpoiler)
      ensures r.Ok? <==>
        && auth.Some? && Posts.ValidatePost(content, spoilerOf).Ok?
        && BeginTx !in failing && InsertPost !in failing && InsertAuthorItem !in failing
      ensures r.Err? ==> db == old(db)
      ensures r.Ok? ==>
        var u, v := auth.value, Posts.ValidatePost(content, spoilerOf).value;
        var postId := |old(db).posts| + 1;
        var stored := ItemInserted(PostInserted(old(db), u, v.content, v.spoilerOf, nsfw), u, postId);
        var committed := if CommitTx in failing then old(db) else stored;
        && r.value == TimelineItem(|old(db).timeline| + 1, u, postId,
                                   Post(postId, u, v.content, v.spoilerOf, nsfw, ZeroUser, true))
        && db == if FanoutInsert in failing then committed else FannedOut(committed, order, postId)
    {
      if auth.None? {
        return Err(Unauthorized);
      }
      var userId := auth.value;
      var input := Posts.ValidatePost(content, spoilerOf);
      if input.Err? {
        return if input.error == Posts.BadContent then Err(BadContent) else Err(InvalidSpoiler);
      }
      r := StorePost(userId, input.value.content, input.value.spoilerOf, nsfw, failing);
      if r.Err? {
        return;
      }
      var author := UserById(db, userId);
      var user := if SelectAuthor in failing || author.None? then ZeroUser else author.value;
      var _ := FanoutPost(r.value.post.(user := user, mine := false), order, failing);
    }
  }

  /** A user likes a post twice through the toggle as written: the second
      call reports `Liked` true with a count of 0, while the like and the
      count of 1 stay stored. The evident intent is an unlike. */
  method LikeTwiceAsWritten() returns (first: Result<ToggleLikeOutput, ServiceError>,
                                      second: Result<ToggleLikeOutput, ServiceError>,
                                      s: Service)
    ensures first == Ok(ToggleLikeOutput(true, 1))
    ensures second == Ok(ToggleLikeOutput(true, 0))
    ensures s.db.likes == {(1, 1)} && |s.db.posts| == 1 && s.db.posts[0].likesCount == 1
  {
    var t := Tables([UserRow("a@example.org", "alice", None, 0, 0)], {},
                    [PostRow(1, "hello", None, false, 0)], {}, []);
    assert Likers(t.likes, 1) == {};
    s := new Service(t);
    first := s.TogglePostLike(Some(1), 1, {});
    second := s.TogglePostLike(Some(1), 1, {});
  }

  /** The same two calls through the corrected toggle: the second one
      unlikes, and the tables are back where they started. */
  method LikeTwiceFixed() returns (first: Result<ToggleLikeOutput, ServiceError>,
                                  second: Result<ToggleLikeOutput, ServiceError>,
                                  s: Service)
    ensures first == Ok(ToggleLikeOutput(true, 1))
    ensures second == Ok(ToggleLikeOutput(false, 0))
    ensures s.db.likes == {} && |s.db.posts| == 1 && s.db.posts[0].likesCount == 0
  {
    var t := Tables([UserRow("a@example.org", "alice", None, 0, 0)], {},
                    [PostRow(1, "hello", None, false, 0)], {}, []);
    assert Likers(t.likes, 1) == {};
    s := new Service(t);
    first := s.TogglePostLikeFixed(Some(1), 1, {});
    second := s.TogglePostLikeFixed(Some(1), 1, {});
  }
}
