/** `like.controller.js`: the two like toggles and the three read views over likes. */
module LikeController {
  import opened Common
  import opened Seqs
  import opened UserModel
  import opened PostModel
  import opened CommentModel
  import opened LikeModel

  /** Every like names exactly one target, as both toggles create them. The schema itself
      does not demand this. */
  ghost predicate SingleTargets(rows: seq<Like>)
  {
    forall i :: 0 <= i < |rows| ==> rows[i].post.Some? != rows[i].comment.Some?
  }

  /** The like a toggle creates: `{likedBy, post}` or `{comment, likedBy}`. */
  function NewLike(id: Id, user: Id, t: LikeTarget, now: nat): (l: Like)
    ensures IsLikeOf(l, user, t) && l.post.Some? != l.comment.Some?
  {
    Like(id, user, PostField(t), CommentField(t), now)
  }

  /** Who liked what, ignoring ids and timestamps. */
  function Signature(l: Like): (Id, Option<Id>, Option<Id>)
  {
    (l.likedBy, l.post, l.comment)
  }

  function Signatures(rows: seq<Like>): multiset<(Id, Option<Id>, Option<Id>)>
  {
    multiset(Map(rows, Signature))
  }

  /** The likes after `user` toggles `t`: the first like of `user` for `t` is deleted if
      there is one, otherwise a new like is created, which a unique index may refuse. */
  function ToggleLikeRows(rows: seq<Like>, nextId: Id, user: Id, t: LikeTarget, now: nat)
    : (r: Result<seq<Like>>)
    ensures r.Err? <==> FindLike(rows, user, t).None? && Clashes(rows, user, PostField(t), CommentField(t))
    ensures r.Err? ==> r.error == Unhandled
    ensures r.Ok? && FindLike(rows, user, t).Some? ==>
      var k := FindLike(rows, user, t).value;
      IsLikeOf(rows[k], user, t) && multiset(r.value) + multiset{rows[k]} == multiset(rows)
    ensures r.Ok? && FindLike(rows, user, t).None? ==> r.value == rows + [NewLike(nextId, user, t, now)]
    ensures r.Ok? ==> forall l :: !IsLikeOf(l, user, t) ==> multiset(r.value)[l] == multiset(rows)[l]
  {
    match FindLike(rows, user, t)
    case Some(k) => Ok(RemoveAt(rows, k))
    case None =>
      if Clashes(rows, user, PostField(t), CommentField(t)) then Err(Unhandled)
      else
        Ok(rows + [NewLike(nextId, user, t, now)])
  }

  /** The store before (`rows0`, `next0`) and after (`rows1`, `next1`) a toggle, and its
      reply `r`: null after an unlike, the new like after a like. */
  ghost predicate ToggleEffect(rows0: seq<Like>, next0: Id, rows1: seq<Like>, next1: Id,
                               user: Id, t: LikeTarget, now: nat, r: Result<Option<Like>>)
  {
    var s := ToggleLikeRows(rows0, next0, user, t, now);
    && (s.Err? ==> r == Err(Unhandled) && rows1 == rows0 && next1 == next0)
    && (s.Ok? ==> rows1 == s.value)
    && (s.Ok? && |s.value| < |rows0| ==> r == Ok(None) && next1 == next0)
    && (s.Ok? && |s.value| > |rows0| ==> r == Ok(Some(s.value[|rows0|])) && next1 == next0 + 1)
  }

  /** Delete the caller's like on `t` if there is one, else create it. */
  method ToggleLike(likes: LikeTable, user: Id, t: LikeTarget, now: nat) returns (r: Result<Option<Like>>)
    requires likes.Valid()
    modifies likes
    ensures likes.Valid()
    ensures ToggleEffect(old(likes.rows), old(likes.nextId), likes.rows, likes.nextId, user, t, now, r)
  {
    var existing := FindLike(likes.rows, user, t);
    if existing.Some? {
      likes.DeleteAt(existing.value);
      r := Ok(None);
    } else {
      var created := likes.Create(user, PostField(t), CommentField(t), now);
      if created.Err? {
        r := Err(Unhandled);
      } else {
        r := Ok(Some(created.value));
      }
    }
  }

  /** `toggleLikePost`: 400 without a post id, 404 for a missing post, otherwise the toggle. */
  method ToggleLikePost(posts: PostTable, likes: LikeTable, user: Id, postId: Option<Id>, now: nat)
    returns (r: Result<Option<Like>>)
    requires likes.Valid()
    modifies likes
    ensures likes.Valid()
    ensures postId.None? ==> r == Err(BadRequest) && unchanged(likes)
    ensures postId.Some? && FindPost(posts.rows, postId.value).None? ==> r == Err(NotFound) && unchanged(likes)
    ensures postId.Some? && FindPost(posts.rows, postId.value).Some? ==>
      ToggleEffect(old(likes.rows), old(likes.nextId), likes.rows, likes.nextId, user, OnPost(postId.value), now, r)
  {
    if postId.None? {
      return Err(BadRequest);
    }
    if FindPost(posts.rows, postId.value).None? {
      return Err(NotFound);
    }
    r := ToggleLike(likes, user, OnPost(postId.value), now);
  }

  /** `toggleCommentLike`: 400 without a comment id, 404 for a missing comment, otherwise
      the toggle. */
  method ToggleCommentLike(comments: CommentTable, likes: LikeTable, user: Id, commentId: Option<Id>, now: nat)
    returns (r: Result<Option<Like>>)
    requires likes.Valid()
    modifies likes
    ensures likes.Valid()
    ensures commentId.None? ==> r == Err(BadRequest) && unchanged(likes)
    ensures commentId.Some? && FindComment(comments.rows, commentId.value).None? ==>
      r == Err(NotFound) && unchanged(likes)
    ensures commentId.Some? && FindComment(comments.rows, commentId.value).Some? ==>
      ToggleEffect(old(likes.rows), old(likes.nextId), likes.rows, likes.nextId, user, OnComment(commentId.value), now, r)
  {
    if commentId.None? {
      return Err(BadRequest);
    }
    if FindComment(comments.rows, commentId.value).None? {
      return Err(NotFound);
    }
    r := ToggleLike(likes, user, OnComment(commentId.value), now);
  }

  /** The unique indexes leave at most one like of `user` for `t`. */
  lemma AtMostOneLikeOf(rows: seq<Like>, nextId: Id, user: Id, t: LikeTarget, i: nat, j: nat)
    requires LikesValid(rows, nextId)
    requires i < |rows| && j < |rows| && IsLikeOf(rows[i], user, t) && IsLikeOf(rows[j], user, t)
    ensures i == j
  {
    if i < j {
      assert SameIndexKey(rows[i], rows[j].likedBy, rows[j].post, rows[j].comment);
    } else if j < i {
      assert SameIndexKey(rows[j], rows[i].likedBy, rows[i].post, rows[i].comment);
    }
  }

  lemma SingleTargetsRemoveAt(rows: seq<Like>, k: nat)
    requires SingleTargets(rows) && k < |rows|
    ensures SingleTargets(RemoveAt(rows, k))
  {
    var r := RemoveAt(rows, k);
    forall i | 0 <= i < |r| ensures r[i].post.Some? != r[i].comment.Some? {
      assert r[i] == rows[if i < k then i else i + 1];
    }
  }

  lemma SingleTargetsAppend(rows: seq<Like>, l: Like)
    requires SingleTargets(rows) && l.post.Some? != l.comment.Some?
    ensures SingleTargets(rows + [l])
  {
    var r := rows + [l];
    forall i | 0 <= i < |r| ensures r[i].post.Some? != r[i].comment.Some? {
      if i < |rows| {
        assert r[i] == rows[i];
      }
    }
  }

  /** A toggle keeps both unique indexes satisfied and every like single-target. */
  lemma ToggleKeepsValid(rows: seq<Like>, nextId: Id, user: Id, t: LikeTarget, now: nat)
    requires LikesValid(rows, nextId) && SingleTargets(rows)
    requires ToggleLikeRows(rows, nextId, user, t, now).Ok?
    ensures var r := ToggleLikeRows(rows, nextId, user, t, now).value;
      LikesValid(r, if |r| > |rows| then nextId + 1 else nextId) && SingleTargets(r)
  {
    match FindLike(rows, user, t)
    case Some(k) =>
      RemoveKeepsValid(rows, nextId, k);
      SingleTargetsRemoveAt(rows, k);
    case None =>
      var l := NewLike(nextId, user, t, now);
      assert ToggleLikeRows(rows, nextId, user, t, now).value == rows + [l];
      AppendKeepsValid(rows, nextId, l);
      SingleTargetsAppend(rows, l);
  }

  lemma SignaturesAppend(rows: seq<Like>, l: Like)
    ensures Signatures(rows + [l]) == Signatures(rows) + multiset{Signature(l)}
  {
    assert Map(rows + [l], Signature) == Map(rows, Signature) + [Signature(l)];
  }

  lemma SignaturesRemoveAt(rows: seq<Like>, k: nat)
    requires k < |rows|
    ensures Signatures(RemoveAt(rows, k)) + multiset{Signature(rows[k])} == Signatures(rows)
  {
    assert Map(RemoveAt(rows, k), Signature) == RemoveAt(Map(rows, Signature), k);
  }

  /** Liking and then unliking restores the collection exactly. */
  lemma LikeThenUnlike(rows: seq<Like>, nextId: Id, user: Id, t: LikeTarget, now1: nat, now2: nat)
    requires FindLike(rows, user, t).None?
    requires ToggleLikeRows(rows, nextId, user, t, now1).Ok?
    ensures ToggleLikeRows(ToggleLikeRows(rows, nextId, user, t, now1).value, nextId + 1, user, t, now2) == Ok(rows)
  {
    var once := ToggleLikeRows(rows, nextId, user, t, now1).value;
    assert forall i :: 0 <= i < |rows| ==> once[i] == rows[i];
    assert IsLikeOf(once[|rows|], user, t);
    assert FindLike(once, user, t) == Some(|rows|);
    assert RemoveAt(once, |rows|) == rows;
  }

  /** After an unlike nothing stands in the way of liking again, and the like set is the
      one before the unlike. */
  lemma UnlikeThenLike(rows: seq<Like>, nextId: Id, user: Id, t: LikeTarget, now1: nat, now2: nat)
    requires LikesValid(rows, nextId) && SingleTargets(rows)
    requires FindLike(rows, user, t).Some?
    ensures var once := ToggleLikeRows(rows, nextId, user, t, now1).value;
      var twice := ToggleLikeRows(once, nextId, user, t, now2);
      twice.Ok? && Signatures(twice.value) == Signatures(rows)
  {
    var k := FindLike(rows, user, t).value;
    var once := RemoveAt(rows, k);
    assert ToggleLikeRows(rows, nextId, user, t, now1) == Ok(once);
    forall i | 0 <= i < |once| ensures !IsLikeOf(once[i], user, t) {
      var i' := if i < k then i else i + 1;
      assert once[i] == rows[i'];
      if IsLikeOf(rows[i'], user, t) {
        AtMostOneLikeOf(rows, nextId, user, t, i', k);
      }
    }
    var l := NewLike(nextId, user, t, now2);
    assert Signature(l) == Signature(rows[k]);
    assert !Clashes(once, user, PostField(t), CommentField(t)) by {
      forall i | 0 <= i < |once| ensures !SameIndexKey(once[i], user, PostField(t), CommentField(t)) {
        var i' := if i < k then i else i + 1;
        assert once[i] == rows[i'];
        if i' < k {
          assert !SameIndexKey(rows[i'], rows[k].likedBy, rows[k].post, rows[k].comment);
        } else {
          assert !SameIndexKey(rows[k], rows[i'].likedBy, rows[i'].post, rows[i'].comment);
        }
      }
    }
    assert ToggleLikeRows(once, nextId, user, t, now2) == Ok(once + [l]);
    SignaturesAppend(once, l);
    SignaturesRemoveAt(rows, k);
  }

  /** Toggling the same target twice restores the like set; a like followed by an unlike
      restores the collection exactly. */
  lemma ToggleTwiceRestores(rows: seq<Like>, nextId: Id, user: Id, t: LikeTarget, now1: nat, now2: nat)
    requires LikesValid(rows, nextId) && SingleTargets(rows)
    requires ToggleLikeRows(rows, nextId, user, t, now1).Ok?
    ensures var once := ToggleLikeRows(rows, nextId, user, t, now1).value;
      var twice := ToggleLikeRows(once, if |once| > |rows| then nextId + 1 else nextId, user, t, now2);
      && twice.Ok? && Signatures(twice.value) == Signatures(rows)
      && (|once| > |rows| ==> twice.value == rows)
  {
    if FindLike(rows, user, t).Some? {
      UnlikeThenLike(rows, nextId, user, t, now1, now2);
    } else {
      LikeThenUnlike(rows, nextId, user, t, now1, now2);
    }
  }

  /** A toggle flips whether the caller likes `t` and moves the count for `t` by one. */
  lemma ToggleFlipsLike(rows: seq<Like>, nextId: Id, user: Id, t: LikeTarget, now: nat)
    requires LikesValid(rows, nextId)
    requires ToggleLikeRows(rows, nextId, user, t, now).Ok?
    ensures var r := ToggleLikeRows(rows, nextId, user, t, now).value;
      && (FindLike(r, user, t).Some? <==> FindLike(rows, user, t).None?)
      && LikeCount(r, t) == if FindLike(rows, user, t).Some? then LikeCount(rows, t) - 1 else LikeCount(rows, t) + 1
  {
    var r := ToggleLikeRows(rows, nextId, user, t, now).value;
    match FindLike(rows, user, t)
    case Some(k) =>
      assert r == RemoveAt(rows, k);
      LikeCountRemoveAt(rows, k, t);
      forall i | 0 <= i < |r| ensures !IsLikeOf(r[i], user, t) {
        var i' := if i < k then i else i + 1;
        assert r[i] == rows[i'];
        if IsLikeOf(rows[i'], user, t) {
          AtMostOneLikeOf(rows, nextId, user, t, i', k);
        }
      }
    case None =>
      var l := NewLike(nextId, user, t, now);
      assert r == rows + [l];
      LikeCountAppend(rows, l, t);
      assert IsLikeOf(r[|rows|], user, t);
  }

  /** Read literally, the unique index on (likedBy, comment) also covers post likes, whose
      `comment` is null: once a user has liked one post, liking a second one fails. */
  lemma SecondPostLikeRejected(rows: seq<Like>, nextId: Id, user: Id, liked: Id, other: Id, k: nat, now: nat)
    requires SingleTargets(rows)
    requires k < |rows| && IsLikeOf(rows[k], user, OnPost(liked))
    requires FindLike(rows, user, OnPost(other)).None?
    ensures ToggleLikeRows(rows, nextId, user, OnPost(other), now) == Err(Unhandled)
  {
    assert rows[k].comment == None;
    assert SameIndexKey(rows[k], user, PostField(OnPost(other)), CommentField(OnPost(other)));
  }

  /** The same for comments: the null `post` of a comment like collides with the next one. */
  lemma SecondCommentLikeRejected(rows: seq<Like>, nextId: Id, user: Id, liked: Id, other: Id, k: nat, now: nat)
    requires SingleTargets(rows)
    requires k < |rows| && IsLikeOf(rows[k], user, OnComment(liked))
    requires FindLike(rows, user, OnComment(other)).None?
    ensures ToggleLikeRows(rows, nextId, user, OnComment(other), now) == Err(Unhandled)
  {
    assert rows[k].post == None;
    assert SameIndexKey(rows[k], user, PostField(OnComment(other)), CommentField(OnComment(other)));
  }

  /** One row of `getUserLikedPost`: the post, its owner's summary and when it was liked. */
  datatype LikedPost = LikedPost(post: Post, owner: Option<UserSummary>, likedAt: nat)

  /** Row `x` was produced from like `l`. */
  predicate Joined(l: Like, x: LikedPost)
  {
    l.post == Some(x.post.id) && l.createdAt == x.likedAt
  }

  /** The `$lookup` of one like's post followed by `$unwind`: nothing when `post` is null or
      names a deleted post. */
  function JoinOne(l: Like, posts: seq<Post>, users: seq<User>): (r: Option<LikedPost>)
    ensures r.None? <==> l.post.None? || FindPost(posts, l.post.value).None?
    ensures r.Some? ==> r.value.post in posts && Joined(l, r.value)
    ensures r.Some? ==> r.value.owner == SummaryOf(users, r.value.post.owner)
  {
    if l.post.None? then None
    else
      match FindPost(posts, l.post.value)
      case None => None
      case Some(k) => Some(LikedPost(posts[k], SummaryOf(users, posts[k].owner), l.createdAt))
  }

  function JoinWith(posts: seq<Post>, users: seq<User>): Like -> Option<LikedPost>
  {
    (l: Like) => JoinOne(l, posts, users)
  }

  /** The `$lookup` of each like's post, the `$unwind` and the owner `$lookup`. */
  function JoinLikedPosts(window: seq<Like>, posts: seq<Post>, users: seq<User>): (r: seq<LikedPost>)
    ensures |r| <= |window|
    ensures forall l :: l in window && JoinOne(l, posts, users).Some? ==> JoinOne(l, posts, users).value in r
  {
    FilterMap(window, JoinWith(posts, users))
  }

  lemma {:induction false} JoinedRowsComeFromWindow(window: seq<Like>, posts: seq<Post>, users: seq<User>)
    ensures forall x :: x in JoinLikedPosts(window, posts, users) ==>
      x.post in posts && exists l :: l in window && Joined(l, x)
  {
    if window != [] {
      JoinedRowsComeFromWindow(window[1..], posts, users);
      forall x | x in JoinLikedPosts(window, posts, users)
        ensures x.post in posts && exists l :: l in window && Joined(l, x)
      {
        var head := JoinOne(window[0], posts, users);
        if head.Some? && x == head.value {
          assert Joined(window[0], x);
        } else {
          assert x in JoinLikedPosts(window[1..], posts, users);
          var l :| l in window[1..] && Joined(l, x);
          assert l in window;
        }
      }
    }
  }

  function LikedPostAt(x: LikedPost): nat
  {
    x.likedAt
  }

  /** The join keeps the newest-first order of the likes. */
  lemma JoinKeepsNewestFirst(window: seq<Like>, posts: seq<Post>, users: seq<User>)
    requires NewestFirst(window, LikedAt)
    ensures NewestFirst(JoinLikedPosts(window, posts, users), LikedPostAt)
  {
    var rows := JoinLikedPosts(window, posts, users);
    var live := FilterKey(window, Defined(JoinWith(posts, users)), true);
    FilterMapDefined(window, JoinWith(posts, users));
    FilterKeyNewestFirst(window, Defined(JoinWith(posts, users)), true, LikedAt);
    forall i | 0 <= i < |rows| ensures rows[i].likedAt == live[i].createdAt {
      assert JoinOne(live[i], posts, users) == Some(rows[i]);
    }
  }

  /** The `$match`, `$sort`, `$skip` and `$limit` stages: one page of the caller's likes,
      newest first. */
  function LikesPage(likes: seq<Like>, user: Id, page: int, limit: int): (w: Option<seq<Like>>)
    ensures w.None? <==> page < 1 || limit < 1
    ensures w.Some? ==> |w.value| == PageLength(CountKey(likes, LikerOf, user), page, limit)
    ensures w.Some? ==> NewestFirst(w.value, LikedAt)
    ensures w.Some? ==> forall l :: l in w.value ==> l in likes && l.likedBy == user
    ensures w.Some? ==> forall i :: 0 <= i < |w.value| ==>
      w.value[i] == SortNewestFirst(FilterKey(likes, LikerOf, user), LikedAt)[Skip(page, limit) + i]
  {
    var sorted := SortNewestFirst(FilterKey(likes, LikerOf, user), LikedAt);
    var w := Paginate(sorted, page, limit);
    if w.Some? then
      PageNewestFirst(sorted, page, limit, LikedAt);
      SortedMatchMembers(likes, LikerOf, user, LikedAt);
      PageMembers(sorted, page, limit);
      w
    else w
  }

  /** `getUserLikedPost`: the caller's likes newest first, one page of them, and only then
      the posts they point at. */
  function GetUserLikedPost(likes: seq<Like>, posts: seq<Post>, users: seq<User>, user: Id, page: int, limit: int)
    : (r: Result<seq<LikedPost>>)
    ensures r.Err? <==> page < 1 || limit < 1
    ensures r.Err? ==> r.error == Unhandled
    ensures r.Ok? ==> |r.value| <= limit && NewestFirst(r.value, LikedPostAt)
    ensures r.Ok? ==>
      var live := FilterKey(LikesPage(likes, user, page, limit).value, Defined(JoinWith(posts, users)), true);
      && |r.value| == |live|
      && forall i :: 0 <= i < |live| ==> JoinOne(live[i], posts, users) == Some(r.value[i])
  {
    match LikesPage(likes, user, page, limit)
    case None => Err(Unhandled)
    case Some(window) =>
      FilterMapDefined(window, JoinWith(posts, users));
      JoinKeepsNewestFirst(window, posts, users);
      Ok(JoinLikedPosts(window, posts, users))
  }

  /** Every row of `getUserLikedPost` is an existing post the caller liked, at the time of
      that like. */
  lemma LikedPostsAreLiked(likes: seq<Like>, posts: seq<Post>, users: seq<User>, user: Id, page: int, limit: int)
    requires page >= 1 && limit >= 1
    ensures var r := GetUserLikedPost(likes, posts, users, user, page, limit).value;
      forall x :: x in r ==>
        x.post in posts && exists l :: l in likes && l.likedBy == user && Joined(l, x)
  {
    var window := LikesPage(likes, user, page, limit).value;
    var r := JoinLikedPosts(window, posts, users);
    JoinedRowsComeFromWindow(window, posts, users);
    forall x | x in r ensures exists l :: l in likes && l.likedBy == user && Joined(l, x) {
      var l :| l in window && Joined(l, x);
    }
  }

  /** Sorting two likes of different ages puts the newer first. */
  lemma SortTwoLikes(a: Like, b: Like)
    requires a.createdAt < b.createdAt
    ensures SortNewestFirst([a, b], LikedAt) == [b, a]
  {
    assert [a, b][1..] == [b];
    assert SortNewestFirst([b], LikedAt) == [b] by {
      assert [b][1..] == [];
    }
    assert InsertNewest(a, [b], LikedAt) == [b] + InsertNewest(a, [], LikedAt) by {
      assert [b][1..] == [];
    }
  }

  /** The data of the example below: a post, a like on it and a newer like on a comment. */
  function ExamplePost(): Post
  {
    NewPost(0, AssetStore.NoAsset, "t", "d", 7, 1)
  }

  function ExampleLikes(): seq<Like>
  {
    [Like(0, 5, Some(0), None, 1), Like(1, 5, None, Some(3), 2)]
  }

  /** The caller's likes in the example, newest first. */
  lemma ExampleSorted()
    ensures SortNewestFirst(FilterKey(ExampleLikes(), LikerOf, 5), LikedAt) == [ExampleLikes()[1], ExampleLikes()[0]]
  {
    var a, b := ExampleLikes()[0], ExampleLikes()[1];
    assert [a, b][1..] == [b] && [b][1..] == [];
    assert FilterKey([a, b], LikerOf, 5) == [a, b];
    SortTwoLikes(a, b);
  }

  /** With one row per page, the first page of the example holds the comment like... */
  lemma ExampleFirstPage()
    ensures LikesPage(ExampleLikes(), 5, 1, 1) == Some([ExampleLikes()[1]])
  {
    var a, b := ExampleLikes()[0], ExampleLikes()[1];
    ExampleSorted();
    assert [b, a][0..1] == [b];
    assert Paginate([b, a], 1, 1) == Some([b]);
  }

  /** ...and the second page the post like. */
  lemma ExampleSecondPage()
    ensures LikesPage(ExampleLikes(), 5, 2, 1) == Some([ExampleLikes()[0]])
  {
    var a, b := ExampleLikes()[0], ExampleLikes()[1];
    ExampleSorted();
    assert [b, a][1..2] == [a];
    assert Paginate([b, a], 2, 1) == Some([a]);
  }

  /** The first page joins to nothing: its one like is on a comment. */
  lemma ExampleFirstRows()
    ensures GetUserLikedPost(ExampleLikes(), [ExamplePost()], [], 5, 1, 1) == Ok([])
  {
    var b := ExampleLikes()[1];
    ExampleFirstPage();
    assert FilterKey([b], Defined(JoinWith([ExamplePost()], [])), true) == [] by {
      assert [b][1..] == [];
    }
  }

  /** The second page joins to one row: its like is on the stored post. */
  lemma ExampleSecondRows()
    ensures GetUserLikedPost(ExampleLikes(), [ExamplePost()], [], 5, 2, 1).Ok?
    ensures |GetUserLikedPost(ExampleLikes(), [ExamplePost()], [], 5, 2, 1).value| == 1
  {
    var a := ExampleLikes()[0];
    ExampleSecondPage();
    assert FilterKey([a], Defined(JoinWith([ExamplePost()], [])), true) == [a] by {
      assert [a][1..] == [];
      assert FindPost([ExamplePost()], 0) == Some(0);
    }
  }

  /** Paging happens before the join, so a page can come back empty although the caller
      has liked a post: here the newest like is on a comment and fills the one-row page. */
  lemma PagingBeforeJoinDropsRows()
    ensures var likes, posts := ExampleLikes(), [ExamplePost()];
      && GetUserLikedPost(likes, posts, [], 5, 1, 1) == Ok([])
      && exists x :: GetUserLikedPost(likes, posts, [], 5, 2, 1) == Ok([x])
  {
    ExampleFirstRows();
    ExampleSecondRows();
    var r := GetUserLikedPost(ExampleLikes(), [ExamplePost()], [], 5, 2, 1).value;
    assert r == [r[0]];
  }

  /** The `$count` stage: no document at all when nothing matched. */
  function CountStage(n: nat): (out: seq<nat>)
    ensures |out| <= 1
    ensures out == [] <==> n == 0
    ensures n > 0 ==> out == [n]
  {
    if n == 0 then [] else [n]
  }

  /** `getCommentLikeCount`: 400 without an id, else the number of likes on the comment,
      0 when the count stage yields nothing. */
  function GetCommentLikeCount(likes: seq<Like>, commentId: Option<Id>): (r: Result<nat>)
    ensures commentId.None? <==> r == Err(BadRequest)
    ensures commentId.Some? ==> r == Ok(LikeCount(likes, OnComment(commentId.value)))
  {
    if commentId.None? then Err(BadRequest)
    else
      var out := CountStage(LikeCount(likes, OnComment(commentId.value)));
      Ok(if out == [] then 0 else out[0])
  }

  /** `getReplyLikeCount`: 400 without an id, else `countDocuments({comment: replyId})`. */
  function GetReplyLikeCount(likes: seq<Like>, replyId: Option<Id>): (r: Result<nat>)
    ensures replyId.None? <==> r == Err(BadRequest)
    ensures r.Ok? ==> (r.value == 0 <==> forall i :: 0 <= i < |likes| ==> likes[i].comment != replyId)
  {
    if replyId.None? then Err(BadRequest) else Ok(LikeCount(likes, OnComment(replyId.value)))
  }

  /** The two count endpoints agree on every id. */
  lemma ReplyCountMatchesCommentCount(likes: seq<Like>, id: Option<Id>)
    ensures GetReplyLikeCount(likes, id) == GetCommentLikeCount(likes, id)
  {
  }
}
