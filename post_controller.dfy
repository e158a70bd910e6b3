/** `post.controller.js`: the feed, publishing, the post detail with its counts, updating,
    deleting and a user's own posts. */
module PostController {
  import opened Common
  import opened Text
  import opened Seqs
  import opened AssetStore
  import opened UserModel
  import opened PostModel
  import opened CommentModel
  import opened LikeModel

  /** A feed row: the post with `owner` replaced by the owner's summary, absent when the
      owner no longer exists (`$first` of an empty lookup). */
  datatype FeedItem = FeedItem(post: Post, owner: Option<UserSummary>)

  function ItemKey(it: FeedItem): nat
  {
    it.post.createdAt
  }

  function Item(p: Post, users: seq<User>): FeedItem
  {
    FeedItem(p, SummaryOf(users, p.owner))
  }

  /** The `$lookup` of the owner on every post, order kept. */
  function WithOwners(posts: seq<Post>, users: seq<User>): (r: seq<FeedItem>)
    ensures |r| == |posts|
    ensures forall i :: 0 <= i < |posts| ==> r[i] == Item(posts[i], users)
  {
    seq(|posts|, i requires 0 <= i < |posts| => Item(posts[i], users))
  }

  /** The `$or` of three case-insensitive `$regex` filters, the pattern read literally. */
  predicate ItemMatches(it: FeedItem, search: string)
  {
    || (it.owner.Some? && MatchesIgnoringCase(it.owner.value.username, search))
    || MatchesIgnoringCase(it.post.title, search)
    || MatchesIgnoringCase(it.post.description, search)
  }

  function SearchHit(search: string): FeedItem -> bool
  {
    (it: FeedItem) => ItemMatches(it, search)
  }

  /** Whether post `p`, joined with its owner, matches `search`. */
  function PostHit(users: seq<User>, search: string): Post -> bool
  {
    (p: Post) => ItemMatches(Item(p, users), search)
  }

  /** The owner join does not change how many rows a search matches. */
  lemma {:induction false} JoinedHits(sorted: seq<Post>, users: seq<User>, search: string)
    ensures CountKey(WithOwners(sorted, users), SearchHit(search), true) == CountKey(sorted, PostHit(users, search), true)
    decreases |sorted|
  {
    if sorted != [] {
      var joined := WithOwners(sorted, users);
      assert joined[1..] == WithOwners(sorted[1..], users);
      JoinedHits(sorted[1..], users, search);
    }
  }

  /** The owner join of `sorted`, which holds exactly the posts, newest first. */
  lemma WithOwnersFacts(sorted: seq<Post>, posts: seq<Post>, users: seq<User>)
    requires forall p :: p in sorted <==> p in posts
    requires NewestFirst(sorted, PostKey)
    ensures var joined := WithOwners(sorted, users);
      && NewestFirst(joined, ItemKey)
      && (forall i :: 0 <= i < |joined| ==> joined[i].post in posts)
      && (forall p :: p in posts ==> Item(p, users) in joined)
  {
    var joined := WithOwners(sorted, users);
    forall i, j | 0 <= i < j < |joined| ensures ItemKey(joined[i]) >= ItemKey(joined[j]) {
      assert PostKey(sorted[i]) >= PostKey(sorted[j]);
    }
    forall p | p in posts ensures Item(p, users) in joined {
      var i :| 0 <= i < |sorted| && sorted[i] == p;
      assert joined[i] == Item(p, users);
    }
    forall i | 0 <= i < |joined| ensures joined[i].post in posts {
      assert joined[i].post == sorted[i] && sorted[i] in sorted;
    }
  }

  /** The feed before paging: every post newest first with its owner, and, when `search`
      is not empty, only the rows it matches. */
  function Feed(posts: seq<Post>, users: seq<User>, search: string): (r: seq<FeedItem>)
    ensures search == "" ==> |r| == |posts|
    ensures search != "" ==> |r| == CountKey(posts, PostHit(users, search), true)
    ensures NewestFirst(r, ItemKey)
    ensures forall i :: 0 <= i < |r| ==> r[i].post in posts && r[i] == Item(r[i].post, users)
    ensures forall i :: 0 <= i < |r| ==> search == "" || ItemMatches(r[i], search)
    ensures forall p :: p in posts && (search == "" || ItemMatches(Item(p, users), search)) ==> Item(p, users) in r
  {
    var sorted := SortNewestFirst(posts, PostKey);
    SortKeepsMembers(posts, PostKey);
    WithOwnersFacts(sorted, posts, users);
    var joined := WithOwners(sorted, users);
    if search == "" then joined
    else
      FilterNewestFirst(joined, SearchHit(search), ItemKey);
      JoinedHits(sorted, users, search);
      CountKeyPermutation(sorted, posts, PostHit(users, search), true);
      Filter(joined, SearchHit(search))
  }


  /** `getAllPosts`: one page of the feed. The page is the run of the feed starting after
      `(page - 1) * limit` rows, at most `limit` long, newest first, every row matching. */
  function GetAllPosts(posts: seq<Post>, users: seq<User>, search: string, page: int, limit: int)
    : (r: Result<seq<FeedItem>>)
    ensures r.Err? <==> page < 1 || limit < 1
    ensures r.Err? ==> r.error == Unhandled
    ensures r.Ok? ==> |r.value| <= limit && NewestFirst(r.value, ItemKey)
    ensures r.Ok? ==> |r.value| == PageLength(|Feed(posts, users, search)|, page, limit)
    ensures r.Ok? ==> forall i :: 0 <= i < |r.value| ==> r.value[i].post in posts && (search == "" || ItemMatches(r.value[i], search))
    ensures r.Ok? ==> forall i :: 0 <= i < |r.value| ==>
      Skip(page, limit) + i < |Feed(posts, users, search)| && r.value[i] == Feed(posts, users, search)[Skip(page, limit) + i]
  {
    var feed := Feed(posts, users, search);
    match Paginate(feed, page, limit)
    case None => Err(Unhandled)
    case Some(window) =>
      PageNewestFirst(feed, page, limit, ItemKey);
      Ok(window)
  }

  /** `publishPost`: 400 without a title or a description, 400 without an image; a failed
      upload is a 500 and creates nothing; otherwise one post owned by the caller. */
  method PublishPost(posts: PostTable, host: AssetHost, caller: Id, title: string, description: string,
                     file: Option<string>, response: Option<Asset>, now: nat)
    returns (r: Result<Post>)
    requires posts.Valid()
    modifies posts, host
    ensures posts.Valid()
    ensures title == "" || description == "" || !HasPath(file) ==>
      r == Err(BadRequest) && unchanged(posts) && unchanged(host)
    ensures title != "" && description != "" && HasPath(file) ==>
      && host.calls == old(host.calls) + [UploadCall(file.value)]
      && (response.None? ==> r == Err(ServerError) && unchanged(posts))
      && (response.Some? ==>
            && r == Ok(NewPost(old(posts.nextId), response.value, title, description, caller, now))
            && posts.rows == old(posts.rows) + [r.value] && posts.nextId == old(posts.nextId) + 1)
      && host.stored == old(host.stored) + (if response.Some? then {response.value.publicId} else {})
  {
    if title == "" || description == "" {
      return Err(BadRequest);
    }
    if !HasPath(file) {
      return Err(BadRequest);
    }
    var uploaded := host.Upload(file.value, response);
    if uploaded.None? {
      return Err(ServerError);
    }
    var p := posts.Create(uploaded.value, title, description, caller, now);
    r := Ok(p);
  }

  /** A published post counts towards its owner's `postCount` and nobody else's. */
  lemma PublishCountsForOwner(rows: seq<Post>, p: Post, user: Id)
    ensures CountKey(rows + [p], OwnerOf, user) == CountKey(rows, OwnerOf, user) + (if p.owner == user then 1 else 0)
  {
    CountKeyAppend(rows, p, OwnerOf, user);
  }

  /** The post detail: the post, its owner's summary and the three computed fields. */
  datatype PostDetail = PostDetail(
    post: Post,
    owner: Option<UserSummary>,
    likeCount: nat,
    isLiked: bool,
    commentCount: nat)

  /** `getPostById`: 404 without an id or when no post has it; otherwise the likes whose
      `post` is the id, whether the caller is among their authors, and every comment
      whose `post` is the id. */
  function GetPostById(posts: seq<Post>, users: seq<User>, likes: seq<Like>, comments: seq<Comment>,
                       caller: Id, postId: Option<Id>): (r: Result<PostDetail>)
    ensures postId.None? ==> r == Err(NotFound)
    ensures postId.Some? ==> (r == Err(NotFound) <==> forall i :: 0 <= i < |posts| ==> posts[i].id != postId.value)
    ensures r.Ok? ==> r.value.post in posts && r.value.post.id == postId.value
    ensures r.Ok? ==> r.value.owner == SummaryOf(users, r.value.post.owner)
    ensures r.Ok? ==> r.value.likeCount == LikeCount(likes, OnPost(postId.value))
    ensures r.Ok? ==> (r.value.likeCount == 0 <==> forall i :: 0 <= i < |likes| ==> likes[i].post != postId)
    ensures r.Ok? ==> (r.value.isLiked <==> exists i :: 0 <= i < |likes| && likes[i].likedBy == caller && likes[i].post == postId)
    ensures r.Ok? ==> r.value.commentCount == CountKey(comments, PostOf, postId.value)
    ensures r.Ok? ==> (r.value.commentCount == 0 <==> forall i :: 0 <= i < |comments| ==> comments[i].post != postId.value)
  {
    if postId.None? then Err(NotFound)
    else
      match FindPost(posts, postId.value)
      case None => Err(NotFound)
      case Some(k) =>
        var p := posts[k];
        var liked := FindLike(likes, caller, OnPost(p.id)).Some?;
        assert liked ==> IsLikeOf(likes[FindLike(likes, caller, OnPost(p.id)).value], caller, OnPost(p.id));
        Ok(PostDetail(p, SummaryOf(users, p.owner), LikeCount(likes, OnPost(p.id)), liked,
                      CountKey(comments, PostOf, p.id)))
  }

  /** `commentCount` counts replies as well: it is the number of top-level comments on the
      post plus the number of replies on it. */
  lemma CommentCountIncludesReplies(comments: seq<Comment>, postId: Id)
    ensures CountKey(comments, PostOf, postId)
         == CountKey(comments, ThreadKey, (postId, true)) + CountKey(comments, ThreadKey, (postId, false))
  {
    CountKeySplit(comments, PostOf, postId, ThreadKey, (postId, true), (postId, false));
  }

  /** A new reply on the post raises its `commentCount` by one. */
  lemma ReplyRaisesCommentCount(posts: seq<Post>, users: seq<User>, likes: seq<Like>, comments: seq<Comment>,
                                caller: Id, postId: Id, reply: Comment)
    requires GetPostById(posts, users, likes, comments, caller, Some(postId)).Ok?
    requires reply.post == postId && IsReply(reply)
    ensures GetPostById(posts, users, likes, comments + [reply], caller, Some(postId)).Ok?
    ensures GetPostById(posts, users, likes, comments + [reply], caller, Some(postId)).value.commentCount
         == GetPostById(posts, users, likes, comments, caller, Some(postId)).value.commentCount + 1
  {
    CountKeyAppend(comments, reply, PostOf, postId);
  }

  /** The post after `$set: updateData`: a title or description is written only when it is
      truthy (non-empty), the image only when a new one was uploaded. */
  function Patch(p: Post, title: string, description: string, img: Option<Asset>): (q: Post)
    ensures q.(title := p.title, description := p.description, postImg := p.postImg) == p
    ensures title != "" ==> q.title == title
    ensures title == "" ==> q.title == p.title
    ensures description != "" ==> q.description == description
    ensures description == "" ==> q.description == p.description
    ensures img.Some? ==> q.postImg == img.value
    ensures img.None? ==> q.postImg == p.postImg
  {
    var t := if title != "" then title else p.title;
    var d := if description != "" then description else p.description;
    var i := if img.Some? then img.value else p.postImg;
    p.(title := t, description := d, postImg := i)
  }

  /** Sending the same update twice changes nothing more. */
  lemma {:induction false} PatchIdempotent(p: Post, title: string, description: string, img: Option<Asset>)
    ensures Patch(Patch(p, title, description, img), title, description, img) == Patch(p, title, description, img)
  {
    var q := Patch(p, title, description, img);
    var q2 := Patch(q, title, description, img);
    assert q2.(title := q.title, description := q.description, postImg := q.postImg) == q;
  }

  /** `updatePost`: 404 without an id. With a new image the post must exist (404), its old
      image is destroyed when it has a public id and the new one is uploaded (500 when that
      fails, with the post untouched). The update itself is not checked against the
      caller, and updating a missing post without an image answers with no post. */
  method UpdatePost(posts: PostTable, host: AssetHost, postId: Option<Id>, title: string, description: string,
                    file: Option<string>, destroyOk: bool, response: Option<Asset>)
    returns (r: Result<Option<Post>>)
    requires posts.Valid()
    modifies posts, host
    ensures posts.Valid() && posts.nextId == old(posts.nextId)
    ensures postId.None? ==> r == Err(NotFound) && unchanged(posts) && unchanged(host)
    ensures postId.Some? && FindPost(old(posts.rows), postId.value).None? ==>
      unchanged(posts) && unchanged(host) && r == (if HasPath(file) then Err(NotFound) else Ok(None))
    ensures postId.Some? && FindPost(old(posts.rows), postId.value).Some? && !HasPath(file) ==>
      var k := FindPost(old(posts.rows), postId.value).value;
      && unchanged(host)
      && posts.rows == old(posts.rows)[k := Patch(old(posts.rows)[k], title, description, None)]
      && r == Ok(Some(posts.rows[k]))
    ensures postId.Some? && FindPost(old(posts.rows), postId.value).Some? && HasPath(file) ==>
      var k := FindPost(old(posts.rows), postId.value).value;
      var oldId := old(posts.rows)[k].postImg.publicId;
      && host.calls == old(host.calls) + (if oldId != "" then [DestroyCall(oldId)] else []) + [UploadCall(file.value)]
      && host.stored == (if oldId != "" && destroyOk then old(host.stored) - {oldId} else old(host.stored))
                        + (if response.Some? then {response.value.publicId} else {})
      && (response.None? ==> r == Err(ServerError) && unchanged(posts))
      && (response.Some? ==>
            && posts.rows == old(posts.rows)[k := Patch(old(posts.rows)[k], title, description, response)]
            && r == Ok(Some(posts.rows[k])))
  {
    if postId.None? {
      return Err(NotFound);
    }
    var found := FindPost(posts.rows, postId.value);
    var img: Option<Asset> := None;
    if HasPath(file) {
      if found.None? {
        return Err(NotFound);
      }
      var oldId := posts.rows[found.value].postImg.publicId;
      if oldId != "" {
        host.Delete(oldId, destroyOk);
      }
      var uploaded := host.Upload(file.value, response);
      if uploaded.None? {
        return Err(ServerError);
      }
      img := uploaded;
    }
    if found.None? {
      return Ok(None);
    }
    var k := found.value;
    var q := Patch(posts.rows[k], title, description, img);
    posts.Save(k, q);
    r := Ok(Some(q));
  }

  /** `deletePost`: 404 without an id or for a missing post, 403 for anyone but the owner
      with nothing touched; for the owner the image is destroyed and then the post. The
      post's comments and likes stay where they are. */
  method DeletePost(posts: PostTable, host: AssetHost, caller: Id, postId: Option<Id>, destroyOk: bool)
    returns (r: Result<()>)
    requires posts.Valid()
    modifies posts, host
    ensures posts.Valid() && posts.nextId == old(posts.nextId)
    ensures postId.None? || FindPost(old(posts.rows), postId.value).None? ==>
      r == Err(NotFound) && unchanged(posts) && unchanged(host)
    ensures postId.Some? && FindPost(old(posts.rows), postId.value).Some? ==>
      var k := FindPost(old(posts.rows), postId.value).value;
      var p := old(posts.rows)[k];
      && (p.owner != caller ==> r == Err(Forbidden) && unchanged(posts) && unchanged(host))
      && (p.owner == caller ==>
            && r == Ok(())
            && posts.rows == RemoveAt(old(posts.rows), k)
            && host.calls == old(host.calls) + (if p.postImg.publicId != "" then [DestroyCall(p.postImg.publicId)] else [])
            && host.stored == if p.postImg.publicId != "" && destroyOk then old(host.stored) - {p.postImg.publicId}
                              else old(host.stored))
  {
    if postId.None? {
      return Err(NotFound);
    }
    var found := FindPost(posts.rows, postId.value);
    if found.None? {
      return Err(NotFound);
    }
    var k := found.value;
    var p := posts.rows[k];
    if p.owner != caller {
      return Err(Forbidden);
    }
    host.Delete(p.postImg.publicId, destroyOk);
    posts.Delete(k);
    r := Ok(());
  }

  /** After the delete no post has the id any more, and every other post is still there. */
  lemma DeletedPostIsGone(rows: seq<Post>, nextId: Id, k: nat)
    requires PostsValid(rows, nextId) && k < |rows|
    ensures FindPost(RemoveAt(rows, k), rows[k].id).None?
    ensures forall i :: 0 <= i < |rows| && i != k ==> rows[i] in RemoveAt(rows, k)
  {
    var r := RemoveAt(rows, k);
    forall i | 0 <= i < |r| ensures r[i].id != rows[k].id {
      assert r[i] == rows[if i < k then i else i + 1];
    }
    forall i | 0 <= i < |rows| && i != k ensures rows[i] in r {
      assert rows[i] == r[if i < k then i else i - 1];
    }
  }

  /** The owner's posts, newest first. */
  function OwnerPosts(posts: seq<Post>, user: Id): (r: seq<Post>)
    ensures |r| == CountKey(posts, OwnerOf, user)
    ensures NewestFirst(r, PostKey)
    ensures forall i :: 0 <= i < |r| ==> r[i].owner == user && r[i] in posts
    ensures forall p :: p in posts && p.owner == user ==> p in r
  {
    var r := SortNewestFirst(FilterKey(posts, OwnerOf, user), PostKey);
    SortedMatchMembers(posts, OwnerOf, user, PostKey);
    assert forall i :: 0 <= i < |r| ==> r[i] in r;
    r
  }

  /** `getUserPosts`: 400 without a user id; a page of that user's posts newest first; and,
      unlike the other views, 400 for an empty page. */
  function GetUserPosts(posts: seq<Post>, userId: Option<Id>, page: int, limit: int): (r: Result<seq<Post>>)
    ensures userId.None? ==> r == Err(BadRequest)
    ensures userId.Some? ==> (r == Err(Unhandled) <==> page < 1 || limit < 1)
    ensures userId.Some? && page >= 1 && limit >= 1 ==>
      (r == Err(BadRequest) <==> Skip(page, limit) >= CountKey(posts, OwnerOf, userId.value))
    ensures r.Ok? ==> 1 <= |r.value| <= limit && NewestFirst(r.value, PostKey)
    ensures r.Ok? ==> |r.value| == PageLength(CountKey(posts, OwnerOf, userId.value), page, limit)
    ensures r.Ok? ==> forall i :: 0 <= i < |r.value| ==> r.value[i].owner == userId.value && r.value[i] in posts
    ensures r.Ok? ==> forall i :: 0 <= i < |r.value| ==>
      Skip(page, limit) + i < |OwnerPosts(posts, userId.value)| && r.value[i] == OwnerPosts(posts, userId.value)[Skip(page, limit) + i]
  {
    if userId.None? then Err(BadRequest)
    else
      var mine := OwnerPosts(posts, userId.value);
      match Paginate(mine, page, limit)
      case None => Err(Unhandled)
      case Some(window) =>
        UserWindowFacts(posts, userId.value, page, limit);
        UserWindowOwned(posts, userId.value, page, limit);
        if window == [] then Err(BadRequest) else Ok(window)
  }

  /** The size, order and positions of a page of one user's posts. */
  lemma UserWindowFacts(posts: seq<Post>, user: Id, page: int, limit: int)
    requires page >= 1 && limit >= 1
    ensures var mine := OwnerPosts(posts, user);
      var w := Paginate(mine, page, limit).value;
      && (w == [] <==> Skip(page, limit) >= CountKey(posts, OwnerOf, user))
      && |w| == PageLength(CountKey(posts, OwnerOf, user), page, limit)
      && NewestFirst(w, PostKey)
  {
    PageNewestFirst(OwnerPosts(posts, user), page, limit, PostKey);
  }

  /** Every post on a page of one user's posts is one of theirs. */
  lemma UserWindowOwned(posts: seq<Post>, user: Id, page: int, limit: int)
    requires page >= 1 && limit >= 1
    ensures var w := Paginate(OwnerPosts(posts, user), page, limit).value;
      forall i :: 0 <= i < |w| ==> w[i].owner == user && w[i] in posts
  {
    var mine := OwnerPosts(posts, user);
    var w := Paginate(mine, page, limit).value;
    forall i | 0 <= i < |w| ensures w[i].owner == user && w[i] in posts {
      assert w[i] == mine[Skip(page, limit) + i];
    }
  }

  /** The first page of a user's posts is empty exactly when the channel profile shows no
      posts for them. */
  lemma FirstPageEmptyIffNoPosts(posts: seq<Post>, user: Id, limit: int)
    requires limit >= 1
    ensures GetUserPosts(posts, Some(user), 1, limit) == Err(BadRequest)
        <==> forall i :: 0 <= i < |posts| ==> posts[i].owner != user
  {
    assert Skip(1, limit) == 0;
  }
}
