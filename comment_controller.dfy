/** `comment.controller.js`: commenting on a post, replying to a comment, the one-level
    comment thread of a post, deleting with the direct replies, and editing. */
module CommentController {
  import opened Common
  import opened Seqs
  import opened UserModel
  import opened PostModel
  import opened CommentModel

  /** `postComment`: 404 without a post id, 400 without content, 404 for a missing post;
      otherwise a top-level comment by the caller on the post. */
  method PostComment(comments: CommentTable, posts: PostTable, caller: Id, postId: Option<Id>, content: string, now: nat)
    returns (r: Result<Comment>)
    requires comments.Valid()
    modifies comments
    ensures comments.Valid()
    ensures postId.None? ==> r == Err(NotFound) && unchanged(comments)
    ensures postId.Some? && content == "" ==> r == Err(BadRequest) && unchanged(comments)
    ensures postId.Some? && content != "" && FindPost(posts.rows, postId.value).None? ==>
      r == Err(NotFound) && unchanged(comments)
    ensures postId.Some? && content != "" && FindPost(posts.rows, postId.value).Some? ==>
      && r == Ok(Comment(old(comments.nextId), postId.value, caller, content, None, now))
      && comments.rows == old(comments.rows) + [r.value] && comments.nextId == old(comments.nextId) + 1
  {
    if postId.None? {
      return Err(NotFound);
    }
    if content == "" {
      return Err(BadRequest);
    }
    if FindPost(posts.rows, postId.value).None? {
      return Err(NotFound);
    }
    r := comments.Create(postId.value, caller, content, None, now);
  }

  /** `replyComment`: 400 without a comment id or content, 404 for a missing parent;
      otherwise a reply by the caller on the parent's post. The parent may itself be a
      reply. */
  method ReplyComment(comments: CommentTable, caller: Id, commentId: Option<Id>, content: string, now: nat)
    returns (r: Result<Comment>)
    requires comments.Valid()
    modifies comments
    ensures comments.Valid()
    ensures commentId.None? || content == "" ==> r == Err(BadRequest) && unchanged(comments)
    ensures commentId.Some? && content != "" && FindComment(old(comments.rows), commentId.value).None? ==>
      r == Err(NotFound) && unchanged(comments)
    ensures commentId.Some? && content != "" && FindComment(old(comments.rows), commentId.value).Some? ==>
      var parent := old(comments.rows)[FindComment(old(comments.rows), commentId.value).value];
      && r == Ok(Comment(old(comments.nextId), parent.post, caller, content, Some(parent.id), now))
      && comments.rows == old(comments.rows) + [r.value] && comments.nextId == old(comments.nextId) + 1
  {
    if commentId.None? || content == "" {
      return Err(BadRequest);
    }
    var found := FindComment(comments.rows, commentId.value);
    if found.None? {
      return Err(NotFound);
    }
    var parent := comments.rows[found.value];
    r := comments.Create(parent.post, caller, content, Some(parent.id), now);
  }

  /** A reply with its author's summary. */
  datatype ReplyEntry = ReplyEntry(reply: Comment, author: Option<UserSummary>)

  /** A top-level comment with its author's summary and its direct replies. */
  datatype ThreadEntry = ThreadEntry(comment: Comment, author: Option<UserSummary>, replies: seq<ReplyEntry>)

  function ReplyKey(e: ReplyEntry): nat
  {
    e.reply.createdAt
  }

  function EntryKey(e: ThreadEntry): nat
  {
    e.comment.createdAt
  }

  function ReplyEntries(cs: seq<Comment>, users: seq<User>): (r: seq<ReplyEntry>)
    ensures |r| == |cs|
    ensures forall i :: 0 <= i < |cs| ==> r[i] == ReplyEntry(cs[i], SummaryOf(users, cs[i].commentBy))
  {
    seq(|cs|, i requires 0 <= i < |cs| => ReplyEntry(cs[i], SummaryOf(users, cs[i].commentBy)))
  }

  /** The reply entries built from `mine`, which holds exactly the direct replies of
      `parent`, newest first. */
  lemma ReplyEntriesFacts(mine: seq<Comment>, comments: seq<Comment>, users: seq<User>, parent: Id)
    requires forall c :: c in mine <==> c in comments && ParentOf(c) == Some(parent)
    requires NewestFirst(mine, CommentKey)
    ensures var r := ReplyEntries(mine, users);
      && NewestFirst(r, ReplyKey)
      && (forall i :: 0 <= i < |r| ==> r[i].reply in comments && r[i].reply.parentComment == Some(parent))
      && (forall c :: c in comments && c.parentComment == Some(parent) ==> exists i :: 0 <= i < |r| && r[i].reply == c)
  {
    var r := ReplyEntries(mine, users);
    forall i | 0 <= i < |r| ensures r[i].reply in comments && r[i].reply.parentComment == Some(parent) {
      assert r[i].reply == mine[i] && mine[i] in mine;
    }
    forall c | c in comments && c.parentComment == Some(parent) ensures exists i :: 0 <= i < |r| && r[i].reply == c {
      assert ParentOf(c) == Some(parent);
      var i :| 0 <= i < |mine| && mine[i] == c;
      assert r[i].reply == c;
    }
    forall i, j | 0 <= i < j < |r| ensures ReplyKey(r[i]) >= ReplyKey(r[j]) {
      assert CommentKey(mine[i]) >= CommentKey(mine[j]);
    }
  }

  /** The inner `$lookup` on `parentComment`: the direct replies of `parent`, newest first,
      each with its author. */
  function RepliesView(comments: seq<Comment>, users: seq<User>, parent: Id): (r: seq<ReplyEntry>)
    ensures |r| == CountKey(comments, ParentOf, Some(parent))
    ensures NewestFirst(r, ReplyKey)
    ensures forall i :: 0 <= i < |r| ==> r[i].reply in comments && r[i].reply.parentComment == Some(parent)
    ensures forall i :: 0 <= i < |r| ==> r[i].author == SummaryOf(users, r[i].reply.commentBy)
    ensures forall c :: c in comments && c.parentComment == Some(parent) ==> exists i :: 0 <= i < |r| && r[i].reply == c
  {
    var mine := SortNewestFirst(FilterKey(comments, ParentOf, Some(parent)), CommentKey);
    SortedMatchMembers(comments, ParentOf, Some(parent), CommentKey);
    ReplyEntriesFacts(mine, comments, users, parent);
    ReplyEntries(mine, users)
  }

  function ThreadEntries(cs: seq<Comment>, comments: seq<Comment>, users: seq<User>): (r: seq<ThreadEntry>)
    ensures |r| == |cs|
    ensures forall i :: 0 <= i < |cs| ==>
      r[i] == ThreadEntry(cs[i], SummaryOf(users, cs[i].commentBy), RepliesView(comments, users, cs[i].id))
  {
    seq(|cs|, i requires 0 <= i < |cs| =>
      ThreadEntry(cs[i], SummaryOf(users, cs[i].commentBy), RepliesView(comments, users, cs[i].id)))
  }

  /** The thread entries built from `top`, which holds exactly the post's top-level
      comments, newest first. */
  lemma ThreadEntriesFacts(top: seq<Comment>, comments: seq<Comment>, users: seq<User>, postId: Id)
    requires forall c :: c in top <==> c in comments && ThreadKey(c) == (postId, true)
    requires NewestFirst(top, CommentKey)
    ensures var r := ThreadEntries(top, comments, users);
      && |r| == |top|
      && NewestFirst(r, EntryKey)
      && (forall i :: 0 <= i < |r| ==> r[i].comment in comments && r[i].comment.post == postId && !IsReply(r[i].comment))
      && (forall i :: 0 <= i < |r| ==> r[i].author == SummaryOf(users, r[i].comment.commentBy))
      && (forall i :: 0 <= i < |r| ==> r[i].replies == RepliesView(comments, users, r[i].comment.id))
      && (forall c :: c in comments && c.post == postId && !IsReply(c) ==> exists i :: 0 <= i < |r| && r[i].comment == c)
  {
    var r := ThreadEntries(top, comments, users);
    forall i | 0 <= i < |r| ensures r[i].comment in comments && r[i].comment.post == postId && !IsReply(r[i].comment) {
      assert r[i].comment == top[i] && top[i] in top;
    }
    forall c | c in comments && c.post == postId && !IsReply(c) ensures exists i :: 0 <= i < |r| && r[i].comment == c {
      assert ThreadKey(c) == (postId, true);
      var i :| 0 <= i < |top| && top[i] == c;
      assert r[i].comment == c;
    }
    forall i, j | 0 <= i < j < |r| ensures EntryKey(r[i]) >= EntryKey(r[j]) {
      assert CommentKey(top[i]) >= CommentKey(top[j]);
    }
  }

  /** The outer pipeline: the post's top-level comments newest first, each with its author
      and its direct replies. */
  function ThreadView(comments: seq<Comment>, users: seq<User>, postId: Id): (r: seq<ThreadEntry>)
    ensures |r| == CountKey(comments, ThreadKey, (postId, true))
    ensures NewestFirst(r, EntryKey)
    ensures forall i :: 0 <= i < |r| ==> r[i].comment in comments && r[i].comment.post == postId && !IsReply(r[i].comment)
    ensures forall i :: 0 <= i < |r| ==> r[i].author == SummaryOf(users, r[i].comment.commentBy)
    ensures forall i :: 0 <= i < |r| ==> r[i].replies == RepliesView(comments, users, r[i].comment.id)
    ensures forall c :: c in comments && c.post == postId && !IsReply(c) ==> exists i :: 0 <= i < |r| && r[i].comment == c
  {
    var top := SortNewestFirst(FilterKey(comments, ThreadKey, (postId, true)), CommentKey);
    SortedMatchMembers(comments, ThreadKey, (postId, true), CommentKey);
    ThreadEntriesFacts(top, comments, users, postId);
    ThreadEntries(top, comments, users)
  }

  /** `getAllComments`: 400 without a post id, 404 for a missing post, otherwise the
      thread. */
  function GetAllComments(posts: seq<Post>, comments: seq<Comment>, users: seq<User>, postId: Option<Id>)
    : (r: Result<seq<ThreadEntry>>)
    ensures postId.None? ==> r == Err(BadRequest)
    ensures postId.Some? ==> (r == Err(NotFound) <==> forall i :: 0 <= i < |posts| ==> posts[i].id != postId.value)
    ensures r.Ok? ==> r.value == ThreadView(comments, users, postId.value)
  {
    if postId.None? then Err(BadRequest)
    else if FindPost(posts, postId.value).None? then Err(NotFound)
    else Ok(ThreadView(comments, users, postId.value))
  }

  /** The thread is one level deep: a reply to a reply shows up neither as a top-level
      entry nor among any entry's replies. */
  lemma GrandRepliesNotListed(comments: seq<Comment>, users: seq<User>, nextId: Id, postId: Id, c: Comment, p: Comment)
    requires CommentsValid(comments, nextId)
    requires c in comments && p in comments && c.parentComment == Some(p.id) && IsReply(p)
    ensures var r := ThreadView(comments, users, postId);
      forall i :: 0 <= i < |r| ==> r[i].comment != c && forall j :: 0 <= j < |r[i].replies| ==> r[i].replies[j].reply != c
  {
    var r := ThreadView(comments, users, postId);
    forall i, j | 0 <= i < |r| && 0 <= j < |r[i].replies| ensures r[i].replies[j].reply != c {
      var a :| 0 <= a < |comments| && comments[a] == r[i].comment;
      var b :| 0 <= b < |comments| && comments[b] == p;
    }
  }

  /** `deleteComment`: 400 without an id, 404 for a missing comment, 403 for anyone but its
      author with nothing deleted; for the author, its direct replies and then the comment
      itself are deleted. */
  method DeleteComment(comments: CommentTable, caller: Id, commentId: Option<Id>) returns (r: Result<()>)
    requires comments.Valid()
    modifies comments
    ensures comments.Valid() && comments.nextId == old(comments.nextId)
    ensures commentId.None? ==> r == Err(BadRequest) && unchanged(comments)
    ensures commentId.Some? && FindComment(old(comments.rows), commentId.value).None? ==>
      r == Err(NotFound) && unchanged(comments)
    ensures commentId.Some? && FindComment(old(comments.rows), commentId.value).Some? ==>
      var c := old(comments.rows)[FindComment(old(comments.rows), commentId.value).value];
      && (c.commentBy != caller ==> r == Err(Forbidden) && unchanged(comments))
      && (c.commentBy == caller ==>
            r == Ok(()) && comments.rows == Remaining(Remaining(old(comments.rows), RepliesOf(c.id)), TheComment(c.id)))
  {
    if commentId.None? {
      return Err(BadRequest);
    }
    var found := FindComment(comments.rows, commentId.value);
    if found.None? {
      return Err(NotFound);
    }
    var c := comments.rows[found.value];
    if c.commentBy != caller {
      return Err(Forbidden);
    }
    comments.DeleteReplies(c.id);
    comments.DeleteById(c.id);
    r := Ok(());
  }

  /** What the author's delete leaves: exactly the comments that are neither the deleted
      one nor a direct reply to it, so one comment plus its direct replies disappear. */
  lemma DeleteRemovesCommentAndReplies(rows: seq<Comment>, nextId: Id, k: nat)
    requires CommentsValid(rows, nextId) && k < |rows|
    ensures var id := rows[k].id;
      var after := Remaining(Remaining(rows, RepliesOf(id)), TheComment(id));
      && (forall c :: c in after <==> c in rows && c.id != id && c.parentComment != Some(id))
      && |rows| == |after| + 1 + Matching(rows, RepliesOf(id))
  {
    var id := rows[k].id;
    var mid := Remaining(rows, RepliesOf(id));
    RemainingKeepsDistinct(rows, RepliesOf(id));
    assert rows[k] in mid;
    var m :| 0 <= m < |mid| && mid[m] == rows[k];
    OneCommentPerId(mid, m);
  }

  /** Deeper replies survive the delete: a reply to a direct reply of the deleted comment
      is still there afterwards. */
  lemma DeleteKeepsDeeperReplies(rows: seq<Comment>, nextId: Id, k: nat, p: Comment, c: Comment)
    requires CommentsValid(rows, nextId) && k < |rows|
    requires p in rows && p.parentComment == Some(rows[k].id)
    requires c in rows && c.parentComment == Some(p.id)
    ensures c in Remaining(Remaining(rows, RepliesOf(rows[k].id)), TheComment(rows[k].id))
  {
    DeleteRemovesCommentAndReplies(rows, nextId, k);
    assert p.id > rows[k].id;
    assert c.id > p.id;
  }

  /** The checks `editComment` and `editReply` share: an id, content, an existing comment. */
  function EditTarget(rows: seq<Comment>, commentId: Option<Id>, content: string): (r: Result<nat>)
    ensures commentId.None? || content == "" <==> r == Err(BadRequest)
    ensures commentId.Some? && content != "" ==> (r == Err(NotFound) <==> FindComment(rows, commentId.value).None?)
    ensures r.Ok? ==> r.value < |rows| && rows[r.value].id == commentId.value
  {
    if commentId.None? || content == "" then Err(BadRequest)
    else
      match FindComment(rows, commentId.value)
      case None => Err(NotFound)
      case Some(k) => Ok(k)
  }

  /** `editComment`: after the shared checks, 403 for anyone but the author; otherwise only
      the content changes, whether the target is top-level or a reply. */
  method EditComment(comments: CommentTable, caller: Id, commentId: Option<Id>, content: string)
    returns (r: Result<Comment>)
    requires comments.Valid()
    modifies comments
    ensures comments.Valid() && comments.nextId == old(comments.nextId)
    ensures EditTarget(old(comments.rows), commentId, content).Err? ==>
      r == Err(EditTarget(old(comments.rows), commentId, content).error) && unchanged(comments)
    ensures EditTarget(old(comments.rows), commentId, content).Ok? ==>
      var k := EditTarget(old(comments.rows), commentId, content).value;
      && (old(comments.rows)[k].commentBy != caller ==> r == Err(Forbidden) && unchanged(comments))
      && (old(comments.rows)[k].commentBy == caller ==>
            && comments.rows == old(comments.rows)[k := old(comments.rows)[k].(content := content)]
            && r == Ok(comments.rows[k]))
  {
    var target := EditTarget(comments.rows, commentId, content);
    if target.Err? {
      return Err(target.error);
    }
    var k := target.value;
    if comments.rows[k].commentBy != caller {
      return Err(Forbidden);
    }
    comments.SetContent(k, content);
    r := Ok(comments.rows[k]);
  }

  /** `editReply`: after the shared checks, 400 for a top-level target, checked before the
      author (403); otherwise only the content changes. */
  method EditReply(comments: CommentTable, caller: Id, replyId: Option<Id>, content: string)
    returns (r: Result<Comment>)
    requires comments.Valid()
    modifies comments
    ensures comments.Valid() && comments.nextId == old(comments.nextId)
    ensures EditTarget(old(comments.rows), replyId, content).Err? ==>
      r == Err(EditTarget(old(comments.rows), replyId, content).error) && unchanged(comments)
    ensures EditTarget(old(comments.rows), replyId, content).Ok? ==>
      var k := EditTarget(old(comments.rows), replyId, content).value;
      && (!IsReply(old(comments.rows)[k]) ==> r == Err(BadRequest) && unchanged(comments))
      && (IsReply(old(comments.rows)[k]) && old(comments.rows)[k].commentBy != caller ==>
            r == Err(Forbidden) && unchanged(comments))
      && (IsReply(old(comments.rows)[k]) && old(comments.rows)[k].commentBy == caller ==>
            && comments.rows == old(comments.rows)[k := old(comments.rows)[k].(content := content)]
            && r == Ok(comments.rows[k]))
  {
    var target := EditTarget(comments.rows, replyId, content);
    if target.Err? {
      return Err(target.error);
    }
    var k := target.value;
    if !IsReply(comments.rows[k]) {
      return Err(BadRequest);
    }
    if comments.rows[k].commentBy != caller {
      return Err(Forbidden);
    }
    comments.SetContent(k, content);
    r := Ok(comments.rows[k]);
  }

  /** An edit moves no comment between threads: every count by post, by parent and by
      thread position is what it was. */
  lemma EditKeepsThreadShape(rows: seq<Comment>, k: nat, content: string, postId: Id, parent: Option<Id>, top: bool)
    requires k < |rows|
    ensures var edited := rows[k := rows[k].(content := content)];
      && CountKey(edited, PostOf, postId) == CountKey(rows, PostOf, postId)
      && CountKey(edited, ParentOf, parent) == CountKey(rows, ParentOf, parent)
      && CountKey(edited, ThreadKey, (postId, top)) == CountKey(rows, ThreadKey, (postId, top))
  {
    var x := rows[k].(content := content);
    CountKeyUpdate(rows, k, x, PostOf, postId);
    CountKeyUpdate(rows, k, x, ParentOf, parent);
    CountKeyUpdate(rows, k, x, ThreadKey, (postId, top));
  }
}
