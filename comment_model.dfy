/** The `comments` collection. A comment whose `parentComment` is null is top-level; any
    other comment is a reply, and nothing stops a reply from having replies of its own. */
module CommentModel {
  import opened Common
  import opened Seqs

  datatype Comment = Comment(
    id: Id,
    post: Id,
    commentBy: Id,
    content: string,
    parentComment: Option<Id>,
    createdAt: nat)

  predicate IsReply(c: Comment)
  {
    c.parentComment.Some?
  }

  function CommentKey(c: Comment): nat
  {
    c.createdAt
  }

  function PostOf(c: Comment): Id
  {
    c.post
  }

  function ParentOf(c: Comment): Option<Id>
  {
    c.parentComment
  }

  /** A comment's post and whether it is top-level: the filter `{post, parentComment: null}`
      selects key `(post, true)`. */
  function ThreadKey(c: Comment): (Id, bool)
  {
    (c.post, c.parentComment.None?)
  }

  /** `findById`: the position of the comment with id `id`. */
  function FindComment(rows: seq<Comment>, id: Id): (r: Option<nat>)
    ensures r.Some? ==> r.value < |rows| && rows[r.value].id == id
    ensures r.None? <==> forall i :: 0 <= i < |rows| ==> rows[i].id != id
  {
    FindIndex(rows, (c: Comment) => c.id == id)
  }

  /** Which comments a delete removes: `deleteMany({parentComment: id})` removes the direct
      replies of `id`, `findByIdAndDelete(id)` removes the comment `id` itself. */
  datatype Removal = RepliesOf(parent: Id) | TheComment(id: Id)

  predicate Removes(d: Removal, c: Comment)
  {
    match d
    case RepliesOf(parent) => c.parentComment == Some(parent)
    case TheComment(id) => c.id == id
  }

  /** Number of comments in `rows` that `d` removes. */
  function Matching(rows: seq<Comment>, d: Removal): (n: nat)
    ensures n <= |rows|
    ensures n == 0 <==> forall i :: 0 <= i < |rows| ==> !Removes(d, rows[i])
  {
    if rows == [] then 0 else (if Removes(d, rows[0]) then 1 else 0) + Matching(rows[1..], d)
  }

  /** The collection after the delete: the comments `d` does not remove, in their order. */
  function Remaining(rows: seq<Comment>, d: Removal): (r: seq<Comment>)
    ensures forall c :: c in r <==> c in rows && !Removes(d, c)
    ensures |r| + Matching(rows, d) == |rows|
  {
    if rows == [] then []
    else if Removes(d, rows[0]) then Remaining(rows[1..], d)
    else [rows[0]] + Remaining(rows[1..], d)
  }

  /** Ids are distinct and below the next one, `content` is present (`required`), and a
      reply refers to a comment created before it. */
  ghost predicate CommentsValid(rows: seq<Comment>, nextId: Id)
  {
    && (forall i :: 0 <= i < |rows| ==>
          && rows[i].id < nextId
          && rows[i].content != ""
          && (rows[i].parentComment.Some? ==> rows[i].parentComment.value < rows[i].id))
    && DistinctIds(rows)
  }

  /** Any subsequence of a valid collection is valid. */
  lemma SubsequenceValid(rows: seq<Comment>, sub: seq<Comment>, nextId: Id)
    requires CommentsValid(rows, nextId)
    requires forall c :: c in sub ==> c in rows
    requires DistinctIds(sub)
    ensures CommentsValid(sub, nextId)
  {
    forall i | 0 <= i < |sub|
      ensures sub[i].id < nextId && sub[i].content != ""
      ensures sub[i].parentComment.Some? ==> sub[i].parentComment.value < sub[i].id
    {
      assert sub[i] in rows;
    }
  }

  class CommentTable {
    var rows: seq<Comment>
    var nextId: Id

    ghost predicate Valid()
      reads this
    {
      CommentsValid(rows, nextId)
    }

    constructor ()
      ensures Valid() && rows == [] && nextId == 0
    {
      rows := [];
      nextId := 0;
    }

    /** `Comment.create`; an empty `content` is refused by the `required` validator. */
    method Create(post: Id, commentBy: Id, content: string, parentComment: Option<Id>, now: nat)
      returns (r: Result<Comment>)
      requires Valid()
      requires parentComment.Some? ==> parentComment.value < nextId
      modifies this
      ensures Valid()
      ensures content == "" ==> r == Err(Unhandled) && rows == old(rows) && nextId == old(nextId)
      ensures content != "" ==>
        && r == Ok(Comment(old(nextId), post, commentBy, content, parentComment, now))
        && rows == old(rows) + [r.value] && nextId == old(nextId) + 1
    {
      if content == "" {
        r := Err(Unhandled);
      } else {
        var c := Comment(nextId, post, commentBy, content, parentComment, now);
        rows := rows + [c];
        nextId := nextId + 1;
        r := Ok(c);
      }
    }

    /** `findByIdAndUpdate(id, {content})` on the comment at position `k`. */
    method SetContent(k: nat, content: string)
      requires Valid() && k < |rows| && content != ""
      modifies this
      ensures Valid()
      ensures rows == old(rows)[k := old(rows)[k].(content := content)] && nextId == old(nextId)
    {
      rows := rows[k := rows[k].(content := content)];
    }

    /** `deleteMany({parentComment: id})`. */
    method DeleteReplies(id: Id)
      requires Valid()
      modifies this
      ensures Valid()
      ensures rows == Remaining(old(rows), RepliesOf(id)) && nextId == old(nextId)
    {
      var r := Remaining(rows, RepliesOf(id));
      RemainingKeepsDistinct(rows, RepliesOf(id));
      SubsequenceValid(rows, r, nextId);
      rows := r;
    }

    /** `findByIdAndDelete(id)`. */
    method DeleteById(id: Id)
      requires Valid()
      modifies this
      ensures Valid()
      ensures rows == Remaining(old(rows), TheComment(id)) && nextId == old(nextId)
    {
      var r := Remaining(rows, TheComment(id));
      RemainingKeepsDistinct(rows, TheComment(id));
      SubsequenceValid(rows, r, nextId);
      rows := r;
    }
  }

  ghost predicate DistinctIds(rows: seq<Comment>)
  {
    forall i, j :: 0 <= i < j < |rows| ==> rows[i].id != rows[j].id
  }

  lemma DistinctTail(rows: seq<Comment>)
    requires rows != [] && DistinctIds(rows)
    ensures DistinctIds(rows[1..])
  {
    forall i, j | 0 <= i < j < |rows| - 1 ensures rows[1..][i].id != rows[1..][j].id {
      assert rows[1..][i] == rows[i + 1] && rows[1..][j] == rows[j + 1];
    }
  }

  /** With distinct ids, `findByIdAndDelete` removes exactly one comment. */
  lemma {:induction false} OneCommentPerId(rows: seq<Comment>, k: nat)
    requires DistinctIds(rows) && k < |rows|
    ensures Matching(rows, TheComment(rows[k].id)) == 1
  {
    DistinctTail(rows);
    if k == 0 {
      forall i | 0 <= i < |rows[1..]| ensures !Removes(TheComment(rows[0].id), rows[1..][i]) {
        assert rows[1..][i] == rows[i + 1];
      }
    } else {
      assert rows[1..][k - 1] == rows[k];
      OneCommentPerId(rows[1..], k - 1);
    }
  }

  /** With distinct ids, no later comment shares the first one's id. */
  lemma HeadIdUnique(rows: seq<Comment>)
    requires rows != [] && DistinctIds(rows)
    ensures forall c :: c in rows[1..] ==> c.id != rows[0].id
  {
    forall c | c in rows[1..] ensures c.id != rows[0].id {
      var m :| 0 <= m < |rows[1..]| && rows[1..][m] == c;
      assert rows[m + 1] == c;
    }
  }

  /** Putting a comment with a fresh id in front keeps the ids distinct. */
  lemma ConsKeepsDistinct(x: Comment, rest: seq<Comment>)
    requires DistinctIds(rest) && forall c :: c in rest ==> c.id != x.id
    ensures DistinctIds([x] + rest)
  {
    var r := [x] + rest;
    forall i, j | 0 <= i < j < |r| ensures r[i].id != r[j].id {
      assert r[j] == rest[j - 1] && rest[j - 1] in rest;
      if i > 0 {
        assert r[i] == rest[i - 1];
      }
    }
  }

  /** A delete leaves the ids of the remaining comments distinct. */
  lemma {:induction false} RemainingKeepsDistinct(rows: seq<Comment>, d: Removal)
    requires DistinctIds(rows)
    ensures DistinctIds(Remaining(rows, d))
  {
    if rows != [] {
      DistinctTail(rows);
      RemainingKeepsDistinct(rows[1..], d);
      if !Removes(d, rows[0]) {
        HeadIdUnique(rows);
        ConsKeepsDistinct(rows[0], Remaining(rows[1..], d));
      }
    }
  }
}
