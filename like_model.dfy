/** The `likes` collection. A like points at a post or at a comment; the other field keeps
    its default, null. Two unique indexes, on (likedBy, post) and on (likedBy, comment),
    guard the collection, and MongoDB indexes a null field like any other value. */
module LikeModel {
  import opened Common
  import opened Seqs

  datatype Like = Like(
    id: Id,
    likedBy: Id,
    post: Option<Id>,
    comment: Option<Id>,
    createdAt: nat)

  /** What a like is for: a post (`toggleLikePost`) or a comment (`toggleCommentLike`). */
  datatype LikeTarget = OnPost(postId: Id) | OnComment(commentId: Id)

  /** The `post` field of a like created for `t`. */
  function PostField(t: LikeTarget): Option<Id>
  {
    if t.OnPost? then Some(t.postId) else None
  }

  /** The `comment` field of a like created for `t`. */
  function CommentField(t: LikeTarget): Option<Id>
  {
    if t.OnComment? then Some(t.commentId) else None
  }

  /** The filter `{post: postId}` or `{comment: commentId}`. */
  predicate Targets(l: Like, t: LikeTarget)
  {
    match t
    case OnPost(p) => l.post == Some(p)
    case OnComment(c) => l.comment == Some(c)
  }

  /** The filter `{likedBy: user, post: postId}` or `{comment: commentId, likedBy: user}`. */
  predicate IsLikeOf(l: Like, user: Id, t: LikeTarget)
  {
    l.likedBy == user && Targets(l, t)
  }

  /** `countDocuments({post: postId})` or `countDocuments({comment: commentId})`. */
  function LikeCount(rows: seq<Like>, t: LikeTarget): (n: nat)
    ensures n <= |rows|
    ensures n == 0 <==> forall i :: 0 <= i < |rows| ==> !Targets(rows[i], t)
  {
    if rows == [] then 0 else (if Targets(rows[0], t) then 1 else 0) + LikeCount(rows[1..], t)
  }

  lemma {:induction false} LikeCountAppend(rows: seq<Like>, l: Like, t: LikeTarget)
    ensures LikeCount(rows + [l], t) == LikeCount(rows, t) + if Targets(l, t) then 1 else 0
  {
    if rows != [] {
      assert (rows + [l])[1..] == rows[1..] + [l];
      LikeCountAppend(rows[1..], l, t);
    }
  }

  lemma {:induction false} LikeCountRemoveAt(rows: seq<Like>, k: nat, t: LikeTarget)
    requires k < |rows|
    ensures LikeCount(RemoveAt(rows, k), t) + (if Targets(rows[k], t) then 1 else 0) == LikeCount(rows, t)
  {
    if k == 0 {
      assert RemoveAt(rows, 0) == rows[1..];
    } else {
      assert RemoveAt(rows, k) == [rows[0]] + RemoveAt(rows[1..], k - 1);
      assert RemoveAt(rows, k)[1..] == RemoveAt(rows[1..], k - 1);
      LikeCountRemoveAt(rows[1..], k - 1, t);
    }
  }

  /** The user a like belongs to, which `getUserLikedPost` matches on. */
  function LikerOf(l: Like): Id
  {
    l.likedBy
  }

  /** The `createdAt` timestamp of a like, which `getUserLikedPost` sorts on. */
  function LikedAt(l: Like): nat
  {
    l.createdAt
  }

  /** `Like.findOne`: the position of the first like of `user` for `t`. */
  function FindLike(rows: seq<Like>, user: Id, t: LikeTarget): (r: Option<nat>)
    ensures r.Some? ==> r.value < |rows| && IsLikeOf(rows[r.value], user, t)
    ensures r.Some? ==> forall i :: 0 <= i < r.value ==> !IsLikeOf(rows[i], user, t)
    ensures r.None? <==> forall i :: 0 <= i < |rows| ==> !IsLikeOf(rows[i], user, t)
  {
    FindIndex(rows, (l: Like) => IsLikeOf(l, user, t))
  }

  /** Two likes collide on one of the unique indexes: same user, and the same `post` or the
      same `comment`, null counting as a value. */
  predicate SameIndexKey(a: Like, likedBy: Id, post: Option<Id>, comment: Option<Id>)
  {
    a.likedBy == likedBy && (a.post == post || a.comment == comment)
  }

  /** Inserting (likedBy, post, comment) would raise a duplicate key error. */
  predicate Clashes(rows: seq<Like>, likedBy: Id, post: Option<Id>, comment: Option<Id>)
  {
    exists i :: 0 <= i < |rows| && SameIndexKey(rows[i], likedBy, post, comment)
  }

  ghost predicate LikesValid(rows: seq<Like>, nextId: Id)
  {
    && (forall i :: 0 <= i < |rows| ==> rows[i].id < nextId)
    && (forall i, j :: 0 <= i < j < |rows| ==>
          && rows[i].id != rows[j].id
          && !SameIndexKey(rows[i], rows[j].likedBy, rows[j].post, rows[j].comment))
  }

  /** Removing one like keeps the collection valid. */
  lemma RemoveKeepsValid(rows: seq<Like>, nextId: Id, k: nat)
    requires LikesValid(rows, nextId) && k < |rows|
    ensures LikesValid(RemoveAt(rows, k), nextId)
  {
    var r := RemoveAt(rows, k);
    forall i, j | 0 <= i < j < |r|
      ensures r[i].id != r[j].id && !SameIndexKey(r[i], r[j].likedBy, r[j].post, r[j].comment)
    {
      var i' := if i < k then i else i + 1;
      var j' := if j < k then j else j + 1;
      assert r[i] == rows[i'] && r[j] == rows[j'];
    }
  }

  /** Appending a like that clashes with no stored like keeps the collection valid. */
  lemma AppendKeepsValid(rows: seq<Like>, nextId: Id, l: Like)
    requires LikesValid(rows, nextId) && l.id == nextId && !Clashes(rows, l.likedBy, l.post, l.comment)
    ensures LikesValid(rows + [l], nextId + 1)
  {
    var r := rows + [l];
    forall i, j | 0 <= i < j < |r|
      ensures r[i].id != r[j].id && !SameIndexKey(r[i], r[j].likedBy, r[j].post, r[j].comment)
    {
      assert r[i] == rows[i];
      if j < |rows| {
        assert r[j] == rows[j];
      }
    }
  }

  class LikeTable {
    var rows: seq<Like>
    var nextId: Id

    ghost predicate Valid()
      reads this
    {
      LikesValid(rows, nextId)
    }

    constructor ()
      ensures Valid() && rows == [] && nextId == 0
    {
      rows := [];
      nextId := 0;
    }

    /** `Like.create`: a duplicate key on either unique index throws. */
    method Create(likedBy: Id, post: Option<Id>, comment: Option<Id>, now: nat)
      returns (r: Result<Like>)
      requires Valid()
      modifies this
      ensures Valid()
      ensures Clashes(old(rows), likedBy, post, comment) ==>
        r == Err(Unhandled) && rows == old(rows) && nextId == old(nextId)
      ensures !Clashes(old(rows), likedBy, post, comment) ==>
        && r == Ok(Like(old(nextId), likedBy, post, comment, now))
        && rows == old(rows) + [r.value] && nextId == old(nextId) + 1
    {
      if Clashes(rows, likedBy, post, comment) {
        r := Err(Unhandled);
      } else {
        var l := Like(nextId, likedBy, post, comment, now);
        AppendKeepsValid(rows, nextId, l);
        rows := rows + [l];
        nextId := nextId + 1;
        r := Ok(l);
      }
    }

    /** `findByIdAndDelete` / `deleteOne` of the like at position `k`. */
    method DeleteAt(k: nat)
      requires Valid() && k < |rows|
      modifies this
      ensures Valid()
      ensures rows == RemoveAt(old(rows), k) && nextId == old(nextId)
    {
      RemoveKeepsValid(rows, nextId, k);
      rows := RemoveAt(rows, k);
    }
  }
}
