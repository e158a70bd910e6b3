/** The `posts` collection: an image, a caption, a view counter, the owner and a visibility
    drawn from a fixed set. */
module PostModel {
  import opened Common
  import opened Seqs
  import opened AssetStore

  /** The `visibility` enum; no other value can be stored. */
  datatype Visibility = Public | Private | OnlyFollowers

  function VisibilityName(v: Visibility): string
  {
    match v
    case Public => "public"
    case Private => "private"
    case OnlyFollowers => "only-followers"
  }

  /** The enum validator: a string is accepted exactly when it names one of the three. */
  function ParseVisibility(s: string): (r: Option<Visibility>)
    ensures r.Some? ==> VisibilityName(r.value) == s
    ensures r.None? <==> forall v: Visibility :: VisibilityName(v) != s
  {
    if s == "public" then Some(Public)
    else if s == "private" then Some(Private)
    else if s == "only-followers" then Some(OnlyFollowers)
    else None
  }

  /** `title` and `description` are declared with the key `require` (not `required`), so the
      schema accepts any string for them, the empty one included. */
  datatype Post = Post(
    id: Id,
    postImg: Asset,
    title: string,
    description: string,
    view: nat,
    owner: Id,
    viewBy: seq<Id>,
    visibility: Visibility,
    createdAt: nat)

  /** The document `Post.create` builds: no views, no viewers, public. */
  function NewPost(id: Id, postImg: Asset, title: string, description: string, owner: Id, now: nat): Post
  {
    Post(id, postImg, title, description, 0, owner, [], Public, now)
  }

  /** The `createdAt` timestamp the feeds sort on. */
  function PostKey(p: Post): nat
  {
    p.createdAt
  }

  function OwnerOf(p: Post): Id
  {
    p.owner
  }

  /** `findById`: the position of the post with id `id`. */
  function FindPost(rows: seq<Post>, id: Id): (r: Option<nat>)
    ensures r.Some? ==> r.value < |rows| && rows[r.value].id == id
    ensures r.None? <==> forall i :: 0 <= i < |rows| ==> rows[i].id != id
  {
    FindIndex(rows, (p: Post) => p.id == id)
  }

  ghost predicate PostsValid(rows: seq<Post>, nextId: Id)
  {
    && (forall i :: 0 <= i < |rows| ==> rows[i].id < nextId)
    && (forall i, j :: 0 <= i < j < |rows| ==> rows[i].id != rows[j].id)
  }

  class PostTable {
    var rows: seq<Post>
    var nextId: Id

    ghost predicate Valid()
      reads this
    {
      PostsValid(rows, nextId)
    }

    constructor ()
      ensures Valid() && rows == [] && nextId == 0
    {
      rows := [];
      nextId := 0;
    }

    /** `Post.create`. */
    method Create(postImg: Asset, title: string, description: string, owner: Id, now: nat)
      returns (p: Post)
      requires Valid()
      modifies this
      ensures Valid()
      ensures p == NewPost(old(nextId), postImg, title, description, owner, now)
      ensures rows == old(rows) + [p] && nextId == old(nextId) + 1
    {
      p := NewPost(nextId, postImg, title, description, owner, now);
      rows := rows + [p];
      nextId := nextId + 1;
    }

    /** `findByIdAndUpdate` of the document at position `k`; the id stays. */
    method Save(k: nat, p: Post)
      requires Valid() && k < |rows| && p.id == rows[k].id
      modifies this
      ensures Valid()
      ensures rows == old(rows)[k := p] && nextId == old(nextId)
    {
      rows := rows[k := p];
    }

    /** `findByIdAndDelete` of the document at position `k`. */
    method Delete(k: nat)
      requires Valid() && k < |rows|
      modifies this
      ensures Valid()
      ensures rows == RemoveAt(old(rows), k) && nextId == old(nextId)
    {
      rows := RemoveAt(rows, k);
    }
  }
}
