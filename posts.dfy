/**
 * The `posts` table behind the blog's route handlers and the pure parts of
 * those handlers: normalisation of submitted fields, the home page query and
 * its decoration with preview images.
 */
module Posts {
  import opened Wrappers
  import opened JsString
  import Html
  import Search

  /** `createdAt`, as milliseconds since the epoch. The table stores
      `toISOString()` text, whose fixed-width form orders like the instant. */
  type Timestamp = nat

  /** A row of `posts (id, title, content, createdAt)`. */
  datatype Post = Post(id: int, title: string, content: string, createdAt: Timestamp)

  /** A row as the home page gets it: `{ ...p, previewImage }`. */
  datatype ListedPost = ListedPost(post: Post, previewImage: Option<string>)

  const DefaultTitle: string := "Untitled"

  lemma DefaultTitleTrimmed()
    ensures DefaultTitle != [] && Trim(DefaultTitle) == DefaultTitle
  {
    var t := DefaultTitle;
    assert !IsSpace(t[0]) && !IsSpace(t[|t| - 1]);
    assert [] + t + [] == t;
    TrimPadded([], t, []);
  }

  /** `title.trim() || 'Untitled'`: the title the create and update handlers store. */
  function StoredTitle(raw: string): (t: string)
    ensures t != [] && Trim(t) == t
    ensures AllSpace(raw) ==> t == DefaultTitle
    ensures !AllSpace(raw) ==> TrimsTo(raw, t)
  {
    TrimEmptyIffAllSpace(raw);
    var trimmed := Trim(raw);
    if trimmed == [] then
      DefaultTitleTrimmed();
      DefaultTitle
    else
      TrimIdempotent(raw);
      TrimSpec(raw);
      trimmed
  }

  /** What every stored row satisfies: a non-empty title, both fields trimmed. */
  predicate Normalised(p: Post) {
    p.title != [] && Trim(p.title) == p.title && Trim(p.content) == p.content
  }

  /** The stored post for submitted fields, when the create handler inserts one. */
  function NewPost(id: int, title: string, content: string, now: Timestamp): (p: Post)
    ensures Normalised(p)
    ensures p.id == id && p.createdAt == now
  {
    TrimIdempotent(content);
    Post(id, StoredTitle(title), Trim(content), now)
  }

  predicate HasId(ps: seq<Post>, id: int) {
    exists k :: 0 <= k < |ps| && ps[k].id == id
  }

  /** `id` is the table's primary key. */
  predicate UniqueIds(ps: seq<Post>) {
    forall j, k :: 0 <= j < k < |ps| ==> ps[j].id != ps[k].id
  }

  /** `WHERE id = ?`: the position of the row with that id. */
  function IndexOf(ps: seq<Post>, id: int): (r: Option<nat>)
    ensures r.Some? ==> r.value < |ps| && ps[r.value].id == id
    ensures r.None? <==> !HasId(ps, id)
  {
    if ps == [] then None
    else if ps[0].id == id then Some(0)
    else
      match IndexOf(ps[1..], id)
      case None =>
        assert forall k :: 1 <= k < |ps| ==> ps[k] == ps[1..][k - 1];
        None
      case Some(k) => Some(k + 1)
  }

  /** `DELETE FROM posts WHERE id = ?` on the rows `ps`. */
  function WithoutId(ps: seq<Post>, id: int): (r: seq<Post>)
    ensures forall p :: p in r <==> p in ps && p.id != id
    ensures multiset(r) <= multiset(ps)
    ensures !HasId(r, id)
  {
    if ps == [] then []
    else
      assert ps == [ps[0]] + ps[1..];
      if ps[0].id == id then WithoutId(ps[1..], id)
      else [ps[0]] + WithoutId(ps[1..], id)
  }

  /** Deleting an id that is not there changes nothing. */
  lemma {:induction false} WithoutAbsentId(ps: seq<Post>, id: int)
    requires !HasId(ps, id)
    ensures WithoutId(ps, id) == ps
  {
    if ps != [] {
      assert !HasId(ps[1..], id) by {
        assert forall k :: 0 <= k < |ps| - 1 ==> ps[1..][k] == ps[k + 1];
      }
      WithoutAbsentId(ps[1..], id);
    }
  }

  /** Deleting twice is deleting once. */
  lemma DeleteIdempotent(ps: seq<Post>, id: int)
    ensures WithoutId(WithoutId(ps, id), id) == WithoutId(ps, id)
  {
    WithoutAbsentId(WithoutId(ps, id), id);
  }

  /** Deleting a present id removes exactly one row; all others stay. */
  lemma {:induction false} WithoutPresentId(ps: seq<Post>, id: int)
    requires UniqueIds(ps) && HasId(ps, id)
    ensures |WithoutId(ps, id)| == |ps| - 1
  {
    if ps[0].id == id {
      assert !HasId(ps[1..], id) by {
        assert forall k :: 0 <= k < |ps| - 1 ==> ps[1..][k] == ps[k + 1];
      }
      WithoutAbsentId(ps[1..], id);
    } else {
      var k :| 0 <= k < |ps| && ps[k].id == id;
      assert ps[1..][k - 1].id == id;
      WithoutPresentId(ps[1..], id);
    }
  }

  /** `UPDATE posts SET title = ?, content = ? WHERE id = ?` on the rows `ps`:
      a full replace of title and content in every row with the id. */
  function UpdateRows(ps: seq<Post>, id: int, title: string, content: string): (r: seq<Post>)
    ensures |r| == |ps|
    ensures forall j :: 0 <= j < |ps| ==> r[j].id == ps[j].id && r[j].createdAt == ps[j].createdAt
    ensures forall j :: 0 <= j < |ps| && ps[j].id != id ==> r[j] == ps[j]
    ensures forall j :: 0 <= j < |ps| && ps[j].id == id ==>
              r[j].title == StoredTitle(title) && r[j].content == Trim(content)
  {
    seq(|ps|, j requires 0 <= j < |ps| =>
      if ps[j].id == id then NewPost(id, title, content, ps[j].createdAt) else ps[j])
  }

  /** Updating an id that is not there changes nothing. */
  lemma UpdateAbsentId(ps: seq<Post>, id: int, title: string, content: string)
    requires !HasId(ps, id)
    ensures UpdateRows(ps, id, title, content) == ps
  {
  }

  /** `WHERE title LIKE '%q%' OR content LIKE '%q%'`. */
  predicate Matches(p: Post, q: string) {
    Search.Like(p.title, q) || Search.Like(p.content, q)
  }

  /** The rows of `ps` that the search query `q` selects, in table order. */
  function Matching(ps: seq<Post>, q: string): (r: seq<Post>)
    ensures forall p :: p in r <==> p in ps && Matches(p, q)
    ensures multiset(r) <= multiset(ps)
  {
    if ps == [] then []
    else if Matches(ps[0], q) then
      assert ps == [ps[0]] + ps[1..];
      [ps[0]] + Matching(ps[1..], q)
    else
      assert ps == [ps[0]] + ps[1..];
      Matching(ps[1..], q)
  }

  /** With the empty query both branches of the home page handler select every row. */
  lemma {:induction false} MatchingEmptyQuery(ps: seq<Post>)
    ensures Matching(ps, "") == ps
  {
    if ps != [] {
      Search.LikeEmpty(ps[0].title);
      MatchingEmptyQuery(ps[1..]);
    }
  }

  /** The rows the home page handler selects: all of them for an empty query. */
  function Selected(ps: seq<Post>, q: string): (r: seq<Post>)
    ensures forall p :: p in r <==> p in ps && Matches(p, q)
    ensures multiset(r) <= multiset(ps)
  {
    if q != "" then Matching(ps, q)
    else
      MatchingEmptyQuery(ps);
      ps
  }

  /** `ORDER BY createdAt DESC`. */
  predicate NewestFirst(ps: seq<Post>) {
    forall j, k :: 0 <= j < k < |ps| ==> ps[j].createdAt >= ps[k].createdAt
  }

  /** One step of the ordering: `p` placed into rows already newest first. */
  function InsertNewestFirst(p: Post, ps: seq<Post>): (r: seq<Post>)
    requires NewestFirst(ps)
    ensures NewestFirst(r)
    ensures multiset(r) == multiset(ps) + multiset{p}
  {
    if ps == [] || ps[0].createdAt <= p.createdAt then
      [p] + ps
    else
      var rest := InsertNewestFirst(p, ps[1..]);
      assert ps == [ps[0]] + ps[1..];
      forall x | x in rest ensures x.createdAt <= ps[0].createdAt {
        assert x in multiset(rest);
        if x != p { assert x in multiset(ps[1..]); }
      }
      NewestFirstCons(ps[0], rest);
      [ps[0]] + rest
  }

  lemma NewestFirstCons(h: Post, rest: seq<Post>)
    requires NewestFirst(rest)
    requires forall x :: x in rest ==> x.createdAt <= h.createdAt
    ensures NewestFirst([h] + rest)
  {
    var r := [h] + rest;
    forall j, k | 0 <= j < k < |r| ensures r[j].createdAt >= r[k].createdAt {
      if j > 0 { assert r[j] == rest[j - 1] && r[k] == rest[k - 1]; }
      else { assert r[k] == rest[k - 1]; assert rest[k - 1] in rest; }
    }
  }

  /** The rows of `ps`, newest first. */
  function SortNewestFirst(ps: seq<Post>): (r: seq<Post>)
    ensures NewestFirst(r)
    ensures multiset(r) == multiset(ps)
  {
    if ps == [] then []
    else
      var rest := SortNewestFirst(ps[1..]);
      assert ps == [ps[0]] + ps[1..];
      InsertNewestFirst(ps[0], rest)
  }

  lemma SortKeepsMembers(ps: seq<Post>)
    ensures forall p :: p in SortNewestFirst(ps) <==> p in ps
  {
    var r := SortNewestFirst(ps);
    assert forall p :: p in r <==> p in multiset(r);
    assert forall p :: p in ps <==> p in multiset(ps);
  }

  /** With unique ids no row occurs twice. */
  lemma {:induction false} UniqueIdsOnce(ps: seq<Post>, x: Post)
    requires UniqueIds(ps)
    ensures multiset(ps)[x] <= 1
  {
    if ps != [] {
      assert ps == [ps[0]] + ps[1..];
      assert UniqueIds(ps[1..]) by {
        assert forall k :: 0 <= k < |ps| - 1 ==> ps[1..][k] == ps[k + 1];
      }
      UniqueIdsOnce(ps[1..], x);
    }
  }

  /** Rows taken from a table with unique ids, each at most as often as there,
      again have unique ids. */
  lemma SubmultisetKeepsUniqueIds(a: seq<Post>, b: seq<Post>)
    requires UniqueIds(a) && multiset(b) <= multiset(a)
    ensures UniqueIds(b)
  {
    forall j, k | 0 <= j < k < |b| ensures b[j].id != b[k].id {
      assert b[j] in multiset(a) && b[k] in multiset(a);
      var j' :| 0 <= j' < |a| && a[j'] == b[j];
      var k' :| 0 <= k' < |a| && a[k'] == b[k];
      if b[j] == b[k] {
        assert b == b[..k] + b[k..];
        assert b[j] in b[..k] && b[k] in b[k..];
        assert multiset(b)[b[j]] == multiset(b[..k])[b[j]] + multiset(b[k..])[b[j]];
        UniqueIdsOnce(a, b[j]);
      }
    }
  }

  /** `posts.map(p => ({ ...p, previewImage: extractFirstImage(p.content) }))`. */
  function Decorate(ps: seq<Post>): (r: seq<ListedPost>)
    ensures |r| == |ps|
    ensures forall k :: 0 <= k < |ps| ==> r[k].post == ps[k]
    ensures forall k :: 0 <= k < |ps| ==> r[k].previewImage == Html.ExtractFirstImage(Some(ps[k].content))
  {
    seq(|ps|, k requires 0 <= k < |ps| => ListedPost(ps[k], Html.ExtractFirstImage(Some(ps[k].content))))
  }

  function PostsOf(r: seq<ListedPost>): (ps: seq<Post>)
    ensures |ps| == |r| && forall k :: 0 <= k < |r| ==> ps[k] == r[k].post
  {
    seq(|r|, k requires 0 <= k < |r| => r[k].post)
  }

  /** The table invariant: ids are unique, positive and below the counter;
      every row is normalised. */
  predicate ValidRows(ps: seq<Post>, nextId: int) {
    && nextId >= 1
    && UniqueIds(ps)
    && forall k :: 0 <= k < |ps| ==> 1 <= ps[k].id < nextId && Normalised(ps[k])
  }

  lemma UpdateKeepsValid(ps: seq<Post>, id: int, title: string, content: string, nextId: int)
    requires ValidRows(ps, nextId)
    ensures ValidRows(UpdateRows(ps, id, title, content), nextId)
  {
    var r := UpdateRows(ps, id, title, content);
    forall j | 0 <= j < |r| ensures Normalised(r[j]) {
      if ps[j].id == id { assert r[j] == NewPost(id, title, content, ps[j].createdAt); }
    }
  }

  lemma AppendKeepsValid(ps: seq<Post>, p: Post, nextId: int)
    requires ValidRows(ps, nextId) && p.id == nextId && Normalised(p)
    ensures !HasId(ps, nextId)
    ensures ValidRows(ps + [p], nextId + 1)
  {
  }

  lemma SubsetKeepsValid(ps: seq<Post>, rs: seq<Post>, nextId: int)
    requires ValidRows(ps, nextId) && multiset(rs) <= multiset(ps)
    ensures ValidRows(rs, nextId)
  {
    SubmultisetKeepsUniqueIds(ps, rs);
    forall k | 0 <= k < |rs| ensures 1 <= rs[k].id < nextId && Normalised(rs[k]) {
      assert rs[k] in multiset(ps);
    }
  }

  /** The `posts` table, with the counter that hands out fresh ids. */
  class PostTable {
    var posts: seq<Post>
    var nextId: int

    ghost predicate Valid()
      reads this
    {
      ValidRows(posts, nextId)
    }

    constructor ()
      ensures Valid() && posts == [] && nextId == 1
    {
      posts := [];
      nextId := 1;
    }

    /** `POST /posts`: both fields blank is a silent no-op; otherwise one row is
        inserted with a fresh id, the normalised fields and the given time. */
    method Create(title: string, content: string, now: Timestamp) returns (inserted: bool)
      requires Valid()
      modifies this
      ensures Valid()
      ensures inserted <==> !(AllSpace(title) && AllSpace(content))
      ensures !inserted ==> posts == old(posts) && nextId == old(nextId)
      ensures inserted ==> !HasId(old(posts), old(nextId))
      ensures inserted ==> posts == old(posts) + [NewPost(old(nextId), title, content, now)]
      ensures inserted ==> nextId == old(nextId) + 1
    {
      var trimmedTitle := Trim(title);
      var trimmedContent := Trim(content);
      TrimEmptyIffAllSpace(title);
      TrimEmptyIffAllSpace(content);
      if trimmedTitle == [] && trimmedContent == [] {
        return false;
      }
      AppendKeepsValid(posts, NewPost(nextId, title, content, now), nextId);
      posts := posts + [NewPost(nextId, title, content, now)];
      nextId := nextId + 1;
      inserted := true;
    }

    /** `GET /posts/:id`: the row with that id, or `None` for the 404 page. */
    method Get(id: int) returns (r: Option<Post>)
      requires Valid()
      ensures r.Some? <==> HasId(posts, id)
      ensures r.Some? ==> r.value in posts && r.value.id == id
      ensures r.Some? ==> forall p :: p in posts && p.id == id ==> p == r.value
    {
      match IndexOf(posts, id)
      case None => r := None;
      case Some(k) => r := Some(posts[k]);
    }

    /** `PUT /posts/:id`: a full replace of title and content of the row with
        that id, reporting the number of rows changed (0 gives the 404 page). */
    method Update(id: int, title: string, content: string) returns (changes: nat)
      requires Valid()
      modifies this
      ensures Valid() && nextId == old(nextId)
      ensures changes == if HasId(old(posts), id) then 1 else 0
      ensures posts == UpdateRows(old(posts), id, title, content)
    {
      changes := if IndexOf(posts, id).Some? then 1 else 0;
      UpdateKeepsValid(posts, id, title, content, nextId);
      posts := UpdateRows(posts, id, title, content);
    }

    /** `DELETE /posts/:id`: removes the row with that id, if there is one. */
    method Delete(id: int)
      requires Valid()
      modifies this
      ensures Valid() && nextId == old(nextId)
      ensures posts == WithoutId(old(posts), id)
    {
      SubsetKeepsValid(posts, WithoutId(posts, id), nextId);
      posts := WithoutId(posts, id);
    }

    /** `GET /`: the rows the search query selects (all rows when it is empty),
        newest first, each once, each with its preview image. */
    method List(q: string) returns (r: seq<ListedPost>)
      requires Valid()
      ensures forall p :: p in PostsOf(r) <==> p in posts && Matches(p, q)
      ensures UniqueIds(PostsOf(r))
      ensures NewestFirst(PostsOf(r))
      ensures forall k :: 0 <= k < |r| ==> r[k].previewImage == Html.ExtractFirstImage(Some(r[k].post.content))
    {
      var selected := Selected(posts, q);
      var sorted := SortNewestFirst(selected);
      SortKeepsMembers(selected);
      SubmultisetKeepsUniqueIds(posts, sorted);
      r := Decorate(sorted);
      assert PostsOf(r) == sorted;
    }
  }
}
