/**
 * Worked examples of the handlers and helpers, on concrete inputs.
 */
module Scenarios {
  import opened Wrappers
  import opened JsString
  import opened Html
  import opened Posts
  import Search

  /** Plain markup gives no preview image. */
  lemma NoImagePreview()
    ensures ExtractFirstImage(Some("<p>hi</p>")) == None
  {
  }

  /** The search ignores the case of ASCII letters: `first` finds `First Post`. */
  lemma FirstMatchesTitle()
    ensures Search.Like("First Post", "first")
  {
    var f := Search.FoldAscii("First Post");
    assert f[..5] == "first";
    assert Search.FoldAscii("first") == "first";
    assert Search.OccursAt(f, "first", 0);
  }

  /** Creating a post on a fresh table and reading it back gives the trimmed fields,
      e.g. `"  Hello  "` and `"  World  "` come back as `"Hello"` and `"World"`. */
  method CreateThenGet(title: string, content: string, now: Timestamp) returns (p: Option<Post>)
    requires !AllSpace(title)
    ensures p == Some(Post(1, Trim(title), Trim(content), now))
  {
    var table := new PostTable();
    var inserted := table.Create(title, content, now);
    var expected := NewPost(1, title, content, now);
    assert table.posts == [expected];
    TrimSpec(title);
    TrimsToUnique(title, StoredTitle(title), Trim(title));
    assert expected == Post(1, Trim(title), Trim(content), now);
    assert HasId(table.posts, 1) by { assert table.posts[0].id == 1; }
    p := table.Get(1);
    assert p.Some? && p.value in [expected];
  }

  /** A create with blank fields inserts nothing: the home page stays empty. */
  method BlankCreate(title: string, content: string, now: Timestamp) returns (r: seq<ListedPost>)
    requires AllSpace(title) && AllSpace(content)
    ensures r == []
  {
    var table := new PostTable();
    var inserted := table.Create(title, content, now);
    r := table.List("");
    assert r != [] ==> r[0].post in PostsOf(r);
  }

  /** Deleting twice: the post is gone after the first call, the second changes nothing. */
  method DeleteTwice(title: string, content: string, now: Timestamp) returns (p: Option<Post>, remaining: nat)
    ensures p == None && remaining == 0
  {
    var table := new PostTable();
    var inserted := table.Create(title, content, now);
    table.Delete(1);
    table.Delete(1);
    p := table.Get(1);
    remaining := |table.posts|;
  }
}
