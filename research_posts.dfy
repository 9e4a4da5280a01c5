/** Rendering of recent research posts as a markdown bullet list
    (`format_research_posts` in scripts/update_readme.py). */
module ResearchPosts {
  import opened Text

  /** One post record: only the two keys the formatter reads. A missing key is `None`. */
  datatype Post = Post(title: Option<string>, htmlUrl: Option<string>)

  /** The block written when there are no posts at all. */
  const NoPostsLine: string := "* No recent research posts"

  /** At most this many posts are rendered. */
  const MaxPosts: nat := 5

  function Min(a: nat, b: nat): nat {
    if a <= b then a else b
  }

  function TitleOf(p: Post): string {
    p.title.GetOr("Untitled")
  }

  function UrlOf(p: Post): string {
    p.htmlUrl.GetOr("#")
  }

  /** The markdown link item for one post. */
  function Bullet(p: Post): string {
    "* [" + TitleOf(p) + "](" + UrlOf(p) + ")"
  }

  /** The posts that are rendered: the first `MaxPosts` of them, in input order. */
  function Recent(posts: seq<Post>): seq<Post> {
    posts[..Min(|posts|, MaxPosts)]
  }

  function Bullets(posts: seq<Post>): seq<string> {
    seq(|posts|, k requires 0 <= k < |posts| => Bullet(posts[k]))
  }

  /** The formatted block: the placeholder line for no posts, otherwise one bullet
      per recent post joined by newlines. It is the placeholder exactly when there
      are no posts, and it never ends in a newline. */
  function Format(posts: seq<Post>): (r: string)
    ensures r == NoPostsLine <==> posts == []
    ensures |r| > 0 && r[|r| - 1] != '\n'
    ensures posts != [] ==> r[|r| - 1] == ')'
  {
    if posts == [] then NoPostsLine
    else
      var lines := Bullets(Recent(posts));
      assert lines[0] == "* [" + TitleOf(posts[0]) + "](" + UrlOf(posts[0]) + ")";
      var r := JoinLines(lines);
      assert r[..|lines[0]|] == lines[0];
      assert r[2] == '[' != NoPostsLine[2];
      var last := lines[|lines| - 1];
      assert r[|r| - |last|..] == last;
      assert last[|last| - 1] == ')';
      r
  }

  /** The formatter as the script runs it: a loop over the first five posts that
      appends one rendered line per post, then a newline join. */
  method FormatResearchPosts(posts: seq<Post>) returns (text: string)
    ensures text == Format(posts)
  {
    if |posts| == 0 {
      return NoPostsLine;
    }
    var recent := posts[..Min(|posts|, MaxPosts)];
    var formatted: seq<string> := [];
    for k := 0 to |recent|
      invariant |formatted| == k
      invariant forall j :: 0 <= j < k ==> formatted[j] == Bullet(recent[j])
    {
      var post := recent[k];
      var title := post.title.GetOr("Untitled");
      var url := post.htmlUrl.GetOr("#");
      formatted := formatted + ["* [" + title + "](" + url + ")"];
    }
    assert formatted == Bullets(recent);
    text := JoinLines(formatted);
  }

  /** Read back line by line, the block holds one line per recent post, in input
      order, each the post's link item with its defaults applied, so never more than
      `MaxPosts` lines. This holds as long as no rendered title or url holds a newline itself. */
  lemma FormatLines(posts: seq<Post>)
    requires forall p :: p in Recent(posts) ==> '\n' !in TitleOf(p) && '\n' !in UrlOf(p)
    ensures posts == [] ==> SplitLines(Format(posts)) == [NoPostsLine]
    ensures posts != [] ==> |SplitLines(Format(posts))| == Min(|posts|, MaxPosts) <= MaxPosts
    ensures posts != [] ==> forall k :: 0 <= k < |SplitLines(Format(posts))| ==>
      SplitLines(Format(posts))[k] == "* [" + TitleOf(posts[k]) + "](" + UrlOf(posts[k]) + ")"
  {
    if posts == [] {
      SplitLinesSingle(NoPostsLine);
    } else {
      var lines := Bullets(Recent(posts));
      forall k | 0 <= k < |lines| ensures '\n' !in lines[k] {
        assert posts[k] == Recent(posts)[k] && Recent(posts)[k] in Recent(posts);
        assert lines[k] == "* [" + TitleOf(posts[k]) + "](" + UrlOf(posts[k]) + ")";
      }
      SplitJoin(lines);
    }
  }

  /** The block holds no character that is in neither a rendered title or url,
      the placeholder line nor the link syntax. */
  lemma FormatAvoids(posts: seq<Post>, ch: char)
    requires ch != '\n' && ch !in NoPostsLine && ch !in "[]()"
    requires forall p :: p in Recent(posts) ==> ch !in TitleOf(p) && ch !in UrlOf(p)
    ensures ch !in Format(posts)
  {
    if posts != [] {
      var lines := Bullets(Recent(posts));
      forall k | 0 <= k < |lines| ensures ch !in lines[k] {
        assert posts[k] == Recent(posts)[k] && Recent(posts)[k] in Recent(posts);
        assert lines[k] == "* [" + TitleOf(posts[k]) + "](" + UrlOf(posts[k]) + ")";
      }
      JoinLinesAvoids(lines, ch);
    }
  }

  /** Posts past the fifth never influence the block. */
  lemma FormatIgnoresOlderPosts(posts: seq<Post>, older: seq<Post>)
    requires |posts| >= MaxPosts
    ensures Format(posts + older) == Format(posts)
  {
    assert Recent(posts + older) == Recent(posts);
  }
}
