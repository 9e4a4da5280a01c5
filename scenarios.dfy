/** Worked documents: what the update does to README files of a simple shape. */
module Scenarios {
  import opened Text
  import opened ResearchPosts
  import opened Sections

  /** Both markers start with `<`, so text without a `<` holds no earlier marker. */
  lemma NoEarlierWithoutOpen(g: string, pat: string)
    requires |pat| > 0 && pat[0] == '<'
    requires '<' !in g
    ensures NoEarlier(g, pat)
  {
    forall p | 0 <= p < |g| ensures !OccursAt(g + pat, pat, p) {
      if p + |pat| <= |g + pat| {
        assert (g + pat)[p..p + |pat|][0] == g[p];
      }
    }
  }

  /** Text without a `<` holds no marker, hence no region. */
  lemma NoRegionWithoutOpen(t: string, start: string, end: string)
    requires |start| > 0 && start[0] == '<'
    requires '<' !in t
    ensures !HasRegion(t, start, end)
  {
    forall i | 0 <= i ensures !OccursAt(t, start, i) {
      if i + |start| <= |t| {
        assert t[i..i + |start|][0] == t[i];
      }
    }
  }

  /** A single post with both fields renders as one link item. */
  lemma OnePostBlock()
    ensures Format([Post(Some("Post A"), Some("https://x/a"))]) == "* [Post A](https://x/a)"
  {
    var p := Post(Some("Post A"), Some("https://x/a"));
    assert Recent([p]) == [p];
    assert Bullet(p) == "* [Post A](https://x/a)";
    assert Bullets([p]) == [Bullet(p)];
  }

  /** A post without a title renders as `Untitled`, one without a link points at `#`. */
  lemma DefaultsBlock()
    ensures Format([Post(None, None)]) == "* [Untitled](#)"
  {
    var p := Post(None, None);
    assert Recent([p]) == [p];
    assert Bullet(p) == "* [Untitled](#)";
    assert Bullets([p]) == [Bullet(p)];
  }

  /** A README with two sections of the same name, and no other `<` in it, has both
      sections rewritten (the substitution is global) and the text around and
      between them kept. */
  lemma TwoSections(head: string, old1: string, mid: string, old2: string, rest: string,
                    name: string, newContent: string)
    requires LiteralName(name)
    requires '\\' !in newContent
    requires '<' !in head && '<' !in old1 && '<' !in mid
    requires '<' !in old2 && '<' !in rest
    ensures var s, e := StartMarker(name), EndMarker(name);
      var n := "\n" + newContent + "\n";
      ReplaceSection(head + s + old1 + e + mid + s + old2 + e + rest, name, newContent)
        == head + s + n + e + mid + s + n + e + rest
  {
    var s, e := StartMarker(name), EndMarker(name);
    var n := "\n" + newContent + "\n";
    var c := head + s + old1 + e + mid + s + old2 + e + rest;
    var regions := [Region(head, old1), Region(mid, old2)];
    NoEarlierWithoutOpen(head, s);
    NoEarlierWithoutOpen(old1, e);
    NoEarlierWithoutOpen(mid, s);
    NoEarlierWithoutOpen(old2, e);
    NoRegionWithoutOpen(rest, s, e);
    WeaveTwo(head, old1, mid, old2, rest, s, e);
    assert IsScan(c, s, e, regions, rest);
    ReplaceSectionRegions(c, name, newContent, regions, rest);
    assert WithBody(regions, n) == [Region(head, n), Region(mid, n)];
    WeaveTwo(head, n, mid, n, rest, s, e);
  }

  /** Two regions woven with their markers. */
  lemma WeaveTwo(g1: string, b1: string, g2: string, b2: string, tail: string, s: string, e: string)
    ensures Weave([Region(g1, b1), Region(g2, b2)], tail, s, e) == g1 + s + b1 + e + g2 + s + b2 + e + tail
  {
    var regions := [Region(g1, b1), Region(g2, b2)];
    assert regions[1..] == [Region(g2, b2)];
    assert regions[1..][1..] == [];
    assert Weave(regions[1..][1..], tail, s, e) == tail;
    var w2 := Weave(regions[1..], tail, s, e);
    assert w2 == g2 + s + b2 + e + tail;
  }

  /** The section name the script updates. */
  const ResearchSection: string := "research"

  lemma ResearchSectionPlain()
    ensures LiteralName(ResearchSection) && '\n' !in ResearchSection
  {
  }

  /** What one run of the script does to the README text once the posts are
      fetched: format them and splice the block into the `research` section. A
      README without the section's start marker is left as it is, and the text
      before that marker is always kept. A backslash in a rendered title or url is
      left out (the replacement template would read it as an escape). */
  function UpdateResearch(content: string, posts: seq<Post>): (r: string)
    requires forall p :: p in Recent(posts) ==> '\\' !in TitleOf(p) && '\\' !in UrlOf(p)
    ensures !Contains(content, StartMarker(ResearchSection)) ==> r == content
    ensures Contains(content, StartMarker(ResearchSection)) ==>
      var i := Find(content, StartMarker(ResearchSection)).value;
      i <= |r| && r[..i] == content[..i]
  {
    ResearchSectionPlain();
    FormatAvoids(posts, '\\');
    ReplaceSection(content, ResearchSection, Format(posts))
  }

  /** Running the script twice with the same posts leaves the README as the first
      run wrote it, as long as the rendered block holds no end marker of the
      `research` section. */
  lemma UpdateResearchIdempotent(content: string, posts: seq<Post>)
    requires forall p :: p in Recent(posts) ==> '\\' !in TitleOf(p) && '\\' !in UrlOf(p)
    requires !Contains(Format(posts), EndMarker(ResearchSection))
    ensures UpdateResearch(UpdateResearch(content, posts), posts) == UpdateResearch(content, posts)
  {
    ResearchSectionPlain();
    FormatAvoids(posts, '\\');
    ReplaceSectionIdempotent(content, ResearchSection, Format(posts));
  }
}
