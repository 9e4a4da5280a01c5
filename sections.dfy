/** Splicing a block of text into every marker-delimited region of a document
    (`replace_section` in scripts/update_readme.py).

    The script does this with one `re.sub` over the pattern `START(.*?)END` with
    DOTALL, replacing every match. Here that is written out as the search
    `re.sub` repeats: find the first start marker, then the nearest end marker
    after it; if both are there, emit the text before the start marker and the
    replacement, and carry on after the end marker; otherwise copy the rest
    unchanged. */
module Sections {
  import opened Text

  function StartMarker(name: string): string {
    "<!--START_SECTION:" + name + "-->"
  }

  function EndMarker(name: string): string {
    "<!--END_SECTION:" + name + "-->"
  }

  /** What every matched region turns into. */
  function Replacement(name: string, body: string): string {
    StartMarker(name) + "\n" + body + "\n" + EndMarker(name)
  }

  /** Characters that Python's `re` gives a meaning in a pattern. */
  const RegexMetachars: set<char> := {'.', '^', '$', '*', '+', '?', '{', '}', '[', ']', '\\', '|', '(', ')'}

  /** A section name that stands for itself when put unescaped into a pattern. */
  predicate LiteralName(name: string) {
    forall k :: 0 <= k < |name| ==> name[k] !in RegexMetachars
  }

  /** The text contains a start marker followed, later, by an end marker. */
  ghost predicate HasRegion(c: string, start: string, end: string) {
    exists i, j :: OccursAt(c, start, i) && i + |start| <= j && OccursAt(c, end, j)
  }

  /** The leftmost match of `start(.*?)end` in `c` (what `re.search` finds): the
      index where its start marker begins and the index just past its end marker. */
  function Search(c: string, start: string, end: string): (m: Option<(nat, nat)>)
    ensures m.Some? ==> m.value.0 + |start| + |end| <= m.value.1 <= |c|
    ensures m.Some? ==> OccursAt(c, start, m.value.0) && OccursAt(c, end, m.value.1 - |end|)
  {
    match Find(c, start)
    case None => None
    case Some(i) =>
      match Find(c[i + |start|..], end)
      case None => None
      case Some(j) =>
        assert c[i + |start|..][j..j + |end|] == c[i + |start| + j..i + |start| + j + |end|];
        Some((i, i + |start| + j + |end|))
  }

  /** `re.sub(start + "(.*?)" + end, r, c, flags=re.DOTALL)` for literal markers:
      every match, left to right, becomes `r`. */
  function Replace(c: string, start: string, end: string, r: string): (out: string)
    requires start != []
    ensures !Contains(c, start) ==> out == c
    ensures Contains(c, start) ==> var i := Find(c, start).value;
      i <= |out| && out[..i] == c[..i]
    decreases |c|
  {
    match Search(c, start, end)
    case None => c
    case Some((i, k)) => c[..i] + r + Replace(c[k..], start, end, r)
  }

  /** `replace_section(content, section_name, new_content)`. */
  function ReplaceSection(content: string, name: string, newContent: string): (r: string)
    requires LiteralName(name)
    requires '\\' !in newContent
    ensures !Contains(content, StartMarker(name)) ==> r == content
    ensures Contains(content, StartMarker(name)) ==> var i := Find(content, StartMarker(name)).value;
      i <= |r| && r[..i] == content[..i]
  {
    Replace(content, StartMarker(name), EndMarker(name), Replacement(name, newContent))
  }

  // ---------------------------------------------------------------------------
  // A declarative description of the matches: the document cut into regions.

  /** Text up to a start marker (`before`), and what lies between that start marker
      and its end marker (`body`). */
  datatype Region = Region(before: string, body: string)

  /** The document the regions and the trailing text make up. */
  function Weave(regions: seq<Region>, tail: string, start: string, end: string): string
    decreases |regions|
  {
    if regions == [] then tail
    else regions[0].before + start + regions[0].body + end + Weave(regions[1..], tail, start, end)
  }

  /** The same text with every region, markers included, replaced by `r`. */
  function Splice(regions: seq<Region>, tail: string, r: string): string
    decreases |regions|
  {
    if regions == [] then tail
    else regions[0].before + r + Splice(regions[1..], tail, r)
  }

  /** The same regions, each with its body set to `body`. */
  function WithBody(regions: seq<Region>, body: string): seq<Region> {
    seq(|regions|, k requires 0 <= k < |regions| => Region(regions[k].before, body))
  }

  /** No occurrence of `pat` starts inside `g` when `g` is followed by `pat`:
      the `pat` after `g` is the first one. */
  predicate NoEarlier(g: string, pat: string) {
    forall p :: 0 <= p < |g| ==> !OccursAt(g + pat, pat, p)
  }

  /** The regions are the matches of the scan: each starts at the first start
      marker after the previous one ends (leftmost), each ends at the first end
      marker after its start (non-greedy), and no region is left in the tail. */
  ghost predicate IsScan(c: string, start: string, end: string, regions: seq<Region>, tail: string) {
    && c == Weave(regions, tail, start, end)
    && (forall k :: 0 <= k < |regions| ==>
          NoEarlier(regions[k].before, start) && NoEarlier(regions[k].body, end))
    && !HasRegion(tail, start, end)
  }

  // ---------------------------------------------------------------------------
  // What one search finds.

  /** If `c` begins with `g + pat` and no `pat` starts inside `g`, then `g` ends
      where `Find` puts the first `pat`. */
  lemma FindAfterNoEarlier(c: string, g: string, pat: string)
    requires |g| + |pat| <= |c| && c[..|g| + |pat|] == g + pat
    requires NoEarlier(g, pat)
    ensures Find(c, pat) == Some(|g|)
  {
    forall p | 0 <= p < |g| ensures !OccursAt(c, pat, p) {
      OccursInPrefix(c, g + pat, pat, p);
    }
    OccursInPrefix(c, g + pat, pat, |g|);
    assert (g + pat)[|g|..|g| + |pat|] == pat;
    FindFirst(c, pat, |g|);
  }

  /** The text before the first occurrence of `pat` has no earlier `pat` in it. */
  lemma NoEarlierBeforeFirst(c: string, pat: string, i: nat)
    requires FirstAt(c, pat, i)
    ensures c[..i + |pat|] == c[..i] + pat
    ensures NoEarlier(c[..i], pat)
  {
    assert c[i..i + |pat|] == pat;
    assert c[..i + |pat|] == c[..i] + pat;
    forall p | 0 <= p < i ensures !OccursAt(c[..i] + pat, pat, p) {
      OccursInPrefix(c, c[..i] + pat, pat, p);
    }
  }

  /** The slices of a document made of a region and a rest. */
  lemma Ungroup(c: string, g: string, s: string, b: string, e: string, w: string, after: string)
    requires c == g + s + b + e + w && after == b + e + w
    ensures |g| + |s| <= |c| && c[..|g| + |s|] == g + s && c[|g| + |s|..] == after && c[..|g|] == g
    ensures |b| + |e| <= |after| && after[..|b| + |e|] == b + e && after[|b| + |e|..] == w
    ensures c[|g| + |s| + |b| + |e|..] == w
  {
    assert c == (g + s) + after;
    assert after == (b + e) + w;
  }

  lemma Regroup(c: string, g: string, s: string, b: string, e: string, rest: string, after: string)
    requires c == (g + s) + after && after == (b + e) + rest
    ensures c == g + s + b + e + rest
  {
  }

  /** A document that starts with a region, cut where the scan cuts, is found by
      the search exactly there. */
  lemma SearchAfterNoEarlier(g: string, b: string, w: string, start: string, end: string)
    requires NoEarlier(g, start) && NoEarlier(b, end)
    ensures Search(g + start + b + end + w, start, end) == Some((|g|, |g| + |start| + |b| + |end|))
  {
    var c := g + start + b + end + w;
    var after := b + end + w;
    Ungroup(c, g, start, b, end, w, after);
    FindAfterNoEarlier(c, g, start);
    assert c[|g| + |start|..] == after;
    FindAfterNoEarlier(after, b, end);
  }

  /** The first start marker and the nearest end marker after it cut the document
      into the text before, the body, and the rest. */
  lemma FirstRegion(c: string, start: string, end: string, i: nat, j: nat)
    returns (g: string, b: string, rest: string)
    requires FirstAt(c, start, i)
    requires FirstAt(c[i + |start|..], end, j)
    ensures c == g + start + b + end + rest
    ensures g == c[..i] && rest == c[i + |start|..][j + |end|..]
    ensures NoEarlier(g, start) && NoEarlier(b, end)
  {
    var after := c[i + |start|..];
    g, b, rest := c[..i], after[..j], after[j + |end|..];
    NoEarlierBeforeFirst(c, start, i);
    NoEarlierBeforeFirst(after, end, j);
    assert c == (g + start) + after by {
      assert c == c[..i + |start|] + c[i + |start|..];
    }
    assert after == (b + end) + rest by {
      assert after == after[..j + |end|] + after[j + |end|..];
    }
    Regroup(c, g, start, b, end, rest, after);
  }

  /** A match found by the search cuts the document into the text before it, the
      start marker, a body with no earlier end marker, the end marker, and the rest;
      and no start marker comes before it. */
  lemma SearchMatch(c: string, start: string, end: string) returns (g: string, b: string, w: string)
    requires Search(c, start, end).Some?
    ensures c == g + start + b + end + w
    ensures g == c[..Search(c, start, end).value.0] && w == c[Search(c, start, end).value.1..]
    ensures NoEarlier(g, start) && NoEarlier(b, end)
  {
    var i := Find(c, start).value;
    var j := Find(c[i + |start|..], end).value;
    assert Search(c, start, end) == Some((i, i + |start| + j + |end|));
    g, b, w := FirstRegion(c, start, end, i, j);
    assert c[i + |start|..][j + |end|..] == c[i + |start| + j + |end|..];
  }

  /** With no start marker, there is no region. */
  lemma NoRegionWithoutStart(c: string, start: string, end: string)
    requires !Contains(c, start)
    ensures !HasRegion(c, start, end)
  {
  }

  /** With no end marker after the first start marker, there is no region: a later
      start marker has even less text after it. */
  lemma NoRegionWithoutEnd(c: string, start: string, end: string, i: nat)
    requires FirstAt(c, start, i)
    requires !Contains(c[i + |start|..], end)
    ensures !HasRegion(c, start, end)
  {
    var after := c[i + |start|..];
    forall p, q | OccursAt(c, start, p) && p + |start| <= q ensures !OccursAt(c, end, q) {
      if OccursAt(c, end, q) {
        assert p >= i;
        var k := q - i - |start|;
        assert after[k..k + |end|] == c[q..q + |end|];
        assert OccursAt(after, end, k);
        assert Contains(after, end);
      }
    }
  }

  /** A start marker followed by an end marker is a region. */
  lemma RegionAt(g: string, b: string, w: string, start: string, end: string)
    ensures HasRegion(g + start + b + end + w, start, end)
  {
    var c := g + start + b + end + w;
    assert c[|g|..|g| + |start|] == start;
    assert c[|g| + |start| + |b|..|g| + |start| + |b| + |end|] == end;
    assert OccursAt(c, start, |g|) && OccursAt(c, end, |g| + |start| + |b|);
  }

  /** The search finds a match exactly when the document has a start marker
      followed, later, by an end marker. */
  lemma SearchFindsRegion(c: string, start: string, end: string)
    ensures Search(c, start, end).Some? <==> HasRegion(c, start, end)
  {
    match Find(c, start)
    case None =>
      NoRegionWithoutStart(c, start, end);
    case Some(i) =>
      match Find(c[i + |start|..], end) {
        case None =>
          NoRegionWithoutEnd(c, start, end, i);
        case Some(j) =>
          var g, b, w := SearchMatch(c, start, end);
          RegionAt(g, b, w, start, end);
      }
  }

  // ---------------------------------------------------------------------------
  // What the whole substitution does.

  /** Without a region, `Replace` copies the document unchanged. */
  lemma NoRegionUnchanged(c: string, start: string, end: string, r: string)
    requires start != []
    requires !HasRegion(c, start, end)
    ensures Replace(c, start, end, r) == c
  {
    SearchFindsRegion(c, start, end);
  }

  /** One step of the substitution: a document that starts with a region, found as
      the search finds it, has that region replaced and the rest handled the same way. */
  lemma ReplaceUnfold(g: string, b: string, w: string, start: string, end: string, r: string)
    requires start != []
    requires NoEarlier(g, start) && NoEarlier(b, end)
    ensures Replace(g + start + b + end + w, start, end, r) == g + r + Replace(w, start, end, r)
  {
    var c := g + start + b + end + w;
    Ungroup(c, g, start, b, end, w, b + end + w);
    SearchAfterNoEarlier(g, b, w, start, end);
  }

  /** The first region of a scan: the document starts with its text before, the
      start marker, its body and the end marker, and the rest is again a scan. */
  lemma ScanFirst(c: string, start: string, end: string, regions: seq<Region>, tail: string)
    requires IsScan(c, start, end, regions, tail)
    requires regions != []
    ensures var g, b := regions[0].before, regions[0].body;
      var n := |g| + |start| + |b| + |end|;
      && n <= |c|
      && c == g + start + b + end + c[n..]
      && IsScan(c[n..], start, end, regions[1..], tail)
      && NoEarlier(g, start) && NoEarlier(b, end)
  {
    var g, b := regions[0].before, regions[0].body;
    var w := Weave(regions[1..], tail, start, end);
    assert c == g + start + b + end + w;
    var n := |g| + |start| + |b| + |end|;
    assert c[n..] == w;
    forall k | 0 <= k < |regions[1..]|
      ensures NoEarlier(regions[1..][k].before, start) && NoEarlier(regions[1..][k].body, end)
    {
      assert regions[1..][k] == regions[k + 1];
    }
    assert NoEarlier(regions[0].before, start) && NoEarlier(regions[0].body, end);
  }

  /** A region found as the scan finds it, followed by a scanned rest, is a scan. */
  lemma ScanCons(g: string, b: string, rest: string, start: string, end: string,
                 more: seq<Region>, t: string)
    requires NoEarlier(g, start) && NoEarlier(b, end)
    requires IsScan(rest, start, end, more, t)
    ensures IsScan(g + start + b + end + rest, start, end, [Region(g, b)] + more, t)
  {
    var regions := [Region(g, b)] + more;
    assert regions[1..] == more;
    forall k | 0 <= k < |regions|
      ensures NoEarlier(regions[k].before, start) && NoEarlier(regions[k].body, end)
    {
      if k > 0 { assert regions[k] == more[k - 1]; }
    }
  }

  /** Whatever scan describes the document, `Replace` keeps the text outside every
      region as it was and puts `r` in place of each region, markers included:
      this pins down its result completely. */
  lemma {:induction false} ReplaceIsSplice(c: string, start: string, end: string, r: string,
                                          regions: seq<Region>, tail: string)
    requires start != []
    requires IsScan(c, start, end, regions, tail)
    ensures Replace(c, start, end, r) == Splice(regions, tail, r)
    decreases |c|
  {
    if regions == [] {
      NoRegionUnchanged(c, start, end, r);
    } else {
      ScanFirst(c, start, end, regions, tail);
      var g, b := regions[0].before, regions[0].body;
      var rest := c[|g| + |start| + |b| + |end|..];
      ReplaceUnfold(g, b, rest, start, end, r);
      ReplaceIsSplice(rest, start, end, r, regions[1..], tail);
    }
  }

  /** Every document has a scan, the one `Replace` performs; it finds a region
      exactly when the document has one. */
  lemma {:induction false} ScanExists(c: string, start: string, end: string)
    returns (regions: seq<Region>, tail: string)
    requires start != []
    ensures IsScan(c, start, end, regions, tail)
    ensures regions != [] <==> HasRegion(c, start, end)
    decreases |c|
  {
    SearchFindsRegion(c, start, end);
    if Search(c, start, end).None? {
      regions, tail := [], c;
    } else {
      var g, b, w := SearchMatch(c, start, end);
      var more, t := ScanExists(w, start, end);
      ScanCons(g, b, w, start, end, more, t);
      regions, tail := [Region(g, b)] + more, t;
    }
  }

  /** Splicing in `start + n + end` is the same as keeping the markers and
      setting every body to `n`. */
  lemma {:induction false} SpliceIsWeave(regions: seq<Region>, tail: string,
                                        start: string, n: string, end: string)
    ensures Splice(regions, tail, start + n + end) == Weave(WithBody(regions, n), tail, start, end)
    decreases |regions|
  {
    if regions != [] {
      assert WithBody(regions, n)[1..] == WithBody(regions[1..], n);
      SpliceIsWeave(regions[1..], tail, start, n, end);
    }
  }

  /** What the regions held does not matter once they are replaced. */
  lemma {:induction false} SpliceIgnoresBodies(regions: seq<Region>, tail: string, body: string, r: string)
    ensures Splice(WithBody(regions, body), tail, r) == Splice(regions, tail, r)
    decreases |regions|
  {
    if regions != [] {
      assert WithBody(regions, body)[1..] == WithBody(regions[1..], body);
      SpliceIgnoresBodies(regions[1..], tail, body, r);
    }
  }

  /** Replacing a second time with the same block changes nothing, provided the
      block `start + n + end` has no end marker starting inside `n`, so that each
      region it forms ends where it was written. */
  lemma ReplaceIdempotent(c: string, start: string, end: string, n: string)
    requires start != []
    requires NoEarlier(n, end)
    ensures var once := Replace(c, start, end, start + n + end);
      Replace(once, start, end, start + n + end) == once
  {
    var r := start + n + end;
    var regions, tail := ScanExists(c, start, end);
    ReplaceIsSplice(c, start, end, r, regions, tail);
    var once := Splice(regions, tail, r);
    var rebodied := WithBody(regions, n);
    SpliceIsWeave(regions, tail, start, n, end);
    assert IsScan(once, start, end, rebodied, tail);
    ReplaceIsSplice(once, start, end, r, rebodied, tail);
    SpliceIgnoresBodies(regions, tail, n, r);
  }

  // ---------------------------------------------------------------------------
  // The same facts for `replace_section` and its markers.

  /** A document without a start marker followed by an end marker of that name
      comes back unchanged: the update is silently skipped. */
  lemma ReplaceSectionNoRegion(content: string, name: string, newContent: string)
    requires LiteralName(name)
    requires '\\' !in newContent
    requires !HasRegion(content, StartMarker(name), EndMarker(name))
    ensures ReplaceSection(content, name, newContent) == content
  {
    NoRegionUnchanged(content, StartMarker(name), EndMarker(name), Replacement(name, newContent));
  }

  /** What `replace_section` does to a document: for the regions its scan finds,
      the text before each start marker and after the last region is kept as it
      was, both markers of each region are kept, and each body becomes the new
      content between two newlines. */
  lemma ReplaceSectionRegions(content: string, name: string, newContent: string,
                              regions: seq<Region>, tail: string)
    requires LiteralName(name)
    requires '\\' !in newContent
    requires IsScan(content, StartMarker(name), EndMarker(name), regions, tail)
    ensures ReplaceSection(content, name, newContent)
      == Weave(WithBody(regions, "\n" + newContent + "\n"), tail, StartMarker(name), EndMarker(name))
  {
    var n := "\n" + newContent + "\n";
    assert Replacement(name, newContent) == StartMarker(name) + n + EndMarker(name);
    ReplaceIsSplice(content, StartMarker(name), EndMarker(name), Replacement(name, newContent), regions, tail);
    SpliceIsWeave(regions, tail, StartMarker(name), n, EndMarker(name));
  }

  /** The block the script writes never holds an end marker that would cut its own
      region short, as long as the new content holds no end marker and the name
      no newline. */
  lemma ReplacementBodyClean(name: string, newContent: string)
    requires '\n' !in name
    requires !Contains(newContent, EndMarker(name))
    ensures NoEarlier("\n" + newContent + "\n", EndMarker(name))
  {
    var e := EndMarker(name);
    var n := "\n" + newContent + "\n";
    assert '\n' !in e;
    forall p | 0 <= p < |n| ensures !OccursAt(n + e, e, p) {
      if p + |e| <= |n + e| {
        var w := (n + e)[p..p + |e|];
        if p == 0 {
          assert w[0] == '\n' && e[0] == '<';
        } else if p + |e| >= |n| {
          assert w[|n| - 1 - p] == '\n' && e[|n| - 1 - p] in e;
        } else {
          assert w == newContent[p - 1..p - 1 + |e|];
          assert !OccursAt(newContent, e, p - 1);
        }
      }
    }
  }

  /** Running `replace_section` a second time with the same name and new content
      leaves the document as the first call wrote it. */
  lemma ReplaceSectionIdempotent(content: string, name: string, newContent: string)
    requires LiteralName(name)
    requires '\\' !in newContent
    requires '\n' !in name
    requires !Contains(newContent, EndMarker(name))
    ensures var once := ReplaceSection(content, name, newContent);
      ReplaceSection(once, name, newContent) == once
  {
    ReplacementBodyClean(name, newContent);
    var n := "\n" + newContent + "\n";
    assert Replacement(name, newContent) == StartMarker(name) + n + EndMarker(name);
    ReplaceIdempotent(content, StartMarker(name), EndMarker(name), n);
  }

  // ---------------------------------------------------------------------------
  // A name whose end marker overlaps itself.

  /** The same counterexample for any markers of that shape: an end marker made of
      the content, a newline and the content again, and a start marker longer than
      the content and a newline. The first run writes the block `r`; the second
      one ends the region at the end marker that `r` holds one line early. */
  lemma OverlapSecondRun(s: string, e: string, x: string, r: string)
    requires |x| + 1 < |s| && e == x + "\n" + x && e[0] == '<'
    requires r == s + "\n" + x + "\n" + e
    ensures Replace(r, s, e, r) == r + "\n" + x
  {
    OverlapRegroup(s, x);
    ShortLineRegion(s, e, x, r);
    ShortTextUnchanged(s, e, "\n" + x, r);
  }

  /** A document that is just a start marker and an end marker becomes `r`. */
  lemma EmptyRegionRun(s: string, e: string, r: string)
    requires s != []
    ensures Replace(s + e, s, e, r) == r
  {
    assert "" + s + "" + e + "" == s + e;
    ReplaceUnfold("", "", "", s, e, r);
    ShortTextUnchanged(s, e, "", r);
  }

  lemma OverlapRegroup(s: string, x: string)
    ensures s + "\n" + x + "\n" + (x + "\n" + x) == "" + s + "\n" + (x + "\n" + x) + ("\n" + x)
  {
  }

  /** A region whose body is a single newline is found and replaced. */
  lemma ShortLineRegion(s: string, e: string, x: string, r: string)
    requires s != [] && |e| > 0 && e[0] == '<'
    ensures Replace("" + s + "\n" + e + ("\n" + x), s, e, r) == "" + r + Replace("\n" + x, s, e, r)
  {
    assert NoEarlier("\n", e) by {
      assert ("\n" + e)[0] != e[0];
    }
    ReplaceUnfold("", "\n", "\n" + x, s, e, r);
  }

  /** A text shorter than the start marker is left as it is. */
  lemma ShortTextUnchanged(s: string, e: string, t: string, r: string)
    requires |t| < |s|
    ensures Replace(t, s, e, r) == t
  {
    assert !Contains(t, s);
  }

  /** A section name with newlines whose end marker overlaps itself. */
  const OverlapName: string := "\n-->\n<!--END_SECTION:\n"

  /** New content that holds neither marker of `OverlapName`. */
  const OverlapContent: string := "<!--END_SECTION:\n-->"

  lemma OverlapNameLiteral()
    ensures LiteralName(OverlapName)
  {
  }

  /** The end marker of `OverlapName` is `OverlapContent`, a newline and
      `OverlapContent` again. */
  lemma OverlapEndMarker()
    ensures EndMarker(OverlapName) == OverlapContent + "\n" + OverlapContent
  {
  }

  /** The start marker of `OverlapName` is longer than `OverlapContent` and a newline,
      and `OverlapContent` holds no backslash. */
  lemma OverlapContentShort()
    ensures |OverlapContent| + 1 < |StartMarker(OverlapName)|
    ensures '\\' !in OverlapContent
  {
  }

  /** "The new content holds neither marker" is not enough for `replace_section` to
      be idempotent: with `OverlapName` and `OverlapContent`, the written block
      holds an end marker one line early, and a second run leaves an extra line
      behind. */
  lemma NeitherMarkerNotEnough()
    ensures LiteralName(OverlapName) && '\\' !in OverlapContent
    ensures !Contains(OverlapContent, StartMarker(OverlapName))
    ensures !Contains(OverlapContent, EndMarker(OverlapName))
    ensures var once := ReplaceSection(StartMarker(OverlapName) + EndMarker(OverlapName), OverlapName, OverlapContent);
      ReplaceSection(once, OverlapName, OverlapContent) == once + "\n" + OverlapContent
  {
    OverlapNameLiteral();
    OverlapEndMarker();
    OverlapContentShort();
    var s, e, x := StartMarker(OverlapName), EndMarker(OverlapName), OverlapContent;
    var r := Replacement(OverlapName, x);
    assert r == s + "\n" + x + "\n" + e;
    assert e[0] == '<';
    EmptyRegionRun(s, e, r);
    OverlapSecondRun(s, e, x, r);
    ShorterNotContained(x, s);
    ShorterNotContained(x, e);
    assert ReplaceSection(s + e, OverlapName, x) == r;
    assert ReplaceSection(r, OverlapName, x) == Replace(r, s, e, r);
  }

  /** A pattern longer than the text does not occur in it. */
  lemma ShorterNotContained(t: string, pat: string)
    requires |t| < |pat|
    ensures !Contains(t, pat)
  {
  }
}
