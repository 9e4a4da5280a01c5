# Research-posts README updater, modelled in Dafny

The repository keeps its profile README up to date with a small script,
`scripts/update_readme.py`. The script does four things:

1. It fetches the latest issues of a research repository.
2. It renders them as a markdown bullet list.
3. It splices that list between the markers `<!--START_SECTION:research-->` and
   `<!--END_SECTION:research-->`.
4. It writes the README back.

This project models the two string transforms at the heart of that script and proves what
they do.

* `format_research_posts`: module `ResearchPosts` (`research_posts.dfy`).
  * An empty list gives the line `* No recent research posts`.
  * Otherwise each of the first five posts becomes `* [title](url)`. The title defaults to
    `Untitled` and the url (the post's `html_url`) defaults to `#`.
  * The lines are joined with newlines.
  * The script builds the list with a loop that appends. `FormatResearchPosts` is that loop,
    proved equal to the specification function `Format`. The lemmas are about `Format`.
* `replace_section`: module `Sections` (`sections.dfy`).
  * The script runs one `re.sub` over `START(.*?)END` with DOTALL and the default count.
    Every non-overlapping region is replaced, scanning left to right. Each region ends at the
    first end marker after its start marker.
  * `Replace` writes this scan out as a recursion over the text. `Search` is one `re.search`:
    it finds the first start marker, then the nearest end marker after it.
  * `IsScan` is a declarative description of the matches. It cuts the document into a list of
    `Region(before, body)` and a tail, with three conditions:
    * no start marker starts inside a `before`;
    * no end marker starts inside a `body`;
    * the tail holds no start marker followed by an end marker.
  * `ReplaceIsSplice` shows that `Replace` keeps every `before` and the tail as they are, and
    turns every region into the replacement block. `ScanExists` shows that such a cut always
    exists.
* Substring search and Python's `"\n".join` / `str.split("\n")`: module `Text` (`text.dfy`).
* The script's own use of the two transforms, worked examples and an end-to-end idempotence
  result: module `Scenarios` (`scenarios.dfy`).

The two transforms need two preconditions:

* The section name is spliced into the regex unescaped, so the model requires a name with no
  regex metacharacter (`LiteralName`).
* The replacement is read as a `re.sub` template, so the model requires new content with no
  backslash.

With those, the pattern is the literal text of the two markers, and the replacement is the
literal block.

Three facts about the code are worth stating plainly.

* Each line is exactly `* [title](url)`. There is no date or other suffix.
* The link is the post's `html_url` exactly as given. No part of it, such as a `#fragment`,
  is stripped.
* `re.sub` runs with its default count, so every matching region of the section is replaced,
  not only the first.

Replacing twice with the same block gives what replacing once gives (`ReplaceSectionIdempotent`).
This needs two conditions:

* the new content holds no end marker;
* the section name holds no newline.

A start marker in the new content does no harm. A newline in the name, however, can let the
end marker overlap itself across the written block. `Sections.NeitherMarkerNotEnough` proves
a concrete case:

* The name is `\n-->\n<!--END_SECTION:\n`.
* Its end marker is `X\nX`, where `X = <!--END_SECTION:\n-->`.
* The new content is `X`, which holds neither marker.
* A second run ends the region one `X` early and leaves an extra `\nX` behind.

The script itself only uses the section name `research`. For that name,
`Scenarios.UpdateResearchIdempotent` proves that re-running the update with the same posts
changes nothing, as long as the rendered block holds no `<!--END_SECTION:research-->`.

## Model

| member | source | states |
|---|---|---|
| ResearchPosts.Format | scripts/update_readme.py:14-25 | the block is the placeholder line exactly when there are no posts; it is never empty, never ends in a newline, and a block of posts ends with the `)` of the last link |
| ResearchPosts.FormatResearchPosts | scripts/update_readme.py:14-25 | the loop that appends one `* [title](url)` per post of `posts[:5]` and joins them returns the block `Format` specifies, placeholder included |
| ResearchPosts.FormatLines | scripts/update_readme.py:16-25 | when no rendered title or url holds a newline, split back on newlines, an empty list gives the single placeholder line; otherwise there are exactly min(len(posts), 5) <= 5 lines, line k is `* [` + title k (default `Untitled`) + `](` + url k (default `#`) + `)`, in input order |
| ResearchPosts.FormatIgnoresOlderPosts | scripts/update_readme.py:20 | posts after the fifth have no influence on the block |
| ResearchPosts.FormatAvoids | scripts/update_readme.py:17-25 | the block holds no character beyond those of the rendered titles and urls, the placeholder, link syntax and newlines |
| Text.Find | scripts/update_readme.py:29 | the index returned is the first occurrence of the pattern, and none is returned exactly when the pattern does not occur |
| Text.JoinLines | scripts/update_readme.py:25 | the joined text starts with the first line and ends with the last, and is empty for no lines |
| Text.SplitJoin | scripts/update_readme.py:25 | splitting on newlines recovers the joined lines when no line holds a newline |
| Text.JoinLinesAvoids | scripts/update_readme.py:25 | joining adds no character other than the newline |
| Sections.Search | scripts/update_readme.py:29 | a match found begins with the start marker and ends with the end marker, which come in that order without overlapping, inside the text |
| Sections.Replace | scripts/update_readme.py:31 | the substitution returns its input unchanged when the start marker does not occur, and always keeps the text before the first start marker |
| Sections.ReplaceSection | scripts/update_readme.py:27-31 | a document without the start marker of the name comes back unchanged, and the text before the first start marker is always kept |
| Sections.SearchFindsRegion | scripts/update_readme.py:29 | the search finds a match exactly when the text holds a start marker followed later by an end marker |
| Sections.SearchMatch | scripts/update_readme.py:29 | a match splits the text into a before with no start marker, the start marker, a body with no end marker inside it (non-greedy, spanning newlines), the end marker and the rest |
| Sections.SearchAfterNoEarlier | scripts/update_readme.py:29 | conversely, a text cut that way is matched exactly at that start marker and that end marker |
| Sections.NoRegionUnchanged | scripts/update_readme.py:31 | without a start marker followed by an end marker, the substitution returns its input unchanged |
| Sections.ReplaceUnfold | scripts/update_readme.py:31 | the first region is replaced, the text before it is copied, and scanning resumes after its end marker |
| Sections.ReplaceIsSplice | scripts/update_readme.py:29-31 | for any cut of the text into leftmost, non-greedy regions and a region-free tail, the result copies every text between regions and the tail verbatim and puts the replacement in place of every region, left to right |
| Sections.ScanExists | scripts/update_readme.py:29-31 | every text has such a cut, and it has a region exactly when the text holds a start marker followed by an end marker |
| Sections.SpliceIsWeave | scripts/update_readme.py:30 | replacing each region by start marker + block + end marker keeps both markers of each region and sets its body to the block |
| Sections.SpliceIgnoresBodies | scripts/update_readme.py:30-31 | the old bodies of the regions do not influence the result |
| Sections.ReplaceIdempotent | scripts/update_readme.py:29-31 | substituting the same marker-wrapped block twice gives what substituting it once gives, when no end marker starts inside the block |
| Sections.ReplaceSectionNoRegion | scripts/update_readme.py:27-31 | a document without a start marker of the name followed by its end marker comes back unchanged |
| Sections.ReplaceSectionRegions | scripts/update_readme.py:27-31 | for the regions the scan finds, the result keeps all text outside them and both markers of each, and each body becomes newline + new content + newline |
| Sections.ReplacementBodyClean | scripts/update_readme.py:30 | the written block contains no end marker that would cut its own region short, when the new content holds no end marker and the name no newline |
| Sections.ReplaceSectionIdempotent | scripts/update_readme.py:27-31 | running `replace_section` twice with the same name and content equals running it once, under the same two conditions |
| Sections.EmptyRegionRun | scripts/update_readme.py:31 | a text that is just a start marker and an end marker becomes the replacement |
| Sections.OverlapSecondRun | scripts/update_readme.py:29-31 | when the end marker is some text x, a newline and x again, substituting the block start + newline + x + newline + end into itself once more appends a newline and x to it |
| Sections.NeitherMarkerNotEnough | scripts/update_readme.py:27-31 | for a name with newlines and new content holding neither of its markers (both proved), running `replace_section` a second time does not give what the first run gave |
| Scenarios.OnePostBlock | scripts/update_readme.py:19-25 | one post titled `Post A` with url `https://x/a` renders as `* [Post A](https://x/a)` |
| Scenarios.DefaultsBlock | scripts/update_readme.py:21-23 | a post with neither key renders as `* [Untitled](#)` |
| Scenarios.TwoSections | scripts/update_readme.py:29-31 | a document with two sections of the same name has both bodies replaced and the text before, between and after them kept |
| Scenarios.UpdateResearch | scripts/update_readme.py:42-46 | formatting the posts and splicing them into the `research` section leaves a README without the section's start marker unchanged, and always keeps the text before that marker |
| Scenarios.UpdateResearchIdempotent | scripts/update_readme.py:42-46 | formatting the same posts and splicing them into the `research` section a second time leaves the README as the first run wrote it, whenever the rendered block holds no end marker of the section |

## Left out

- `get_research_posts` (scripts/update_readme.py:7-12): an HTTP request and JSON decoding. The posts are a parameter of the model instead. The failure path, where a non-200 status gives an empty list, reaches the formatter as the empty list, and that case is modelled.
- `update_readme` (scripts/update_readme.py:33-50): reading and writing `README.md` is file I/O and is not modelled. Its pure middle part, format then splice into `research`, is `Scenarios.UpdateResearch`.
- Post fields: only absent keys are modelled, as `None`. A key present with `null` or a non-string value would be printed by Python's f-string as `None` or as the value's text. Extra JSON keys are ignored, as in the code.
- ReplaceSection: the regex engine is not modelled. It requires a section name without regex metacharacters and new content without backslashes. A name with metacharacters would change the pattern, and a backslash in the content would be read as a template escape.
- UpdateResearch: inherits that backslash restriction, stated on the rendered titles and urls.
- ResearchPosts.FormatLines: assumes no rendered title or url holds a newline. A newline inside a title adds lines to the block, which the line count then does not bound.
- The README itself is not modelled, beyond arbitrary text containing the markers.
