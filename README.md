# Visit Website: a verified model

This project models the core of the LM Studio plugin that gives a language model a
"Visit Website" tool. The tool fetches a page and answers with:

- its title;
- the first `h1`, `h2` and `h3`;
- the links most worth following;
- the images, downloaded into the working directory and shown as markdown;
- the page's text content, narrowed to the search terms when there are any.

The model is written as functions over values, because the source works that way:
chains of `map`, `filter`, `sort` and `slice`, and regular expressions. The one loop
that updates variables step by step, the merge of the search-term windows, is a
`method` with a loop invariant. It is proved against the function `Content.Merged`.

Modules, in dependency order:

- `Text`: the JavaScript string operations the tool relies on.
  - `indexOf` and `lastIndexOf`;
  - the clamping and swapping `substring`;
  - `trim` with the JavaScript whitespace set;
  - ASCII `toLowerCase`;
  - `includes`;
  - decimal printing of numbers.
- `Sequences`:
  - `filter` and `slice(0, k)`;
  - a stable sort by a real key, as `Array.prototype.sort` is stable.
- `Budget`: `undefinedIfAuto` and the `config ?? argument ?? default` chain.
- `Relevance`: the search-term bonus fold that links and images share.
- `Page`:
  - the head/body split;
  - the title and heading pick-out.
- `Links`: `extractLinks`.
  - label cleanup;
  - resolution of root-relative hrefs;
  - the score;
  - the stable sort by descending score;
  - de-duplication by URL;
  - the cut to `maxLinks`.
- `Images`: `extractImages`.
  - attribute lookup;
  - the image-URL filter;
  - the score;
  - the sort, the cut, and the sort back into document order.
- `Content`:
  - the script/style/tag stripping, whitespace collapsing and trimming;
  - the padded search-term match;
  - the window merge loop.
- `Acquisition`: the per-image part of the "View Images" tool.
  - skipping local paths;
  - the download outcome;
  - the file extension and the file name;
  - path normalisation;
  - the markdown line.
- `Visit`: the budgets, the fetched page, and the result object. The result has
  `links`, `images` and `content` entries only when they are truthy.

Everything outside the program's own logic is a parameter of `Visit.World`:

- the regular-expression engine's matches;
- URL resolution;
- the download outcomes;
- the working directory;
- the clock;
- `path.join`.

## Model

| member | source | states |
|---|---|---|
| Budget.UndefinedIfAuto | src/toolsProvider.ts:267-268 | the value is dropped exactly when it equals the auto value, and kept unchanged otherwise |
| Budget.Resolve | src/toolsProvider.ts:193-201 | a configured budget wins over the argument; the auto value (-1) defers to the argument, then to the default |
| Budget.ResolveExcludes | src/toolsProvider.ts:193-201 | with a non-zero default, the budget is 0 iff the configuration says 0, or says auto and the argument says 0 |
| Text.IndexOf | src/toolsProvider.ts:23-24 | -1 iff the substring does not occur; otherwise it occurs there and nowhere earlier |
| Text.LastIndexOf | src/toolsProvider.ts:27 | -1 iff the substring does not occur; otherwise it occurs there and nowhere later |
| Text.Trim | src/toolsProvider.ts:222 | the result is a slice of the input that starts and ends with non-whitespace, and only whitespace is cut from either end |
| Text.TrimKeepsSpaces | src/toolsProvider.ts:36 | trimming text whose only whitespace is plain spaces keeps it so, and leaves no space at either end |
| Text.TrimKeepsTrimmed | src/toolsProvider.ts:36 | text with no whitespace at either end comes back from trimming unchanged |
| Page.BodyTagIndex | src/toolsProvider.ts:26 | the leftmost position where `<body` is followed by a `>`, or none when no such position exists |
| Page.HeadOf | src/toolsProvider.ts:23-25 | the head runs from the first `<head>` to the end of the first `</head>`. When `</head>` comes first, it is the text between the two tags. With only `</head>`, it is everything up to its end. With only `<head>`, it is the text between that tag and position 6. With neither, it is the first six characters |
| Page.BodyOf | src/toolsProvider.ts:26-28 | the body runs from the `<body…>` tag, or from 0 without one, up to the last `</body>`. A `</body>` before the tag swaps the bounds. Without `</body>`, the body is what precedes the tag, or empty without a tag. A `</body>` at position 0 counts as missing and gives way to `length - 1` |
| Page.FirstTagText | src/toolsProvider.ts:206-209 | the text of the leftmost matching element, which has no `<`, or the empty text when no element matches |
| Page.TitleOfTitleElement | src/toolsProvider.ts:206 | a head starting with `<title>text</title>` has that text as its title |
| Page.HeadingOfHeadingElement | src/toolsProvider.ts:207-209 | a body starting with `<hN attrs>text</hN>` has that text as its level-N heading |
| Relevance.AddTermBonusesCounts | src/toolsProvider.ts:53 | the reduce over the search terms adds exactly 1000 per term that occurs in the text, ignoring case |
| Links.ReplaceLabelNoise | src/toolsProvider.ts:36 | every whitespace character that is left over is a plain space, and the text never grows |
| Links.ReplaceLabelNoiseShift | src/toolsProvider.ts:36 | the replacement only looks ahead: how the end of a text is cleaned does not depend on what stands before it |
| Links.EscapeBecomesSpace | src/toolsProvider.ts:36 | a literal `\n`, `\t` or `\r` escape becomes one space, and the rest is cleaned as on its own |
| Links.WhitespaceBecomesSpace | src/toolsProvider.ts:36 | each whitespace character becomes one space, and runs are not merged |
| Links.TagBecomesSpace | src/toolsProvider.ts:36 | a tag `<…>` with no `>` or quote inside becomes one space |
| Links.QuotedTagBecomesSpace | src/toolsProvider.ts:36 | a tag with a quoted attribute value becomes one space, running past any `>` inside the quotes |
| Links.TagOfItemsBecomesSpace | src/toolsProvider.ts:36 | every tag becomes one space, whatever mix of characters other than `>` and `"` and of quoted strings, which may hold `>`, stands between its brackets |
| Links.OtherCharKept | src/toolsProvider.ts:36 | a character other than `<` that is not whitespace and does not start an escape is kept |
| Links.LoneAngleKept | src/toolsProvider.ts:36 | a `<` that opens no tag, because no `>` follows it or one follows at once, is kept |
| Links.CleanLabel | src/toolsProvider.ts:36 | a cleaned label is no longer than the anchor's inner text, has only plain spaces for whitespace, and has none at either end |
| Links.ReplaceLabelNoisePlain | src/toolsProvider.ts:36 | text without escapes, tags or whitespace is left unchanged |
| Links.CleanLabelWords | src/toolsProvider.ts:36 | two plain words separated by one space are kept as they are |
| Links.Candidates | src/toolsProvider.ts:33-40 | one candidate per anchor, numbered in document order, with the anchor's cleaned label and its resolved href |
| Links.ScoreLinks | src/toolsProvider.ts:42-56 | each http link keeps its anchor number, label and URL, and is scored by `LinkScore` at its position among the http links |
| Links.ScoredCandidates | src/toolsProvider.ts:33-56 | exactly the anchors whose resolved href starts with `http`, in document order. Each has its anchor's cleaned label and resolved URL, scored by `LinkScore` at its position among them |
| Links.DigitRatio | src/toolsProvider.ts:46 | the digit ratio is always 1, because a match array has length 1 and no match falls back to 1 |
| Links.LinkScoreFormula | src/toolsProvider.ts:46-55 | the score is 100 minus (label length + link length + 20·position/count). Each matching term adds 1000, unless the total comes to exactly 0; then the score falls back to the base |
| Links.DedupDistinct | src/toolsProvider.ts:58-61 | after de-duplication no two links share a URL |
| Links.DedupKeepsUrls | src/toolsProvider.ts:58-61 | every URL of the input survives de-duplication |
| Links.DedupKeepsBest | src/toolsProvider.ts:58-61 | in a ranked list, the kept occurrence of a URL ranks at least as high as every occurrence of it |
| Links.SortedRanked | src/toolsProvider.ts:57 | the stable sort gives non-increasing scores, with ties in document order |
| Links.RankScoredOrdered | src/toolsProvider.ts:57-61 | sorting then de-duplicating gives a ranked list with distinct URLs |
| Links.RankScoredMembers | src/toolsProvider.ts:57-61 | the ranking holds only candidates, and every candidate's URL appears in it |
| Links.RankScoredKeepsBest | src/toolsProvider.ts:57-61 | each ranked link ranks at least as high as every candidate with the same URL |
| Links.ExtractLinks | src/toolsProvider.ts:32-64 | at most `maxLinks` links, each http(s), with pairwise distinct URLs. When fewer than `maxLinks` come back, every candidate's URL is among them |
| Links.ExtractLinksAreTop | src/toolsProvider.ts:57-64 | the result is the top of the ranking, in ranking order. A candidate whose URL was cut off scores no higher than any link kept |
| Links.TopIsBest | src/toolsProvider.ts:62 | cutting a ranked list keeps it ranked, and whatever is cut off scores no higher than what is kept |
| Images.AttributeValue | src/toolsProvider.ts:70-71 | the value of the leftmost whitespace-preceded `name="…"` with a non-empty value, up to its closing quote. It is non-empty and has no `"`; none exactly when there is no such attribute |
| Images.AttributeValueFirst | src/toolsProvider.ts:70-71 | an attribute list that starts with ` name="value"` yields that value |
| Images.ImageScoreFormula | src/toolsProvider.ts:78-80 | an image's score is always the alt text's length plus 1000 per search term the alt text contains |
| Images.Candidates | src/toolsProvider.ts:67-82 | one candidate per `<img` with non-empty attribute text, numbered in that order. Its alt is the tag's `alt` value, or empty without one. Its src is the tag's resolved `src`, and its score is `ImageScore` of its alt |
| Images.ImageUrlWithExtension | src/toolsProvider.ts:83 | a URL ending in `.svg`, `.png`, `.webp`, `.gif`, `.jpg` or `.jpeg` passes the image filter, in any letter case and with or without a query |
| Images.NoDotNoImage | src/toolsProvider.ts:83 | a URL without a dot never passes the image filter |
| Images.SelectedProperties | src/toolsProvider.ts:83-86 | `min(maxImages, accepted)` images are chosen, all of them accepted, back in document order. Each chosen image beats every accepted image left out: it scores higher, or scores the same and comes earlier |
| Images.ExtractImages | src/toolsProvider.ts:66-87 | at most `maxImages` pairs, each with an http(s) image URL. All accepted images come back when they fit |
| Content.RemoveBlocksKeepsPlainText | src/toolsProvider.ts:218-219 | text without `<` loses no script or style block |
| Content.RemoveBlocksDropsBlock | src/toolsProvider.ts:218-219 | a whole block `<name…>…</name>` is removed, and the rest is treated as on its own. The closing tag may be in any letter case |
| Content.StripTagsKeepsPlainText | src/toolsProvider.ts:220 | text without `<` loses no tag |
| Content.StripTagsRemovesTag | src/toolsProvider.ts:220 | a leading `<…>` tag is removed and the rest is stripped as before |
| Content.CollapseWhitespace | src/toolsProvider.ts:221 | each run of whitespace becomes one space: the result has no other whitespace and no two spaces in a row, and it is empty only for empty input |
| Content.CollapseKeepsWords | src/toolsProvider.ts:221 | collapsing keeps every character that is not whitespace, in order |
| Content.CollapseRun | src/toolsProvider.ts:221 | a whole run of whitespace, whatever its characters, becomes one space |
| Content.CollapseKeepsSingleSpaced | src/toolsProvider.ts:221 | text that is already single-spaced is left unchanged |
| Content.CleanText | src/toolsProvider.ts:217-222 | the cleaned text is no longer than the body, and is single-spaced with no space at either end |
| Content.TrimKeepsSpacing | src/toolsProvider.ts:221-222 | trimming single-spaced text leaves it single-spaced, with no space at either end |
| Content.CleanTextDropsScript | src/toolsProvider.ts:217-222 | a `<script…>…</script>` block leaves no trace in the cleaned text |
| Content.CleanTextKeepsPlainText | src/toolsProvider.ts:217-222 | clean single-spaced text without tags passes through unchanged |
| Content.AllContent | src/toolsProvider.ts:217-222 | a content limit of 0 gives no text; otherwise the cleaned body |
| Content.Lead | src/toolsProvider.ts:226-228 | the greedy leading padding: the longest one, at most `pad`, that still lets the term follow. None exactly when the term cannot follow any such padding |
| Content.Trail | src/toolsProvider.ts:226-228 | the greedy trailing padding stops at `pad` characters, at the end of the text, or at a line terminator |
| Content.PaddedMatch | src/toolsProvider.ts:226-228 | the match is text of the content at its position, starts a padded match, and no earlier position starts one. None exactly when no position does |
| Content.PaddedMatchIs | src/toolsProvider.ts:226-228 | the leftmost start, with greedy leading and trailing padding, determines the match |
| Content.Found | src/toolsProvider.ts:229 | the kept matches are exactly the terms' successful matches |
| Content.SortedWindowsInOrder | src/toolsProvider.ts:230 | sorting puts the matches in order of position and keeps each one text of the content |
| Content.SortedWindowsCoverTheSame | src/toolsProvider.ts:230 | sorting does not change which positions the matches span |
| Content.MergeWindows | src/toolsProvider.ts:231-240 | the loop's content is that of the corrected merge `Content.Merged` of the sorted windows |
| Content.MergedNextIsFurthestEnd | src/toolsProvider.ts:239 | with the corrected update, `nextMinIndex` is the furthest end of the windows merged so far |
| Content.MergedIsContentAtPositions | src/toolsProvider.ts:231-240 | each character of the merged text is the content's character at a recorded position |
| Content.MergedPositionsIncrease | src/toolsProvider.ts:231-240 | the recorded positions strictly increase, so no stretch of the content is repeated |
| Content.MergedTakesOnlyCovered | src/toolsProvider.ts:231-240 | every recorded position lies inside some window |
| Content.MergedTakesAllCovered | src/toolsProvider.ts:231-240 | for windows in order of position, every position inside some window is recorded |
| Content.AsWrittenAgreesWithoutNesting | src/toolsProvider.ts:239 | when no window ends before an earlier one, the merge as written equals the corrected merge |
| Content.NestedWindowRepeatsText | src/toolsProvider.ts:239 | the three in-order windows "abcdef" at 0, "bcd" at 1 and "efg" at 4 of the content "abcdefg" merge to "abcdefefg" as written, and to "abcdefg" with the correction |
| Content.AsWrittenWithinWindows | src/toolsProvider.ts:225-241 | even as written, the merged text is no longer than the windows' texts together |
| Content.AsWrittenCanExceedContent | src/toolsProvider.ts:231-240 | the merge as written can return more characters than the content has |
| Content.NestedWindowsFromTerms | src/toolsProvider.ts:225-230 | over "abcdefg", the terms "bcde", "c" and "f" with padding 1 produce exactly those three windows |
| Content.SelectContent | src/toolsProvider.ts:224-242 | the content is no longer than the cleaned text. Without search terms, or when the text fits the limit, it is the text's first `min(limit, length)` characters |
| Content.SelectContentIsWindowText | src/toolsProvider.ts:225-240 | with terms and more text than the limit, the content is the text at strictly increasing positions, and those are exactly the positions spanned by some match |
| Acquisition.ExtensionFromContentType | src/toolsProvider.ts:138 | the whole run of word characters after the leftmost `image/` that is followed by one; none exactly when no `image/` is |
| Acquisition.ExtensionFromUrl | src/toolsProvider.ts:139 | the word after the leftmost dot that a word, a `?` and the rest of the line follow; none exactly when the URL has no such place |
| Acquisition.FileExtension | src/toolsProvider.ts:138-140 | the extension is always a non-empty word |
| Acquisition.ContentTypeWins | src/toolsProvider.ts:138 | an `image/<word>` content type decides the extension, whatever the URL |
| Acquisition.UrlExtensionNeedsQuery | src/toolsProvider.ts:139-140 | without a content type, `stem.ext?query` gives `ext`, while a plain `stem.ext` falls back to `jpg` |
| Acquisition.FileNamesDistinct | src/toolsProvider.ts:141 | within one call, two images get the same file name only if they have the same index and extension |
| Acquisition.NormalizePath | src/toolsProvider.ts:143 | a normalised path has no backslash, and a leading `C:` is dropped after the slashes are turned |
| Acquisition.NormalizeWindowsPath | src/toolsProvider.ts:143 | `C:\rest` becomes `/rest`, with forward slashes |
| Acquisition.NormalizeKeepsWebPath | src/toolsProvider.ts:143 | a path with no backslash and no leading `C:` is left as it is |
| Acquisition.LocalPath | src/toolsProvider.ts:116-151 | a URL under the working directory is kept. Otherwise there is a path exactly when the download succeeded with some bytes, and it is the normalised `timestamp-index.extension` in the working directory |
| Acquisition.ImageMarkdowns | src/toolsProvider.ts:153-158 | one markdown line per URL |
| Acquisition.ImageMarkdownsLines | src/toolsProvider.ts:153-158 | a line is `![Image i+1](path)` when the image has a non-empty path. Otherwise it is the error line naming the URL. A local URL is embedded as it is |
| Acquisition.EmbeddedIsNotError | src/toolsProvider.ts:154-157 | an embedded image's line is never taken for an error line |
| Visit.VisitWebsite | src/toolsProvider.ts:188-249 | a page that could not be fetched gives the failure message. Otherwise `links` and `images` are present exactly when their budget is non-zero and within it, and `content` is non-empty when present and absent under a zero limit |
| Visit.EntriesExcluded | src/toolsProvider.ts:193-212 | an entry is left out exactly when the configuration says 0, or says auto and the argument says 0 |
| Visit.ContentWithoutTerms | src/toolsProvider.ts:217-249 | without search terms, the content is exactly the first `min(limit, length)` characters of the cleaned body. It is absent exactly under a zero limit or with no text |
| Visit.ImagesAreAligned | src/toolsProvider.ts:211-214 | the images entry pairs each chosen image's alt text with the markdown line of its own download, in the chosen order |

## Left out

- Fetching the page and the images is not modelled: `fetch`, the spoofed request headers (`spoofHeaders` and its user-agent table) and `writeFile`. Each response is an input: `Visit.Response` for the page, `Acquisition.Download` for an image.
- `Date.now()`, `ctl.getWorkingDirectory()` and `path.join` are inputs (`Visit.World`).
- Status and warning messages are not modelled.
- Aborts through the `AbortSignal` and the concurrency of `Promise.all` are not modelled. The downloads are independent, so their results are taken in URL order.
- The error paths of the tools' `catch` blocks are not modelled ("aborted by user" and `Error: <message>`). The only failure modelled is a page that is not ok.
- The regular-expression engine is not modelled. The `<a …>`, `<img …>` matches and each term's padded match are inputs of `Visit.World`. `Content.PaddedMatch` states what that match is when the padding is a whole number and the term has no metacharacters.
- Terms with regular-expression metacharacters are not modelled.
- A fractional padding is not modelled. `contentLimit / (2·terms)` is not a whole number, and the pattern `.{0,x.y}` then matches the characters literally.
- `new URL(href, page).href` is a total resolver parameter. A URL it cannot parse, which throws, is not modelled.
- `Text.LowerChar`: `toLowerCase` is modelled on ASCII letters only. Other scripts' case mappings are left out.
- Scores are IEEE doubles in the source and `real` in the model, so rounding is not modelled.
- The "View Images" tool's own entry is not modelled: the `maxImages` resolution of lines 100-102, fetching a website's images, and the fallback when the list is empty. Only the per-image part that "Visit Website" calls is modelled.
- Two behaviours are modelled as the code has them:
  - The code keeps `links` and `images` as empty lists whenever their budget is non-zero, because `[]` is truthy (src/toolsProvider.ts:244-249).
  - The digit ratio is always 1, so the word count never contributes to a link's score (src/toolsProvider.ts:46).
- Lengths and positions are counted in code points. JavaScript's `length`, `slice`, `substring` and the regex `.{0,n}` count UTF-16 code units. So label and alt lengths, the scores built on them, the content-limit cut and the padding differ for text outside the Basic Multilingual Plane, such as emoji.
- SelectContent: merges the windows with the corrected `Content.Merged`, whose `nextMinIndex` only moves forward. As written, line 239 can repeat text and return more than the content has, see "## Findings". `Visit.PageContent` and `Visit.VisitWebsite` inherit the correction, and `Content.MergeAsWritten` models the update as written.
- MergeWindows: the loop keeps `nextMinIndex` at the furthest end seen, the corrected update, not line 239's `match.index + match[0].length`. The update as written is `Content.MergeAsWritten`, a function, and the loop in that form is not modelled as a method.
- SelectContentIsWindowText: holds for the corrected merge. As written, the positions need not increase (`Content.NestedWindowRepeatsText`).
- ReplaceLabelNoise: its own contract states only the shape of the result. What each escape, whitespace character and tag becomes is stated by `Links.EscapeBecomesSpace`, `Links.WhitespaceBecomesSpace` and `Links.TagOfItemsBecomesSpace`, with `Links.TagBecomesSpace` and `Links.QuotedTagBecomesSpace` as two common shapes. That other characters are kept is `Links.OtherCharKept`, and `Links.LoneAngleKept` covers a `<` with no `>` after it or with `>` right after it. `Links.ReplaceLabelNoiseShift` covers the rest. A `<` whose `>` comes only after an unclosed quote, as in `<a "b>`, also opens no tag and is kept, but no lemma states that case.
- CollapseWhitespace: its own contract states only the spacing of the result. That the other characters are kept is `Content.CollapseKeepsWords`, and that a run becomes one space is `Content.CollapseRun`.
- CleanText: its own contract states only the spacing of the result. That script and style blocks go is `Content.RemoveBlocksDropsBlock` and `Content.CleanTextDropsScript`, and that plain text stays is `Content.CleanTextKeepsPlainText`.
- Visit.VisitWebsite: states the shape of the result (which entries are present, their sizes). The content of each entry is stated by `Links.ExtractLinks`, `Images.ExtractImages` and `Content.SelectContent`, and `Visit.ContentWithoutTerms` ties them together only for the case without search terms.
- Images.ExtractImages: its own contract does not restate the selection's ranking. That is `Images.SelectedProperties`, about the function the extraction is built on.

## Findings

| source | as written | input that shows it | evidently intended | confidence | as-written member | corrected member |
|---|---|---|---|---|---|---|
| src/toolsProvider.ts:239 | after each window, `nextMinIndex = match.index + match[0].length`, so a window nested inside an earlier one moves it backwards, and the next overlapping window is appended again | text "abcdefg", contentLimit 6 (padding 1), terms ["bcde", "c", "f"]: windows at 0 "abcdef", 1 "bcd" and 4 "efg" merge to "abcdefefg", 9 characters from a 7-character text | the comment's "we don't return duplicates": `nextMinIndex` should only move forward, to the furthest end seen, giving "abcdefg" | not executed | Content.NestedWindowRepeatsText | Content.MergedTakesAllCovered |
