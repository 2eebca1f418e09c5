/**
 * The link ranker `extractLinks`: anchors in document order, cleaned labels,
 * resolved hrefs, only `http…` links, scored, sorted by descending score
 * (stably), duplicates of a URL after its first occurrence dropped, and the
 * first `maxLinks` returned as (label, url) pairs. The ranked order is kept;
 * there is no return to document order.
 */
module Links {
  import opened Text
  import Sequences
  import Relevance

  /** The two captures of one `<a …href="…"…>…</a>` match: the href and the inner HTML. */
  datatype Anchor = Anchor(href: String, inner: String)

  /** `new URL(href, base).href`, left uninterpreted. */
  type Resolver = (String, String) -> String

  datatype Link = Link(index: nat, text: String, url: String)

  datatype ScoredLink = ScoredLink(index: nat, text: String, url: String, score: real)

  // ---------------------------------------------------------------- labels

  /**
   * End (exclusive) of a tag `<(?:[^>"]|"[^"]*")+>` whose items start at `j`:
   * any character but `>` and `"`, or a quoted string that may hold `>`.
   */
  function TagItemsEnd(s: String, j: nat, seenItem: bool): (r: Option<nat>)
    decreases |s| - j
    ensures r.Some? ==> j < r.value <= |s|
  {
    if j >= |s| then None
    else if s[j] == '>' then (if seenItem then Some(j + 1) else None)
    else if s[j] == '"' then
      match FindChar(s, '"', j + 1)
      case Some(q) => TagItemsEnd(s, q + 1, true)
      case None => None
    else TagItemsEnd(s, j + 1, true)
  }

  /** End (exclusive) of the tag starting at `i`, if one does. */
  function TagEndAt(s: String, i: nat): (r: Option<nat>)
    ensures r.Some? ==> i < r.value <= |s|
  {
    if i < |s| && s[i] == '<' then TagItemsEnd(s, i + 1, false) else None
  }

  predicate IsEscapeAt(s: String, i: nat) {
    i + 1 < |s| && s[i] == '\\' && s[i + 1] in "ntr"
  }

  /**
   * `replace(/\\[ntr]|\s|<(?:[^>"]|"[^"]*")+>/g, " ")` from position `i` on:
   * every literal `\n`, `\t`, `\r` escape, every whitespace character and every
   * tag becomes one space; runs of spaces are not collapsed.
   */
  function ReplaceLabelNoise(s: String, i: nat): (r: String)
    requires i <= |s|
    decreases |s| - i
    ensures |r| <= |s| - i
    ensures forall k :: 0 <= k < |r| && IsWhitespace(r[k]) ==> r[k] == ' '
  {
    if i >= |s| then [] else NoiseEmitted(s, i) + ReplaceLabelNoise(s, NoiseNext(s, i))
  }

  /**
   * Where the replacement goes on after position `i`: past an escape, past one
   * whitespace character, past a whole tag, or past a character it keeps.
   */
  function NoiseNext(s: String, i: nat): (r: nat)
    requires i < |s|
    ensures i < r <= |s|
  {
    if IsEscapeAt(s, i) then i + 2
    else if IsWhitespace(s[i]) || TagEndAt(s, i).None? then i + 1
    else TagEndAt(s, i).value
  }

  /** What the replacement writes for what starts at position `i`: one space, or the character kept. */
  function NoiseEmitted(s: String, i: nat): (r: String)
    requires i < |s|
    ensures |r| == 1 && (IsWhitespace(r[0]) ==> r[0] == ' ')
  {
    if IsEscapeAt(s, i) || IsWhitespace(s[i]) || TagEndAt(s, i).Some? then " " else [s[i]]
  }

  /** The text of a link: its inner HTML with the noise replaced, then trimmed. */
  function CleanLabel(inner: String): (r: String)
    ensures |r| <= |inner|
    ensures forall k :: 0 <= k < |r| && IsWhitespace(r[k]) ==> r[k] == ' '
    ensures r != [] ==> r[0] != ' ' && r[|r| - 1] != ' '
  {
    var replaced := ReplaceLabelNoise(inner, 0);
    TrimKeepsSpaces(replaced);
    Trim(replaced)
  }

  /** A character the replacement never touches: no backslash, no whitespace, no `<`. */
  predicate PlainChar(c: char) {
    c != '\\' && c != '<' && !IsWhitespace(c)
  }

  /** A plain character is copied and the replacement goes on after it. */
  lemma PlainStep(s: String, i: nat)
    requires i < |s| && PlainChar(s[i])
    ensures ReplaceLabelNoise(s, i) == [s[i]] + ReplaceLabelNoise(s, i + 1)
  {
    assert !IsEscapeAt(s, i) && TagEndAt(s, i).None?;
  }

  /** Plain text (no backslash, whitespace or `<`) passes through the replacement unchanged. */
  lemma {:induction false} ReplaceLabelNoisePlain(s: String, i: nat)
    requires i <= |s|
    requires forall k :: i <= k < |s| ==> PlainChar(s[k])
    ensures ReplaceLabelNoise(s, i) == s[i..]
    decreases |s| - i
  {
    if i < |s| {
      PlainStep(s, i);
      ReplaceLabelNoisePlain(s, i + 1);
      assert s[i..] == [s[i]] + s[i + 1..];
    }
  }

  /** Every space-separated word of plain text survives cleaning as it was. */
  lemma CleanLabelWords(first: String, second: String)
    requires forall k :: 0 <= k < |first| ==> PlainChar(first[k])
    requires forall k :: 0 <= k < |second| ==> PlainChar(second[k])
    requires first != [] && second != []
    ensures CleanLabel(first + " " + second) == first + " " + second
  {
    var s := first + " " + second;
    var n := |first|;
    assert forall k :: n + 1 <= k < |s| ==> s[k] == second[k - n - 1];
    ReplaceLabelNoisePlain(s, n + 1);
    assert s[n + 1..] == second;
    assert !IsEscapeAt(s, n);
    assert ReplaceLabelNoise(s, n) == " " + second;
    assert forall k :: 0 <= k < n ==> s[k] == first[k];
    ReplaceLabelNoisePlainPrefix(s, n, 0);
    assert s[..n] == first;
    assert ReplaceLabelNoise(s, 0) == s;
    assert !IsWhitespace(s[0]) && !IsWhitespace(s[|s| - 1]);
    TrimKeepsTrimmed(s);
  }

  lemma {:induction false} ReplaceLabelNoisePlainPrefix(s: String, n: nat, i: nat)
    requires i <= n < |s|
    requires forall k :: i <= k < n ==> PlainChar(s[k])
    ensures ReplaceLabelNoise(s, i) == s[i..n] + ReplaceLabelNoise(s, n)
    decreases n - i
  {
    if i < n {
      PlainStep(s, i);
      ReplaceLabelNoisePlainPrefix(s, n, i + 1);
      PrefixStep(s, i, n, ReplaceLabelNoise(s, i + 1), ReplaceLabelNoise(s, n));
    }
  }

  /** One more character in front of a text that continues as `rest`. */
  lemma PrefixStep(s: String, i: nat, n: nat, after: String, rest: String)
    requires i < n <= |s| && after == s[i + 1..n] + rest
    ensures [s[i]] + after == s[i..n] + rest
  {
    assert s[i..n] == [s[i]] + s[i + 1..n];
  }

  /** `o` moved `n` positions on. */
  function ShiftBy(o: Option<nat>, n: nat): (r: Option<nat>)
    ensures r.Some? <==> o.Some?
    ensures r.Some? ==> r.value == o.value + n
  {
    match o
    case Some(k) => Some(k + n)
    case None => None
  }

  /** Searching for a character in `rest` finds it at the same place when `rest` is the end of `s`. */
  lemma FindCharShift(s: String, n: nat, rest: String, c: char, j: nat)
    requires n <= |s| && s[n..] == rest && j <= |rest|
    ensures FindChar(s, c, n + j) == ShiftBy(FindChar(rest, c, j), n)
  {
    assert forall k :: n <= k < |s| ==> s[k] == rest[k - n];
    match FindChar(rest, c, j)
    case Some(q) => FindCharIsLeast(s, c, n + j, n + q);
    case None =>
  }

  /** A tag in `rest` ends at the same place when `rest` is the end of `s`. */
  lemma {:induction false} TagItemsEndShift(s: String, n: nat, rest: String, j: nat, seenItem: bool)
    requires n <= |s| && s[n..] == rest && j <= |rest|
    ensures TagItemsEnd(s, n + j, seenItem) == ShiftBy(TagItemsEnd(rest, j, seenItem), n)
    decreases |rest| - j
  {
    if j < |rest| {
      assert s[n + j] == rest[j];
      if rest[j] == '"' {
        FindCharShift(s, n, rest, '"', j + 1);
        match FindChar(rest, '"', j + 1)
        case Some(q) => TagItemsEndShift(s, n, rest, q + 1, true);
        case None =>
      } else if rest[j] != '>' {
        TagItemsEndShift(s, n, rest, j + 1, true);
      }
    }
  }

  /** One step of the replacement does the same at `j` in `rest` and at `n + j` in `s`. */
  lemma StepShift(s: String, n: nat, rest: String, j: nat)
    requires n <= |s| && s[n..] == rest && j < |rest|
    ensures NoiseEmitted(s, n + j) == NoiseEmitted(rest, j)
    ensures NoiseNext(s, n + j) == n + NoiseNext(rest, j)
  {
    assert s[n + j] == rest[j];
    assert j + 1 < |rest| ==> s[n + j + 1] == rest[j + 1];
    assert IsEscapeAt(s, n + j) == IsEscapeAt(rest, j);
    TagItemsEndShift(s, n, rest, j + 1, false);
    assert TagEndAt(s, n + j) == ShiftBy(TagEndAt(rest, j), n);
  }

  /**
   * The replacement only looks ahead: how the end `rest` of `s` is cleaned
   * does not depend on what stands in front of it.
   */
  lemma {:induction false} ReplaceLabelNoiseShift(s: String, n: nat, rest: String, j: nat)
    requires n <= |s| && s[n..] == rest && j <= |rest|
    ensures ReplaceLabelNoise(s, n + j) == ReplaceLabelNoise(rest, j)
    decreases |rest| - j
  {
    if j < |rest| {
      StepShift(s, n, rest, j);
      ReplaceLabelNoiseShift(s, n, rest, NoiseNext(rest, j));
    }
  }

  /** The cleanup of `token + rest` is `replacement` followed by the cleanup of `rest`. */
  lemma TokenThenRest(token: String, rest: String, replacement: String)
    requires ReplaceLabelNoise(token + rest, 0) == replacement + ReplaceLabelNoise(token + rest, |token|)
    ensures ReplaceLabelNoise(token + rest, 0) == replacement + ReplaceLabelNoise(rest, 0)
  {
    assert (token + rest)[|token|..] == rest;
    ReplaceLabelNoiseShift(token + rest, |token|, rest, 0);
  }

  /** A literal `\n`, `\t` or `\r` escape becomes one space. */
  lemma EscapeBecomesSpace(c: char, rest: String)
    requires c in "ntr"
    ensures ReplaceLabelNoise(['\\', c] + rest, 0) == " " + ReplaceLabelNoise(rest, 0)
  {
    var s := ['\\', c] + rest;
    assert IsEscapeAt(s, 0);
    TokenThenRest(['\\', c], rest, " ");
  }

  /** Each whitespace character becomes one space; runs are not merged. */
  lemma WhitespaceBecomesSpace(c: char, rest: String)
    requires IsWhitespace(c)
    ensures ReplaceLabelNoise([c] + rest, 0) == " " + ReplaceLabelNoise(rest, 0)
  {
    var s := [c] + rest;
    assert !IsEscapeAt(s, 0);
    TokenThenRest([c], rest, " ");
  }

  /** Items of a tag that are neither `>` nor a quote are skipped one by one. */
  lemma {:induction false} TagItemsSkip(s: String, j: nat, m: nat, seenItem: bool)
    requires j <= m <= |s|
    requires forall k :: j <= k < m ==> s[k] != '>' && s[k] != '"'
    ensures TagItemsEnd(s, j, seenItem) == TagItemsEnd(s, m, seenItem || j < m)
    decreases m - j
  {
    if j < m {
      TagItemsSkip(s, j + 1, m, true);
    }
  }

  /** A tag `<…>` with at least one character inside and no `>` or quote in it becomes one space. */
  lemma TagBecomesSpace(inside: String, rest: String)
    requires inside != [] && '>' !in inside && '"' !in inside
    ensures ReplaceLabelNoise("<" + inside + ">" + rest, 0) == " " + ReplaceLabelNoise(rest, 0)
  {
    var tag := "<" + inside + ">";
    var s := tag + rest;
    var m := |inside| + 1;
    assert forall k :: 1 <= k < m ==> s[k] == inside[k - 1];
    TagItemsSkip(s, 1, m, false);
    assert s[m] == '>';
    assert TagEndAt(s, 0) == Some(|tag|);
    TokenThenRest(tag, rest, " ");
  }

  /** A quoted attribute value may hold `>`: the tag still runs to the `>` after the closing quote. */
  lemma QuotedTagBecomesSpace(before: String, quoted: String, rest: String)
    requires '>' !in before && '"' !in before && '"' !in quoted
    ensures ReplaceLabelNoise("<" + before + "\"" + quoted + "\">" + rest, 0) == " " + ReplaceLabelNoise(rest, 0)
  {
    var tag := "<" + before + "\"" + quoted + "\">";
    var s := tag + rest;
    var m := |before| + 1;
    var q := m + 1 + |quoted|;
    assert forall k :: 1 <= k < m ==> s[k] == before[k - 1];
    assert forall k :: m + 1 <= k < q ==> s[k] == quoted[k - m - 1];
    TagItemsSkip(s, 1, m, false);
    assert s[m] == '"' && s[q] == '"' && s[q + 1] == '>';
    FindCharIsLeast(s, '"', m + 1, q);
    assert TagEndAt(s, 0) == Some(|tag|);
    TokenThenRest(tag, rest, " ");
  }

  /**
   * Any other character is kept: one that is not whitespace, does not open a
   * tag and is not the backslash of an escape.
   */
  lemma OtherCharKept(c: char, rest: String)
    requires !IsWhitespace(c) && c != '<'
    requires c == '\\' ==> rest == [] || rest[0] !in "ntr"
    ensures ReplaceLabelNoise([c] + rest, 0) == [c] + ReplaceLabelNoise(rest, 0)
  {
    var s := [c] + rest;
    assert !IsEscapeAt(s, 0);
    TokenThenRest([c], rest, [c]);
  }

  /** Without a `>` from `j` on, no tag ends: quoted strings or not, the search fails. */
  lemma {:induction false} TagItemsEndWithoutClose(s: String, j: nat, seenItem: bool)
    requires forall k :: j <= k < |s| ==> s[k] != '>'
    ensures TagItemsEnd(s, j, seenItem).None?
    decreases |s| - j
  {
    if j < |s| {
      if s[j] == '"' {
        match FindChar(s, '"', j + 1)
        case Some(q) => TagItemsEndWithoutClose(s, q + 1, true);
        case None =>
      } else {
        TagItemsEndWithoutClose(s, j + 1, true);
      }
    }
  }

  /** A `<` that opens no tag, because no `>` follows it or one follows at once, is kept. */
  lemma LoneAngleKept(rest: String)
    requires '>' !in rest || (rest != [] && rest[0] == '>')
    ensures ReplaceLabelNoise("<" + rest, 0) == "<" + ReplaceLabelNoise(rest, 0)
  {
    var s := "<" + rest;
    if '>' !in rest {
      assert forall k :: 1 <= k < |s| ==> s[k] == rest[k - 1];
      TagItemsEndWithoutClose(s, 1, false);
    }
    assert TagEndAt(s, 0).None?;
    TokenThenRest("<", rest, "<");
  }

  /**
   * One item of a tag as `(?:[^>"]|"[^"]*")` matches it: one character other
   * than `>` and `"`, or a quoted string with no quote inside.
   */
  predicate TagItem(x: String) {
    || (|x| == 1 && x[0] != '>' && x[0] != '"')
    || (|x| >= 2 && x[0] == '"' && x[|x| - 1] == '"' && '"' !in x[1..|x| - 1])
  }

  /** The strings of `xs` written one after another. */
  function Concat(xs: seq<String>): String {
    if xs == [] then [] else xs[0] + Concat(xs[1..])
  }

  /** When `s` goes on from `n` as `x + after`, `x` stands at `n` and `after` follows it. */
  lemma SplitAt(s: String, n: nat, x: String, after: String)
    requires n <= |s| && s[n..] == x + after
    ensures n + |x| <= |s| && s[n..n + |x|] == x && s[n + |x|..] == after
  {
    assert s[n..n + |x|] == s[n..][..|x|];
    assert s[n + |x|..] == s[n..][|x|..];
  }

  /** One tag item at `n` is passed over as a whole. */
  lemma ItemStep(s: String, n: nat, x: String, seenItem: bool)
    requires TagItem(x) && n + |x| <= |s| && s[n..n + |x|] == x
    ensures TagItemsEnd(s, n, seenItem) == TagItemsEnd(s, n + |x|, true)
  {
    assert s[n] == x[0];
    if |x| >= 2 {
      forall k | n + 1 <= k < n + |x| - 1
        ensures s[k] != '"'
      {
        assert s[k] == x[k - n] == x[1..|x| - 1][k - n - 1];
      }
      assert s[n + |x| - 1] == x[|x| - 1];
      FindCharIsLeast(s, '"', n + 1, n + |x| - 1);
    }
  }

  /** A tag item in front of `after` is passed over, and the search goes on in `after`. */
  lemma ItemThenRest(x: String, after: String, seenItem: bool)
    requires TagItem(x)
    ensures TagItemsEnd(x + after, 0, seenItem) == ShiftBy(TagItemsEnd(after, 0, true), |x|)
  {
    var s := x + after;
    assert s[0..] == x + after;
    SplitAt(s, 0, x, after);
    ItemStep(s, 0, x, seenItem);
    TagItemsEndShift(s, |x|, after, 0, true);
  }

  /** A run of tag items followed by `>` ends the tag just after that `>`. */
  lemma {:induction false} ItemsThenClose(items: seq<String>, tail: String, seenItem: bool)
    requires forall k :: 0 <= k < |items| ==> TagItem(items[k])
    requires seenItem || items != []
    ensures TagItemsEnd(Concat(items) + ">" + tail, 0, seenItem) == Some(|Concat(items)| + 1)
    decreases |items|
  {
    if items == [] {
      assert Concat(items) + ">" + tail == ">" + tail;
    } else {
      var x, more := items[0], items[1..];
      var after := Concat(more) + ">" + tail;
      assert forall k :: 0 <= k < |more| ==> TagItem(more[k]) by {
        assert forall k :: 0 <= k < |more| ==> more[k] == items[k + 1];
      }
      ItemsThenClose(more, tail, true);
      ItemThenRest(x, after, seenItem);
      assert Concat(items) + ">" + tail == x + after;
    }
  }

  /**
   * Every tag becomes one space, whatever mix of plain characters and quoted
   * strings, which may hold `>`, stands between its brackets.
   */
  lemma TagOfItemsBecomesSpace(items: seq<String>, rest: String)
    requires items != [] && forall k :: 0 <= k < |items| ==> TagItem(items[k])
    ensures ReplaceLabelNoise("<" + Concat(items) + ">" + rest, 0) == " " + ReplaceLabelNoise(rest, 0)
  {
    var tag := "<" + Concat(items) + ">";
    var s := tag + rest;
    var after := Concat(items) + ">" + rest;
    assert s[1..] == after;
    ItemsThenClose(items, rest, false);
    TagItemsEndShift(s, 1, after, 0, false);
    assert TagEndAt(s, 0) == Some(|tag|);
    TokenThenRest(tag, rest, " ");
  }

  // ---------------------------------------------------------------- candidates

  /** Hrefs starting with `/` are resolved against the page; all others are kept as they are. */
  function ResolveHref(href: String, page: String, resolve: Resolver): String {
    if StartsWith(href, "/") then resolve(href, page) else href
  }

  /** The candidates in document order, `index` being the position of the anchor. */
  function Candidates(anchors: seq<Anchor>, page: String, resolve: Resolver): (r: seq<Link>)
    ensures |r| == |anchors|
    ensures forall i :: 0 <= i < |r| ==>
      && r[i].index == i
      && r[i].text == CleanLabel(anchors[i].inner)
      && r[i].url == ResolveHref(anchors[i].href, page, resolve)
  {
    seq(|anchors|, i requires 0 <= i < |anchors| =>
      Link(i, CleanLabel(anchors[i].inner), ResolveHref(anchors[i].href, page, resolve)))
  }

  predicate IsHttp(l: Link) {
    StartsWith(l.url, "http")
  }

  function LinkIndex(l: Link): int {
    l.index
  }

  // ---------------------------------------------------------------- scores

  /**
   * `1 / Math.min(1, /\d/g.exec(link)?.length || 1)`: a match array has length 1
   * and no match falls back to 1, so the ratio is always 1.
   */
  function DigitRatio(url: String): (r: real)
    ensures r == 1.0
  {
    var execLength: nat := if exists i :: 0 <= i < |url| && IsDigit(url[i]) then 1 else 0;
    var lengthOrOne: nat := if execLength != 0 then execLength else 1;
    1.0 / (if 1 < lengthOrOne then 1 else lengthOrOne) as real
  }

  /** `text.split(/\s+/).length`: one more than the number of whitespace runs. */
  function SplitCount(text: String): nat {
    if text == [] then 1
    else
      var n := |text|;
      SplitCount(text[..n - 1])
        + (if IsWhitespace(text[n - 1]) && (n == 1 || !IsWhitespace(text[n - 2])) then 1 else 0)
  }

  /** The score before search terms, for the link at `position` of `count` http links. */
  function BaseScore(text: String, url: String, position: nat, count: nat): real
    requires position < count
  {
    var ratio := DigitRatio(url);
    ratio * (100.0 - ((|text| + |url|) as real + 20.0 * position as real / count as real))
      + (1.0 - ratio) * SplitCount(text) as real
  }

  /**
   * `searchTerms?.length && terms.reduce(…, score) || score`: with search terms,
   * 1000 per term in the text, unless that total is 0, which is falsy.
   */
  function LinkScore(text: String, url: String, position: nat, count: nat, terms: seq<String>): real
    requires position < count
  {
    var base := BaseScore(text, url, position, count);
    if |terms| > 0 then
      var total := Relevance.AddTermBonuses(text, terms, base);
      if total != 0.0 then total else base
    else base
  }

  /**
   * The score is `100 − (|text| + |url| + 20·position/count)` plus 1000 per
   * search term found in the text. The one exception: when that sum is exactly
   * 0 with some term matched, JavaScript's `||` falls back to the base score.
   */
  lemma LinkScoreFormula(text: String, url: String, position: nat, count: nat, terms: seq<String>)
    requires position < count
    ensures var base := 100.0 - ((|text| + |url|) as real + 20.0 * position as real / count as real);
            var m := Relevance.MatchCount(text, terms);
            && (m == 0 ==> LinkScore(text, url, position, count, terms) == base)
            && (m > 0 && base + Relevance.TermBonus * m as real != 0.0 ==>
                  LinkScore(text, url, position, count, terms) == base + Relevance.TermBonus * m as real)
            && (m > 0 && base + Relevance.TermBonus * m as real == 0.0 ==>
                  LinkScore(text, url, position, count, terms) == base)
  {
    var base := BaseScore(text, url, position, count);
    Relevance.AddTermBonusesCounts(text, terms, base);
    if terms == [] {
      assert Relevance.MatchCount(text, terms) == 0;
    }
  }

  /** The http links, each with its score; `index` is still the document position. */
  function ScoreLinks(links: seq<Link>, terms: seq<String>): (r: seq<ScoredLink>)
    ensures |r| == |links|
    ensures forall p :: 0 <= p < |r| ==>
      && r[p].index == links[p].index && r[p].text == links[p].text && r[p].url == links[p].url
      && r[p].score == LinkScore(links[p].text, links[p].url, p, |links|, terms)
  {
    seq(|links|, p requires 0 <= p < |links| =>
      ScoredLink(links[p].index, links[p].text, links[p].url,
                 LinkScore(links[p].text, links[p].url, p, |links|, terms)))
  }

  /**
   * The scored http candidates of a page, in document order: exactly the
   * anchors whose resolved href starts with `http`, each with its cleaned
   * label, its resolved url and the score of its position among them.
   */
  function ScoredCandidates(anchors: seq<Anchor>, page: String, terms: seq<String>, resolve: Resolver): (r: seq<ScoredLink>)
    ensures forall p :: 0 <= p < |r| ==>
      && 0 <= r[p].index < |anchors|
      && r[p].text == CleanLabel(anchors[r[p].index].inner)
      && r[p].url == ResolveHref(anchors[r[p].index].href, page, resolve)
      && StartsWith(r[p].url, "http")
      && r[p].score == LinkScore(r[p].text, r[p].url, p, |r|, terms)
    ensures forall i :: 0 <= i < |anchors| && StartsWith(ResolveHref(anchors[i].href, page, resolve), "http") ==>
      exists p :: 0 <= p < |r| && r[p].index == i
    ensures forall i, j :: 0 <= i < j < |r| ==> r[i].index < r[j].index
  {
    var cands := Candidates(anchors, page, resolve);
    var http := Sequences.Filter(cands, IsHttp);
    assert Sequences.Increasing(cands, LinkIndex);
    Sequences.FilterIncreasing(cands, IsHttp, LinkIndex);
    HttpCandidatesComplete(cands, http);
    var r := ScoreLinks(http, terms);
    ScoredHttpCandidates(anchors, page, terms, resolve, cands, http, r);
    r
  }

  /** Scoring the http candidates keeps each one's anchor, label and url. */
  lemma ScoredHttpCandidates(anchors: seq<Anchor>, page: String, terms: seq<String>, resolve: Resolver,
                             cands: seq<Link>, http: seq<Link>, r: seq<ScoredLink>)
    requires cands == Candidates(anchors, page, resolve)
    requires forall p :: 0 <= p < |http| ==> IsHttp(http[p])
    requires forall p :: 0 <= p < |http| ==> 0 <= http[p].index < |cands| && http[p] == cands[http[p].index]
    requires r == ScoreLinks(http, terms)
    ensures forall p :: 0 <= p < |r| ==>
      && 0 <= r[p].index < |anchors|
      && r[p].text == CleanLabel(anchors[r[p].index].inner)
      && r[p].url == ResolveHref(anchors[r[p].index].href, page, resolve)
      && StartsWith(r[p].url, "http")
      && r[p].score == LinkScore(r[p].text, r[p].url, p, |r|, terms)
  {
    forall p | 0 <= p < |r|
      ensures && 0 <= r[p].index < |anchors|
              && r[p].text == CleanLabel(anchors[r[p].index].inner)
              && r[p].url == ResolveHref(anchors[r[p].index].href, page, resolve)
              && StartsWith(r[p].url, "http")
              && r[p].score == LinkScore(r[p].text, r[p].url, p, |r|, terms)
    {
      var i := http[p].index;
      assert http[p] == cands[i];
    }
  }

  /**
   * The http filter of candidates indexed by position: each kept link is the
   * candidate its index names, and every http candidate shows up.
   */
  lemma HttpCandidatesComplete(cands: seq<Link>, http: seq<Link>)
    requires forall i :: 0 <= i < |cands| ==> cands[i].index == i
    requires forall p :: 0 <= p < |http| ==> http[p] in cands
    requires forall i :: 0 <= i < |cands| && IsHttp(cands[i]) ==> cands[i] in http
    ensures forall p :: 0 <= p < |http| ==> 0 <= http[p].index < |cands| && http[p] == cands[http[p].index]
    ensures forall i :: 0 <= i < |cands| && IsHttp(cands[i]) ==> exists p :: 0 <= p < |http| && http[p].index == i
  {
    forall i | 0 <= i < |cands| && IsHttp(cands[i])
      ensures exists p :: 0 <= p < |http| && http[p].index == i
    {
      var p :| 0 <= p < |http| && http[p] == cands[i];
      assert http[p].index == i;
    }
  }

  // ---------------------------------------------------------------- ranking

  function NegScore(x: ScoredLink): real {
    -x.score
  }

  function ScoredIndex(x: ScoredLink): int {
    x.index
  }

  /** Non-increasing score, ties in document order. */
  ghost predicate Ranked(s: seq<ScoredLink>) {
    forall i, j :: 0 <= i < j < |s| ==>
      s[i].score > s[j].score || (s[i].score == s[j].score && s[i].index < s[j].index)
  }

  /** `a` is `b`, or comes before it in a ranked list. */
  ghost predicate RanksAtLeast(a: ScoredLink, b: ScoredLink) {
    a.score > b.score || (a.score == b.score && a.index <= b.index)
  }

  function Urls(s: seq<ScoredLink>): (r: seq<String>)
    ensures |r| == |s| && forall i :: 0 <= i < |s| ==> r[i] == s[i].url
  {
    seq(|s|, i requires 0 <= i < |s| => s[i].url)
  }

  /** `filter((x, i, arr) => !arr.find((y, j) => j < i && y.link === x.link))`. */
  function DedupByUrl(s: seq<ScoredLink>): (r: seq<ScoredLink>)
    ensures |r| <= |s|
    ensures forall i :: 0 <= i < |r| ==> r[i] in s
  {
    if s == [] then []
    else
      var init, last := s[..|s| - 1], s[|s| - 1];
      DedupByUrl(init) + (if last.url in Urls(init) then [] else [last])
  }

  lemma {:induction false} DedupDistinct(s: seq<ScoredLink>)
    ensures forall i, j :: 0 <= i < j < |DedupByUrl(s)| ==> DedupByUrl(s)[i].url != DedupByUrl(s)[j].url
  {
    if s != [] {
      var init, last := s[..|s| - 1], s[|s| - 1];
      DedupDistinct(init);
      var d := DedupByUrl(init);
      if last.url !in Urls(init) {
        forall i | 0 <= i < |d| ensures d[i].url != last.url {
          var k :| 0 <= k < |init| && init[k] == d[i];
          assert Urls(init)[k] == d[i].url;
        }
      }
    }
  }

  lemma {:induction false} DedupKeepsUrls(s: seq<ScoredLink>)
    ensures forall i :: 0 <= i < |s| ==> s[i].url in Urls(DedupByUrl(s))
  {
    if s != [] {
      var init, last := s[..|s| - 1], s[|s| - 1];
      DedupKeepsUrls(init);
      var d := DedupByUrl(init);
      var r := DedupByUrl(s);
      assert r[..|d|] == d;
      forall i | 0 <= i < |s| ensures s[i].url in Urls(r) {
        if i < |s| - 1 {
          assert init[i] == s[i];
          var k :| 0 <= k < |d| && Urls(d)[k] == s[i].url;
          assert Urls(r)[k] == s[i].url;
        } else if last.url in Urls(init) {
          var m :| 0 <= m < |init| && Urls(init)[m] == last.url;
          var k :| 0 <= k < |d| && Urls(d)[k] == init[m].url;
          assert Urls(r)[k] == s[i].url;
        } else {
          assert Urls(r)[|d|] == last.url;
        }
      }
    }
  }

  /** In a ranked list, the occurrence of a URL that survives ranks at least as high as every other. */
  lemma {:induction false} DedupKeepsBest(s: seq<ScoredLink>)
    requires Ranked(s)
    ensures forall i, k :: 0 <= i < |DedupByUrl(s)| && 0 <= k < |s| && s[k].url == DedupByUrl(s)[i].url ==>
      RanksAtLeast(DedupByUrl(s)[i], s[k])
  {
    if s != [] {
      var init, last := s[..|s| - 1], s[|s| - 1];
      assert Ranked(init);
      DedupKeepsBest(init);
      var d := DedupByUrl(init);
      var r := DedupByUrl(s);
      assert forall m :: 0 <= m < |init| ==> Urls(init)[m] == init[m].url == s[m].url;
      forall i, k | 0 <= i < |r| && 0 <= k < |s| && s[k].url == r[i].url
        ensures RanksAtLeast(r[i], s[k])
      {
        if i < |d| {
          assert r[i] == d[i];
          var m :| 0 <= m < |init| && init[m] == d[i];
        } else {
          assert r[i] == last && last.url !in Urls(init);
        }
      }
    }
  }

  lemma {:induction false} DedupRanked(s: seq<ScoredLink>)
    requires Ranked(s)
    ensures Ranked(DedupByUrl(s))
  {
    if s != [] {
      var init, last := s[..|s| - 1], s[|s| - 1];
      assert Ranked(init);
      DedupRanked(init);
      var d := DedupByUrl(init);
      forall i | 0 <= i < |d|
        ensures d[i].score > last.score || (d[i].score == last.score && d[i].index < last.index)
      {
        var m :| 0 <= m < |init| && init[m] == d[i];
      }
    }
  }

  /**
   * `sort((a, b) => b.score - a.score)` followed by the duplicate filter: the
   * candidates by descending score (stably), every later occurrence of a URL dropped.
   */
  function RankScored(scored: seq<ScoredLink>): seq<ScoredLink> {
    DedupByUrl(Sequences.SortBy(scored, NegScore))
  }

  /** The sort puts candidates in descending score, ties in document order. */
  lemma SortedRanked(scored: seq<ScoredLink>)
    requires forall i, j :: 0 <= i < j < |scored| ==> scored[i].index < scored[j].index
    ensures Ranked(Sequences.SortBy(scored, NegScore))
  {
    var sorted := Sequences.SortBy(scored, NegScore);
    assert Sequences.Increasing(scored, ScoredIndex);
    Sequences.SortByStable(scored, NegScore, ScoredIndex);
    forall i, j | 0 <= i < j < |sorted|
      ensures sorted[i].score > sorted[j].score || (sorted[i].score == sorted[j].score && sorted[i].index < sorted[j].index)
    {
      assert NegScore(sorted[i]) < NegScore(sorted[j])
          || (NegScore(sorted[i]) == NegScore(sorted[j]) && ScoredIndex(sorted[i]) < ScoredIndex(sorted[j]));
    }
  }

  /** The ranked links are in descending score, ties in document order, and no URL appears twice. */
  lemma RankScoredOrdered(scored: seq<ScoredLink>)
    requires forall i, j :: 0 <= i < j < |scored| ==> scored[i].index < scored[j].index
    ensures Ranked(RankScored(scored))
    ensures forall i, j :: 0 <= i < j < |RankScored(scored)| ==> RankScored(scored)[i].url != RankScored(scored)[j].url
  {
    SortedRanked(scored);
    DedupRanked(Sequences.SortBy(scored, NegScore));
    DedupDistinct(Sequences.SortBy(scored, NegScore));
  }

  /** Every ranked link is a candidate, and every candidate's URL is among the ranked links. */
  lemma RankScoredMembers(scored: seq<ScoredLink>)
    ensures forall i :: 0 <= i < |RankScored(scored)| ==> RankScored(scored)[i] in scored
    ensures forall c :: c in scored ==> c.url in Urls(RankScored(scored))
  {
    var sorted := Sequences.SortBy(scored, NegScore);
    Sequences.MultisetMembers(sorted, scored);
    DedupKeepsUrls(sorted);
    forall c | c in scored ensures c.url in Urls(RankScored(scored)) {
      var k :| 0 <= k < |sorted| && sorted[k] == c;
    }
  }

  /** For each URL, the link kept ranks at least as high as every candidate with that URL. */
  lemma RankScoredKeepsBest(scored: seq<ScoredLink>)
    requires forall i, j :: 0 <= i < j < |scored| ==> scored[i].index < scored[j].index
    ensures forall i, c :: 0 <= i < |RankScored(scored)| && c in scored && c.url == RankScored(scored)[i].url ==>
      RanksAtLeast(RankScored(scored)[i], c)
  {
    var sorted := Sequences.SortBy(scored, NegScore);
    SortedRanked(scored);
    Sequences.MultisetMembers(sorted, scored);
    DedupKeepsBest(sorted);
    var r := DedupByUrl(sorted);
    forall i, c | 0 <= i < |r| && c in scored && c.url == r[i].url ensures RanksAtLeast(r[i], c) {
      var k :| 0 <= k < |sorted| && sorted[k] == c;
    }
  }

  function Pairs(s: seq<ScoredLink>): (r: seq<(String, String)>)
    ensures |r| == |s| && forall i :: 0 <= i < |s| ==> r[i] == (s[i].text, s[i].url)
  {
    seq(|s|, i requires 0 <= i < |s| => (s[i].text, s[i].url))
  }

  /**
   * The first `maxLinks` of a duplicate-free ranking of http candidates that
   * covers every candidate's URL.
   */
  lemma TopOfRanking(scored: seq<ScoredLink>, ranked: seq<ScoredLink>, maxLinks: nat)
    requires forall i :: 0 <= i < |scored| ==> StartsWith(scored[i].url, "http")
    requires forall i :: 0 <= i < |ranked| ==> ranked[i] in scored
    requires forall i, j :: 0 <= i < j < |ranked| ==> ranked[i].url != ranked[j].url
    requires forall c :: c in scored ==> c.url in Urls(ranked)
    ensures var r := Pairs(Sequences.Take(ranked, maxLinks));
      && |r| <= maxLinks
      && (forall i :: 0 <= i < |r| ==> StartsWith(r[i].1, "http"))
      && (forall i, j :: 0 <= i < j < |r| ==> r[i].1 != r[j].1)
      && (|r| < maxLinks ==> forall c :: c in scored ==> exists i :: 0 <= i < |r| && r[i].1 == c.url)
  {
    var top := Sequences.Take(ranked, maxLinks);
    var r := Pairs(top);
    assert forall i :: 0 <= i < |top| ==> top[i] == ranked[i];
    forall i | 0 <= i < |r| ensures StartsWith(r[i].1, "http") {
      var k :| 0 <= k < |scored| && scored[k] == top[i];
    }
    if |r| < maxLinks {
      forall c | c in scored ensures exists i :: 0 <= i < |r| && r[i].1 == c.url {
        var i :| 0 <= i < |ranked| && Urls(ranked)[i] == c.url;
        assert r[i].1 == c.url;
      }
    }
  }

  /**
   * `extractLinks(body, url, maxLinks, searchTerms)`: at most `maxLinks`
   * (label, url) pairs, every url an `http…` one, no url twice; when fewer than
   * `maxLinks` come back, every http link of the page is among them.
   */
  function ExtractLinks(anchors: seq<Anchor>, page: String, maxLinks: nat, terms: seq<String>, resolve: Resolver)
    : (r: seq<(String, String)>)
    ensures |r| <= maxLinks
    ensures forall i :: 0 <= i < |r| ==> StartsWith(r[i].1, "http")
    ensures forall i, j :: 0 <= i < j < |r| ==> r[i].1 != r[j].1
    ensures |r| < maxLinks ==>
      forall c :: c in ScoredCandidates(anchors, page, terms, resolve) ==> exists i :: 0 <= i < |r| && r[i].1 == c.url
  {
    var scored := ScoredCandidates(anchors, page, terms, resolve);
    RankScoredOrdered(scored);
    RankScoredMembers(scored);
    TopOfRanking(scored, RankScored(scored), maxLinks);
    Pairs(Sequences.Take(RankScored(scored), maxLinks))
  }

  /**
   * The links returned are the best ones: every candidate whose url was left
   * out ranks below every link returned, and the returned links keep the
   * ranked order (descending score, ties in document order).
   */
  lemma ExtractLinksAreTop(anchors: seq<Anchor>, page: String, maxLinks: nat, terms: seq<String>, resolve: Resolver)
    ensures var scored := ScoredCandidates(anchors, page, terms, resolve);
            var top := Sequences.Take(RankScored(scored), maxLinks);
            && ExtractLinks(anchors, page, maxLinks, terms, resolve) == Pairs(top)
            && Ranked(top)
            && forall c, x :: c in scored && c.url !in Urls(top) && x in top ==> x.score >= c.score
  {
    var scored := ScoredCandidates(anchors, page, terms, resolve);
    RankScoredOrdered(scored);
    RankScoredMembers(scored);
    RankScoredKeepsBest(scored);
    TopIsBest(scored, RankScored(scored), maxLinks);
  }

  /** In a ranking that keeps each URL's best candidate, the candidates cut off rank below the ones kept. */
  lemma TopIsBest(scored: seq<ScoredLink>, ranked: seq<ScoredLink>, maxLinks: nat)
    requires Ranked(ranked)
    requires forall c :: c in scored ==> c.url in Urls(ranked)
    requires forall i, c :: 0 <= i < |ranked| && c in scored && c.url == ranked[i].url ==> RanksAtLeast(ranked[i], c)
    ensures var top := Sequences.Take(ranked, maxLinks);
      && Ranked(top)
      && forall c, x :: c in scored && c.url !in Urls(top) && x in top ==> x.score >= c.score
  {
    var top := Sequences.Take(ranked, maxLinks);
    assert forall i :: 0 <= i < |top| ==> top[i] == ranked[i];
    forall c, x | c in scored && c.url !in Urls(top) && x in top
      ensures x.score >= c.score
    {
      var j :| 0 <= j < |ranked| && Urls(ranked)[j] == c.url;
      var i :| 0 <= i < |top| && top[i] == x;
      assert forall m :: 0 <= m < |top| ==> Urls(top)[m] == Urls(ranked)[m];
      assert j >= |top|;
      assert RanksAtLeast(ranked[j], c);
    }
  }
}
