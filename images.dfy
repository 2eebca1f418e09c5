/**
 * The image ranker `extractImages`: the attributes of every `<img` tag in
 * document order, the alt text and the (resolved) src picked out, a score of
 * the alt text's length plus 1000 per search term it mentions, only http image
 * URLs kept, the best `maxImages` by descending score (stably), and those put
 * back in document order as (alt, src) pairs.
 */
module Images {
  import opened Text
  import Sequences
  import Relevance

  /** `new URL(src, base).href`, left uninterpreted. */
  type Resolver = (String, String) -> String

  datatype Candidate = Candidate(index: nat, alt: String, src: Option<String>, score: real)

  // ---------------------------------------------------------------- attributes

  /** Start of the value of `\sNAME="([^"]+)"` when the pattern matches at `p`. */
  function ValueStart(p: nat, name: String): nat {
    p + 1 + |name| + 2
  }

  /**
   * `/\sNAME="([^"]+)"/` matches at `p`: a whitespace character, `NAME="`, at
   * least one character other than `"`, and the closing `"`.
   */
  predicate AttributeAt(attrs: String, name: String, p: nat) {
    && p < |attrs| && IsWhitespace(attrs[p])
    && OccursAt(attrs, name + "=\"", p + 1)
    && match FindChar(attrs, '"', ValueStart(p, name))
       case Some(q) => q > ValueStart(p, name)
       case None => false
  }

  /** `attrs.match(/\sNAME="([^"]+)"/)?.[1]`: the value at the leftmost match. */
  function AttributeValue(attrs: String, name: String): (r: Option<String>)
    ensures r.Some? ==> r.value != [] && '"' !in r.value
    // the leftmost match decides: the value runs from its opening quote to the next quote
    ensures forall p: nat ::
      && AttributeAt(attrs, name, p)
      && (forall k: nat :: k < p ==> !AttributeAt(attrs, name, k))
      ==> r.Some? && OccursAt(attrs, r.value + "\"", ValueStart(p, name))
    ensures r.None? <==> forall p: nat :: !AttributeAt(attrs, name, p)
  {
    var at := (k: nat) => AttributeAt(attrs, name, k);
    assert forall k: nat :: at(k) == AttributeAt(attrs, name, k);
    match FirstMatch(0, |attrs|, at)
    case Some(p) =>
      var v := ValueStart(p, name);
      var q := FindChar(attrs, '"', v).value;
      assert attrs[v..q + 1] == attrs[v..q] + "\"";
      Some(attrs[v..q])
    case None => None
  }

  /** An attribute written ` NAME="value"` at the start of the attributes is the one found. */
  lemma AttributeValueFirst(name: String, value: String, rest: String)
    requires value != [] && '"' !in value
    ensures AttributeValue(" " + name + "=\"" + value + "\"" + rest, name) == Some(value)
  {
    var attrs := " " + name + "=\"" + value + "\"" + rest;
    var v := ValueStart(0, name);
    assert attrs[v..v + |value|] == value && FindChar(attrs, '"', v) == Some(v + |value|) by {
      assert attrs[v..v + |value|] == value;
      FindCharIsLeast(attrs, '"', v, v + |value|);
    }
    assert AttributeAt(attrs, name, 0) by {
      assert attrs[1..1 + |name| + 2] == name + "=\"";
    }
    AttributeValueAt(attrs, name, 0, v + |value|);
  }

  /** The value found is the one of the leftmost match, up to the next quote. */
  lemma AttributeValueAt(attrs: String, name: String, p: nat, q: nat)
    requires AttributeAt(attrs, name, p) && forall k: nat :: k < p ==> !AttributeAt(attrs, name, k)
    requires FindChar(attrs, '"', ValueStart(p, name)) == Some(q)
    ensures ValueStart(p, name) <= q <= |attrs|
    ensures AttributeValue(attrs, name) == Some(attrs[ValueStart(p, name)..q])
  {
    FirstMatchIsLeast(0, |attrs|, (k: nat) => AttributeAt(attrs, name, k), p);
  }

  // ---------------------------------------------------------------- candidates

  /** `src?.startsWith("/") ? new URL(src, base).href : src`. */
  function ResolveSrc(src: Option<String>, page: String, resolve: Resolver): Option<String> {
    match src
    case Some(s) => if StartsWith(s, "/") then Some(resolve(s, page)) else Some(s)
    case None => None
  }

  /**
   * `searchTerms?.length && terms.reduce(…, alt.length) || alt.length`.
   */
  function ImageScore(alt: String, terms: seq<String>): real {
    var base := |alt| as real;
    if |terms| > 0 then
      var total := Relevance.AddTermBonuses(alt, terms, base);
      if total != 0.0 then total else base
    else base
  }

  /**
   * Unlike a link's, an image's score never falls back: it is always the alt
   * text's length plus 1000 per search term the alt text contains.
   */
  lemma ImageScoreFormula(alt: String, terms: seq<String>)
    ensures ImageScore(alt, terms) == |alt| as real + Relevance.TermBonus * Relevance.MatchCount(alt, terms) as real
  {
    Relevance.AddTermBonusesCounts(alt, terms, |alt| as real);
    if terms == [] {
      assert Relevance.MatchCount(alt, terms) == 0;
    }
  }

  /** `.filter(x => x[1])`: the tag matches whose attribute capture is not empty. */
  function NonEmpty(attrs: String): bool {
    attrs != []
  }

  /**
   * The candidates, one per `<img` whose attribute text is not empty, `index`
   * being its position among those.
   */
  function Candidates(imgAttributes: seq<String>, page: String, terms: seq<String>, resolve: Resolver)
    : (r: seq<Candidate>)
    ensures var tags := Sequences.Filter(imgAttributes, NonEmpty);
      && |r| == |tags|
      && forall i :: 0 <= i < |r| ==>
        && r[i].index == i
        && (AttributeValue(tags[i], "alt").Some? ==> r[i].alt == AttributeValue(tags[i], "alt").value)
        && (AttributeValue(tags[i], "alt").None? ==> r[i].alt == [])
        && r[i].src == ResolveSrc(AttributeValue(tags[i], "src"), page, resolve)
        && r[i].score == ImageScore(r[i].alt, terms)
  {
    var tags := Sequences.Filter(imgAttributes, NonEmpty);
    seq(|tags|, i requires 0 <= i < |tags| =>
      var alt := match AttributeValue(tags[i], "alt") case Some(a) => a case None => [];
      Candidate(i, alt, ResolveSrc(AttributeValue(tags[i], "src"), page, resolve), ImageScore(alt, terms)))
  }

  // ---------------------------------------------------------------- image URLs

  const ImageExtensions: seq<String> := ["svg", "png", "webp", "gif", "jpg", "jpeg"]

  /**
   * `/\.(svg|png|webp|gif|jpe?g)(\?.*)?$/i` matches at `p`: a dot, one of the
   * extensions in any letter case, then either the end of the URL or a `?`
   * followed by a tail without line terminators (`.` does not match those).
   */
  predicate ImageSuffixAt(url: String, p: nat) {
    p < |url| && url[p] == '.'
    && exists e :: 0 <= e < |ImageExtensions| && ImageTailAfter(url, p + 1, ImageExtensions[e])
  }

  predicate ImageTailAfter(url: String, start: nat, ext: String) {
    var end := start + |ext|;
    && end <= |url| && Lower(url[start..end]) == ext
    && (end == |url| || (url[end] == '?' && forall k :: end < k < |url| ==> !IsLineTerminator(url[k])))
  }

  predicate IsImageUrl(url: String) {
    exists p :: 0 <= p < |url| && ImageSuffixAt(url, p)
  }

  /** `src && src.startsWith('http') && src.match(…)`. */
  predicate Accepted(c: Candidate) {
    c.src.Some? && c.src.value != [] && StartsWith(c.src.value, "http") && IsImageUrl(c.src.value)
  }

  /** A URL ending in a dot and a known extension, in whatever letter case, is an image URL, query or not. */
  lemma ImageUrlWithExtension(stem: String, ext: String, query: Option<String>)
    requires Lower(ext) in ImageExtensions
    requires query.Some? ==> forall k :: 0 <= k < |query.value| ==> !IsLineTerminator(query.value[k])
    ensures IsImageUrl(stem + "." + ext + (match query case Some(q) => "?" + q case None => ""))
  {
    var tail := match query case Some(q) => "?" + q case None => "";
    var url := stem + "." + ext + tail;
    var p := |stem|;
    assert url[p + 1..p + 1 + |ext|] == ext;
    var e :| 0 <= e < |ImageExtensions| && ImageExtensions[e] == Lower(ext);
    assert ImageTailAfter(url, p + 1, ImageExtensions[e]);
    assert ImageSuffixAt(url, p);
  }

  /** A URL without a dot is never an image URL: there is nothing for the extension to follow. */
  lemma NoDotNoImage(url: String)
    requires '.' !in url
    ensures !IsImageUrl(url)
  {
    forall p | 0 <= p < |url| ensures !ImageSuffixAt(url, p) {
      assert url[p] in url;
    }
  }

  // ---------------------------------------------------------------- ranking

  function NegScore(c: Candidate): real {
    -c.score
  }

  function Position(c: Candidate): real {
    c.index as real
  }

  function CandidateIndex(c: Candidate): int {
    c.index
  }

  /**
   * The images chosen: the accepted candidates sorted by descending score
   * (stably), cut to `maxImages`, and sorted back into document order.
   */
  function Selected(cands: seq<Candidate>, maxImages: nat): seq<Candidate> {
    var accepted := Sequences.Filter(cands, Accepted);
    var best := Sequences.Take(Sequences.SortBy(accepted, NegScore), maxImages);
    Sequences.SortBy(best, Position)
  }

  /** Candidates with distinct indices keep them distinct through filtering, sorting and cutting. */
  lemma SelectedDistinct(cands: seq<Candidate>, maxImages: nat)
    requires Sequences.Increasing(cands, CandidateIndex)
    ensures var accepted := Sequences.Filter(cands, Accepted);
            Sequences.DistinctBy(Sequences.Take(Sequences.SortBy(accepted, NegScore), maxImages), CandidateIndex)
  {
    var accepted := Sequences.Filter(cands, Accepted);
    Sequences.FilterIncreasing(cands, Accepted, CandidateIndex);
    Sequences.SortByDistinct(accepted, NegScore, CandidateIndex);
  }

  /**
   * Cutting a list sorted stably by descending score: whatever is cut off
   * scores lower than what is kept, or the same and comes later in the page.
   */
  lemma TakeBest(accepted: seq<Candidate>, sorted: seq<Candidate>, k: nat)
    requires Sequences.SortedStably(sorted, NegScore, CandidateIndex)
    requires multiset(sorted) == multiset(accepted)
    ensures forall c, x :: c in accepted && c !in Sequences.Take(sorted, k) && x in Sequences.Take(sorted, k) ==>
      x.score > c.score || (x.score == c.score && x.index < c.index)
  {
    var best := Sequences.Take(sorted, k);
    Sequences.MultisetMembers(sorted, accepted);
    assert forall i :: 0 <= i < |best| ==> best[i] == sorted[i];
    forall c, x | c in accepted && c !in best && x in best
      ensures x.score > c.score || (x.score == c.score && x.index < c.index)
    {
      var j :| 0 <= j < |sorted| && sorted[j] == c;
      var i :| 0 <= i < |best| && best[i] == x;
      assert j >= |best|;
      assert NegScore(sorted[i]) < NegScore(sorted[j])
        || (NegScore(sorted[i]) == NegScore(sorted[j]) && CandidateIndex(sorted[i]) < CandidateIndex(sorted[j]));
    }
  }

  /** Sorting back by position yields strictly increasing document order when no index repeats. */
  lemma BackInOrder(best: seq<Candidate>)
    requires Sequences.DistinctBy(best, CandidateIndex)
    ensures forall i, j :: 0 <= i < j < |Sequences.SortBy(best, Position)| ==>
      Sequences.SortBy(best, Position)[i].index < Sequences.SortBy(best, Position)[j].index
  {
    var sel := Sequences.SortBy(best, Position);
    Sequences.SortByDistinct(best, Position, CandidateIndex);
    forall i, j | 0 <= i < j < |sel| ensures sel[i].index < sel[j].index {
      assert Position(sel[i]) <= Position(sel[j]);
    }
  }

  /**
   * The chosen images: at most `maxImages`, all of them when there are no more
   * than that, every one an accepted candidate, in strictly increasing document
   * order, and every accepted candidate left out scores lower than each one
   * chosen, or the same and comes later in the page (the sort is stable).
   */
  lemma SelectedProperties(cands: seq<Candidate>, maxImages: nat)
    requires Sequences.Increasing(cands, CandidateIndex)
    ensures var sel := Selected(cands, maxImages);
            var accepted := Sequences.Filter(cands, Accepted);
      && |sel| == (if maxImages < |accepted| then maxImages else |accepted|)
      && (forall i :: 0 <= i < |sel| ==> sel[i] in accepted)
      && (forall i, j :: 0 <= i < j < |sel| ==> sel[i].index < sel[j].index)
      && (forall c, x :: c in accepted && c !in sel && x in sel ==>
            x.score > c.score || (x.score == c.score && x.index < c.index))
  {
    var accepted := Sequences.Filter(cands, Accepted);
    var sorted := Sequences.SortBy(accepted, NegScore);
    var best := Sequences.Take(sorted, maxImages);
    var sel := Sequences.SortBy(best, Position);
    assert |sorted| == |accepted|;
    Sequences.FilterIncreasing(cands, Accepted, CandidateIndex);
    Sequences.SortByStable(accepted, NegScore, CandidateIndex);
    SelectedDistinct(cands, maxImages);
    BackInOrder(best);
    TakeBest(accepted, sorted, maxImages);
    ChosenFromAccepted(accepted, sorted, best, sel);
  }

  /** What is sorted back and cut from a permutation of `accepted` holds only members of `accepted`. */
  lemma ChosenFromAccepted(accepted: seq<Candidate>, sorted: seq<Candidate>, best: seq<Candidate>, sel: seq<Candidate>)
    requires multiset(sorted) == multiset(accepted) && best <= sorted && multiset(sel) == multiset(best)
    ensures forall x :: x in sel <==> x in best
    ensures forall i :: 0 <= i < |sel| ==> sel[i] in accepted
  {
    Sequences.MultisetMembers(sel, best);
    Sequences.MultisetMembers(sorted, accepted);
    forall i | 0 <= i < |sel| ensures sel[i] in accepted {
      assert sel[i] in best;
      var k :| 0 <= k < |best| && best[k] == sel[i];
      assert sorted[k] == best[k];
    }
  }

  function Pairs(s: seq<Candidate>): (r: seq<(String, String)>)
    requires forall i :: 0 <= i < |s| ==> s[i].src.Some?
    ensures |r| == |s| && forall i :: 0 <= i < |s| ==> r[i] == (s[i].alt, s[i].src.value)
  {
    seq(|s|, i requires 0 <= i < |s| => (s[i].alt, s[i].src.value))
  }

  /**
   * `extractImages(body, url, maxImages, searchTerms)`: at most `maxImages`
   * (alt, src) pairs, each the alt text and http image URL of one of the page's
   * images; when the page has no more acceptable images than that, all of them.
   */
  function ExtractImages(imgAttributes: seq<String>, page: String, maxImages: nat, terms: seq<String>, resolve: Resolver)
    : (r: seq<(String, String)>)
    ensures |r| <= maxImages
    ensures forall i :: 0 <= i < |r| ==> StartsWith(r[i].1, "http") && IsImageUrl(r[i].1)
    ensures var accepted := Sequences.Filter(Candidates(imgAttributes, page, terms, resolve), Accepted);
            |accepted| <= maxImages ==> |r| == |accepted|
  {
    var cands := Candidates(imgAttributes, page, terms, resolve);
    assert Sequences.Increasing(cands, CandidateIndex);
    SelectedProperties(cands, maxImages);
    var sel := Selected(cands, maxImages);
    Pairs(sel)
  }
}
