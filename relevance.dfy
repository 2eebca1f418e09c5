/** Search-term relevance, shared by the link and the image rankers. */
module Relevance {
  import opened Text
  import Sequences

  /** Weight of one search term found in a label or an alt text. */
  const TermBonus: real := 1000.0

  /** `text.toLowerCase().includes(term.toLowerCase())`. */
  predicate MatchesTerm(text: String, term: String) {
    Contains(Lower(text), Lower(term))
  }

  /** How many of the search terms occur in `text`. */
  function MatchCount(text: String, terms: seq<String>): nat {
    |Sequences.Filter(terms, t => MatchesTerm(text, t))|
  }

  /**
   * `terms.reduce((acc, term) => acc + (matches ? 1000 : 0), start)`:
   * the fold the rankers run over the search terms, from the first term on.
   */
  function AddTermBonuses(text: String, terms: seq<String>, start: real): real {
    if terms == [] then start
    else AddTermBonuses(text, terms[1..], start + (if MatchesTerm(text, terms[0]) then TermBonus else 0.0))
  }

  /** The fold adds exactly 1000 per matching term. */
  lemma {:induction false} AddTermBonusesCounts(text: String, terms: seq<String>, start: real)
    ensures AddTermBonuses(text, terms, start) == start + TermBonus * MatchCount(text, terms) as real
  {
    if terms != [] {
      var p := t => MatchesTerm(text, t);
      assert Sequences.Filter(terms, p)
          == (if p(terms[0]) then [terms[0]] else []) + Sequences.Filter(terms[1..], p);
      AddTermBonusesCounts(text, terms[1..], start + (if MatchesTerm(text, terms[0]) then TermBonus else 0.0));
    }
  }
}
