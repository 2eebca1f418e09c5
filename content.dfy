/**
 * The text content of a page: the body with its script and style blocks and
 * then every tag removed, whitespace runs collapsed to one space, and trimmed.
 * With search terms and a page longer than the limit, the content is pieced
 * together from windows of text around each term's first match, merged in
 * order of position; otherwise it is the text cut to the limit.
 */
module Content {
  import opened Text
  import Sequences

  // ---------------------------------------------------------------- cleanup

  /** `s` starts with `lower` when compared case-insensitively (the `i` flag). */
  predicate StartsWithIgnoringCase(s: String, lower: String) {
    |lower| <= |s| && Lower(s[..|lower|]) == lower
  }

  /**
   * Length of the block `/<NAME[^>]*>[\s\S]*?<\/NAME>/i` at the start of `s`:
   * the opening tag up to its first `>`, then everything up to the first
   * closing tag after it.
   */
  function BlockLength(s: String, name: String): (r: Option<nat>)
    ensures r.Some? ==> 0 < r.value <= |s|
  {
    var open, close := "<" + name, "</" + name + ">";
    if !StartsWithIgnoringCase(s, open) then None
    else
      match FindChar(s, '>', |open|)
      case None => None
      case Some(g) =>
        var at := (k: nat) => ClosesAt(s, close, k);
        match FirstMatch(g + 1, |s| + 1, at)
        case Some(c) => Some(c + |close|)
        case None => None
  }

  /** The closing tag `close`, in any letter case, starts at `k`. */
  predicate ClosesAt(s: String, close: String, k: nat) {
    k <= |s| && StartsWithIgnoringCase(s[k..], close)
  }

  /** `s.replace(/<NAME[^>]*>[\s\S]*?<\/NAME>/gi, '')`. */
  function RemoveBlocks(s: String, name: String): (r: String)
    ensures |r| <= |s|
    decreases |s|
  {
    if s == [] then []
    else
      match BlockLength(s, name)
      case Some(n) => RemoveBlocks(s[n..], name)
      case None => [s[0]] + RemoveBlocks(s[1..], name)
  }

  /** Length of the tag `/<[^>]+>/` at the start of `s`: `<`, at least one character, the first `>`. */
  function TagLength(s: String): (r: Option<nat>)
    ensures r.Some? ==> 2 < r.value <= |s|
  {
    if s == [] || s[0] != '<' then None
    else
      match FindChar(s, '>', 1)
      case Some(g) => if g > 1 then Some(g + 1) else None
      case None => None
  }

  /** `s.replace(/<[^>]+>/g, '')`. */
  function StripTags(s: String): (r: String)
    ensures |r| <= |s|
    decreases |s|
  {
    if s == [] then []
    else
      match TagLength(s)
      case Some(n) => StripTags(s[n..])
      case None => [s[0]] + StripTags(s[1..])
  }

  /** Neither a block nor a tag can start anywhere but at a `<`. */
  lemma NoRemovalWithoutAngle(s: String, name: String)
    requires s != [] && s[0] != '<'
    ensures BlockLength(s, name).None? && TagLength(s).None?
  {
    var open := "<" + name;
    if |open| <= |s| {
      assert Lower(s[..|open|])[0] == LowerChar(s[0]) != '<';
    }
  }

  /** Text without `<` holds no block: the removal leaves it alone. */
  lemma {:induction false} RemoveBlocksKeepsPlainText(s: String, name: String)
    requires forall k :: 0 <= k < |s| ==> s[k] != '<'
    ensures RemoveBlocks(s, name) == s
  {
    if s != [] {
      NoRemovalWithoutAngle(s, name);
      RemoveBlocksKeepsPlainText(s[1..], name);
      assert s == [s[0]] + s[1..];
    }
  }

  /** A name for `RemoveBlocks`: no upper-case letter and no `<` in it. */
  predicate PlainName(name: String) {
    forall k :: 0 <= k < |name| ==> !('A' <= name[k] <= 'Z') && name[k] != '<'
  }

  lemma LowerOfLowerCase(x: String)
    requires forall k :: 0 <= k < |x| ==> !('A' <= x[k] <= 'Z')
    ensures Lower(x) == x
  {
  }

  /**
   * A closing tag cannot start inside the last `|close| - 1` characters before
   * a `<`: the `<` would have to be one of the tag's later characters.
   */
  lemma NoCloseAcrossAngle(t: String, k: nat, c: nat, name: String)
    requires PlainName(name) && k < c < |t| && t[c] == '<' && c < k + |name| + 3
    ensures !StartsWithIgnoringCase(t[k..], "</" + name + ">")
  {
    var close := "</" + name + ">";
    if |close| <= |t[k..]| {
      assert Lower(t[k..][..|close|])[c - k] == '<';
    }
  }

  /** No closing tag starts inside `inner` when `inner` holds none and a `<` follows it. */
  lemma NoCloseInInner(inner: String, tail: String, name: String)
    requires PlainName(name) && tail != [] && tail[0] == '<'
    requires forall k :: 0 <= k && k + |name| + 3 <= |inner| ==> !StartsWithIgnoringCase(inner[k..], "</" + name + ">")
    ensures forall k :: 0 <= k < |inner| ==> !StartsWithIgnoringCase((inner + tail)[k..], "</" + name + ">")
  {
    var close := "</" + name + ">";
    var t := inner + tail;
    forall k | 0 <= k < |inner|
      ensures !StartsWithIgnoringCase(t[k..], close)
    {
      if k + |close| <= |inner| {
        CloseWithinInner(inner, tail, k, close);
      } else {
        NoCloseAcrossAngle(t, k, |inner|, name);
      }
    }
  }

  /** Where a closing tag fits inside `inner`, `inner + tail` holds it only if `inner` does. */
  lemma CloseWithinInner(inner: String, tail: String, k: nat, close: String)
    requires k + |close| <= |inner|
    ensures StartsWithIgnoringCase((inner + tail)[k..], close) == StartsWithIgnoringCase(inner[k..], close)
  {
    assert (inner + tail)[k..][..|close|] == inner[k..][..|close|];
  }

  /** The text of a block: its opening tag `<NAME…>`, its content and its closing tag `</NAME>`. */
  function Block(name: String, attrs: String, inner: String): String {
    "<" + name + attrs + ">" + inner + "</" + name + ">"
  }

  /**
   * The block `<NAME…>…</NAME>` is as long as it is written: its opening tag
   * runs to the first `>`, and it ends at the first closing tag, which may be
   * in any letter case.
   */
  lemma BlockLengthOfBlock(name: String, attrs: String, inner: String, rest: String)
    requires PlainName(name) && '>' !in attrs
    requires forall k :: 0 <= k && k + |name| + 3 <= |inner| ==> !StartsWithIgnoringCase(inner[k..], "</" + name + ">")
    ensures BlockLength(Block(name, attrs, inner) + rest, name) == Some(|Block(name, attrs, inner)|)
  {
    var s := Block(name, attrs, inner) + rest;
    var g, c := |name| + 1 + |attrs|, |name| + 2 + |attrs| + |inner|;
    BlockSteps(s, name, attrs, inner, rest);
    BlockLengthFrom(s, name, g, c);
  }

  /** The two searches `BlockLength` makes, on a block followed by `rest`. */
  lemma BlockSteps(s: String, name: String, attrs: String, inner: String, rest: String)
    requires PlainName(name) && '>' !in attrs
    requires forall k :: 0 <= k && k + |name| + 3 <= |inner| ==> !StartsWithIgnoringCase(inner[k..], "</" + name + ">")
    requires s == Block(name, attrs, inner) + rest
    ensures StartsWithIgnoringCase(s, "<" + name)
    ensures FindChar(s, '>', |name| + 1) == Some(|name| + 1 + |attrs|)
    ensures ClosesAt(s, "</" + name + ">", |name| + 2 + |attrs| + |inner|)
    ensures forall k: nat :: |name| + 2 + |attrs| <= k < |name| + 2 + |attrs| + |inner| ==> !ClosesAt(s, "</" + name + ">", k)
  {
    var open := "<" + name;
    var g := |open| + |attrs|;
    assert s[..|open|] == open && s[|open|..g] == attrs && s[g] == '>' by {
      BlockOpeningSlices(s, name, attrs, inner, rest);
    }
    OpeningOfBlock(s, name, attrs);
    assert s[g + 1..] == inner + "</" + name + ">" + rest by {
      BlockClosingSlice(s, name, attrs, inner, rest);
    }
    ClosingOfBlock(s, name, g + 1, inner, rest);
  }

  lemma BlockOpeningSlices(s: String, name: String, attrs: String, inner: String, rest: String)
    requires s == Block(name, attrs, inner) + rest
    ensures var g := |name| + 1 + |attrs|;
      g < |s| && s[..|name| + 1] == "<" + name && s[|name| + 1..g] == attrs && s[g] == '>'
  {
  }

  lemma BlockClosingSlice(s: String, name: String, attrs: String, inner: String, rest: String)
    requires s == Block(name, attrs, inner) + rest
    ensures |name| + 2 + |attrs| <= |s| && s[|name| + 2 + |attrs|..] == inner + "</" + name + ">" + rest
  {
    var close := "</" + name + ">";
    assert s == ("<" + name + attrs + ">") + (inner + close + rest);
  }

  /** The opening tag `<NAME…>` of a block is found, up to its first `>`. */
  lemma OpeningOfBlock(s: String, name: String, attrs: String)
    requires PlainName(name) && '>' !in attrs
    requires |name| + 1 + |attrs| < |s|
    requires s[..|name| + 1] == "<" + name && s[|name| + 1..|name| + 1 + |attrs|] == attrs
    requires s[|name| + 1 + |attrs|] == '>'
    ensures StartsWithIgnoringCase(s, "<" + name)
    ensures FindChar(s, '>', |name| + 1) == Some(|name| + 1 + |attrs|)
  {
    OpeningTagName(s, name);
    OpeningTagEnd(s, |name| + 1, attrs);
  }

  lemma OpeningTagName(s: String, name: String)
    requires PlainName(name) && |name| + 1 <= |s| && s[..|name| + 1] == "<" + name
    ensures StartsWithIgnoringCase(s, "<" + name)
  {
    LowerOfLowerCase("<" + name);
  }

  lemma OpeningTagEnd(s: String, from: nat, attrs: String)
    requires '>' !in attrs && from + |attrs| < |s|
    requires s[from..from + |attrs|] == attrs && s[from + |attrs|] == '>'
    ensures FindChar(s, '>', from) == Some(from + |attrs|)
  {
    assert forall k :: from <= k < from + |attrs| ==> s[k] == attrs[k - from];
    FindCharIsLeast(s, '>', from, from + |attrs|);
  }


  /** After the opening tag, the first closing tag is the one right after `inner`. */
  lemma ClosingOfBlock(s: String, name: String, from: nat, inner: String, rest: String)
    requires PlainName(name) && from <= |s|
    requires forall k :: 0 <= k && k + |name| + 3 <= |inner| ==> !StartsWithIgnoringCase(inner[k..], "</" + name + ">")
    requires s[from..] == inner + "</" + name + ">" + rest
    ensures ClosesAt(s, "</" + name + ">", from + |inner|)
    ensures forall k: nat :: from <= k < from + |inner| ==> !ClosesAt(s, "</" + name + ">", k)
  {
    var close := "</" + name + ">";
    var c := from + |inner|;
    var tail := close + rest;
    var t := inner + tail;
    assert s[from..] == t;
    LowerOfLowerCase(close);
    assert s[c..][..|close|] == close;
    NoCloseInInner(inner, tail, name);
    forall k: nat | from <= k < c
      ensures !ClosesAt(s, close, k)
    {
      assert s[k..] == t[k - from..];
    }
  }

  /** `BlockLength` read off its steps: the opening tag, its `>`, the first closing tag after it. */
  lemma BlockLengthFrom(s: String, name: String, g: nat, c: nat)
    requires StartsWithIgnoringCase(s, "<" + name)
    requires FindChar(s, '>', |name| + 1) == Some(g)
    requires g < c && ClosesAt(s, "</" + name + ">", c)
    requires forall k: nat :: g + 1 <= k < c ==> !ClosesAt(s, "</" + name + ">", k)
    ensures BlockLength(s, name) == Some(c + |name| + 3)
  {
    FirstClose(s, "</" + name + ">", g + 1, c);
  }

  /** The search for the closing tag stops at the first one. */
  lemma FirstClose(s: String, close: String, from: nat, c: nat)
    requires from <= c && ClosesAt(s, close, c)
    requires forall k: nat :: from <= k < c ==> !ClosesAt(s, close, k)
    ensures FirstMatch(from, |s| + 1, (k: nat) => ClosesAt(s, close, k)) == Some(c)
  {
    FirstMatchIsLeast(from, |s| + 1, (k: nat) => ClosesAt(s, close, k), c);
  }

  /**
   * A whole block `<NAME…>…</NAME>` goes, opening tag, content and closing tag,
   * and nothing that follows it is touched on its account.
   */
  lemma RemoveBlocksDropsBlock(name: String, attrs: String, inner: String, rest: String)
    requires PlainName(name) && '>' !in attrs
    requires forall k :: 0 <= k && k + |name| + 3 <= |inner| ==> !StartsWithIgnoringCase(inner[k..], "</" + name + ">")
    ensures RemoveBlocks(Block(name, attrs, inner) + rest, name) == RemoveBlocks(rest, name)
  {
    var block := Block(name, attrs, inner);
    BlockLengthOfBlock(name, attrs, inner, rest);
    assert (block + rest)[|block|..] == rest;
  }

  /** Text without `<` holds no tag: the removal leaves it alone. */
  lemma {:induction false} StripTagsKeepsPlainText(s: String)
    requires forall k :: 0 <= k < |s| ==> s[k] != '<'
    ensures StripTags(s) == s
  {
    if s != [] {
      NoRemovalWithoutAngle(s, "");
      StripTagsKeepsPlainText(s[1..]);
      assert s == [s[0]] + s[1..];
    }
  }

  /** A tag is removed whole, whatever follows it. */
  lemma StripTagsRemovesTag(inside: String, rest: String)
    requires inside != [] && '>' !in inside
    ensures StripTags("<" + inside + ">" + rest) == StripTags(rest)
  {
    var s := "<" + inside + ">" + rest;
    var g := 1 + |inside|;
    assert s[1..g] == inside;
    FindCharIsLeast(s, '>', 1, g);
    assert s[g + 1..] == rest;
  }

  /** Whitespace at the start of `s` dropped. */
  function DropWhitespace(s: String): (r: String)
    ensures |r| <= |s| && r == s[|s| - |r|..]
    ensures r != [] ==> !IsWhitespace(r[0])
  {
    if s != [] && IsWhitespace(s[0]) then DropWhitespace(s[1..]) else s
  }

  /** `s.replace(/\s+/g, ' ')`: every run of whitespace becomes a single space. */
  function CollapseWhitespace(s: String): (r: String)
    decreases |s|
    ensures |r| <= |s|
    ensures r != [] <==> s != []
    ensures r != [] ==> (r[0] == ' ' <==> IsWhitespace(s[0]))
    ensures forall k :: 0 <= k < |r| && IsWhitespace(r[k]) ==> r[k] == ' '
    ensures forall k :: 0 <= k < |r| - 1 ==> !(r[k] == ' ' && r[k + 1] == ' ')
  {
    if s == [] then []
    else if IsWhitespace(s[0]) then
      var t := DropWhitespace(s[1..]);
      var c := CollapseWhitespace(t);
      ConsKeepsSpacing(' ', c);
      [' '] + c
    else
      var c := CollapseWhitespace(s[1..]);
      ConsKeepsSpacing(s[0], c);
      [s[0]] + c
  }

  /** Putting a character in front keeps single spacing unless it makes two spaces in a row. */
  lemma ConsKeepsSpacing(x: char, c: String)
    requires IsWhitespace(x) ==> x == ' '
    requires x == ' ' ==> c == [] || c[0] != ' '
    requires forall k :: 0 <= k < |c| && IsWhitespace(c[k]) ==> c[k] == ' '
    requires forall k :: 0 <= k < |c| - 1 ==> !(c[k] == ' ' && c[k + 1] == ' ')
    ensures var r := [x] + c;
      && (forall k :: 0 <= k < |r| && IsWhitespace(r[k]) ==> r[k] == ' ')
      && (forall k :: 0 <= k < |r| - 1 ==> !(r[k] == ' ' && r[k + 1] == ' '))
  {
    var r := [x] + c;
    forall k | 0 <= k < |r| - 1 ensures !(r[k] == ' ' && r[k + 1] == ' ') {
      if k > 0 {
        assert r[k] == c[k - 1] && r[k + 1] == c[k];
      }
    }
  }

  /** The characters of `s` that are not whitespace, in order. */
  function NonWhitespace(s: String): (r: String)
    ensures forall k :: 0 <= k < |r| ==> !IsWhitespace(r[k])
  {
    if s == [] then []
    else (if IsWhitespace(s[0]) then [] else [s[0]]) + NonWhitespace(s[1..])
  }

  lemma NonWhitespaceCons(c: char, t: String)
    ensures NonWhitespace([c] + t) == (if IsWhitespace(c) then [] else [c]) + NonWhitespace(t)
  {
    assert ([c] + t)[1..] == t;
  }

  lemma {:induction false} DropWhitespaceKeepsWords(s: String)
    ensures NonWhitespace(DropWhitespace(s)) == NonWhitespace(s)
    decreases |s|
  {
    if s != [] && IsWhitespace(s[0]) {
      DropWhitespaceKeepsWords(s[1..]);
    }
  }

  /** Collapsing whitespace keeps every other character, in order. */
  lemma {:induction false} CollapseKeepsWords(s: String)
    ensures NonWhitespace(CollapseWhitespace(s)) == NonWhitespace(s)
    decreases |s|
  {
    if s != [] {
      if IsWhitespace(s[0]) {
        var t := DropWhitespace(s[1..]);
        CollapseKeepsWords(t);
        DropWhitespaceKeepsWords(s[1..]);
        NonWhitespaceCons(' ', CollapseWhitespace(t));
      } else {
        CollapseKeepsWords(s[1..]);
        NonWhitespaceCons(s[0], CollapseWhitespace(s[1..]));
      }
    }
  }

  lemma {:induction false} DropWhitespaceRun(w: String, b: String)
    requires forall k :: 0 <= k < |w| ==> IsWhitespace(w[k])
    requires b == [] || !IsWhitespace(b[0])
    ensures DropWhitespace(w + b) == b
    decreases |w|
  {
    if w == [] {
      assert w + b == b;
    } else {
      assert (w + b)[1..] == w[1..] + b;
      DropWhitespaceRun(w[1..], b);
    }
  }

  /** A whole run of whitespace, whatever its characters, becomes one space. */
  lemma CollapseRun(w: String, b: String)
    requires w != [] && forall k :: 0 <= k < |w| ==> IsWhitespace(w[k])
    requires b == [] || !IsWhitespace(b[0])
    ensures CollapseWhitespace(w + b) == " " + CollapseWhitespace(b)
  {
    assert (w + b)[0] == w[0];
    assert (w + b)[1..] == w[1..] + b;
    DropWhitespaceRun(w[1..], b);
  }

  /** Single-spaced text: no whitespace but a space, never two spaces in a row, none at either end. */
  predicate SingleSpaced(s: String) {
    && (forall k :: 0 <= k < |s| && IsWhitespace(s[k]) ==> s[k] == ' ')
    && (forall k :: 0 <= k < |s| - 1 ==> !(s[k] == ' ' && s[k + 1] == ' '))
    && (s != [] ==> s[0] != ' ' && s[|s| - 1] != ' ')
  }

  /** A slice of text with single spaces between words has single spaces between words. */
  lemma SliceKeepsSpacing(c: String, i: nat, n: nat)
    requires i + n <= |c|
    requires forall k :: 0 <= k < |c| && IsWhitespace(c[k]) ==> c[k] == ' '
    requires forall k :: 0 <= k < |c| - 1 ==> !(c[k] == ' ' && c[k + 1] == ' ')
    ensures var r := c[i..i + n];
      && (forall k :: 0 <= k < |r| && IsWhitespace(r[k]) ==> r[k] == ' ')
      && (forall k :: 0 <= k < |r| - 1 ==> !(r[k] == ' ' && r[k + 1] == ' '))
  {
    var r := c[i..i + n];
    forall k | 0 <= k < |r| - 1 ensures !(r[k] == ' ' && r[k + 1] == ' ') {
      assert r[k] == c[i + k] && r[k + 1] == c[i + k + 1];
    }
  }

  /**
   * The cleaned text of a body: scripts, styles and tags removed, whitespace
   * collapsed, trimmed. The result is single-spaced.
   */
  function CleanText(body: String): (r: String)
    ensures |r| <= |body|
    ensures SingleSpaced(r)
  {
    var collapsed := CollapseWhitespace(StripTags(RemoveBlocks(RemoveBlocks(body, "script"), "style")));
    TrimKeepsSpacing(collapsed);
    Trim(collapsed)
  }

  /** Trimming text whose whitespace is single spaces leaves it single-spaced. */
  lemma TrimKeepsSpacing(c: String)
    requires forall k :: 0 <= k < |c| && IsWhitespace(c[k]) ==> c[k] == ' '
    requires forall k :: 0 <= k < |c| - 1 ==> !(c[k] == ' ' && c[k + 1] == ' ')
    ensures |Trim(c)| <= |c| && SingleSpaced(Trim(c))
  {
    var a := SkipWhitespace(c, 0);
    var b := SkipWhitespaceBack(c, a, |c|);
    assert Trim(c) == c[a..a + (b - a)];
    SliceKeepsSpacing(c, a, b - a);
    TrimKeepsSpaces(c);
  }

  /** A script block leaves no trace in the cleaned text. */
  lemma CleanTextDropsScript(attrs: String, inner: String, rest: String)
    requires '>' !in attrs
    requires forall k :: 0 <= k && k + 9 <= |inner| ==> !StartsWithIgnoringCase(inner[k..], "</script>")
    ensures CleanText(Block("script", attrs, inner) + rest) == CleanText(rest)
  {
    assert PlainName("script");
    assert "</" + "script" + ">" == "</script>";
    RemoveBlocksDropsBlock("script", attrs, inner, rest);
  }

  /** Plain words separated by single spaces come through the cleanup unchanged. */
  lemma CleanTextKeepsPlainText(s: String)
    requires SingleSpaced(s)
    requires forall k :: 0 <= k < |s| ==> s[k] != '<'
    ensures CleanText(s) == s
  {
    RemoveBlocksKeepsPlainText(s, "script");
    RemoveBlocksKeepsPlainText(s, "style");
    StripTagsKeepsPlainText(s);
    CollapseKeepsSingleSpaced(s);
    TrimKeepsTrimmed(s);
  }

  lemma CollapseKeepsSingleSpaced(s: String)
    requires forall k :: 0 <= k < |s| && IsWhitespace(s[k]) ==> s[k] == ' '
    requires forall k :: 0 <= k < |s| - 1 ==> !(s[k] == ' ' && s[k + 1] == ' ')
    ensures CollapseWhitespace(s) == s
  {
    CollapseKeepsSuffix(s, 0);
    assert s[0..] == s;
  }

  lemma {:induction false} CollapseKeepsSuffix(s: String, i: nat)
    requires i <= |s|
    requires forall k :: 0 <= k < |s| && IsWhitespace(s[k]) ==> s[k] == ' '
    requires forall k :: 0 <= k < |s| - 1 ==> !(s[k] == ' ' && s[k + 1] == ' ')
    ensures CollapseWhitespace(s[i..]) == s[i..]
    decreases |s| - i
  {
    if i < |s| {
      CollapseKeepsSuffix(s, i + 1);
      var t := s[i..];
      assert t[0] == s[i] && t[1..] == s[i + 1..];
      if IsWhitespace(s[i]) {
        assert i + 1 < |s| ==> s[i + 1] != ' ' && !IsWhitespace(s[i + 1]);
        assert DropWhitespace(s[i + 1..]) == s[i + 1..];
      }
      assert t == [s[i]] + s[i + 1..];
    }
  }

  /**
   * `contentLimit && body.replace(…)….trim() || ''`: no text at all when the
   * limit is 0.
   */
  function AllContent(body: String, contentLimit: nat): (r: String)
    ensures contentLimit == 0 ==> r == []
    ensures contentLimit > 0 ==> r == CleanText(body)
  {
    if contentLimit == 0 then [] else CleanText(body)
  }

  // ---------------------------------------------------------------- windows

  /** A search window: the text a term's padded pattern matched, at its position in the content. */
  datatype Window = Window(start: nat, text: String)

  function End(w: Window): nat {
    w.start + |w.text|
  }

  /** The window was found in `all`: its text is the text at its position. */
  predicate FoundIn(all: String, w: Window) {
    OccursAt(all, w.text, w.start)
  }

  function Max(a: nat, b: nat): nat {
    if a < b then b else a
  }

  /** `text.slice(k)` for a non-negative `k`. */
  function Drop(text: String, k: nat): (r: String)
    ensures k < |text| ==> r == text[k..]
    ensures k >= |text| ==> r == []
  {
    if k < |text| then text[k..] else []
  }

  /**
   * What the loop appends for window `w` when the content so far reaches
   * `next`: the whole window when it starts at or after `next`, otherwise the
   * part of it that lies beyond `next`.
   */
  function Appended(next: nat, w: Window): String {
    if w.start >= next then w.text else Drop(w.text, next - w.start)
  }

  datatype Merge = Merge(content: String, next: nat)

  /**
   * The merge as written: after each window, `nextMinIndex` is set to that
   * window's end, so a window nested in an earlier one moves it backwards.
   */
  function MergeAsWritten(ws: seq<Window>): Merge {
    if ws == [] then Merge([], 0)
    else
      var m := MergeAsWritten(ws[..|ws| - 1]);
      var w := ws[|ws| - 1];
      Merge(m.content + Appended(m.next, w), End(w))
  }

  /** The total length of the windows' texts. */
  function SumLengths(ws: seq<Window>): nat {
    if ws == [] then 0 else SumLengths(ws[..|ws| - 1]) + |ws[|ws| - 1].text|
  }

  /** Even as written, the merge returns no more than the windows hold together. */
  lemma {:induction false} AsWrittenWithinWindows(ws: seq<Window>)
    ensures |MergeAsWritten(ws).content| <= SumLengths(ws)
  {
    if ws != [] {
      AsWrittenWithinWindows(ws[..|ws| - 1]);
    }
  }

  /** The merge as intended: `nextMinIndex` only ever moves forward, to the furthest end seen. */
  function Merged(ws: seq<Window>): Merge {
    if ws == [] then Merge([], 0)
    else
      var m := Merged(ws[..|ws| - 1]);
      var w := ws[|ws| - 1];
      Merge(m.content + Appended(m.next, w), Max(m.next, End(w)))
  }

  /**
   * The loop over the sorted windows, with `nextMinIndex` kept at the furthest
   * end seen so far.
   */
  method MergeWindows(matches: seq<Window>) returns (content: String)
    ensures content == Merged(matches).content
  {
    content := [];
    var nextMinIndex: nat := 0;
    for i := 0 to |matches|
      invariant Merged(matches[..i]) == Merge(content, nextMinIndex)
    {
      var w := matches[i];
      if w.start >= nextMinIndex {
        content := content + w.text;
      } else {
        content := content + Drop(w.text, nextMinIndex - w.start);
      }
      nextMinIndex := Max(nextMinIndex, w.start + |w.text|);
      assert matches[..i + 1][..i] == matches[..i];
    }
    assert matches[..|matches|] == matches;
  }

  /** The positions from `a` up to, not including, `b`. */
  function Range(a: nat, b: nat): (r: seq<nat>)
    ensures |r| == (if a < b then b - a else 0)
    ensures forall k :: 0 <= k < |r| ==> r[k] == a + k
  {
    seq(if a < b then b - a else 0, k requires 0 <= k => a + k)
  }

  /** The positions in the content that the merged text was taken from, in the order it was taken. */
  ghost function Positions(ws: seq<Window>): seq<nat> {
    if ws == [] then []
    else
      var m := Merged(ws[..|ws| - 1]);
      var w := ws[|ws| - 1];
      Positions(ws[..|ws| - 1]) + Range(Max(w.start, m.next), End(w))
  }

  /** Some window spans position `p`. */
  ghost predicate Covered(ws: seq<Window>, p: nat) {
    exists j :: 0 <= j < |ws| && ws[j].start <= p < End(ws[j])
  }

  /** The windows in order of position, as the sort by `index` leaves them. */
  ghost predicate StartsInOrder(ws: seq<Window>) {
    forall i, j :: 0 <= i < j < |ws| ==> ws[i].start <= ws[j].start
  }

  /** `nextMinIndex` is the furthest end of the windows merged so far. */
  lemma {:induction false} MergedNextIsFurthestEnd(ws: seq<Window>)
    ensures forall j :: 0 <= j < |ws| ==> End(ws[j]) <= Merged(ws).next
    ensures ws == [] ==> Merged(ws).next == 0
    ensures ws != [] ==> exists j :: 0 <= j < |ws| && End(ws[j]) == Merged(ws).next
  {
    if ws != [] {
      var init := ws[..|ws| - 1];
      MergedNextIsFurthestEnd(init);
      assert forall j :: 0 <= j < |init| ==> ws[j] == init[j];
    }
  }

  /** What one window adds is the content at the positions it adds. */
  lemma AppendedIsContentAt(all: String, next: nat, w: Window)
    requires FoundIn(all, w)
    ensures var added, more := Appended(next, w), Range(Max(w.start, next), End(w));
      && |added| == |more|
      && forall k :: 0 <= k < |more| ==> more[k] < |all| && added[k] == all[more[k]]
  {
    var from := Max(w.start, next);
    var added, more := Appended(next, w), Range(from, End(w));
    assert forall k :: 0 <= k < |w.text| ==> w.text[k] == all[w.start + k];
    if w.start < next && next - w.start < |w.text| {
      assert forall k :: 0 <= k < |added| ==> added[k] == w.text[next - w.start + k];
    }
  }

  /**
   * Every character of the merged text is the character of the content at its
   * position.
   */
  lemma {:induction false} MergedIsContentAtPositions(all: String, ws: seq<Window>)
    requires forall j :: 0 <= j < |ws| ==> FoundIn(all, ws[j])
    ensures var m, ps := Merged(ws), Positions(ws);
      && |ps| == |m.content|
      && (forall k :: 0 <= k < |ps| ==> ps[k] < |all| && m.content[k] == all[ps[k]])
  {
    if ws != [] {
      var init, w := ws[..|ws| - 1], ws[|ws| - 1];
      assert forall j :: 0 <= j < |init| ==> init[j] == ws[j];
      MergedIsContentAtPositions(all, init);
      var m, ps := Merged(init), Positions(init);
      AppendedIsContentAt(all, m.next, w);
      var added, more := Appended(m.next, w), Range(Max(w.start, m.next), End(w));
      var m', ps' := Merged(ws), Positions(ws);
      assert m'.content == m.content + added && ps' == ps + more;
      forall k | 0 <= k < |ps'| ensures ps'[k] < |all| && m'.content[k] == all[ps'[k]] {
        if k >= |ps| {
          assert ps'[k] == more[k - |ps|] && m'.content[k] == added[k - |ps|];
        } else {
          assert ps'[k] == ps[k] && m'.content[k] == m.content[k];
        }
      }
    }
  }

  /**
   * The positions strictly increase and stay below `nextMinIndex`: no text is
   * taken twice, and the text keeps the content's order.
   */
  lemma {:induction false} MergedPositionsIncrease(ws: seq<Window>)
    ensures var ps := Positions(ws);
      && (forall k :: 0 <= k < |ps| ==> ps[k] < Merged(ws).next)
      && (forall k, l :: 0 <= k < l < |ps| ==> ps[k] < ps[l])
  {
    if ws != [] {
      var init, w := ws[..|ws| - 1], ws[|ws| - 1];
      MergedPositionsIncrease(init);
      assert forall k :: 0 <= k < |Positions(init)| ==> Positions(init)[k] < Merged(init).next;
      assert forall k, l :: 0 <= k < l < |Positions(init)| ==> Positions(init)[k] < Positions(init)[l];
      var ps, next := Positions(init), Merged(init).next;
      var more := Range(Max(w.start, next), End(w));
      var ps' := Positions(ws);
      assert ps' == ps + more;
      assert Merged(ws).next == Max(next, End(w));
      assert forall k :: 0 <= k < |more| ==> next <= more[k] < End(w);
      forall k | 0 <= k < |ps'| ensures ps'[k] < Merged(ws).next {
        if k < |ps| {
          assert ps'[k] == ps[k];
        } else {
          assert ps'[k] == more[k - |ps|];
        }
      }
      forall k, l | 0 <= k < l < |ps'| ensures ps'[k] < ps'[l] {
        if l < |ps| {
          assert ps'[k] == ps[k] && ps'[l] == ps[l];
        } else if k < |ps| {
          assert ps'[k] == ps[k] && ps'[l] == more[l - |ps|];
        } else {
          assert ps'[k] == more[k - |ps|] && ps'[l] == more[l - |ps|];
        }
      }
    }
  }

  /** Every position the merged text was taken from lies inside some window. */
  lemma {:induction false} MergedTakesOnlyCovered(ws: seq<Window>)
    ensures forall k :: 0 <= k < |Positions(ws)| ==> Covered(ws, Positions(ws)[k])
  {
    if ws != [] {
      var init, w := ws[..|ws| - 1], ws[|ws| - 1];
      MergedTakesOnlyCovered(init);
      var ps := Positions(init);
      var more := Range(Max(w.start, Merged(init).next), End(w));
      assert Positions(ws) == ps + more;
      forall k | 0 <= k < |Positions(ws)| ensures Covered(ws, Positions(ws)[k]) {
        if k < |ps| {
          var j :| 0 <= j < |init| && init[j].start <= ps[k] < End(init[j]);
          assert ws[j] == init[j];
        } else {
          assert ws[|ws| - 1].start <= more[k - |ps|] < End(ws[|ws| - 1]);
        }
      }
    }
  }

  /**
   * A position of a later window that lies before `nextMinIndex` is already
   * inside the earlier window that reaches furthest.
   */
  lemma SkippedIsCovered(init: seq<Window>, w: Window, p: nat)
    requires forall j :: 0 <= j < |init| ==> init[j].start <= w.start
    requires w.start <= p < Merged(init).next
    ensures Covered(init, p)
  {
    MergedNextIsFurthestEnd(init);
    var i :| 0 <= i < |init| && End(init[i]) == Merged(init).next;
  }

  /**
   * With the windows in order of position, every position inside some window
   * is taken: the merged text is exactly the text the windows span.
   */
  lemma {:induction false} MergedTakesAllCovered(ws: seq<Window>)
    requires StartsInOrder(ws)
    ensures forall p: nat :: Covered(ws, p) ==> p in Positions(ws)
  {
    if ws != [] {
      var init, w := ws[..|ws| - 1], ws[|ws| - 1];
      assert forall j :: 0 <= j < |init| ==> init[j] == ws[j];
      assert StartsInOrder(init);
      MergedTakesAllCovered(init);
      var ps := Positions(init);
      assert forall p: nat :: Covered(init, p) ==> p in Positions(init);
      var from := Max(w.start, Merged(init).next);
      var more := Range(from, End(w));
      assert Positions(ws) == ps + more;
      forall p: nat | Covered(ws, p) ensures p in Positions(ws) {
        var j :| 0 <= j < |ws| && ws[j].start <= p < End(ws[j]);
        if j < |init| {
          assert Covered(init, p);
          assert p in ps;
        } else if p >= from {
          assert more[p - from] == p;
        } else {
          SkippedIsCovered(init, w, p);
          assert p in ps;
        }
      }
    }
  }

  /**
   * While no window ends before an earlier one, the merge as written agrees
   * with the intended one: only a nested window sets it off.
   */
  lemma {:induction false} AsWrittenAgreesWithoutNesting(ws: seq<Window>)
    requires forall i, j :: 0 <= i < j < |ws| ==> End(ws[i]) <= End(ws[j])
    ensures MergeAsWritten(ws) == Merged(ws)
  {
    if ws != [] {
      var init := ws[..|ws| - 1];
      AsWrittenAgreesWithoutNesting(init);
      MergedNextIsFurthestEnd(init);
      if init != [] {
        var i :| 0 <= i < |init| && End(init[i]) == Merged(init).next;
        assert End(ws[i]) <= End(ws[|ws| - 1]);
      }
    }
  }

  /**
   * A window nested in an earlier one makes the merge as written repeat text:
   * the content "abcdefg" with windows "abcdef" at 0, "bcd" at 1 and "efg" at 4
   * comes out with "ef" twice, where the intended merge gives the content once.
   */
  lemma NestedWindowRepeatsText()
    ensures var ws := [Window(0, "abcdef"), Window(1, "bcd"), Window(4, "efg")];
      && (forall j :: 0 <= j < |ws| ==> FoundIn("abcdefg", ws[j]))
      && StartsInOrder(ws)
      && MergeAsWritten(ws).content == "abcdefefg"
      && Merged(ws).content == "abcdefg"
  {
    NestedWindowsInText();
    NestedAsWritten();
    NestedMerged();
  }

  lemma NestedWindowsInText()
    ensures var ws := [Window(0, "abcdef"), Window(1, "bcd"), Window(4, "efg")];
      && (forall j :: 0 <= j < |ws| ==> FoundIn("abcdefg", ws[j]))
      && StartsInOrder(ws)
  {
    var all := "abcdefg";
    assert all[0..6] == "abcdef" && all[1..4] == "bcd" && all[4..7] == "efg";
  }

  /** As written, the nested "bcd" pulls `nextMinIndex` back from 6 to 4, and "efg" is appended whole. */
  lemma NestedAsWritten()
    ensures MergeAsWritten([Window(0, "abcdef"), Window(1, "bcd"), Window(4, "efg")]).content == "abcdefefg"
  {
    var w0, w1, w2 := Window(0, "abcdef"), Window(1, "bcd"), Window(4, "efg");
    assert [w0, w1, w2][..2] == [w0, w1];
    assert [w0, w1][..1] == [w0];
    assert [w0][..0] == [];
    assert MergeAsWritten([w0]) == Merge("abcdef", 6);
    assert MergeAsWritten([w0, w1]) == Merge("abcdef", 4);
    assert "abcdef" + "efg" == "abcdefefg";
  }

  /** As intended, `nextMinIndex` stays at 6, so only the "g" of "efg" is new. */
  lemma NestedMerged()
    ensures Merged([Window(0, "abcdef"), Window(1, "bcd"), Window(4, "efg")]).content == "abcdefg"
  {
    var w0, w1, w2 := Window(0, "abcdef"), Window(1, "bcd"), Window(4, "efg");
    assert [w0, w1, w2][..2] == [w0, w1];
    assert [w0, w1][..1] == [w0];
    assert [w0][..0] == [];
    assert Merged([w0]) == Merge("abcdef", 6);
    assert Merged([w0, w1]) == Merge("abcdef", 6);
    assert Appended(6, w2) == "g";
    assert "abcdef" + "g" == "abcdefg";
  }

  // ---------------------------------------------------------------- selection

  /** Positions that strictly increase and stay below `n` number at most `n`. */
  lemma {:induction false} IncreasingBelowIsShort(ps: seq<nat>, n: nat)
    requires forall k :: 0 <= k < |ps| ==> ps[k] < n
    requires forall k, l :: 0 <= k < l < |ps| ==> ps[k] < ps[l]
    ensures |ps| <= n
  {
    if ps != [] {
      var last := ps[|ps| - 1];
      IncreasingBelowIsShort(ps[..|ps| - 1], last);
    }
  }

  /** `.filter(match => !!match)`: the terms that matched, in the order of the terms. */
  function Found(matches: seq<Option<Window>>): (r: seq<Window>)
    ensures forall i :: 0 <= i < |r| ==> Some(r[i]) in matches
    ensures forall i :: 0 <= i < |matches| && matches[i].Some? ==> matches[i].value in r
  {
    if matches == [] then []
    else
      var rest := Found(matches[1..]);
      assert forall i :: 0 <= i < |rest| ==> Some(rest[i]) in matches[1..];
      assert forall i :: 1 <= i < |matches| ==> matches[i] == matches[1..][i - 1];
      match matches[0]
      case Some(w) => [w] + rest
      case None => rest
  }

  function StartKey(w: Window): real {
    w.start as real
  }

  /** `.sort((a, b) => a.index - b.index)`: the windows that matched, in order of position. */
  function SortedWindows(matches: seq<Option<Window>>): seq<Window> {
    Sequences.SortBy(Found(matches), StartKey)
  }

  /** Sorting the windows keeps them found in the content and puts them in order of position. */
  lemma SortedWindowsInOrder(all: String, matches: seq<Option<Window>>)
    requires forall i :: 0 <= i < |matches| && matches[i].Some? ==> FoundIn(all, matches[i].value)
    ensures StartsInOrder(SortedWindows(matches))
    ensures forall j :: 0 <= j < |SortedWindows(matches)| ==> FoundIn(all, SortedWindows(matches)[j])
  {
    var ws := SortedWindows(matches);
    forall i, j | 0 <= i < j < |ws| ensures ws[i].start <= ws[j].start {
      assert StartKey(ws[i]) <= StartKey(ws[j]);
    }
    forall j | 0 <= j < |ws| ensures FoundIn(all, ws[j]) {
      assert ws[j] in Found(matches);
      var i :| 0 <= i < |matches| && matches[i] == Some(ws[j]);
    }
  }

  /** Sorting the windows does not change which positions they span. */
  lemma SortedWindowsCoverTheSame(matches: seq<Option<Window>>)
    ensures forall p: nat :: Covered(SortedWindows(matches), p) <==> Covered(Found(matches), p)
  {
    var found := Found(matches);
    var ws := SortedWindows(matches);
    Sequences.MultisetMembers(ws, found);
    forall p: nat ensures Covered(ws, p) <==> Covered(found, p) {
      if Covered(ws, p) {
        CoveredByMembers(ws, found, p);
      }
      if Covered(found, p) {
        CoveredByMembers(found, ws, p);
      }
    }
  }

  /** A position that one list of windows spans is spanned by any list holding all of its windows. */
  lemma CoveredByMembers(a: seq<Window>, b: seq<Window>, p: nat)
    requires forall x :: x in a ==> x in b
    requires Covered(a, p)
    ensures Covered(b, p)
  {
    var j :| 0 <= j < |a| && a[j].start <= p < End(a[j]);
    assert a[j] in b;
    var i :| 0 <= i < |b| && b[i] == a[j];
  }

  function Min(a: nat, b: nat): nat {
    if a < b then a else b
  }

  /**
   * The content returned: with search terms and more text than the limit, the
   * merged windows around the terms' matches (`matches[i]` being the first
   * match of the i-th term's padded pattern); otherwise the text cut to the limit.
   */
  function SelectContent(all: String, contentLimit: nat, terms: seq<String>, matches: seq<Option<Window>>)
    : (r: String)
    requires forall i :: 0 <= i < |matches| && matches[i].Some? ==> FoundIn(all, matches[i].value)
    ensures |r| <= |all|
    ensures |terms| == 0 || contentLimit >= |all| ==> |r| == Min(contentLimit, |all|) && r <= all
  {
    if |terms| > 0 && contentLimit < |all| then
      var ws := SortedWindows(matches);
      SortedWindowsInOrder(all, matches);
      MergedIsContentAtPositions(all, ws);
      MergedPositionsIncrease(ws);
      IncreasingBelowIsShort(Positions(ws), |all|);
      Merged(ws).content
    else
      all[..Min(contentLimit, |all|)]
  }

  /**
   * With search terms and more text than the limit, the content is exactly the
   * text the matched windows span: character by character the text at
   * strictly increasing positions, each inside a window, and every position
   * inside a window among them.
   */
  lemma SelectContentIsWindowText(all: String, contentLimit: nat, terms: seq<String>, matches: seq<Option<Window>>)
    requires forall i :: 0 <= i < |matches| && matches[i].Some? ==> FoundIn(all, matches[i].value)
    requires |terms| > 0 && contentLimit < |all|
    ensures var r, ps := SelectContent(all, contentLimit, terms, matches), Positions(SortedWindows(matches));
      && |ps| == |r|
      && (forall k :: 0 <= k < |ps| ==> ps[k] < |all| && r[k] == all[ps[k]])
      && (forall k, l :: 0 <= k < l < |ps| ==> ps[k] < ps[l])
      && (forall k :: 0 <= k < |ps| ==> Covered(Found(matches), ps[k]))
      && (forall p: nat :: Covered(Found(matches), p) ==> p in ps)
  {
    var ws := SortedWindows(matches);
    SortedWindowsInOrder(all, matches);
    SortedWindowsCoverTheSame(matches);
    MergedIsContentAtPositions(all, ws);
    MergedPositionsIncrease(ws);
    MergedTakesOnlyCovered(ws);
    MergedTakesAllCovered(ws);
  }

  /**
   * As written, the merge can return more text than the page has: the nested
   * windows of `NestedWindowRepeatsText` yield 9 characters from 7.
   */
  lemma AsWrittenCanExceedContent()
    ensures var all := "abcdefg";
            var ws := [Window(0, "abcdef"), Window(1, "bcd"), Window(4, "efg")];
      && (forall j :: 0 <= j < |ws| ==> FoundIn(all, ws[j]))
      && |MergeAsWritten(ws).content| > |all|
  {
    NestedWindowRepeatsText();
  }

  // ---------------------------------------------------------------- padded match

  /** `term` occurs at `q`, compared case-insensitively (the `i` flag). */
  predicate TermAt(all: String, term: String, q: nat) {
    q + |term| <= |all| && Lower(all[q..q + |term|]) == Lower(term)
  }

  /** No line terminator in `all[a..b]`: `.` can run over the whole stretch. */
  predicate Dottable(all: String, a: nat, b: nat) {
    forall k :: a <= k < b && k < |all| ==> !IsLineTerminator(all[k])
  }

  /** From `p`, `a` characters of leading padding (at most `pad`) and then the term. */
  predicate LeadAt(all: String, term: String, pad: nat, p: nat, a: nat) {
    a <= pad && Dottable(all, p, p + a) && TermAt(all, term, p + a)
  }

  /** `.{0,pad}TERM` can match starting at `p`. */
  predicate MatchesFrom(all: String, term: String, pad: nat, p: nat) {
    exists a :: 0 <= a <= pad && LeadAt(all, term, pad, p, a)
  }

  /** The leading padding the greedy `.{0,pad}` keeps at `p`: the longest that still lets the term follow. */
  function Lead(all: String, term: String, pad: nat, p: nat): (r: Option<nat>)
    ensures r.Some? ==> LeadAt(all, term, pad, p, r.value) && forall a :: r.value < a <= pad ==> !LeadAt(all, term, pad, p, a)
    ensures r.None? <==> !MatchesFrom(all, term, pad, p)
  {
    var lead := (a: nat) => LeadAt(all, term, pad, p, a);
    assert forall a: nat :: lead(a) == LeadAt(all, term, pad, p, a);
    LastMatch(pad + 1, lead)
  }

  /** The trailing padding the greedy `.{0,pad}` takes from `e`: as much as the text allows. */
  function Trail(all: String, pad: nat, e: nat): (r: nat)
    requires e <= |all|
    ensures r <= pad && e + r <= |all| && Dottable(all, e, e + r)
    ensures r == pad || e + r == |all| || IsLineTerminator(all[e + r])
  {
    var fits := (t: nat) => e + t <= |all| && Dottable(all, e, e + t);
    assert forall t: nat :: fits(t) == (e + t <= |all| && Dottable(all, e, e + t));
    assert fits(0);
    var r := LastMatch(pad + 1, fits).value;
    assert r < pad && e + r < |all| ==> !fits(r + 1);
    r
  }

  /**
   * `new RegExp(padding + term + padding, 'gi').exec(all)` for a term without
   * regex metacharacters and a whole-number `padding` of `.{0,pad}`: the
   * leftmost position where the term can follow at most `pad` characters, and
   * the text from there through the greedy paddings.
   */
  function PaddedMatch(all: String, term: String, pad: nat): (r: Option<Window>)
    ensures r.Some? ==> FoundIn(all, r.value)
    ensures r.Some? ==> MatchesFrom(all, term, pad, r.value.start)
    ensures r.Some? ==> forall p: nat :: p < r.value.start ==> !MatchesFrom(all, term, pad, p)
    ensures r.None? ==> forall p: nat :: p <= |all| ==> !MatchesFrom(all, term, pad, p)
    // the match spans the greedy leading padding, the term and the greedy trailing padding
    ensures r.Some? ==>
      var p := r.value.start;
      && Lead(all, term, pad, p).Some?
      && var e := p + Lead(all, term, pad, p).value + |term|;
         e <= |all| && r.value.text == all[p..e + Trail(all, pad, e)]
  {
    var from := (p: nat) => MatchesFrom(all, term, pad, p);
    assert forall p: nat :: from(p) == MatchesFrom(all, term, pad, p);
    match FirstMatch(0, |all| + 1, from)
    case None => None
    case Some(p) =>
      var a := Lead(all, term, pad, p).value;
      var e := p + a + |term|;
      var t := Trail(all, pad, e);
      Some(Window(p, all[p..e + t]))
  }

  /** The match is pinned down by its start, its leading padding and its trailing padding. */
  lemma PaddedMatchIs(all: String, term: String, pad: nat, p: nat, a: nat, t: nat)
    requires LeadAt(all, term, pad, p, a) && forall b :: a < b <= pad ==> !LeadAt(all, term, pad, p, b)
    requires forall q: nat, b :: q < p && 0 <= b <= pad ==> !LeadAt(all, term, pad, q, b)
    requires p + a + |term| + t <= |all| && t <= pad && Dottable(all, p + a + |term|, p + a + |term| + t)
    requires t == pad || p + a + |term| + t == |all| || IsLineTerminator(all[p + a + |term| + t])
    ensures PaddedMatch(all, term, pad) == Some(Window(p, all[p..p + a + |term| + t]))
  {
    assert MatchesFrom(all, term, pad, p);
    NoEarlierMatch(all, term, pad, p);
    var r := PaddedMatch(all, term, pad);
    assert r.Some? && r.value.start == p;
    LeadIs(all, term, pad, p, a);
    TrailIs(all, pad, p + a + |term|, t);
  }

  lemma NoEarlierMatch(all: String, term: String, pad: nat, p: nat)
    requires forall q: nat, b :: q < p && 0 <= b <= pad ==> !LeadAt(all, term, pad, q, b)
    ensures forall q: nat :: q < p ==> !MatchesFrom(all, term, pad, q)
  {
  }

  /** The greedy leading padding is the longest one the term can follow. */
  lemma LeadIs(all: String, term: String, pad: nat, p: nat, a: nat)
    requires LeadAt(all, term, pad, p, a) && forall b :: a < b <= pad ==> !LeadAt(all, term, pad, p, b)
    ensures Lead(all, term, pad, p) == Some(a)
  {
    assert MatchesFrom(all, term, pad, p);
  }

  /** The greedy trailing padding is the one that stops where `Trail` says it must. */
  lemma TrailIs(all: String, pad: nat, e: nat, t: nat)
    requires e + t <= |all| && t <= pad && Dottable(all, e, e + t)
    requires t == pad || e + t == |all| || IsLineTerminator(all[e + t])
    ensures Trail(all, pad, e) == t
  {
  }

  /**
   * The nested windows that set off the merge as written arise from real
   * search terms: "bcde", "c" and "f" over "abcdefg" with a content limit of 6
   * give a padding of 6 / (3 · 2) = 1 character and the windows "abcdef" at 0,
   * "bcd" at 1 and "efg" at 4.
   */
  lemma NestedWindowsFromTerms()
    ensures PaddedMatch("abcdefg", "bcde", 1) == Some(Window(0, "abcdef"))
    ensures PaddedMatch("abcdefg", "c", 1) == Some(Window(1, "bcd"))
    ensures PaddedMatch("abcdefg", "f", 1) == Some(Window(4, "efg"))
  {
    var all := "abcdefg";
    assert Dottable(all, 0, |all|);
    FirstWindowFromTerm(all);
    SecondWindowFromTerm(all);
    ThirdWindowFromTerm(all);
  }

  lemma FirstWindowFromTerm(all: String)
    requires all == "abcdefg"
    ensures PaddedMatch(all, "bcde", 1) == Some(Window(0, "abcdef"))
  {
    assert Lower(all[1..5]) == Lower("bcde");
    PaddedMatchIs(all, "bcde", 1, 0, 1, 1);
    assert all[0..6] == "abcdef";
  }

  lemma SecondWindowFromTerm(all: String)
    requires all == "abcdefg"
    ensures PaddedMatch(all, "c", 1) == Some(Window(1, "bcd"))
  {
    assert Lower(all[2..3]) == Lower("c");
    forall q: nat, b | q < 1 && 0 <= b <= 1 ensures !LeadAt(all, "c", 1, q, b) {
      assert Lower(all[q + b..q + b + 1])[0] == all[q + b] != 'c';
    }
    PaddedMatchIs(all, "c", 1, 1, 1, 1);
    assert all[1..4] == "bcd";
  }

  lemma ThirdWindowFromTerm(all: String)
    requires all == "abcdefg"
    ensures PaddedMatch(all, "f", 1) == Some(Window(4, "efg"))
  {
    assert Lower(all[5..6]) == Lower("f");
    forall q: nat, b | q < 4 && 0 <= b <= 1 ensures !LeadAt(all, "f", 1, q, b) {
      assert Lower(all[q + b..q + b + 1])[0] == all[q + b] != 'f';
    }
    PaddedMatchIs(all, "f", 1, 4, 1, 1);
    assert all[4..7] == "efg";
  }
}
