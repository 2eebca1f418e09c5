/**
 * The page sectioner: cuts `head` and `body` out of the fetched HTML with
 * `indexOf`, `lastIndexOf` and `substring`, and picks out the title and the
 * first h1, h2 and h3 with simple tag patterns.
 */
module Page {
  import opened Text

  datatype Sections = Sections(head: String, body: String)

  /** `/<body[^>]*>/` matches at `p`: `<body`, then a `>` somewhere after it. */
  predicate BodyTagAt(html: String, p: nat) {
    OccursAt(html, "<body", p) && '>' in html[p + 5..]
  }

  /** `html.match(/<body[^>]*>/)?.index`. */
  function BodyTagIndex(html: String): (r: Option<nat>)
    ensures r.Some? ==> BodyTagAt(html, r.value) && forall k: nat :: k < r.value ==> !BodyTagAt(html, k)
    ensures r.None? ==> forall k: nat :: !BodyTagAt(html, k)
  {
    var p := (k: nat) => BodyTagAt(html, k);
    assert forall k: nat :: p(k) == BodyTagAt(html, k);
    FirstMatch(0, |html| + 1, p)
  }

  /** The page cut into its head and its body. */
  function SplitPage(html: String): (r: Sections) {
    Sections(HeadOf(html), BodyOf(html))
  }

  /** `html.substring(html.indexOf("<head>"), html.indexOf("</head>") + 7)`. */
  function HeadOf(html: String): (r: String)
    ensures var h, e := IndexOf(html, "<head>"), IndexOf(html, "</head>");
      // the usual page: the head runs from the first <head> to the end of the first </head>
      && (h >= 0 && e >= h ==> r == html[h..e + 7] && StartsWith(r, "<head>") && r[|r| - 7..] == "</head>")
      // a </head> before the first <head>: the text between the two
      && (h >= 0 && e >= 0 && e + 7 <= h ==> r == html[e + 7..h])
      // only a </head>: the head runs from the start of the page
      && (h == -1 && e >= 0 ==> r == html[..e + 7])
      // only a <head>: the text between it and position 6, whichever comes first
      && (h >= 0 && e == -1 ==> r == if h <= 6 then html[h..6] else html[6..h])
      // no head tags at all: the first six characters pass for the head
      && (h == -1 && e == -1 ==> r == html[..Clamp(6, |html|)])
  {
    var h, e := IndexOf(html, "<head>"), IndexOf(html, "</head>");
    HeadBounds(html, h, e);
    Substring(html, h, e + 7)
  }

  /**
   * `html.substring(bodyTagIndex || 0, html.lastIndexOf("</body>") || html.length - 1)`.
   * Only a `</body>` at position 0 falls back to the length; a missing one (-1)
   * is kept, and `substring` then clamps it to 0 and swaps the bounds.
   */
  function BodyOf(html: String): (r: String)
    ensures var b, l := BodyTagIndex(html), LastIndexOf(html, "</body>");
      // the usual page: the body runs from the first <body…> tag up to the last </body>
      && (b.Some? && 0 < l && b.value <= l ==> r == html[b.value..l])
      // the last </body> before the <body…> tag: the text between the two
      && (b.Some? && 0 < l < b.value ==> r == html[l..b.value])
      // no <body…> tag: the body starts at the start of the page
      && (b.None? && 0 < l ==> r == html[..l])
      // no </body>: the body is what precedes the <body…> tag, so empty without one
      && (b.Some? && l == -1 ==> r == html[..b.value])
      && (b.None? && l == -1 ==> r == [])
      // a </body> only at position 0 is falsy: the body ends before the last character
      && (b.Some? && l == 0 ==> r == html[b.value..|html| - 1])
      && (b.None? && l == 0 ==> r == html[..|html| - 1])
  {
    var b, l := BodyTagIndex(html), LastIndexOf(html, "</body>");
    BodyBounds(html, b, l);
    Substring(html, if b.Some? then b.value else 0, if l != 0 then l else |html| - 1)
  }

  /** The head `substring` for an opening tag at `h` and a closing tag at `e` (-1 when missing). */
  lemma HeadBounds(html: String, h: int, e: int)
    requires h == -1 || OccursAt(html, "<head>", h)
    requires e == -1 || OccursAt(html, "</head>", e)
    ensures var sub := Substring(html, h, e + 7);
      && (h >= 0 && e >= h ==> sub == html[h..e + 7] && StartsWith(sub, "<head>") && sub[|sub| - 7..] == "</head>")
      && (h >= 0 && e >= 0 && e + 7 <= h ==> sub == html[e + 7..h])
      && (h == -1 && e >= 0 ==> sub == html[..e + 7])
      && (h >= 0 && e == -1 ==> sub == if h <= 6 then html[h..6] else html[6..h])
      && (h == -1 && e == -1 ==> sub == html[..Clamp(6, |html|)])
  {
    if h >= 0 && e >= h {
      var sub := html[h..e + 7];
      assert sub[..6] == html[h..h + 6];
      assert sub[|sub| - 7..] == html[e..e + 7];
    }
  }

  /** The body `substring` for a `<body…>` tag at `b` and a last `</body>` at `l` (-1 when missing). */
  lemma BodyBounds(html: String, b: Option<nat>, l: int)
    requires b.Some? ==> BodyTagAt(html, b.value)
    requires l == -1 || OccursAt(html, "</body>", l)
    ensures var sub := Substring(html, if b.Some? then b.value else 0, if l != 0 then l else |html| - 1);
      && (b.Some? && 0 < l && b.value <= l ==> sub == html[b.value..l])
      && (b.Some? && 0 < l < b.value ==> sub == html[l..b.value])
      && (b.None? && 0 < l ==> sub == html[..l])
      && (b.Some? && l == -1 ==> sub == html[..b.value])
      && (b.None? && l == -1 ==> sub == [])
      && (b.Some? && l == 0 ==> sub == html[b.value..|html| - 1])
      && (b.None? && l == 0 ==> sub == html[..|html| - 1])
  {
    if b.Some? {
      assert html[b.value + 5..] != [];
    }
  }

  /**
   * Where `/<open[^>]*>([^<]*)<close>/` (with `withAttributes`) or
   * `/<open>([^<]*)<close>/` matches at `p`: the captured text. The text runs
   * to the first `<` after the opening tag, and the closing tag must start there.
   */
  function TagTextAt(s: String, open: String, withAttributes: bool, close: String, p: nat): (r: Option<String>)
    ensures r.Some? ==> '<' !in r.value && OccursAt(s, open, p)
  {
    if !OccursAt(s, open, p) then None
    else
      var afterOpen := p + |open|;
      var textStart :=
        if withAttributes then
          match FindChar(s, '>', afterOpen)
          case Some(gt) => Some(gt + 1)
          case None => None
        else Some(afterOpen);
      if textStart.None? then None
      else
        match FindChar(s, '<', textStart.value)
        case Some(q) =>
          if OccursAt(s, close, q) then Some(s[textStart.value..q]) else None
        case None => None
  }

  /** `s.match(pattern)?.[1] || ""`: the text of the first match, or empty. */
  function FirstTagText(s: String, open: String, withAttributes: bool, close: String): (r: String)
    ensures '<' !in r
    // the leftmost match decides
    ensures forall p: nat ::
      && TagTextAt(s, open, withAttributes, close, p).Some?
      && (forall k: nat :: k < p ==> TagTextAt(s, open, withAttributes, close, k).None?)
      ==> r == TagTextAt(s, open, withAttributes, close, p).value
    // no match: empty
    ensures (forall p: nat :: TagTextAt(s, open, withAttributes, close, p).None?) ==> r == []
  {
    var at := (k: nat) => TagTextAt(s, open, withAttributes, close, k).Some?;
    assert forall k: nat :: at(k) == TagTextAt(s, open, withAttributes, close, k).Some?;
    match FirstMatch(0, |s| + 1, at)
    case Some(p) => TagTextAt(s, open, withAttributes, close, p).value
    case None => []
  }

  /** `head.match(/<title>([^<]*)<\/title>/)?.[1] || ""`. */
  function Title(head: String): String {
    FirstTagText(head, "<title>", false, "</title>")
  }

  /** `body.match(/<hN[^>]*>([^<]*)<\/hN>/)?.[1] || ""` for N = 1, 2, 3. */
  function Heading(body: String, level: char): String
    requires level in "123"
  {
    FirstTagText(body, "<h" + [level], true, "</h" + [level] + ">")
  }

  /** A title element at the start of the head yields its text. */
  lemma TitleOfTitleElement(text: String, rest: String)
    requires '<' !in text
    ensures Title("<title>" + text + "</title>" + rest) == text
  {
    var s := "<title>" + text + "</title>" + rest;
    assert OccursAt(s, "<title>", 0);
    var q := 7 + |text|;
    assert s[7..q] == text;
    FindCharIsLeast(s, '<', 7, q);
    assert OccursAt(s, "</title>", q);
    assert TagTextAt(s, "<title>", false, "</title>", 0) == Some(text);
  }

  /** A heading element at the start of the body yields its text, whatever its attributes. */
  lemma HeadingOfHeadingElement(level: char, attributes: String, text: String, rest: String)
    requires level in "123"
    requires '>' !in attributes && '<' !in text
    ensures Heading("<h" + [level] + attributes + ">" + text + "</h" + [level] + ">" + rest, level) == text
  {
    var open, close := "<h" + [level], "</h" + [level] + ">";
    var s := open + attributes + ">" + text + close + rest;
    assert OccursAt(s, open, 0);
    var g := 3 + |attributes|;
    assert s[3..g] == attributes;
    FindCharIsLeast(s, '>', 3, g);
    var q := g + 1 + |text|;
    assert s[g + 1..q] == text;
    FindCharIsLeast(s, '<', g + 1, q);
    assert OccursAt(s, close, q);
    assert TagTextAt(s, open, true, close, 0) == Some(text);
    assert s == "<h" + [level] + attributes + ">" + text + "</h" + [level] + ">" + rest;
  }
}
