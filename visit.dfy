/**
 * The "Visit Website" tool: resolve the three budgets, fetch the page, cut it
 * into head and body, pick out the title and the first h1, h2 and h3, rank
 * links and images, download the images, select the text content, and return
 * a result whose `links`, `images` and `content` entries are present only when
 * they are truthy.
 */
module Visit {
  import opened Text
  import Budget
  import Page
  import Links
  import Images
  import Content
  import Acquisition

  /** The response to the page request: ok with its text, or not ok with its status text. */
  datatype Response = Ok(html: String) | NotOk(statusText: String)

  /** The plugin configuration: each budget a number, -1 meaning "auto". */
  datatype Config = Config(maxLinks: int, maxImages: int, contentLimit: int)

  /** The tool's parameters. An absent `findInPage` reads as no search terms. */
  datatype Arguments = Arguments(
    url: String,
    findInPage: Option<seq<String>>,
    maxLinks: Option<nat>,
    maxImages: Option<nat>,
    contentLimit: Option<nat>)

  /**
   * What the tool gets from outside: the regex engine's matches on the body
   * (every `<a …>` and every `<img …>` in document order), the first match of a
   * term's padded pattern in the text (given the text, the term, the content
   * limit and the number of terms that size the padding), URL resolution, the
   * outcome of each image download, the working directory, the clock, and
   * path joining.
   */
  datatype World = World(
    anchorsOf: String -> seq<Links.Anchor>,
    imageAttributesOf: String -> seq<String>,
    windowOf: (String, String, nat, nat) -> Option<Content.Window>,
    resolve: (String, String) -> String,
    downloadOf: nat -> Acquisition.Download,
    workingDirectory: String,
    timestamp: nat,
    join: Acquisition.Joiner)

  /** A term's window, when there is one, is text of the content at its position. */
  ghost predicate WindowsAreFound(world: World) {
    forall all, term, limit, count ::
      world.windowOf(all, term, limit, count).Some? ==> Content.FoundIn(all, world.windowOf(all, term, limit, count).value)
  }

  datatype VisitResult = VisitResult(
    url: String,
    title: String,
    h1: String,
    h2: String,
    h3: String,
    links: Option<seq<(String, String)>>,
    images: Option<seq<(String, String)>>,
    content: Option<String>)

  datatype Outcome = Visited(result: VisitResult) | Failure(message: String)

  const FetchFailure: String := "Error: Failed to fetch website: "

  function Terms(args: Arguments): seq<String> {
    match args.findInPage case Some(t) => t case None => []
  }

  function MaxLinks(config: Config, args: Arguments): nat
    requires config.maxLinks >= Budget.Auto
  {
    Budget.Resolve(config.maxLinks, args.maxLinks, Budget.DefaultMaxLinks)
  }

  function MaxImages(config: Config, args: Arguments): nat
    requires config.maxImages >= Budget.Auto
  {
    Budget.Resolve(config.maxImages, args.maxImages, Budget.DefaultMaxImages)
  }

  function ContentLimit(config: Config, args: Arguments): nat
    requires config.contentLimit >= Budget.Auto
  {
    Budget.Resolve(config.contentLimit, args.contentLimit, Budget.DefaultContentLimit)
  }

  predicate ValidConfig(config: Config) {
    config.maxLinks >= Budget.Auto && config.maxImages >= Budget.Auto && config.contentLimit >= Budget.Auto
  }

  /** The images of the body to download, as (alt, src) pairs; none when the budget is 0. */
  function ImagesToFetch(body: String, config: Config, args: Arguments, world: World): (r: seq<(String, String)>)
    requires ValidConfig(config)
    ensures |r| <= MaxImages(config, args)
  {
    var maxImages := MaxImages(config, args);
    if maxImages > 0 then Images.ExtractImages(world.imageAttributesOf(body), args.url, maxImages, Terms(args), world.resolve)
    else []
  }

  function Srcs(pairs: seq<(String, String)>): (r: seq<String>)
    ensures |r| == |pairs| && forall i :: 0 <= i < |r| ==> r[i] == pairs[i].1
  {
    seq(|pairs|, i requires 0 <= i < |pairs| => pairs[i].1)
  }

  /** Where the `i`-th chosen image ends up, given what its download came to. */
  function ImagePath(toFetch: seq<(String, String)>, world: World, i: nat): Option<String>
    requires i < |toFetch|
  {
    Acquisition.LocalPath(toFetch[i].1, i, world.workingDirectory, world.timestamp, world.downloadOf(i), world.join)
  }

  /** Each image's alt text with the markdown line its download produced. */
  function ImageEntries(toFetch: seq<(String, String)>, world: World): (r: seq<(String, String)>)
    ensures |r| == |toFetch|
    ensures forall i :: 0 <= i < |r| ==>
      && r[i].0 == toFetch[i].0
      && r[i].1 == Acquisition.Markdown(i, ImagePath(toFetch, world, i), toFetch[i].1)
  {
    var urls := Srcs(toFetch);
    var downloads := seq(|urls|, i requires 0 <= i < |urls| => world.downloadOf(i));
    var markdowns := Acquisition.ViewImagesResult(urls, world.workingDirectory, world.timestamp, downloads, world.join);
    seq(|toFetch|, i requires 0 <= i < |toFetch| => (toFetch[i].0, markdowns[i]))
  }

  /** The text content of the body, selected by the search terms and cut by the limit. */
  function PageContent(body: String, config: Config, args: Arguments, world: World): (r: String)
    requires ValidConfig(config) && WindowsAreFound(world)
    ensures |r| <= |Content.AllContent(body, ContentLimit(config, args))|
  {
    var limit := ContentLimit(config, args);
    var all := Content.AllContent(body, limit);
    var terms := Terms(args);
    var matches := seq(|terms|, i requires 0 <= i < |terms| => world.windowOf(all, terms[i], limit, |terms|));
    Content.SelectContent(all, limit, terms, matches)
  }

  /**
   * The tool's result. A page that could not be fetched gives the error
   * message; otherwise the entries `links`, `images` and `content` are there
   * exactly when their budget is not 0 (for `content`: when any text is left).
   */
  function VisitWebsite(config: Config, args: Arguments, response: Response, world: World): (r: Outcome)
    requires ValidConfig(config) && WindowsAreFound(world)
    ensures response.NotOk? ==> r == Failure(FetchFailure + response.statusText)
    ensures response.Ok? ==> r.Visited? && r.result.url == args.url
    ensures r.Visited? ==> (r.result.links.Some? <==> MaxLinks(config, args) != 0)
    ensures r.Visited? ==> (r.result.images.Some? <==> MaxImages(config, args) != 0)
    ensures r.Visited? && r.result.links.Some? ==> |r.result.links.value| <= MaxLinks(config, args)
    ensures r.Visited? && r.result.images.Some? ==> |r.result.images.value| <= MaxImages(config, args)
    ensures r.Visited? && r.result.content.Some? ==> r.result.content.value != []
    ensures r.Visited? && ContentLimit(config, args) == 0 ==> r.result.content.None?
  {
    match response
    case NotOk(statusText) => Failure(FetchFailure + statusText)
    case Ok(html) =>
      var sections := Page.SplitPage(html);
      var head, body := sections.head, sections.body;
      var maxLinks := MaxLinks(config, args);
      var links :=
        if maxLinks == 0 then None
        else Some(Links.ExtractLinks(world.anchorsOf(body), args.url, maxLinks, Terms(args), world.resolve));
      var toFetch := ImagesToFetch(body, config, args, world);
      var images := if MaxImages(config, args) == 0 then None else Some(ImageEntries(toFetch, world));
      var content := PageContent(body, config, args, world);
      Visited(VisitResult(
        args.url,
        Page.Title(head),
        Page.Heading(body, '1'),
        Page.Heading(body, '2'),
        Page.Heading(body, '3'),
        links,
        images,
        if content == [] then None else Some(content)))
  }

  /**
   * An entry is left out exactly when an explicit 0 wins: configured as 0, or
   * configured as auto and asked for as 0.
   */
  lemma EntriesExcluded(config: Config, args: Arguments, response: Response, world: World)
    requires ValidConfig(config) && WindowsAreFound(world) && response.Ok?
    ensures var r := VisitWebsite(config, args, response, world).result;
      && (r.links.None? <==> config.maxLinks == 0 || (config.maxLinks == Budget.Auto && args.maxLinks == Some(0)))
      && (r.images.None? <==> config.maxImages == 0 || (config.maxImages == Budget.Auto && args.maxImages == Some(0)))
  {
    Budget.ResolveExcludes(config.maxLinks, args.maxLinks, Budget.DefaultMaxLinks);
    Budget.ResolveExcludes(config.maxImages, args.maxImages, Budget.DefaultMaxImages);
  }

  /**
   * Without search terms the content is the start of the page's cleaned text,
   * as much of it as the limit allows.
   */
  lemma ContentWithoutTerms(config: Config, args: Arguments, response: Response, world: World)
    requires ValidConfig(config) && WindowsAreFound(world) && response.Ok?
    requires Terms(args) == []
    ensures var r := VisitWebsite(config, args, response, world).result;
            var text := Content.CleanText(Page.SplitPage(response.html).body);
            var limit := ContentLimit(config, args);
      && (limit > 0 && text != [] ==> r.content == Some(text[..Content.Min(limit, |text|)]))
      && (limit == 0 || text == [] ==> r.content.None?)
  {
    var limit := ContentLimit(config, args);
    var body := Page.SplitPage(response.html).body;
    var all := Content.AllContent(body, limit);
    assert PageContent(body, config, args, world) == Content.SelectContent(all, limit, [], []);
  }

  /**
   * The images entry pairs each chosen image's alt text with the markdown line
   * of its download, in the order the images were chosen.
   */
  lemma ImagesAreAligned(config: Config, args: Arguments, response: Response, world: World)
    requires ValidConfig(config) && WindowsAreFound(world) && response.Ok?
    requires MaxImages(config, args) != 0
    ensures var r := VisitWebsite(config, args, response, world).result;
            var toFetch := ImagesToFetch(Page.SplitPage(response.html).body, config, args, world);
      && r.images.Some? && |r.images.value| == |toFetch|
      && forall i :: 0 <= i < |toFetch| ==>
        && r.images.value[i].0 == toFetch[i].0
        && r.images.value[i].1 == Acquisition.Markdown(i, ImagePath(toFetch, world, i), toFetch[i].1)
  {
  }
}
