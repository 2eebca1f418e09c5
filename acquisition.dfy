/**
 * Image acquisition: for each image URL, either the URL itself (already a
 * file in the working directory), a local path for the downloaded bytes named
 * `<timestamp>-<n>.<extension>`, or nothing; then one markdown line per URL,
 * an embedded image or an error naming the URL.
 */
module Acquisition {
  import opened Text

  /**
   * What fetching one image and writing it to disk came to: a response that was
   * not ok, a body of `byteCount` bytes with its `content-type` header (if
   * any), an abort, or some other error.
   */
  datatype Download =
    | NotOk(statusText: String)
    | Received(byteCount: nat, contentType: Option<String>)
    | Aborted
    | Threw(message: String)

  /** `join(directory, name)`, left uninterpreted. */
  type Joiner = (String, String) -> String

  // ---------------------------------------------------------------- extension

  /** The end of the run of `\w` characters starting at `from`. */
  function WordRunEnd(s: String, from: nat): (r: nat)
    requires from <= |s|
    decreases |s| - from
    ensures from <= r <= |s|
    ensures forall k :: from <= k < r ==> IsWordChar(s[k])
    ensures r == |s| || !IsWordChar(s[r])
  {
    if from < |s| && IsWordChar(s[from]) then WordRunEnd(s, from + 1) else from
  }

  /** `/image\/([\w]+)/` matches at `p`: `image/` and at least one word character. */
  predicate ImageTypeAt(ct: String, p: nat) {
    OccursAt(ct, "image/", p) && p + 6 < |ct| && IsWordChar(ct[p + 6])
  }

  /** `/image\/([\w]+)/.exec(contentType)?.[1]`: the word after the first `image/` that has one. */
  function ExtensionFromContentType(ct: String): (r: Option<String>)
    ensures r.Some? ==> r.value != [] && forall k :: 0 <= k < |r.value| ==> IsWordChar(r.value[k])
    ensures r.None? <==> forall p: nat :: !ImageTypeAt(ct, p)
    // at the leftmost `image/`, the whole run of word characters after it
    ensures forall p: nat ::
      && ImageTypeAt(ct, p)
      && (forall k: nat :: k < p ==> !ImageTypeAt(ct, k))
      ==> && r.Some?
          && OccursAt(ct, r.value, p + 6)
          && (p + 6 + |r.value| == |ct| || !IsWordChar(ct[p + 6 + |r.value|]))
  {
    var at := (p: nat) => ImageTypeAt(ct, p);
    assert forall p: nat :: at(p) == ImageTypeAt(ct, p);
    match FirstMatch(0, |ct|, at)
    case Some(p) => Some(ct[p + 6..WordRunEnd(ct, p + 6)])
    case None => None
  }

  /**
   * `/\.([\w]+)(?:\?.*)$/` matches at `p`: a dot, the longest run of word
   * characters after it, then a `?` and a tail without line terminators up to
   * the end. The query part is not optional.
   */
  predicate UrlExtensionAt(url: String, p: nat) {
    && p + 1 < |url| && url[p] == '.' && IsWordChar(url[p + 1])
    && var e := WordRunEnd(url, p + 1);
       e < |url| && url[e] == '?' && forall k :: e < k < |url| ==> !IsLineTerminator(url[k])
  }

  /** `/\.([\w]+)(?:\?.*)$/.exec(url)?.[1]`. */
  function ExtensionFromUrl(url: String): (r: Option<String>)
    ensures r.Some? ==> r.value != [] && forall k :: 0 <= k < |r.value| ==> IsWordChar(r.value[k])
    ensures r.None? <==> forall p: nat :: !UrlExtensionAt(url, p)
    // after the leftmost dot that matches, the word characters up to the `?`
    ensures forall p: nat ::
      && UrlExtensionAt(url, p)
      && (forall k: nat :: k < p ==> !UrlExtensionAt(url, k))
      ==> && r.Some?
          && OccursAt(url, r.value + "?", p + 1)
  {
    var at := (p: nat) => UrlExtensionAt(url, p);
    assert forall p: nat :: at(p) == UrlExtensionAt(url, p);
    match FirstMatch(0, |url|, at)
    case Some(p) =>
      UrlExtensionValue(url, p);
      Some(url[p + 1..WordRunEnd(url, p + 1)])
    case None => None
  }

  /** Where the pattern matches, the extension is followed by the `?` of the query. */
  lemma UrlExtensionValue(url: String, p: nat)
    requires UrlExtensionAt(url, p)
    ensures var e := WordRunEnd(url, p + 1); OccursAt(url, url[p + 1..e] + "?", p + 1)
  {
    var e := WordRunEnd(url, p + 1);
    assert url[p + 1..e + 1] == url[p + 1..e] + "?";
  }

  /**
   * The file extension: from the content type, else from the URL, else `jpg`.
   * A missing header reads as the empty string.
   */
  function FileExtension(contentType: Option<String>, url: String): (r: String)
    ensures r != [] && forall k :: 0 <= k < |r| ==> IsWordChar(r[k])
  {
    var ct := match contentType case Some(c) => c case None => [];
    match ExtensionFromContentType(ct)
    case Some(e) => e
    case None =>
      match ExtensionFromUrl(url)
      case Some(e) => e
      case None => "jpg"
  }

  /** The content type decides over the URL. */
  lemma ContentTypeWins(subtype: String, url: String)
    requires subtype != [] && forall k :: 0 <= k < |subtype| ==> IsWordChar(subtype[k])
    ensures FileExtension(Some("image/" + subtype), url) == subtype
  {
    var ct := "image/" + subtype;
    assert ImageTypeAt(ct, 0);
    assert WordRunEnd(ct, 6) == |ct| by {
      WordRunToEnd(ct, 6);
    }
    var at := (p: nat) => ImageTypeAt(ct, p);
    FirstMatchIsLeast(0, |ct|, at, 0);
    assert ct[6..] == subtype;
  }

  lemma {:induction false} WordRunToEnd(s: String, from: nat)
    requires from <= |s| && forall k :: from <= k < |s| ==> IsWordChar(s[k])
    ensures WordRunEnd(s, from) == |s|
    decreases |s| - from
  {
    if from < |s| {
      WordRunToEnd(s, from + 1);
    }
  }

  /**
   * Without a content type, a URL whose only dot precedes the extension takes
   * the extension from the URL when a query follows it, and falls back to
   * `jpg` when none does.
   */
  lemma UrlExtensionNeedsQuery(stem: String, ext: String, query: String)
    requires '.' !in stem && '?' !in stem
    requires ext != [] && forall k :: 0 <= k < |ext| ==> IsWordChar(ext[k])
    requires forall k :: 0 <= k < |query| ==> !IsLineTerminator(query[k])
    ensures FileExtension(None, stem + "." + ext + "?" + query) == ext
    ensures FileExtension(None, stem + "." + ext) == "jpg"
  {
    var p := |stem|;
    var withQuery := stem + "." + ext + "?" + query;
    var bare := stem + "." + ext;
    assert forall q: nat :: !ImageTypeAt([], q);
    // with a query: the dot after the stem is where the pattern matches
    WordRunStops(withQuery, p + 1, p + 1 + |ext|);
    assert withQuery[p + 1..p + 1 + |ext|] == ext;
    assert UrlExtensionAt(withQuery, p);
    forall q: nat | q < p ensures !UrlExtensionAt(withQuery, q) {
      assert withQuery[q] == stem[q];
    }
    var at := (q: nat) => UrlExtensionAt(withQuery, q);
    FirstMatchIsLeast(0, |withQuery|, at, p);
    // without one: no dot is followed by a `?`
    forall q: nat ensures !UrlExtensionAt(bare, q) {
      if q < p {
        assert bare[q] == stem[q];
      } else if q == p && p + 1 < |bare| {
        WordRunToEnd(bare, p + 1);
      }
    }
  }

  lemma WordRunStops(s: String, from: nat, end: nat)
    requires from <= end < |s| && !IsWordChar(s[end])
    requires forall k :: from <= k < end ==> IsWordChar(s[k])
    ensures WordRunEnd(s, from) == end
    decreases end - from
  {
    if from < end {
      WordRunStops(s, from + 1, end);
    }
  }

  // ---------------------------------------------------------------- names and paths

  /** `${timestamp}-${index}.${fileExtension}`. */
  function FileName(timestamp: nat, index: nat, extension: String): String {
    DecimalString(timestamp) + "-" + DecimalString(index) + "." + extension
  }

  /** Within one call (one timestamp), different images get different file names. */
  lemma FileNamesDistinct(timestamp: nat, i: nat, j: nat, ei: String, ej: String)
    requires FileName(timestamp, i, ei) == FileName(timestamp, j, ej)
    ensures i == j && ei == ej
  {
    var t := DecimalString(timestamp);
    var di, dj := DecimalString(i), DecimalString(j);
    var a, b := FileName(timestamp, i, ei), FileName(timestamp, j, ej);
    var n := |t| + 1;
    assert a[n..] == di + "." + ei && b[n..] == dj + "." + ej;
    var si, sj := a[n..], b[n..];
    assert si == sj;
    assert forall k :: 0 <= k < |di| ==> si[k] == di[k] && IsDigit(si[k]);
    assert forall k :: 0 <= k < |dj| ==> sj[k] == dj[k] && IsDigit(sj[k]);
    assert si[|di|] == '.' && sj[|dj|] == '.';
    assert |di| == |dj|;
    assert di == si[..|di|] == sj[..|dj|] == dj;
    DecimalStringInjective(i, j);
    assert ei == si[|di| + 1..] == sj[|dj| + 1..] == ej;
  }

  /** `path.replace(/\\/g, '/')`. */
  function ForwardSlashes(path: String): (r: String)
    ensures |r| == |path|
    ensures forall k :: 0 <= k < |r| ==> r[k] == (if path[k] == '\\' then '/' else path[k])
  {
    seq(|path|, k requires 0 <= k < |path| => if path[k] == '\\' then '/' else path[k])
  }

  /** `filePath.replace(/\\/g, '/').replace(/^C:/, '')`: forward slashes, and a leading `C:` dropped once. */
  function NormalizePath(path: String): (r: String)
    ensures '\\' !in r
    ensures StartsWith(ForwardSlashes(path), "C:") ==> r == ForwardSlashes(path)[2..]
    ensures !StartsWith(ForwardSlashes(path), "C:") ==> r == ForwardSlashes(path)
  {
    var slashed := ForwardSlashes(path);
    assert forall k :: 0 <= k < |slashed| ==> slashed[k] != '\\';
    if StartsWith(slashed, "C:") then slashed[2..] else slashed
  }

  /** A Windows path becomes a web path: `C:\Users\me\1-1.png` gives `/Users/me/1-1.png`. */
  lemma NormalizeWindowsPath(rest: String)
    ensures NormalizePath("C:\\" + rest) == "/" + ForwardSlashes(rest)
  {
    var path := "C:\\" + rest;
    var slashed := ForwardSlashes(path);
    assert slashed[..2] == "C:";
    assert slashed[2..] == "/" + ForwardSlashes(rest);
  }

  /** A path already in web form is left as it is. */
  lemma NormalizeKeepsWebPath(path: String)
    requires '\\' !in path && !StartsWith(path, "C:")
    ensures NormalizePath(path) == path
  {
    assert forall k :: 0 <= k < |path| ==> path[k] != '\\';
    assert ForwardSlashes(path) == path;
  }

  // ---------------------------------------------------------------- one image

  /**
   * The local path for the `i`-th URL (0-based), or nothing: a URL inside the
   * working directory is kept as it is, without a download; a failed, empty,
   * aborted or erroring download gives nothing; otherwise the bytes are written
   * to `<timestamp>-<i+1>.<extension>` in the working directory.
   */
  function LocalPath(url: String, i: nat, workingDirectory: String, timestamp: nat, download: Download, join: Joiner)
    : (r: Option<String>)
    ensures StartsWith(url, workingDirectory) ==> r == Some(url)
    ensures !StartsWith(url, workingDirectory) && r.Some? ==>
      download.Received? && download.byteCount > 0
      && r.value == NormalizePath(join(workingDirectory, FileName(timestamp, i + 1, FileExtension(download.contentType, url))))
    ensures !StartsWith(url, workingDirectory) && download.Received? && download.byteCount > 0 ==> r.Some?
  {
    if StartsWith(url, workingDirectory) then Some(url)
    else
      match download
      case NotOk(_) => None
      case Received(byteCount, contentType) =>
        if byteCount == 0 then None
        else
          var fileName := FileName(timestamp, i + 1, FileExtension(contentType, url));
          Some(NormalizePath(join(workingDirectory, fileName)))
      case Aborted => None
      case Threw(_) => None
  }

  const ErrorPrefix: String := "Error fetching image from URL: "

  /** `x ? `![Image ${i + 1}](${x})` : 'Error fetching image from URL: ' + url`; an empty path is falsy. */
  function Markdown(i: nat, path: Option<String>, url: String): String {
    if path.Some? && path.value != [] then "![Image " + DecimalString(i + 1) + "](" + path.value + ")"
    else ErrorPrefix + url
  }

  /**
   * The markdown lines for the URLs, one per URL in the same order, given what
   * each download came to.
   */
  function ImageMarkdowns(urls: seq<String>, workingDirectory: String, timestamp: nat, downloads: seq<Download>, join: Joiner)
    : (r: seq<String>)
    requires |downloads| == |urls|
    ensures |r| == |urls|
  {
    seq(|urls|, i requires 0 <= i < |urls| =>
      Markdown(i, LocalPath(urls[i], i, workingDirectory, timestamp, downloads[i], join), urls[i]))
  }

  /**
   * Each line embeds the image under its number when it has a local path, and
   * otherwise reports the URL; a non-empty URL inside the working directory is
   * embedded as it is, whatever its download would have done.
   */
  lemma ImageMarkdownsLines(urls: seq<String>, workingDirectory: String, timestamp: nat, downloads: seq<Download>, join: Joiner, i: nat)
    requires |downloads| == |urls| && i < |urls|
    ensures var line := ImageMarkdowns(urls, workingDirectory, timestamp, downloads, join)[i];
            var path := LocalPath(urls[i], i, workingDirectory, timestamp, downloads[i], join);
      && (path.Some? && path.value != [] ==> line == "![Image " + DecimalString(i + 1) + "](" + path.value + ")")
      && (path.None? || path.value == [] ==> line == ErrorPrefix + urls[i])
      && (StartsWith(urls[i], workingDirectory) && urls[i] != [] ==> line == "![Image " + DecimalString(i + 1) + "](" + urls[i] + ")")
  {
  }

  /** Two lines never mix up: an embedded image never reads as an error line. */
  lemma EmbeddedIsNotError(i: nat, path: String, url: String)
    requires path != []
    ensures !StartsWith(Markdown(i, Some(path), url), ErrorPrefix)
  {
    assert Markdown(i, Some(path), url)[0] == '!';
  }

  /**
   * `if (downloadedImageMarkdowns.length === 0) return imageURLsToDownload`:
   * with no URLs there are no lines, and the (empty) URL list is returned.
   */
  function ViewImagesResult(urls: seq<String>, workingDirectory: String, timestamp: nat, downloads: seq<Download>, join: Joiner)
    : (r: seq<String>)
    requires |downloads| == |urls|
    ensures |r| == |urls|
    ensures urls != [] ==> r == ImageMarkdowns(urls, workingDirectory, timestamp, downloads, join)
  {
    var markdowns := ImageMarkdowns(urls, workingDirectory, timestamp, downloads, join);
    if |markdowns| == 0 then urls else markdowns
  }
}
