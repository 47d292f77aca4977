/** The Pixiv resolver (`include/pixiv.hpp`): the artwork id is the digit run after
    `artworks/`, the page list of the artwork is fetched as JSON, and each page gives
    the link of its original-size image. */
module Pixiv {
  import opened Outcomes
  import opened Json
  import opened Text
  import opened Http
  import Utils

  /** The page-list endpoint, before the artwork id. */
  const PagesEndpoint := "https://www.pixiv.net/ajax/illust/"

  /** The site roots `https?://(?:www\.)?pixiv\.net/` allows, in the order the
      regular expression tries them. */
  const SiteRoots: seq<string> := ["https://www.pixiv.net/", "https://pixiv.net/", "http://www.pixiv.net/", "http://pixiv.net/"]

  /** The artwork path under each root. */
  const LinkPrefixes: seq<string> := Utils.Expand(SiteRoots, ["artworks/"])

  // ---------------------------------------------------------------------------
  // GetUrls

  /** A match of `https?://(?:www\.)?pixiv\.net/artworks/\d+` at `p`. */
  function PixivMatch(s: string, p: nat): Option<nat>
  {
    Utils.PrefixRunMatch(s, p, LinkPrefixes, IsDigit)
  }

  lemma PixivMatchAdvances(text: string)
    ensures Utils.Advances(PixivMatch, text)
  {
  }

  /** `GetUrls`: every link found is an artwork link. */
  function GetUrls(message: string): (r: seq<string>)
    ensures forall u :: u in r ==> IsArtworkLink(u)
  {
    Utils.MatchedPrefixRuns(message, PixivMatch, LinkPrefixes, IsDigit);
    Utils.MatchedUrls(message, PixivMatch, 0)
  }

  /** An artwork link: one of the prefixes, then a non-empty run of digits. */
  ghost predicate IsArtworkLink(u: string)
  {
    Utils.PrefixedRun(u, LinkPrefixes, IsDigit)
  }

  // ---------------------------------------------------------------------------
  // The artwork id

  /** A match of `artworks/(\d+)` at `p`. */
  function ArtworkAt(s: string, p: nat): Option<nat>
  {
    Utils.PrefixRunMatch(s, p, ["artworks/"], IsDigit)
  }

  /** With a single prefix, the match is that prefix and the digit run after it. */
  lemma ArtworkAtIs(s: string, p: nat)
    ensures ArtworkAt(s, p) ==
      if OccursAt(s, "artworks/", p) && RunEnd(s, p + 9, IsDigit) > p + 9
      then Some(RunEnd(s, p + 9, IsDigit)) else None
  {
    var prefixes := ["artworks/"];
    assert prefixes[1..] == [];
  }

  /** The first group of the leftmost match of `artworks/(\d+)`: the longest digit
      run after the first `artworks/` that is followed by a digit. */
  function ArtworkId(url: string): (r: Option<string>)
    ensures r.Some? ==> r.value != [] && AllDigits(r.value)
    ensures r.Some? ==> exists p: nat ::
      && p + 9 + |r.value| <= |url| && ArtworkAt(url, p) == Some(p + 9 + |r.value|)
      && url[p + 9..p + 9 + |r.value|] == r.value
      && forall j: nat :: j < p ==> ArtworkAt(url, j).None?
  {
    match Utils.Search(url, ArtworkAt, 0)
    case None => None
    case Some((p, e)) =>
      ArtworkAtIs(url, p);
      Some(url[p + 9..e])
  }

  /** An id read from a URL is a non-empty digit run that follows `artworks/` in it;
      there is none exactly when `artworks/` followed by a digit occurs nowhere. */
  lemma ArtworkIdSound(url: string)
    ensures ArtworkId(url).Some? ==> ArtworkId(url).value != "" && AllDigits(ArtworkId(url).value)
    ensures ArtworkId(url).Some? ==> ContainsSub(url, "artworks/" + ArtworkId(url).value)
    ensures ArtworkId(url).Some? ==> exists p: nat ::
      && OccursAt(url, "artworks/" + ArtworkId(url).value, p)
      && forall j: nat :: j < p ==> ArtworkAt(url, j).None?
    ensures ArtworkId(url).None? ==> forall k :: 0 <= k <= |url| ==> ArtworkAt(url, k).None?
  {
    match Utils.Search(url, ArtworkAt, 0)
    case None =>
    case Some((p, e)) =>
      ArtworkMatchText(url, p, e);
      assert ArtworkId(url) == Some(url[p + 9..e]);
      OccursContains(url, "artworks/" + url[p + 9..e], p);
  }

  /** The text of a match at `p` ending at `e` is `artworks/` and the digits between. */
  lemma ArtworkMatchText(url: string, p: nat, e: nat)
    requires ArtworkAt(url, p) == Some(e)
    ensures p + 9 <= e <= |url| && AllDigits(url[p + 9..e])
    ensures OccursAt(url, "artworks/" + url[p + 9..e], p)
  {
    ArtworkAtIs(url, p);
    var id := url[p + 9..e];
    assert AllDigits(id) by {
      forall i | 0 <= i < |id|
        ensures IsDigit(id[i])
      {
        assert id[i] == url[p + 9 + i];
      }
    }
    assert OccursAt(url, id, p + 9);
    OccursJoin(url, "artworks/", id, p);
  }

  /** No site root holds an `a`, so no `artworks/` starts inside one. */
  lemma RootsWithoutA(root: string)
    requires root in SiteRoots
    ensures 'a' !in root
  {
  }

  /** Each prefix is a site root followed by `artworks/`. */
  lemma PrefixParts(pre: string)
    requires pre in LinkPrefixes
    ensures |pre| >= 9 && 'a' !in pre[..|pre| - 9] && pre[|pre| - 9..] == "artworks/"
  {
    Utils.ExpandMembers(SiteRoots, ["artworks/"]);
    var root, tail :| root in SiteRoots && tail in ["artworks/"] && pre == root + tail;
    RootsWithoutA(root);
    assert pre[..|root|] == root;
  }

  /** The id the download step reads from an artwork link is its digit run, when
      nothing before `artworks/` could start another one. */
  lemma ArtworkIdOfLink(pre: string, digits: string)
    requires |pre| >= 9 && 'a' !in pre[..|pre| - 9] && pre[|pre| - 9..] == "artworks/"
    requires digits != "" && AllDigits(digits)
    ensures ArtworkId(pre + digits) == Some(digits)
  {
    var u := pre + digits;
    var p := |pre| - 9;
    forall k | 0 <= k < p
      ensures ArtworkAt(u, k).None?
    {
      ArtworkAtIs(u, k);
      assert u[k] == pre[..p][k];
      Mismatch(u, "artworks/", k, 0);
    }
    assert u[p..p + 9] == "artworks/";
    forall i | p + 9 <= i < |u|
      ensures IsDigit(u[i])
    {
      assert u[i] == digits[i - p - 9];
    }
    assert RunEnd(u, p + 9, IsDigit) == |u|;
    ArtworkAtIs(u, p);
    assert ArtworkAt(u, p) == Some(|u|);
    Utils.SearchFirst(u, ArtworkAt, 0, p);
    assert u[p + 9..|u|] == digits;
    assert ArtworkId(u) == Some(u[p + 9..|u|]);
  }

  /** Every link `GetUrls` finds is fetched under the id it spells. */
  lemma GetUrlsIds(message: string, u: string)
    requires u in GetUrls(message)
    ensures exists pre :: pre in LinkPrefixes && HasPrefix(u, pre) && ArtworkId(u) == Some(u[|pre|..])
  {
    var pre :| pre in LinkPrefixes && HasPrefix(u, pre) && |pre| < |u|
               && forall i :: |pre| <= i < |u| ==> IsDigit(u[i]);
    var digits := u[|pre|..];
    PrefixThenRest(u, pre);
    PrefixParts(pre);
    assert AllDigits(digits) by {
      forall i | 0 <= i < |digits|
        ensures IsDigit(digits[i])
      {
        assert digits[i] == u[|pre| + i];
      }
    }
    ArtworkIdOfLink(pre, digits);
  }

  function PagesUrl(id: string): string
  {
    PagesEndpoint + id + "/pages"
  }

  // ---------------------------------------------------------------------------
  // GetDownloadLinks

  /** `item["urls"]["original"].get<std::string>()` with the const `[]`. */
  function OriginalUrl(item: Json): (r: Try<string>)
    ensures r.Ok? <==> Contains(item, "urls") && Contains(Field(item, "urls"), "original")
                       && Field(Field(item, "urls"), "original").JString?
    ensures r.Ok? ==> Field(Field(item, "urls"), "original") == JString(r.value)
  {
    match At(item, "urls")
    case Throws => Throws
    case Ok(urls) =>
      match At(urls, "original")
      case Throws => Throws
      case Ok(original) => GetString(original)
  }

  /** One link per element of `body`, in order; the first element without a string
      `urls.original` makes the call throw. */
  function OriginalLinks(items: seq<Json>): (r: Try<seq<string>>)
    ensures r.Ok? <==> forall i :: 0 <= i < |items| ==> OriginalUrl(items[i]).Ok?
    ensures r.Ok? ==> |r.value| == |items|
    ensures r.Ok? ==> forall i :: 0 <= i < |items| ==> r.value[i] == OriginalUrl(items[i]).value
  {
    if items == [] then Ok([])
    else
      assert forall i :: 1 <= i < |items| ==> items[i] == items[1..][i - 1];
      match OriginalUrl(items[0])
      case Throws => Throws
      case Ok(u) =>
        match OriginalLinks(items[1..])
        case Throws => Throws
        case Ok(us) => Ok([u] + us)
  }

  /** The loop over `body`, appending to the result. */
  method CollectOriginals(items: seq<Json>) returns (r: Try<seq<string>>)
    ensures r == OriginalLinks(items)
  {
    var res: seq<string> := [];
    var i := 0;
    while i < |items|
      invariant i <= |items| && |res| == i
      invariant forall k :: 0 <= k < i ==> OriginalUrl(items[k]).Ok? && res[k] == OriginalUrl(items[k]).value
    {
      var u := OriginalUrl(items[i]);
      if u.Throws? {
        return Throws;
      }
      res := res + [u.value];
      i := i + 1;
    }
    assert OriginalLinks(items).Ok?;
    assert OriginalLinks(items).value == res;
    return Ok(res);
  }

  /** What `GetDownloadLinks` returns, or that it throws. The parsed document is a
      temporary, so `["body"]` is the non-const access: a document that is null or
      has no `body` gives no links. */
  function PixivLinks(url: string, get: string -> Response, parse: string -> Option<Json>): (r: Outcome)
    ensures ArtworkId(url).None? ==> r == Returned([])
    ensures ArtworkId(url).Some? && get(PagesUrl(ArtworkId(url).value)).status != HTTP_OK ==> r == Returned([])
    ensures (ArtworkId(url).Some? && get(PagesUrl(ArtworkId(url).value)).status == HTTP_OK
             && parse(get(PagesUrl(ArtworkId(url).value)).text).None?) ==> r == Threw
  {
    match ArtworkId(url)
    case None => Returned([])
    case Some(id) =>
      var page := get(PagesUrl(id));
      if page.status != HTTP_OK then Returned([])
      else match parse(page.text)
        case None => Threw
        case Some(json) =>
          match Index(json, "body")
          case Throws => Threw
          case Ok(body) =>
            var items := Elements(body);
            match OriginalLinks(items)
            case Throws => Threw
            case Ok(links) => Returned(links)
  }

  /** Once the pages document parses, whatever its shape: a document whose `body`
      cannot be indexed throws; otherwise the result is the original link of every
      element of `body`, in order, or a throw when one of them has none. */
  lemma PixivLinksOfDocument(url: string, get: string -> Response, parse: string -> Option<Json>, json: Json)
    requires ArtworkId(url).Some? && get(PagesUrl(ArtworkId(url).value)).status == HTTP_OK
    requires parse(get(PagesUrl(ArtworkId(url).value)).text) == Some(json)
    ensures Index(json, "body").Throws? ==> PixivLinks(url, get, parse) == Threw
    ensures Index(json, "body").Ok? && OriginalLinks(Elements(Index(json, "body").value)).Ok? ==>
              PixivLinks(url, get, parse) == Returned(OriginalLinks(Elements(Index(json, "body").value)).value)
    ensures Index(json, "body").Ok? && OriginalLinks(Elements(Index(json, "body").value)).Throws? ==>
              PixivLinks(url, get, parse) == Threw
  {
  }

  /** `GetDownloadLinks`. */
  method GetDownloadLinks(url: string, get: string -> Response, parse: string -> Option<Json>)
    returns (out: Outcome)
    ensures out == PixivLinks(url, get, parse)
  {
    var id := ArtworkId(url);
    if id.None? {
      return Returned([]);
    }
    var page := get(PagesUrl(id.value));
    if page.status != HTTP_OK {
      return Returned([]);
    }
    var json := parse(page.text);
    if json.None? {
      return Threw;
    }
    var body := Index(json.value, "body");
    if body.Throws? {
      return Threw;
    }
    var links := CollectOriginals(Elements(body.value));
    if links.Throws? {
      return Threw;
    }
    return Returned(links.value);
  }

  // ---------------------------------------------------------------------------
  // DownloadFile

  /** `DownloadFile`: nothing is written when the link does not answer 200; otherwise
      the body lands in a fresh file named by a counter id and the extension of the
      link read as a path. */
  method DownloadFile(link: string, dir: string, get: string -> Response, store: Utils.Store)
    returns (path: Option<string>)
    requires store.Valid() && |store.files| < SIZE_T
    modifies store
    ensures store.Valid()
    ensures get(link).status != HTTP_OK ==> path.None? && unchanged(store)
    ensures get(link).status == HTTP_OK ==>
      && path.Some? && path.value !in old(store.files)
      && store.files == old(store.files)[path.value := get(link).text]
      && exists n: nat ::
           && path.value == Utils.CandidatePath(dir, Extension(link), Utils.IdAfter(old(store.counter), n))
           && Utils.FirstFree(dir, Extension(link), old(store.counter), n, old(store.files))
           && store.counter == Utils.IdAfter(old(store.counter), n + 1)
  {
    var r := get(link);
    if r.status != HTTP_OK {
      return None;
    }
    var ext := Extension(link);
    var saved, n := store.SaveContents(dir, ext, r.text);
    return Some(saved);
  }

  /** An original image link ending in `name.ext` is saved as `<id>.ext`. */
  lemma OriginalExtension(dir: string, stem: string, e: string)
    requires stem != "" && '/' !in stem && '.' !in stem && '/' !in e && '.' !in e
    ensures Extension(dir + "/" + (stem + ("." + e))) == "." + e
  {
    ExtensionOfName(dir, stem, e);
  }
}
