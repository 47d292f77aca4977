/** The Twitter resolver (`include/twitter.hpp`): the status id is the digit run after
    `status/`, the media list comes from a mirror API, and images on the Twitter CDN
    are fetched in their original size. */
module Twitter {
  import opened Outcomes
  import opened Json
  import opened Text
  import opened Http
  import Utils

  const ApiPrefix := "https://api.vxtwitter.com/Twitter/status/"
  const CdnHost := "pbs.twimg.com"
  const CdnDir := "https://pbs.twimg.com/media"
  const CdnMedia := CdnDir + "/"

  // ---------------------------------------------------------------------------
  // GetUrls

  /** Where the optional `(?:https?://)?(?:www\.)?` prefix ends when a match starts at
      `p`. Each optional part is taken when present; leaving it out cannot help,
      since what must follow it starts with another letter. */
  function PrefixEnd(s: string, p: nat): nat
  {
    var a := if OccursAt(s, "https://", p) then p + 8 else if OccursAt(s, "http://", p) then p + 7 else p;
    if OccursAt(s, "www.", a) then a + 4 else a
  }

  /** The class `[^/]` of the user name. */
  predicate NotSlash(ch: char)
  {
    ch != '/'
  }

  /** A match of `(?:https?://)?(?:www\.)?(?:twitter|x)\.com/[^/]+/status/\d+` at `p`:
      the user name is the longest run without `/`, the id the longest digit run. */
  function TwitterMatch(s: string, p: nat): (e: Option<nat>)
    ensures e.Some? ==> p < e.value <= |s|
  {
    var b := PrefixEnd(s, p);
    var c := if OccursAt(s, "twitter", b) then b + 7 else if OccursAt(s, "x", b) then b + 1 else 0;
    if c == 0 || !OccursAt(s, ".com/", c) then None
    else
      var d := RunEnd(s, c + 5, NotSlash);
      if d == c + 5 || !OccursAt(s, "/status/", d) then None
      else
        var e := RunEnd(s, d + 8, IsDigit);
        if e == d + 8 then None else Some(e)
  }

  lemma TwitterMatchAdvances(text: string)
    ensures Utils.Advances(TwitterMatch, text)
  {
  }

  /** `GetUrls`: every link found has the pattern's shape. */
  function GetUrls(message: string): (r: seq<string>)
    ensures forall u :: u in r ==> IsStatusLink(u)
  {
    TwitterMatchAdvances(message);
    assert forall p: nat :: TwitterMatch(message, p).Some? ==> IsStatusLink(message[p..TwitterMatch(message, p).value]) by {
      forall p: nat | TwitterMatch(message, p).Some?
        ensures IsStatusLink(message[p..TwitterMatch(message, p).value])
      {
        MatchIsStatusLink(message, p);
      }
    }
    Utils.MatchedUrlsShape(message, TwitterMatch, 0, IsStatusLink);
    Utils.MatchedUrls(message, TwitterMatch, 0)
  }

  /** The optional scheme and `www.` before the host, every way the prefix can be
      written. */
  const LinkPrefixes: seq<string> := Utils.Expand(["https://", "http://", ""], ["www.", ""])

  /** A link up to its user name: prefix, host, `.com/`, user. */
  function StatusLinkHead(pre: string, host: string, user: string): string
  {
    pre + (host + (".com/" + user))
  }

  /** `head`, then `/status/` and a non-empty run of digits to the end. */
  predicate StatusAfter(u: string, head: string)
  {
    HasPrefix(u, head + "/status/") && |head| + 8 < |u| && AllDigits(u[|head| + 8..])
  }

  /** A link of the pattern's shape: an optional prefix, `twitter` or `x`, `.com/`, a
      non-empty user name without `/`, `/status/` and the digits of the id. */
  ghost predicate IsStatusLink(u: string)
  {
    exists pre, host, user ::
      && pre in LinkPrefixes && (host == "twitter" || host == "x") && user != "" && '/' !in user
      && StatusAfter(u, StatusLinkHead(pre, host, user))
  }

  /** The prefix the recogniser read. */
  lemma PrefixOf(s: string, p: nat) returns (pre: string)
    requires p <= |s|
    ensures pre in LinkPrefixes && OccursAt(s, pre, p) && PrefixEnd(s, p) == p + |pre|
  {
    var scheme := if OccursAt(s, "https://", p) then "https://" else if OccursAt(s, "http://", p) then "http://" else "";
    var a := p + |scheme|;
    var w := if OccursAt(s, "www.", a) then "www." else "";
    OccursJoin(s, scheme, w, p);
    Utils.ExpandHas(["https://", "http://", ""], ["www.", ""], scheme, w);
    pre := scheme + w;
  }

  /** The host and user name the recogniser read after the prefix. */
  lemma HostUserOf(s: string, b: nat, d: nat) returns (host: string, user: string)
    requires b <= |s|
    requires var c := if OccursAt(s, "twitter", b) then b + 7 else if OccursAt(s, "x", b) then b + 1 else 0;
             c != 0 && OccursAt(s, ".com/", c) && d == RunEnd(s, c + 5, NotSlash) && d > c + 5
    ensures (host == "twitter" || host == "x") && user != "" && '/' !in user
    ensures OccursAt(s, host + (".com/" + user), b) && d == b + |host| + 5 + |user|
  {
    host := if OccursAt(s, "twitter", b) then "twitter" else "x";
    var c := b + |host|;
    user := s[c + 5..d];
    forall i | 0 <= i < |user|
      ensures user[i] != '/'
    {
      assert user[i] == s[c + 5 + i];
    }
    OccursJoin(s, ".com/", user, c);
    OccursJoin(s, host, ".com/" + user, b);
  }

  /** Where a match at `p` has its host and its `/status/`. */
  lemma MatchParts(s: string, p: nat) returns (b: nat, d: nat)
    requires TwitterMatch(s, p).Some?
    ensures b == PrefixEnd(s, p) <= |s|
    ensures var c := if OccursAt(s, "twitter", b) then b + 7 else if OccursAt(s, "x", b) then b + 1 else 0;
            c != 0 && OccursAt(s, ".com/", c) && d == RunEnd(s, c + 5, NotSlash) && d > c + 5
    ensures OccursAt(s, "/status/", d) && d + 8 < TwitterMatch(s, p).value
    ensures forall k :: d + 8 <= k < TwitterMatch(s, p).value ==> IsDigit(s[k])
  {
    b := PrefixEnd(s, p);
    var c := if OccursAt(s, "twitter", b) then b + 7 else b + 1;
    d := RunEnd(s, c + 5, NotSlash);
  }

  /** What a single match reads: a link head, then `/status/` and the digits of the
      id up to the end of the match. */
  lemma MatchHead(s: string, p: nat) returns (pre: string, host: string, user: string)
    requires TwitterMatch(s, p).Some?
    ensures pre in LinkPrefixes && (host == "twitter" || host == "x") && user != "" && '/' !in user
    ensures var head := StatusLinkHead(pre, host, user);
            && OccursAt(s, head + "/status/", p) && p + |head| + 8 < TwitterMatch(s, p).value
            && forall k :: p + |head| + 8 <= k < TwitterMatch(s, p).value ==> IsDigit(s[k])
  {
    var b, d := MatchParts(s, p);
    pre := PrefixOf(s, p);
    host, user := HostUserOf(s, b, d);
    JoinHead(s, p, pre, host, user, d);
  }

  /** The parts read one after the other spell out the head and `/status/`. */
  lemma JoinHead(s: string, p: nat, pre: string, host: string, user: string, d: nat)
    requires OccursAt(s, pre, p) && OccursAt(s, host + (".com/" + user), p + |pre|)
    requires d == p + |pre| + |host| + 5 + |user| && OccursAt(s, "/status/", d)
    ensures OccursAt(s, StatusLinkHead(pre, host, user) + "/status/", p)
    ensures p + |StatusLinkHead(pre, host, user)| == d
  {
    OccursJoin(s, pre, host + (".com/" + user), p);
    OccursJoin(s, StatusLinkHead(pre, host, user), "/status/", p);
  }

  /** A single match has the pattern's shape. */
  lemma MatchIsStatusLink(s: string, p: nat)
    requires TwitterMatch(s, p).Some?
    ensures IsStatusLink(s[p..TwitterMatch(s, p).value])
  {
    var e := TwitterMatch(s, p).value;
    var pre, host, user := MatchHead(s, p);
    SliceStatusAfter(s, p, e, StatusLinkHead(pre, host, user));
  }

  /** A slice from an occurrence of `head` and `/status/` to the end of the digits
      after it is `head` followed by a status id. */
  lemma SliceStatusAfter(s: string, p: nat, e: nat, head: string)
    requires OccursAt(s, head + "/status/", p) && p + |head| + 8 < e <= |s|
    requires forall k :: p + |head| + 8 <= k < e ==> IsDigit(s[k])
    ensures StatusAfter(s[p..e], head)
  {
    var u := s[p..e];
    assert u[..|head| + 8] == s[p..p + |head| + 8];
    var digits := u[|head| + 8..];
    forall i | 0 <= i < |digits|
      ensures IsDigit(digits[i])
    {
      assert digits[i] == s[p + |head| + 8 + i];
    }
  }

  // ---------------------------------------------------------------------------
  // The status id

  /** `status/` followed by a digit at `k`. */
  predicate StatusAt(s: string, k: nat)
  {
    OccursAt(s, "status/", k) && k + 7 < |s| && IsDigit(s[k + 7])
  }

  /** The last position before `n` where `StatusAt` holds: the greedy `^.*` gives
      back characters from the end until the rest of the pattern matches. */
  function LastStatus(s: string, n: nat): (k: Option<nat>)
    ensures k.Some? ==> k.value < n && StatusAt(s, k.value)
    ensures k.Some? ==> forall j :: k.value < j < n ==> !StatusAt(s, j)
    ensures k.None? ==> forall j :: 0 <= j < n ==> !StatusAt(s, j)
  {
    if n == 0 then None
    else if StatusAt(s, n - 1) then Some(n - 1)
    else LastStatus(s, n - 1)
  }

  predicate HasLineTerminator(s: string)
  {
    '\n' in s || '\r' in s
  }

  /** `regex_replace(url, "^.*status/(\d+).*$", "$1")`. The pattern is anchored at both
      ends and `.` does not cross a line terminator, so it matches the whole URL or
      nothing; on a match the URL is replaced by the digits after its last
      `status/`, otherwise it is kept as it is. */
  function StatusId(url: string): (id: string)
    ensures HasLineTerminator(url) ==> id == url
    ensures !HasLineTerminator(url) && LastStatus(url, |url|).Some? ==> id != "" && AllDigits(id)
  {
    if HasLineTerminator(url) then url
    else match LastStatus(url, |url|)
      case None => url
      case Some(k) => url[k + 7..RunEnd(url, k + 7, IsDigit)]
  }

  /** The characters of a status link `pre status/ digits rest` past `status/`. */
  lemma StatusLinkIndex(pre: string, digits: string, rest: string, j: nat)
    requires |pre| + 7 <= j < |pre + "status/" + digits + rest|
    ensures var url, e := pre + "status/" + digits + rest, |pre| + 7 + |digits|;
            (j < e ==> url[j] == digits[j - |pre| - 7]) && (e <= j ==> url[j] == rest[j - e])
  {
  }

  /** In a status link, the last `status/` followed by a digit is the one spelled
      out, as long as nothing after it holds a `/`. */
  lemma LastStatusOfLink(pre: string, digits: string, rest: string)
    requires digits != "" && AllDigits(digits) && '/' !in rest
    ensures LastStatus(pre + "status/" + digits + rest, |pre + "status/" + digits + rest|) == Some(|pre|)
  {
    var url := pre + "status/" + digits + rest;
    var k := |pre|;
    var e := k + 7 + |digits|;
    assert url[k..k + 7] == "status/";
    StatusLinkIndex(pre, digits, rest, k + 7);
    assert StatusAt(url, k);
    forall j | k < j < |url|
      ensures !StatusAt(url, j)
    {
      if j + 6 < |url| {
        StatusLinkIndex(pre, digits, rest, j + 6);
        assert url[j + 6] != '/' by {
          if j + 6 >= e {
            assert rest[j + 6 - e] in rest;
          }
        }
        Mismatch(url, "status/", j, 6);
      }
    }
  }

  /** The digit run after `status/` in a status link is exactly its digits, when
      what follows does not start with a digit. */
  lemma DigitsOfLink(pre: string, digits: string, rest: string)
    requires AllDigits(digits) && (rest == "" || !IsDigit(rest[0]))
    ensures RunEnd(pre + "status/" + digits + rest, |pre| + 7, IsDigit) == |pre| + 7 + |digits|
  {
    var url := pre + "status/" + digits + rest;
    var k := |pre|;
    var e := k + 7 + |digits|;
    forall j | k + 7 <= j < e
      ensures IsDigit(url[j])
    {
      StatusLinkIndex(pre, digits, rest, j);
    }
    if e < |url| {
      StatusLinkIndex(pre, digits, rest, e);
    }
    RunEndAt(url, k + 7, IsDigit, e);
  }

  /** A status link has a line terminator only where its parts do. */
  lemma LinkHasNoTerminator(pre: string, digits: string, rest: string)
    requires !HasLineTerminator(pre) && !HasLineTerminator(rest) && AllDigits(digits)
    ensures !HasLineTerminator(pre + "status/" + digits + rest)
  {
    assert '\n' !in "status/" && '\r' !in "status/";
    assert '\n' !in digits && '\r' !in digits by {
      forall i | 0 <= i < |digits|
        ensures digits[i] != '\n' && digits[i] != '\r'
      {
        assert IsDigit(digits[i]);
      }
    }
    NotInConcat('\n', pre, "status/");
    NotInConcat('\n', pre + "status/", digits);
    NotInConcat('\n', pre + "status/" + digits, rest);
    NotInConcat('\r', pre, "status/");
    NotInConcat('\r', pre + "status/", digits);
    NotInConcat('\r', pre + "status/" + digits, rest);
  }

  /** A status link gives back its id, whatever the query after it, provided the
      query has no `/` and does not start with a digit. */
  lemma StatusIdOfUrl(pre: string, digits: string, rest: string)
    requires !HasLineTerminator(pre) && !HasLineTerminator(rest)
    requires digits != "" && AllDigits(digits)
    requires '/' !in rest && (rest == "" || !IsDigit(rest[0]))
    ensures StatusId(pre + "status/" + digits + rest) == digits
  {
    var url := pre + "status/" + digits + rest;
    var k := |pre|;
    LinkHasNoTerminator(pre, digits, rest);
    LastStatusOfLink(pre, digits, rest);
    DigitsOfLink(pre, digits, rest);
    assert url[k + 7..k + 7 + |digits|] == digits;
  }

  function ApiUrl(id: string): string
  {
    ApiPrefix + id
  }

  // ---------------------------------------------------------------------------
  // GetDownloadLinks

  /** `media.value("url", "")`: a media entry without `url` gives `""`. */
  function MediaUrl(media: Json): (r: Try<string>)
    ensures r.Ok? <==> media.JObject? && (Contains(media, "url") ==> Field(media, "url").JString?)
    ensures media.JObject? && !Contains(media, "url") ==> r == Ok("")
    ensures r.Ok? && Contains(media, "url") ==> Field(media, "url") == JString(r.value)
  {
    ValueString(media, "url", "")
  }

  /** One entry per media element, in order; an element that is not an object, or
      whose `url` is not a string, makes the call throw. */
  function MediaLinks(items: seq<Json>): (r: Try<seq<string>>)
    ensures r.Ok? <==> forall i :: 0 <= i < |items| ==> MediaUrl(items[i]).Ok?
    ensures r.Ok? ==> |r.value| == |items|
    ensures r.Ok? ==> forall i :: 0 <= i < |items| ==> r.value[i] == MediaUrl(items[i]).value
  {
    if items == [] then Ok([])
    else match MediaUrl(items[0])
      case Throws => Throws
      case Ok(u) =>
        match MediaLinks(items[1..])
        case Throws =>
          assert forall i :: 1 <= i < |items| ==> items[i] == items[1..][i - 1];
          Throws
        case Ok(us) =>
          assert forall i :: 1 <= i < |items| ==> items[i] == items[1..][i - 1];
          Ok([u] + us)
  }

  /** An entry without `url` is kept as an empty link rather than skipped. */
  lemma EntryWithoutUrl(items: seq<Json>, i: nat)
    requires MediaLinks(items).Ok? && i < |items|
    requires items[i].JObject? && !Contains(items[i], "url")
    ensures MediaLinks(items).value[i] == ""
  {
  }

  /** The loop over `media_extended`, appending to the result. */
  method CollectMedia(items: seq<Json>) returns (r: Try<seq<string>>)
    ensures r == MediaLinks(items)
  {
    var res: seq<string> := [];
    var i := 0;
    while i < |items|
      invariant i <= |items| && |res| == i
      invariant forall k :: 0 <= k < i ==> MediaUrl(items[k]).Ok? && res[k] == MediaUrl(items[k]).value
    {
      var u := MediaUrl(items[i]);
      if u.Throws? {
        return Throws;
      }
      res := res + [u.value];
      i := i + 1;
    }
    assert MediaLinks(items).Ok?;
    assert MediaLinks(items).value == res;
    return Ok(res);
  }

  /** What `GetDownloadLinks` returns, or that it throws. A body that does not parse
      is a discarded value, which contains nothing. */
  function TwitterLinks(url: string, get: string -> Response, parse: string -> Option<Json>): (r: Outcome)
    ensures get(ApiUrl(StatusId(url))).status != HTTP_OK ==> r == Returned([])
    ensures get(ApiUrl(StatusId(url))).status == HTTP_OK && parse(get(ApiUrl(StatusId(url))).text).Some?
      && Contains(parse(get(ApiUrl(StatusId(url))).text).value, "media_extended") && r.Returned?
      ==> |r.links| == |Elements(Field(parse(get(ApiUrl(StatusId(url))).text).value, "media_extended"))|
  {
    var page := get(ApiUrl(StatusId(url)));
    if page.status != HTTP_OK then Returned([])
    else match parse(page.text)
      case None => Returned([])
      case Some(json) =>
        if !Contains(json, "media_extended") then Returned([])
        else match MediaLinks(Elements(Field(json, "media_extended")))
          case Throws => Threw
          case Ok(links) => Returned(links)
  }

  /** For an API response that answers 200 and parses to `json`: no links without
      `media_extended`; otherwise one `url` per element of `media_extended`, in
      order, or a throw when one of them cannot be read. */
  lemma TwitterLinksOfDocument(url: string, get: string -> Response, parse: string -> Option<Json>, json: Json)
    requires get(ApiUrl(StatusId(url))).status == HTTP_OK && parse(get(ApiUrl(StatusId(url))).text) == Some(json)
    ensures !Contains(json, "media_extended") ==> TwitterLinks(url, get, parse) == Returned([])
    ensures Contains(json, "media_extended") && MediaLinks(Elements(Field(json, "media_extended"))).Throws?
      ==> TwitterLinks(url, get, parse) == Threw
    ensures Contains(json, "media_extended") && MediaLinks(Elements(Field(json, "media_extended"))).Ok?
      ==> TwitterLinks(url, get, parse) == Returned(MediaLinks(Elements(Field(json, "media_extended"))).value)
  {
  }

  /** A body that is not JSON is discarded, and a discarded value has no members. */
  lemma TwitterLinksOfNonJson(url: string, get: string -> Response, parse: string -> Option<Json>)
    requires get(ApiUrl(StatusId(url))).status == HTTP_OK && parse(get(ApiUrl(StatusId(url))).text).None?
    ensures TwitterLinks(url, get, parse) == Returned([])
  {
  }

  /** `GetDownloadLinks`. */
  method GetDownloadLinks(url: string, get: string -> Response, parse: string -> Option<Json>)
    returns (out: Outcome)
    ensures out == TwitterLinks(url, get, parse)
  {
    var id := StatusId(url);
    var page := get(ApiUrl(id));
    if page.status != HTTP_OK {
      return Returned([]);
    }
    var json := parse(page.text);
    if json.None? || !Contains(json.value, "media_extended") {
      return Returned([]);
    }
    var links := CollectMedia(Elements(Field(json.value, "media_extended")));
    if links.Throws? {
      return Threw;
    }
    return Returned(links.value);
  }

  // ---------------------------------------------------------------------------
  // DownloadFile

  /** The path extension of the link without its query, or `.mp4`. */
  function TwitterExt(link: string): (ext: string)
    ensures |ext| >= 1 && ext[0] == '.' && '/' !in ext
  {
    var e := Extension(UrlPrefix(link));
    if |e| == 0 then VideoExtShape(); VideoExt else e
  }

  /** A link `prefix/stem.e`, with or without a query, is saved with `.e`. */
  lemma TwitterExtOfLink(prefix: string, stem: string, e: string, query: string)
    requires '?' !in prefix && stem != "" && '/' !in stem && '.' !in stem && '?' !in stem
    requires '/' !in e && '.' !in e && '?' !in e
    requires query == "" || query[0] == '?'
    ensures TwitterExt(prefix + "/" + (stem + ("." + e)) + query) == "." + e
  {
    var file := stem + ("." + e);
    assert '?' !in file by {
      NotInConcat('?', ".", e);
      NotInConcat('?', stem, "." + e);
    }
    assert '?' !in prefix + "/" + file by {
      NotInConcat('?', prefix, "/");
      NotInConcat('?', prefix + "/", file);
    }
    UrlPrefixOfQuery(prefix + "/" + file, query);
    ExtensionOfName(prefix, stem, e);
  }

  /** A link whose last path segment has no `.`, a video link typically, is saved
      with `.mp4`. */
  lemma TwitterExtDefault(prefix: string, name: string, query: string)
    requires '?' !in prefix && '/' !in name && '.' !in name && '?' !in name
    requires query == "" || query[0] == '?'
    ensures TwitterExt(prefix + "/" + name + query) == VideoExt
  {
    var base := prefix + "/" + name;
    assert '?' !in base by {
      NotInConcat('?', prefix, "/");
      NotInConcat('?', prefix + "/", name);
    }
    UrlPrefixOfQuery(base, query);
    FilenameAfterSlash(prefix, name);
    assert name != "." && name != "..";
  }

  /** The extension assumed for a link without one. */
  const VideoExt := ".mp4"

  lemma VideoExtShape()
    ensures |VideoExt| >= 1 && VideoExt[0] == '.' && '/' !in VideoExt
  {
  }

  /** The link actually fetched: a `.jpg` or `.png` on the image CDN is asked for in
      its original size, with the format as a query parameter. */
  function FinalLink(link: string): (r: string)
    ensures !ContainsSub(link, CdnHost) ==> r == link
    ensures TwitterExt(link) != ".jpg" && TwitterExt(link) != ".png" ==> r == link
  {
    var prefix := UrlPrefix(link);
    var ext := TwitterExt(link);
    if ContainsSub(link, CdnHost) && (ext == ".jpg" || ext == ".png") then
      prefix[..|prefix| - |ext|] + "?format=" + ext[1..] + "&name=orig"
    else link
  }

  /** Only `.jpg` and `.png` links on the CDN host are rewritten, and a rewritten link
      always asks for the original size. */
  lemma FinalLinkRewritesOnlyCdnImages(link: string)
    ensures FinalLink(link) != link ==> ContainsSub(link, CdnHost) && (TwitterExt(link) == ".jpg" || TwitterExt(link) == ".png")
    ensures FinalLink(link) != link ==> HasSuffix(FinalLink(link), "&name=orig")
  {
    var r := FinalLink(link);
    if r != link {
      var head := UrlPrefix(link)[..|UrlPrefix(link)| - |TwitterExt(link)|] + "?format=" + TwitterExt(link)[1..];
      assert r == head + "&name=orig";
      PrefixBeforeSuffix(head, "&name=orig");
      assert r[|r| - |"&name=orig"|..] == "&name=orig";
    }
  }

  /** Every link on the media path is on the CDN host. */
  lemma CdnHostIn(link: string)
    requires HasPrefix(link, CdnMedia)
    ensures ContainsSub(link, CdnHost)
  {
    assert link[8..8 + |CdnHost|] == CdnMedia[8..8 + |CdnHost|];
    assert OccursAt(link, CdnHost, 8);
  }

  /** The extension of a CDN image link is the one of its file name. */
  lemma CdnExtension(name: string, ext: string, query: string)
    requires ext == ".jpg" || ext == ".png"
    requires name != "" && '/' !in name && '.' !in name && '?' !in name
    requires query == "" || query[0] == '?'
    ensures UrlPrefix(CdnMedia + (name + ext) + query) == CdnMedia + (name + ext)
    ensures TwitterExt(CdnMedia + (name + ext) + query) == ext
  {
    ImageExtParts(ext);
    CdnMediaHasNoQuery();
    var file := name + ext;
    NotInConcat('?', name, ext);
    NotInConcat('?', CdnMedia, file);
    UrlPrefixOfQuery(CdnMedia + file, query);
    ExtensionOfName(CdnDir, name, ext[1..]);
  }

  lemma CdnMediaHasNoQuery()
    ensures '?' !in CdnMedia
  {
  }

  /** `.jpg` and `.png` are a `.` followed by a plain name. */
  lemma ImageExtParts(ext: string)
    requires ext == ".jpg" || ext == ".png"
    ensures ext == "." + ext[1..] && '/' !in ext[1..] && '.' !in ext[1..] && '?' !in ext
  {
  }

  /** The rewrite, for a link known to take it. */
  lemma RewrittenLink(link: string)
    requires ContainsSub(link, CdnHost)
    requires TwitterExt(link) == ".jpg" || TwitterExt(link) == ".png"
    ensures FinalLink(link) == UrlPrefix(link)[..|UrlPrefix(link)| - |TwitterExt(link)|] + "?format=" + TwitterExt(link)[1..] + "&name=orig"
  {
  }

  /** The rewrite of a link whose prefix is `pre` followed by its extension. */
  lemma RewriteOfParts(link: string, pre: string, ext: string)
    requires ContainsSub(link, CdnHost) && TwitterExt(link) == ext && (ext == ".jpg" || ext == ".png")
    requires UrlPrefix(link) == pre + ext
    ensures FinalLink(link) == pre + "?format=" + ext[1..] + "&name=orig"
  {
    RewrittenLink(link);
    PrefixBeforeSuffix(pre, ext);
  }

  /** A CDN image link, with or without a query, is fetched as the original-size
      image of the same name, and saved with the extension it had. */
  lemma CdnImageRewrite(name: string, ext: string, query: string)
    requires ext == ".jpg" || ext == ".png"
    requires name != "" && '/' !in name && '.' !in name && '?' !in name
    requires query == "" || query[0] == '?'
    ensures TwitterExt(CdnMedia + name + ext + query) == ext
    ensures FinalLink(CdnMedia + name + ext + query) == CdnMedia + name + "?format=" + ext[1..] + "&name=orig"
  {
    var link := CdnMedia + name + ext + query;
    Regroup(CdnMedia, name, ext, query);
    CdnExtension(name, ext, query);
    PrefixOfConcat(CdnMedia, name + ext + query);
    CdnHostIn(link);
    RewriteOfParts(link, CdnMedia + name, ext);
  }

  /** `DownloadFile` with the clock reading `ts`: nothing is written when the final
      link does not answer 200; otherwise its body goes to `<ts><ext>`, replacing any
      file of that name. */
  method DownloadFile(link: string, dir: string, ts: nat, get: string -> Response, store: Utils.Store)
    returns (path: Option<string>)
    modifies store
    ensures get(FinalLink(link)).status != HTTP_OK ==> path.None? && unchanged(store)
    ensures get(FinalLink(link)).status == HTTP_OK ==>
      && path == Some(Join(dir, Decimal(ts) + TwitterExt(link)))
      && store.files == old(store.files)[path.value := get(FinalLink(link)).text]
      && store.counter == old(store.counter)
  {
    var ext := TwitterExt(link);
    var r := get(FinalLink(link));
    if r.status != HTTP_OK {
      return None;
    }
    var file := Join(dir, Decimal(ts) + ext);
    store.WriteFile(file, r.text);
    return Some(file);
  }
}
