/** The Weibo resolver (`include/weibo.hpp`): the status id is cut from the URL, the
    status is fetched as JSON, and its pictures are listed in `pic_ids` order before
    the largest playback rendition of its video, if any. */
module Weibo {
  import opened Outcomes
  import opened Json
  import opened Text
  import opened Http
  import Utils

  /** The status endpoint with its `id` parameter. */
  const ShowEndpoint := "https://weibo.com/ajax/statuses/show?id="

  /** A host prefix `https?://(?:m\.)?weibo\.(?:com|cn)/` spells out: `scheme` is
      `http` or `https`, `sub` is empty or `m.`, `tld` is `com` or `cn`. */
  function Host(scheme: string, sub: string, tld: string): string
  {
    scheme + ("://" + (sub + ("weibo." + (tld + "/"))))
  }

  predicate IsHostPart(scheme: string, sub: string, tld: string)
  {
    && (scheme == "http" || scheme == "https")
    && (sub == "" || sub == "m.")
    && (tld == "com" || tld == "cn")
  }

  // ---------------------------------------------------------------------------
  // GetUrls

  /** `https?://` at `p`: where it ends. */
  function SchemeEnd(s: string, p: nat): Option<nat>
  {
    if !OccursAt(s, "http", p) then None
    else
      var b := if OccursAt(s, "s", p + 4) then p + 5 else p + 4;
      if OccursAt(s, "://", b) then Some(b + 3) else None
  }

  /** The optional `m.` at `c`: where it ends. */
  function SubEnd(s: string, c: nat): nat
  {
    if OccursAt(s, "m.", c) then c + 2 else c
  }

  /** `(?:com|cn)/` at `e`: where it ends. */
  function TldEnd(s: string, e: nat): Option<nat>
  {
    var f := if OccursAt(s, "com", e) then e + 3 else if OccursAt(s, "cn", e) then e + 2 else 0;
    if f == 0 || !OccursAt(s, "/", f) then None else Some(f + 1)
  }

  /** Where the host part of the pattern ends when a match starts at `p`. Each
      optional part and alternative is decided by the next characters, so the
      regular expression never has a second way to match. */
  function HostEnd(s: string, p: nat): (g: Option<nat>)
    ensures g.Some? ==> p < g.value <= |s|
  {
    match SchemeEnd(s, p)
    case None => None
    case Some(c) =>
      var d := SubEnd(s, c);
      if !OccursAt(s, "weibo.", d) then None
      else TldEnd(s, d + 6)
  }

  /** A match of `https?://(?:m\.)?weibo\.(?:com|cn)/(?!u/)[^\s]+` at `p`: the host
      part, not followed by `u/`, then the longest non-empty run of non-space
      characters. */
  function WeiboMatch(s: string, p: nat): (h: Option<nat>)
    ensures h.Some? ==> p < h.value <= |s|
  {
    match HostEnd(s, p)
    case None => None
    case Some(g) =>
      if OccursAt(s, "u/", g) then None
      else
        var h := RunEnd(s, g, c => !IsSpace(c));
        if h == g then None else Some(h)
  }

  lemma WeiboMatchAdvances(text: string)
    ensures Utils.Advances(WeiboMatch, text)
  {
  }

  /** `GetUrls`: every link found has the pattern's shape, and none is a user
      profile. */
  function GetUrls(message: string): (r: seq<string>)
    ensures forall u :: u in r ==> IsWeiboLink(u) && !IsProfileUrl(u)
  {
    WeiboMatchAdvances(message);
    assert forall p: nat :: WeiboMatch(message, p).Some? ==> ShapedMatch(message[p..WeiboMatch(message, p).value]) by {
      forall p: nat | WeiboMatch(message, p).Some?
        ensures ShapedMatch(message[p..WeiboMatch(message, p).value])
      {
        MatchIsWeiboLink(message, p);
        MatchNotProfile(message, p);
      }
    }
    Utils.MatchedUrlsShape(message, WeiboMatch, 0, ShapedMatch);
    Utils.MatchedUrls(message, WeiboMatch, 0)
  }

  ghost predicate ShapedMatch(u: string)
  {
    IsWeiboLink(u) && !IsProfileUrl(u)
  }

  /** A user-profile link: a host followed by `u/`. */
  ghost predicate IsProfileUrl(u: string)
  {
    exists scheme, sub, tld :: IsHostPart(scheme, sub, tld) && HasPrefix(u, Host(scheme, sub, tld) + "u/")
  }

  /** The scheme decides the optional `s`. */
  lemma SchemeStep(s: string, p: nat, scheme: string, rest: string)
    requires scheme == "http" || scheme == "https"
    requires OccursAt(s, scheme + ("://" + rest), p)
    ensures SchemeEnd(s, p) == Some(p + |scheme| + 3)
    ensures OccursAt(s, rest, p + |scheme| + 3)
  {
    OccursSplit(s, scheme, "://" + rest, p);
    OccursSplit(s, "://", rest, p + |scheme|);
    if scheme == "https" {
      assert scheme == "http" + "s";
      OccursSplit(s, "http", "s", p);
    } else {
      CharAt(s, "://", p + 4, 0);
      Mismatch(s, "s", p + 4, 0);
    }
  }

  /** The optional `m.` is taken exactly when the host has it. */
  lemma SubStep(s: string, c: nat, sub: string, rest: string)
    requires sub == "" || sub == "m."
    requires OccursAt(s, sub + ("weibo." + rest), c)
    ensures SubEnd(s, c) == c + |sub|
    ensures OccursAt(s, "weibo.", c + |sub|) && OccursAt(s, rest, c + |sub| + 6)
  {
    OccursSplit(s, sub, "weibo." + rest, c);
    OccursSplit(s, "weibo.", rest, c + |sub|);
    if sub == "" {
      CharAt(s, "weibo.", c, 0);
      Mismatch(s, "m.", c, 0);
    }
  }

  /** `com` is tried before `cn`, and only one of them can occur. */
  lemma TldStep(s: string, e: nat, tld: string)
    requires tld == "com" || tld == "cn"
    requires OccursAt(s, tld + "/", e)
    ensures TldEnd(s, e) == Some(e + |tld| + 1)
  {
    OccursSplit(s, tld, "/", e);
    if tld == "cn" {
      CharAt(s, "cn", e, 1);
      Mismatch(s, "com", e, 1);
    }
  }

  /** The host part ends where its last step does. */
  lemma HostEndOfSteps(s: string, p: nat, c: nat, g: nat)
    requires SchemeEnd(s, p) == Some(c) && OccursAt(s, "weibo.", SubEnd(s, c))
    requires TldEnd(s, SubEnd(s, c) + 6) == Some(g)
    ensures HostEnd(s, p) == Some(g)
  {
  }

  lemma HostLength(scheme: string, sub: string, tld: string)
    ensures |Host(scheme, sub, tld)| == |scheme| + |sub| + |tld| + 10
  {
  }

  /** Wherever a host is spelled out, the host part of the pattern matches exactly
      it. */
  lemma HostEndOfHost(s: string, p: nat, scheme: string, sub: string, tld: string)
    requires IsHostPart(scheme, sub, tld) && OccursAt(s, Host(scheme, sub, tld), p)
    ensures HostEnd(s, p) == Some(p + |Host(scheme, sub, tld)|)
  {
    SchemeStep(s, p, scheme, sub + ("weibo." + (tld + "/")));
    var c := p + |scheme| + 3;
    AfterScheme(s, c, sub, tld);
    HostEndOfSteps(s, p, c, c + |sub| + |tld| + 7);
    HostLength(scheme, sub, tld);
  }

  /** What follows the scheme: the steps after it match the rest of the host. */
  lemma AfterScheme(s: string, c: nat, sub: string, tld: string)
    requires (sub == "" || sub == "m.") && (tld == "com" || tld == "cn")
    requires OccursAt(s, sub + ("weibo." + (tld + "/")), c)
    ensures OccursAt(s, "weibo.", SubEnd(s, c))
    ensures TldEnd(s, SubEnd(s, c) + 6) == Some(c + |sub| + |tld| + 7)
  {
    SubStep(s, c, sub, tld + "/");
    TldStep(s, c + |sub| + 6, tld);
  }

  /** A match never starts with a host followed by `u/`: the lookahead rules it out. */
  lemma MatchNotAtProfile(message: string, p: nat, scheme: string, sub: string, tld: string)
    requires WeiboMatch(message, p).Some? && IsHostPart(scheme, sub, tld)
    ensures !HasPrefix(message[p..WeiboMatch(message, p).value], Host(scheme, sub, tld) + "u/")
  {
    var u := message[p..WeiboMatch(message, p).value];
    var host := Host(scheme, sub, tld);
    var w := host + "u/";
    if HasPrefix(u, w) {
      assert message[p..p + |w|] == u[..|w|];
      OccursSplit(message, host, "u/", p);
      HostEndOfHost(message, p, scheme, sub, tld);
    }
  }

  /** A single match is not a profile link. */
  lemma MatchNotProfile(message: string, p: nat)
    requires WeiboMatch(message, p).Some?
    ensures !IsProfileUrl(message[p..WeiboMatch(message, p).value])
  {
    forall scheme, sub, tld | IsHostPart(scheme, sub, tld)
      ensures !HasPrefix(message[p..WeiboMatch(message, p).value], Host(scheme, sub, tld) + "u/")
    {
      MatchNotAtProfile(message, p, scheme, sub, tld);
    }
  }

  /** What follows a host in a link: not `u/`, and a non-empty run of characters
      other than white space up to the end. */
  predicate LinkAfterHost(u: string, host: string)
  {
    && HasPrefix(u, host) && |host| < |u|
    && !OccursAt(u, "u/", |host|)
    && forall i :: |host| <= i < |u| ==> !IsSpace(u[i])
  }

  /** A link of the pattern's shape: a host it allows, then what may follow one. */
  ghost predicate IsWeiboLink(u: string)
  {
    exists scheme, sub, tld :: IsHostPart(scheme, sub, tld) && LinkAfterHost(u, Host(scheme, sub, tld))
  }

  /** The scheme the recogniser read. */
  lemma SchemeOf(s: string, p: nat, c: nat) returns (scheme: string)
    requires SchemeEnd(s, p) == Some(c)
    ensures (scheme == "http" || scheme == "https") && c == p + |scheme| + 3
    ensures OccursAt(s, scheme, p) && OccursAt(s, "://", p + |scheme|)
  {
    if OccursAt(s, "s", p + 4) {
      scheme := "https";
      OccursJoin(s, "http", "s", p);
      assert "http" + "s" == scheme;
    } else {
      scheme := "http";
    }
  }

  /** The top-level domain the recogniser read. */
  lemma TldOf(s: string, e: nat, g: nat) returns (tld: string)
    requires TldEnd(s, e) == Some(g)
    ensures (tld == "com" || tld == "cn") && g == e + |tld| + 1
    ensures OccursAt(s, tld + "/", e)
  {
    tld := if OccursAt(s, "com", e) then "com" else "cn";
    OccursJoin(s, tld, "/", e);
  }

  /** The rest of the host the recogniser read after the scheme. */
  lemma AfterSchemeOf(s: string, c: nat, g: nat) returns (sub: string, tld: string)
    requires OccursAt(s, "weibo.", SubEnd(s, c)) && TldEnd(s, SubEnd(s, c) + 6) == Some(g)
    ensures (sub == "" || sub == "m.") && (tld == "com" || tld == "cn")
    ensures OccursAt(s, sub + ("weibo." + (tld + "/")), c) && g == c + |sub| + |tld| + 7
  {
    var d := SubEnd(s, c);
    sub := if OccursAt(s, "m.", c) then "m." else "";
    tld := TldOf(s, d + 6, g);
    OccursJoin(s, "weibo.", tld + "/", d);
    OccursJoin(s, sub, "weibo." + (tld + "/"), c);
  }

  /** The host the recogniser read: wherever the host part matches, it spells out
      one of the hosts, and ends where that host does. */
  lemma HostOfHostEnd(s: string, p: nat, g: nat) returns (scheme: string, sub: string, tld: string)
    requires HostEnd(s, p) == Some(g)
    ensures IsHostPart(scheme, sub, tld) && OccursAt(s, Host(scheme, sub, tld), p)
    ensures g == p + |Host(scheme, sub, tld)|
  {
    var c := SchemeEnd(s, p).value;
    scheme := SchemeOf(s, p, c);
    sub, tld := AfterSchemeOf(s, c, g);
    var rest := sub + ("weibo." + (tld + "/"));
    OccursJoin(s, "://", rest, c - 3);
    OccursJoin(s, scheme, "://" + rest, p);
    HostLength(scheme, sub, tld);
  }

  /** A single match has the pattern's shape. */
  lemma MatchIsWeiboLink(s: string, p: nat)
    requires WeiboMatch(s, p).Some?
    ensures IsWeiboLink(s[p..WeiboMatch(s, p).value])
  {
    var h := WeiboMatch(s, p).value;
    var g := HostEnd(s, p).value;
    var scheme, sub, tld := HostOfHostEnd(s, p, g);
    var host, u := Host(scheme, sub, tld), s[p..h];
    assert u[..|host|] == s[p..g];
    forall i | |host| <= i < |u|
      ensures !IsSpace(u[i])
    {
      assert u[i] == s[p + i];
    }
    if OccursAt(u, "u/", |host|) {
      OccursAtSlice(s, p, h, "u/", |host|);
    }
    assert LinkAfterHost(u, host);
  }

  // ---------------------------------------------------------------------------
  // The status id

  /** What follows the last `/` (the whole URL when there is none, since `npos + 1`
      wraps to 0), cut at its first `?`. */
  function StatusId(url: string): (id: string)
    ensures '/' !in id && '?' !in id
  {
    var tail := match LastIndexOf(url, '/') case None => url case Some(i) => url[i + 1..];
    UrlPrefix(tail)
  }

  /** After the last `/`, the id is the segment without its query. */
  lemma StatusIdAfterSlash(base: string, rest: string)
    requires '/' !in rest
    ensures StatusId(base + "/" + rest) == UrlPrefix(rest)
  {
    var url := base + "/" + rest;
    LastIndexOfAt(url, '/', |base|);
    assert url[|base| + 1..] == rest;
  }

  /** The last path segment of a status link comes back, with or without a query. */
  lemma StatusIdOfUrl(base: string, id: string, query: string)
    requires '/' !in id && '?' !in id && '/' !in query
    ensures StatusId(base + "/" + id) == id
    ensures StatusId(base + "/" + id + "?" + query) == id
  {
    StatusIdAfterSlash(base, id);
    UrlPrefixOfQuery(id, "");
    assert id + "" == id;
    var q := "?" + query;
    var rest := id + q;
    assert '/' !in "?";
    NotInConcat('/', "?", query);
    NotInConcat('/', id, q);
    Assoc(base + "/" + id, "?", query);
    Assoc(base + "/", id, q);
    StatusIdAfterSlash(base, rest);
    UrlPrefixOfQuery(id, q);
  }

  /** The id as `GetDownloadLinks` computes it, shortened in place. */
  method CutStatusId(url: string) returns (id: string)
    ensures id == StatusId(url)
  {
    var slash := LastIndexOf(url, '/');
    id := if slash.None? then url else url[slash.value + 1..];
    var q := FindChar(id, '?');
    if q.Some? {
      id := id[..q.value];
    }
  }

  function ShowUrl(id: string): string
  {
    ShowEndpoint + id
  }

  // ---------------------------------------------------------------------------
  // Pictures

  /** `json["pic_infos"][pid.get<std::string>()]["largest"]["url"].get<std::string>()`,
      where every `[]` is the inserting, non-const one. */
  function PictureUrl(infos: Json, pid: Json): (r: Try<string>)
    ensures !pid.JString? ==> r.Throws?
    ensures r.Ok? ==>
      && Contains(infos, pid.s) && Contains(Field(infos, pid.s), "largest")
      && Contains(Field(Field(infos, pid.s), "largest"), "url")
      && Field(Field(Field(infos, pid.s), "largest"), "url") == JString(r.value)
  {
    match GetString(pid)
    case Throws => Throws
    case Ok(id) =>
      match Index(infos, id)
      case Throws => Throws
      case Ok(info) =>
        match Index(info, "largest")
        case Throws => Throws
        case Ok(largest) =>
          match Index(largest, "url")
          case Throws => Throws
          case Ok(u) => GetString(u)
  }

  /** A picture listed with its largest rendition gives that rendition's URL. */
  lemma PictureUrlOfInfo(infos: Json, id: string, u: string)
    requires Contains(infos, id)
    requires Field(infos, id) == JObject([("largest", JObject([("url", JString(u))]))])
    ensures PictureUrl(infos, JString(id)) == Ok(u)
  {
  }

  /** An id missing from `pic_infos` is not skipped: the null the lookup inserts has
      no URL, so the conversion throws. */
  lemma MissingPictureThrows(infos: Json, id: string)
    requires infos.JObject? && !Contains(infos, id)
    ensures PictureUrl(infos, JString(id)) == Throws
  {
  }

  /** One URL per id, in id order; any failing id makes the whole call throw. */
  function PictureLinks(infos: Json, pids: seq<Json>): (r: Try<seq<string>>)
    ensures r.Ok? <==> forall i :: 0 <= i < |pids| ==> PictureUrl(infos, pids[i]).Ok?
    ensures r.Ok? ==> |r.value| == |pids|
    ensures r.Ok? ==> forall i :: 0 <= i < |pids| ==> r.value[i] == PictureUrl(infos, pids[i]).value
  {
    if pids == [] then Ok([])
    else match PictureUrl(infos, pids[0])
      case Throws => Throws
      case Ok(u) =>
        match PictureLinks(infos, pids[1..])
        case Throws =>
          assert forall i :: 1 <= i < |pids| ==> pids[i] == pids[1..][i - 1];
          Throws
        case Ok(us) =>
          assert forall i :: 1 <= i < |pids| ==> pids[i] == pids[1..][i - 1];
          Ok([u] + us)
  }

  /** The `pic_ids` loop, appending to the result. */
  method CollectPictures(infos: Json, pids: seq<Json>) returns (r: Try<seq<string>>)
    ensures r == PictureLinks(infos, pids)
  {
    var res: seq<string> := [];
    var i := 0;
    while i < |pids|
      invariant i <= |pids| && |res| == i
      invariant forall k :: 0 <= k < i ==> PictureUrl(infos, pids[k]).Ok? && res[k] == PictureUrl(infos, pids[k]).value
    {
      var u := PictureUrl(infos, pids[i]);
      if u.Throws? {
        return Throws;
      }
      res := res + [u.value];
      i := i + 1;
    }
    assert PictureLinks(infos, pids).Ok?;
    assert PictureLinks(infos, pids).value == res;
    return Ok(res);
  }

  // ---------------------------------------------------------------------------
  // The video

  /** `entry["play_info"].value("size", 0.0)` with the const `[]`. */
  function PlaySize(entry: Json): (r: Try<int>)
    ensures r.Ok? <==> Contains(entry, "play_info") && Field(entry, "play_info").JObject?
                       && (Contains(Field(entry, "play_info"), "size") ==> Field(Field(entry, "play_info"), "size").JNumber?)
    ensures r.Ok? && !Contains(Field(entry, "play_info"), "size") ==> r.value == 0
  {
    match At(entry, "play_info")
    case Throws => Throws
    case Ok(info) => ValueNumber(info, "size", 0)
  }

  /** `max_element` from position `i` on, `best` being the largest so far: it moves
      only to a strictly larger entry. Every comparison reads both sizes. */
  function MaxFrom(list: seq<Json>, best: nat, i: nat): (r: Try<nat>)
    requires best < i <= |list|
    ensures r.Ok? ==> r.value < |list|
    decreases |list| - i
  {
    if i == |list| then Ok(best)
    else match (PlaySize(list[best]), PlaySize(list[i]))
      case (Ok(a), Ok(b)) => MaxFrom(list, if a < b then i else best, i + 1)
      case _ => Throws
  }

  /** The position `max_element` returns: none for an empty list. */
  function BestIndex(list: seq<Json>): (r: Try<Option<nat>>)
    ensures r.Ok? && r.value.Some? ==> r.value.value < |list|
  {
    if list == [] then Ok(None)
    else match MaxFrom(list, 0, 1)
      case Throws => Throws
      case Ok(b) => Ok(Some(b))
  }

  predicate Sized(list: seq<Json>)
  {
    forall i :: 0 <= i < |list| ==> PlaySize(list[i]).Ok?
  }

  lemma {:induction false} MaxFromFirstMax(list: seq<Json>, best: nat, i: nat)
    requires Sized(list) && best < i <= |list|
    requires forall k :: 0 <= k < i ==> PlaySize(list[k]).value <= PlaySize(list[best]).value
    requires forall k :: 0 <= k < best ==> PlaySize(list[k]).value < PlaySize(list[best]).value
    ensures MaxFrom(list, best, i).Ok?
    ensures var b := MaxFrom(list, best, i).value;
      && (forall k :: 0 <= k < |list| ==> PlaySize(list[k]).value <= PlaySize(list[b]).value)
      && (forall k :: 0 <= k < b ==> PlaySize(list[k]).value < PlaySize(list[b]).value)
    decreases |list| - i
  {
    if i < |list| {
      var a, b := PlaySize(list[best]).value, PlaySize(list[i]).value;
      MaxFromFirstMax(list, if a < b then i else best, i + 1);
    }
  }

  /** When every size can be read, the chosen entry has the largest size, and every
      entry before it a strictly smaller one: the first of equal maxima wins. */
  lemma BestIsFirstMaximum(list: seq<Json>)
    requires list != [] && Sized(list)
    ensures BestIndex(list).Ok? && BestIndex(list).value.Some?
    ensures var b := BestIndex(list).value.value;
      && (forall k :: 0 <= k < |list| ==> PlaySize(list[k]).value <= PlaySize(list[b]).value)
      && (forall k :: 0 <= k < b ==> PlaySize(list[k]).value < PlaySize(list[b]).value)
  {
    MaxFromFirstMax(list, 0, 1);
  }

  lemma {:induction false} MaxFromThrows(list: seq<Json>, best: nat, i: nat, k: nat)
    requires best < i <= k < |list| && PlaySize(list[k]).Throws?
    ensures MaxFrom(list, best, i) == Throws
    decreases |list| - i
  {
    if i < k {
      match (PlaySize(list[best]), PlaySize(list[i]))
      case (Ok(a), Ok(b)) => MaxFromThrows(list, if a < b then i else best, i + 1, k);
      case _ =>
    }
  }

  /** With two entries or more every size is read, so one that cannot be read
      makes the whole call throw; a single entry is chosen without reading it. */
  lemma BestIndexThrows(list: seq<Json>, k: nat)
    requires 2 <= |list| && k < |list| && PlaySize(list[k]).Throws?
    ensures BestIndex(list) == Throws
    ensures BestIndex([list[k]]) == Ok(Some(0))
  {
    if k > 0 {
      MaxFromThrows(list, 0, 1, k);
    }
  }

  /** `(*best)["play_info"]["url"].get<std::string>()` with the const `[]`. */
  function VideoUrl(entry: Json): (r: Try<string>)
    ensures r.Ok? <==> Contains(entry, "play_info") && Contains(Field(entry, "play_info"), "url")
                       && Field(Field(entry, "play_info"), "url").JString?
    ensures r.Ok? ==> Field(Field(entry, "play_info"), "url") == JString(r.value)
  {
    match At(entry, "play_info")
    case Throws => Throws
    case Ok(info) =>
      match At(info, "url")
      case Throws => Throws
      case Ok(u) => GetString(u)
  }

  function BestVideo(list: seq<Json>): (r: Try<Option<string>>)
    ensures list == [] ==> r == Ok(None)
    ensures list != [] && r.Ok? ==> r.value.Some?
    ensures r.Ok? && r.value.Some? ==>
      exists b :: 0 <= b < |list| && BestIndex(list) == Ok(Some(b)) && VideoUrl(list[b]) == Ok(r.value.value)
  {
    match BestIndex(list)
    case Throws => Throws
    case Ok(None) => Ok(None)
    case Ok(Some(b)) =>
      match VideoUrl(list[b])
      case Throws => Throws
      case Ok(u) => Ok(Some(u))
  }

  /** The status has `page_info.media_info.playback_list`. */
  predicate HasPlayback(json: Json)
  {
    && Contains(json, "page_info") && Contains(Field(json, "page_info"), "media_info")
    && Contains(Field(Field(json, "page_info"), "media_info"), "playback_list")
  }

  /** The entries the `max_element` call ranges over. */
  function Playback(json: Json): seq<Json>
    requires HasPlayback(json)
  {
    Elements(Field(Field(Field(json, "page_info"), "media_info"), "playback_list"))
  }

  /** The video of `page_info.media_info.playback_list`, when the status has one. */
  function MediaVideo(json: Json): (r: Try<Option<string>>)
    ensures !Contains(json, "page_info") ==> r == Ok(None)
    ensures !HasPlayback(json) ==> r == Ok(None)
    ensures HasPlayback(json) ==> r == BestVideo(Playback(json))
  {
    if Contains(json, "page_info") && Contains(Field(json, "page_info"), "media_info") then
      var media := Field(Field(json, "page_info"), "media_info");
      if Contains(media, "playback_list") then BestVideo(Elements(Field(media, "playback_list")))
      else Ok(None)
    else Ok(None)
  }

  // ---------------------------------------------------------------------------
  // GetDownloadLinks

  /** The picture links of a status, or none when it lacks `pic_ids` or `pic_infos`. */
  function StatusPictures(json: Json): (r: Try<seq<string>>)
    ensures !(Contains(json, "pic_ids") && Contains(json, "pic_infos")) ==> r == Ok([])
    ensures r.Ok? && Contains(json, "pic_ids") && Contains(json, "pic_infos") ==>
      var ids := Elements(Field(json, "pic_ids"));
      && |r.value| == |ids|
      && forall i :: 0 <= i < |ids| ==> PictureUrl(Field(json, "pic_infos"), ids[i]) == Ok(r.value[i])
  {
    if Contains(json, "pic_ids") && Contains(json, "pic_infos") then
      PictureLinks(Field(json, "pic_infos"), Elements(Field(json, "pic_ids")))
    else Ok([])
  }

  /** What `GetDownloadLinks` returns, or that it throws. */
  function WeiboLinks(url: string, get: string -> Response, parse: string -> Option<Json>): (r: Outcome)
    ensures get(ShowUrl(StatusId(url))).status != HTTP_OK ==> r == Returned([])
    ensures get(ShowUrl(StatusId(url))).status == HTTP_OK && parse(get(ShowUrl(StatusId(url))).text).None?
      ==> r == Returned([])
  {
    var page := get(ShowUrl(StatusId(url)));
    if page.status != HTTP_OK then Returned([])
    else match parse(page.text)
      case None => Returned([])
      case Some(json) =>
        match StatusPictures(json)
        case Throws => Threw
        case Ok(pictures) =>
          match MediaVideo(json)
          case Throws => Threw
          case Ok(None) => Returned(pictures)
          case Ok(Some(v)) => Returned(pictures + [v])
  }

  /** For a status that answers 200 and parses to `json`: the call throws exactly when
      the pictures or the video throw; otherwise it returns the pictures, followed by
      the video when the status has a non-empty playback list. */
  lemma WeiboLinksOfDocument(url: string, get: string -> Response, parse: string -> Option<Json>, json: Json)
    requires get(ShowUrl(StatusId(url))).status == HTTP_OK
    requires parse(get(ShowUrl(StatusId(url))).text) == Some(json)
    ensures WeiboLinks(url, get, parse).Threw? <==> StatusPictures(json).Throws? || MediaVideo(json).Throws?
    ensures WeiboLinks(url, get, parse).Returned? && !(HasPlayback(json) && Playback(json) != []) ==>
      WeiboLinks(url, get, parse).links == StatusPictures(json).value
    ensures WeiboLinks(url, get, parse).Returned? && HasPlayback(json) && Playback(json) != [] ==>
      WeiboLinks(url, get, parse).links == StatusPictures(json).value + [BestVideo(Playback(json)).value.value]
  {
  }

  /** The pictures come first, one per id and in id order. A link after them is the
      URL of the entry `max_element` picks from the playback list: the first entry of
      largest size. */
  lemma PicturesThenVideo(url: string, get: string -> Response, parse: string -> Option<Json>, json: Json)
    requires get(ShowUrl(StatusId(url))).status == HTTP_OK
    requires parse(get(ShowUrl(StatusId(url))).text) == Some(json)
    requires WeiboLinks(url, get, parse).Returned?
    ensures var links := WeiboLinks(url, get, parse).links;
      if Contains(json, "pic_ids") && Contains(json, "pic_infos") then
        var pids := Elements(Field(json, "pic_ids"));
        && |pids| <= |links| <= |pids| + 1
        && forall i :: 0 <= i < |pids| ==> links[i] == PictureUrl(Field(json, "pic_infos"), pids[i]).value
      else |links| <= 1
    ensures var links := WeiboLinks(url, get, parse).links;
      var n := |StatusPictures(json).value|;
      n <= |links| && (|links| == n + 1 <==> HasPlayback(json) && Playback(json) != [])
      && (|links| == n + 1 ==>
            exists b :: 0 <= b < |Playback(json)| && BestIndex(Playback(json)) == Ok(Some(b))
                        && VideoUrl(Playback(json)[b]) == Ok(links[n]))
  {
    WeiboLinksOfDocument(url, get, parse, json);
  }

  /** `GetDownloadLinks`: the id is cut in place, the pictures are appended in a
      loop, then the video. */
  method GetDownloadLinks(url: string, get: string -> Response, parse: string -> Option<Json>)
    returns (out: Outcome)
    ensures out == WeiboLinks(url, get, parse)
  {
    var id := CutStatusId(url);
    var page := get(ShowUrl(id));
    if page.status != HTTP_OK {
      return Returned([]);
    }
    var parsed := parse(page.text);
    if parsed.None? {
      return Returned([]);
    }
    var json := parsed.value;
    var res: seq<string> := [];
    if Contains(json, "pic_ids") && Contains(json, "pic_infos") {
      var pictures := CollectPictures(Field(json, "pic_infos"), Elements(Field(json, "pic_ids")));
      if pictures.Throws? {
        return Threw;
      }
      res := pictures.value;
    }
    var video := MediaVideo(json);
    if video.Throws? {
      return Threw;
    }
    if video.value.Some? {
      res := res + [video.value.value];
    }
    return Returned(res);
  }

  // ---------------------------------------------------------------------------
  // DownloadFile

  /** The path extension of the link without its query, or `.bin`. */
  function WeiboExt(link: string): (ext: string)
    ensures ext != "" && ext[0] == '.' && '/' !in ext
  {
    var e := Extension(UrlPrefix(link));
    if e == "" then BinExtShape(); BinExt else e
  }

  /** The extension assumed for a link without one. */
  const BinExt := ".bin"

  lemma BinExtShape()
    ensures BinExt != "" && BinExt[0] == '.' && '/' !in BinExt
  {
  }

  /** A link `prefix/stem.e`, with or without a query, is saved with `.e`. */
  lemma WeiboExtOfLink(prefix: string, stem: string, e: string, query: string)
    requires '?' !in prefix && stem != "" && '/' !in stem && '.' !in stem && '?' !in stem
    requires '/' !in e && '.' !in e && '?' !in e
    requires query == "" || query[0] == '?'
    ensures WeiboExt(prefix + "/" + (stem + ("." + e)) + query) == "." + e
  {
    var file := stem + ("." + e);
    assert '?' !in file by {
      NotInConcat('?', ".", e);
      NotInConcat('?', stem, "." + e);
    }
    assert '?' !in prefix + "/" + file by {
      NotInConcat('?', prefix, "/");
      NotInConcat('?', prefix + "/", file);
    }
    UrlPrefixOfQuery(prefix + "/" + file, query);
    ExtensionOfName(prefix, stem, e);
  }

  /** A link whose last path segment has no `.` is saved with `.bin`. */
  lemma WeiboExtDefault(prefix: string, name: string, query: string)
    requires '?' !in prefix && '/' !in name && '.' !in name && '?' !in name
    requires query == "" || query[0] == '?'
    ensures WeiboExt(prefix + "/" + name + query) == ".bin"
  {
    var base := prefix + "/" + name;
    assert '?' !in base by {
      NotInConcat('?', prefix, "/");
      NotInConcat('?', prefix + "/", name);
    }
    UrlPrefixOfQuery(base, query);
    FilenameAfterSlash(prefix, name);
    assert name != "." && name != "..";
  }

  /** The query never decides the extension, even when it holds a dot. */
  lemma QueryIgnored(base: string, query: string)
    requires '?' !in base
    ensures WeiboExt(base + "?" + query) == WeiboExt(base)
  {
    var link := base + "?" + query;
    assert link[|base|] == '?' && link[..|base|] == base;
    assert FindChar(link, '?') == Some(|base|);
  }

  /** `DownloadFile` with the clock reading `ts`: nothing is written when the link
      does not answer 200; otherwise the body goes to `<ts><ext>`, replacing any file
      of that name. */
  method DownloadFile(link: string, dir: string, ts: nat, get: string -> Response, store: Utils.Store)
    returns (path: Option<string>)
    modifies store
    ensures get(link).status != HTTP_OK ==> path.None? && unchanged(store)
    ensures get(link).status == HTTP_OK ==>
      && path == Some(Join(dir, Decimal(ts) + WeiboExt(link)))
      && store.files == old(store.files)[path.value := get(link).text]
      && store.counter == old(store.counter)
  {
    var r := get(link);
    if r.status != HTTP_OK {
      return None;
    }
    var q := FindChar(link, '?');
    var base := if q.None? then link else link[..q.value];
    var ext := Extension(base);
    if ext == "" {
      ext := BinExt;
    }
    var target := Join(dir, Decimal(ts) + ext);
    store.WriteFile(target, r.text);
    return Some(target);
  }
}
