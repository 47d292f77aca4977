/** The Bilibili resolver (`include/bilibili.hpp`): the link is followed to its final
    URL, the video id (`BV` and ten letters or digits) is read from it, the video's
    page list is fetched, and every page's play list gives the stream links. An
    exception anywhere ends the walk with the links collected so far. */
module Bilibili {
  import opened Outcomes
  import opened Json
  import opened Text
  import opened Http
  import Utils

  const ViewEndpoint := "https://api.bilibili.com/x/web-interface/view?bvid="
  const PlayEndpoint := "https://api.bilibili.com/x/player/playurl?bvid="

  /** The hosts and paths `(?:(?:www\.|m\.|t\.)?bilibili\.com/(?:video|opus)/)|(?:b23\.tv|bili2233\.cn)/`
      allows, in the order the regular expression tries them. */
  const SitePaths: seq<string> :=
    Utils.Expand(["www.", "m.", "t.", ""], Utils.Expand(["bilibili.com/"], ["video/", "opus/"]))
    + ["b23.tv/", "bili2233.cn/"]

  /** Each site path with the optional `https?://` before it, the scheme tried first. */
  const LinkPrefixes: seq<string> := Utils.Expand(["https://", "http://", ""], SitePaths)

  // ---------------------------------------------------------------------------
  // GetUrls

  /** The class `[^ \s\u3000]`. The `\u3000` escape reaches a `char` regular
      expression as the code 0x3000 cut down to one byte, that is the character 0,
      so the class excludes a space, white space and the NUL character, and lets the
      ideographic space through. */
  predicate IsLinkChar(c: char)
  {
    c != ' ' && !IsSpace(c) && c != '\0'
  }

  /** The class the pattern is evidently meant to have: no space, no white space
      and no ideographic space. */
  predicate IsLinkCharIntended(c: char)
  {
    c != ' ' && !IsSpace(c) && c != '\U{3000}'
  }

  /** A match of the URL pattern at `p`. */
  function BilibiliMatch(s: string, p: nat): Option<nat>
  {
    Utils.PrefixRunMatch(s, p, LinkPrefixes, IsLinkChar)
  }

  lemma BilibiliMatchAdvances(text: string)
    ensures Utils.Advances(BilibiliMatch, text)
  {
  }

  /** `GetUrls`: every link found is a site path, with or without a scheme, followed
      by characters other than a space, white space or NUL. */
  function GetUrls(message: string): (r: seq<string>)
    ensures forall u :: u in r ==> Utils.PrefixedRun(u, LinkPrefixes, IsLinkChar)
  {
    Utils.MatchedPrefixRuns(message, BilibiliMatch, LinkPrefixes, IsLinkChar);
    Utils.MatchedUrls(message, BilibiliMatch, 0)
  }

  /** The pattern with the intended class. */
  function BilibiliMatchIntended(s: string, p: nat): Option<nat>
  {
    Utils.PrefixRunMatch(s, p, LinkPrefixes, IsLinkCharIntended)
  }

  lemma BilibiliMatchIntendedAdvances(text: string)
    ensures Utils.Advances(BilibiliMatchIntended, text)
  {
  }

  /** `GetUrls` with the intended class: every link found is a site path followed by
      characters other than a space, white space or the ideographic space. */
  function GetUrlsIntended(message: string): (r: seq<string>)
    ensures forall u :: u in r ==> Utils.PrefixedRun(u, LinkPrefixes, IsLinkCharIntended)
  {
    Utils.MatchedPrefixRuns(message, BilibiliMatchIntended, LinkPrefixes, IsLinkCharIntended);
    Utils.MatchedUrls(message, BilibiliMatchIntended, 0)
  }

  /** A short link followed by an ideographic space, as a message written with a
      Chinese input method has it. */
  const SpaceMessage := "https://b23.tv/abc\U{3000}"

  lemma ShortLinkSite()
    ensures "b23.tv/" in SitePaths
  {
    assert SitePaths[|SitePaths| - 2] == "b23.tv/";
  }

  lemma ShortLinkSpelled()
    ensures "https://" + "b23.tv/" == "https://b23.tv/"
  {
  }

  /** A step of `SpaceMessagePrefix`: the short-link prefix is one of the pattern's
      expanded prefixes. */
  lemma ShortLinkPrefix()
    ensures "https://b23.tv/" in LinkPrefixes
  {
    ShortLinkSite();
    Utils.ExpandHas(["https://", "http://", ""], SitePaths, "https://", "b23.tv/");
    ShortLinkSpelled();
    assert LinkPrefixes == Utils.Expand(["https://", "http://", ""], SitePaths);
  }

  /** The message starts with the short-link prefix. */
  lemma SpaceMessagePrefix() returns (k: nat)
    ensures k < |LinkPrefixes| && OccursAt(SpaceMessage, LinkPrefixes[k], 0) && |LinkPrefixes[k]| == 15
  {
    ShortLinkPrefix();
    k :| k < |LinkPrefixes| && LinkPrefixes[k] == "https://b23.tv/";
    assert SpaceMessage[0..15] == "https://b23.tv/";
  }

  /** As written, the link runs on through the ideographic space to the end of the
      message. */
  lemma IdeographicSpaceAsWritten()
    ensures BilibiliMatch(SpaceMessage, 0) == Some(|SpaceMessage|)
    ensures GetUrls(SpaceMessage) == [SpaceMessage]
  {
    var m := SpaceMessage;
    forall i | 0 <= i < |m|
      ensures IsLinkChar(m[i])
    {
      assert i < 15 || i == 15 || i == 16 || i == 17 || i == 18;
    }
    var k0 := SpaceMessagePrefix();
    RunEndAt(m, 15, IsLinkChar, |m|);
    if BilibiliMatch(m, 0).None? {
      Utils.PrefixRunMatchNone(m, 0, LinkPrefixes, IsLinkChar);
      assert false;
    }
    var k := Utils.PrefixRunMatchWhich(m, 0, LinkPrefixes, IsLinkChar);
    RunEndAt(m, |LinkPrefixes[k]|, IsLinkChar, |m|);
    BilibiliMatchAdvances(m);
    assert m[0..|m|] == m;
  }

  /** With the intended class, the link ends before the ideographic space, and nothing
      after it is a second link. */
  lemma IdeographicSpaceIntended()
    ensures BilibiliMatchIntended(SpaceMessage, 0) == Some(|SpaceMessage| - 1)
    ensures GetUrlsIntended(SpaceMessage) == [SpaceMessage[..|SpaceMessage| - 1]]
  {
    var m := SpaceMessage;
    forall i | 0 <= i < |m| - 1
      ensures IsLinkCharIntended(m[i])
    {
      assert i < 15 || i == 15 || i == 16 || i == 17;
    }
    assert !IsLinkCharIntended(m[|m| - 1]);
    var k0 := SpaceMessagePrefix();
    RunEndAt(m, 15, IsLinkCharIntended, |m| - 1);
    if BilibiliMatchIntended(m, 0).None? {
      Utils.PrefixRunMatchNone(m, 0, LinkPrefixes, IsLinkCharIntended);
      assert false;
    }
    var k := Utils.PrefixRunMatchWhich(m, 0, LinkPrefixes, IsLinkCharIntended);
    RunEndAt(m, |LinkPrefixes[k]|, IsLinkCharIntended, |m| - 1);
    if BilibiliMatchIntended(m, |m| - 1).Some? {
      var j := Utils.PrefixRunMatchWhich(m, |m| - 1, LinkPrefixes, IsLinkCharIntended);
      assert false;
    }
    BilibiliMatchIntendedAdvances(m);
  }

  // ---------------------------------------------------------------------------
  // The video id

  /** A match of `BV[a-zA-Z0-9]{10}` at `p`. */
  function BvAt(s: string, p: nat): (e: Option<nat>)
    ensures e.Some? ==> e.value == p + 12 <= |s|
  {
    if OccursAt(s, "BV", p) && p + 12 <= |s| && forall i :: p + 2 <= i < p + 12 ==> IsAsciiAlnum(s[i])
    then Some(p + 12)
    else None
  }

  /** A video id: `BV` and ten ASCII letters or digits. */
  predicate IsBvid(id: string)
  {
    |id| == 12 && HasPrefix(id, "BV") && forall i :: 2 <= i < 12 ==> IsAsciiAlnum(id[i])
  }

  /** The leftmost match of `BV[a-zA-Z0-9]{10}` in the final URL. */
  function FindBvid(url: string): (id: Option<string>)
    ensures id.Some? ==> IsBvid(id.value) && ContainsSub(url, id.value)
    ensures id.Some? ==>
      exists p: nat :: OccursAt(url, id.value, p) && BvAt(url, p).Some? && forall j: nat :: j < p ==> BvAt(url, j).None?
    ensures id.None? ==> forall k :: 0 <= k <= |url| ==> BvAt(url, k).None?
  {
    match Utils.Search(url, BvAt, 0)
    case None => None
    case Some((p, e)) =>
      var id := url[p..p + 12];
      assert IsBvid(id) by {
        assert id[..2] == url[p..p + 2];
        forall i | 2 <= i < 12
          ensures IsAsciiAlnum(id[i])
        {
          assert id[i] == url[p + i];
        }
      }
      assert OccursAt(url, id, p);
      Some(id)
  }

  /** A video link whose text before the id holds no `B` gives that id. */
  lemma FindBvidOfLink(pre: string, id: string, rest: string)
    requires 'B' !in pre && IsBvid(id)
    ensures FindBvid(pre + id + rest) == Some(id)
  {
    var u := pre + id + rest;
    var p := |pre|;
    forall k | 0 <= k < p
      ensures BvAt(u, k).None?
    {
      assert u[k] == pre[k];
      Mismatch(u, "BV", k, 0);
    }
    assert u[p..p + 12] == id;
    assert u[p..p + 2] == id[..2];
    forall i | p + 2 <= i < p + 12
      ensures IsAsciiAlnum(u[i])
    {
      assert u[i] == id[i - p];
    }
    assert BvAt(u, p) == Some(p + 12);
    Utils.SearchFirst(u, BvAt, 0, p);
    assert FindBvid(u) == Some(u[p..p + 12]);
  }

  function ViewUrl(bvid: string): string
  {
    ViewEndpoint + bvid
  }

  function PlayUrl(bvid: string, cid: nat): string
  {
    PlayEndpoint + bvid + "&cid=" + Decimal(cid) + "&qn=120"
  }

  // ---------------------------------------------------------------------------
  // GetDownloadLinks

  /** The links a stretch of the walk collects, and whether an exception ended it. */
  datatype Collected = Collected(links: seq<string>, threw: bool)

  /** Two stretches of a walk one after the other: the second runs only when the
      first ended without an exception. */
  function Followed(a: Collected, b: Collected): (r: Collected)
    ensures a.links <= r.links
    ensures r.threw <==> a.threw || b.threw
  {
    if a.threw then a else Collected(a.links + b.links, b.threw)
  }

  /** A `durl` item: no link when it has no `url`; its `url` when that is a string;
      an exception otherwise. */
  function ItemUrl(item: Json): (r: Try<Option<string>>)
    ensures r == Ok(None) <==> !Contains(item, "url")
    ensures r.Ok? && r.value.Some? <==> Contains(item, "url") && Field(item, "url").JString?
    ensures r.Ok? && r.value.Some? ==> Field(item, "url") == JString(r.value.value)
  {
    if !Contains(item, "url") then Ok(None)
    else match GetString(Field(item, "url"))
      case Throws => Throws
      case Ok(u) => Ok(Some(u))
  }

  /** The inner loop over `durl`: the links in item order, up to the first item whose
      `url` is not a string. */
  function DurlLinks(items: seq<Json>): (r: Collected)
    ensures |r.links| <= |items|
  {
    if items == [] then Collected([], false)
    else
      match ItemUrl(items[0])
      case Throws => Collected([], true)
      case Ok(None) => DurlLinks(items[1..])
      case Ok(Some(u)) =>
        var rest := DurlLinks(items[1..]);
        Collected([u] + rest.links, rest.threw)
  }

  /** The `durl` walk ends in an exception exactly when some item's `url` is not a
      string, and every link it collects is the `url` of one of the items. */
  lemma {:induction false} DurlLinksSound(items: seq<Json>)
    ensures DurlLinks(items).threw <==> exists i :: 0 <= i < |items| && ItemUrl(items[i]).Throws?
    ensures forall l :: l in DurlLinks(items).links ==> exists i :: 0 <= i < |items| && ItemUrl(items[i]) == Ok(Some(l))
  {
    if items != [] {
      DurlLinksSound(items[1..]);
      assert forall i :: 1 <= i < |items| ==> items[i] == items[1..][i - 1];
    }
  }

  /** One more item of the `durl` walk. */
  lemma DurlLinksStep(items: seq<Json>, j: nat)
    requires j < |items|
    ensures var rest := DurlLinks(items[j + 1..]);
            DurlLinks(items[j..]) == match ItemUrl(items[j])
              case Throws => Collected([], true)
              case Ok(None) => rest
              case Ok(Some(u)) => Collected([u] + rest.links, rest.threw)
  {
    var tail := items[j..];
    assert tail[0] == items[j] && tail[1..] == items[j + 1..];
  }

  /** The `durl` walk over two stretches of items is the walk over the first followed
      by the walk over the second. */
  lemma {:induction false} DurlLinksAppend(a: seq<Json>, b: seq<Json>)
    ensures DurlLinks(a + b) == Followed(DurlLinks(a), DurlLinks(b))
    decreases |a|
  {
    if a == [] {
      assert a + b == b;
      assert [] + DurlLinks(b).links == DurlLinks(b).links;
    } else {
      var ab := a + b;
      assert ab[0] == a[0] && ab[1..] == a[1..] + b;
      DurlLinksAppend(a[1..], b);
      match ItemUrl(a[0])
      case Throws =>
      case Ok(None) =>
      case Ok(Some(u)) =>
        var x, y := DurlLinks(a[1..]), DurlLinks(b);
        if !x.threw {
          assert ([u] + x.links) + y.links == [u] + (x.links + y.links);
        }
    }
  }

  /** A single `durl` item: no `url` gives nothing, a string `url` gives that link,
      any other `url` throws. */
  lemma DurlLinksOfItem(item: Json)
    ensures !Contains(item, "url") ==> DurlLinks([item]) == Collected([], false)
    ensures Contains(item, "url") && Field(item, "url").JString? ==> DurlLinks([item]) == Collected([Field(item, "url").s], false)
    ensures Contains(item, "url") && !Field(item, "url").JString? ==> DurlLinks([item]) == Collected([], true)
  {
    assert [item][1..] == [];
  }

  /** What the walk collects from `items[..i]` is never lost: the whole walk starts
      with it, even when a later item throws. */
  lemma {:induction false} DurlLinksKeepPrefix(items: seq<Json>, i: nat)
    requires i <= |items|
    ensures DurlLinks(items[..i]).links <= DurlLinks(items).links
  {
    if i > 0 {
      assert items[..i][0] == items[0];
      assert items[..i][1..] == items[1..][..i - 1];
      DurlLinksKeepPrefix(items[1..], i - 1);
    }
  }

  /** One page: its `cid`, the play list fetched for it, and the `durl` items of the
      play list. Every `[]` here is the const access, so a missing key throws. */
  function PageLinks(bvid: string, page: Json, get: string -> Response, parse: string -> Option<Json>): (r: Collected)
    ensures !Contains(page, "cid") || !Field(page, "cid").JNumber? ==> r == Collected([], true)
    ensures r.links != [] ==> Contains(page, "cid") && Field(page, "cid").JNumber?
    ensures Contains(page, "cid") && Field(page, "cid").JNumber? ==>
      var play := parse(get(PlayUrl(bvid, GetU64(Field(page, "cid")).value)).text);
      && (play.None? || !Contains(play.value, "data") ==> r == Collected([], true))
      && (play.Some? && Contains(play.value, "data") && !Contains(Field(play.value, "data"), "durl")
          ==> r == Collected([], false))
      && (play.Some? && Contains(play.value, "data") && Contains(Field(play.value, "data"), "durl")
          ==> r == DurlLinks(Elements(Field(Field(play.value, "data"), "durl"))))
  {
    match At(page, "cid")
    case Throws => Collected([], true)
    case Ok(c) =>
      match GetU64(c)
      case Throws => Collected([], true)
      case Ok(cid) =>
        match parse(get(PlayUrl(bvid, cid)).text)
        case None => Collected([], true)
        case Some(play) =>
          match At(play, "data")
          case Throws => Collected([], true)
          case Ok(data) =>
            if !Contains(data, "durl") then Collected([], false)
            else DurlLinks(Elements(Field(data, "durl")))
  }

  /** The outer loop over `pages`: each page's links in page order, up to the page
      where an exception ends the walk, whose links collected so far are kept. */
  function PagesLinks(bvid: string, pages: seq<Json>, get: string -> Response, parse: string -> Option<Json>): (r: Collected)
    ensures pages == [] ==> r == Collected([], false)
    ensures pages != [] ==> PageLinks(bvid, pages[0], get, parse).links <= r.links
  {
    if pages == [] then Collected([], false)
    else
      var c := PageLinks(bvid, pages[0], get, parse);
      if c.threw then c
      else
        var rest := PagesLinks(bvid, pages[1..], get, parse);
        Collected(c.links + rest.links, rest.threw)
  }

  /** The page walk over two stretches of pages is the walk over the first followed
      by the walk over the second. */
  lemma {:induction false} PagesLinksAppend(bvid: string, a: seq<Json>, b: seq<Json>, get: string -> Response, parse: string -> Option<Json>)
    ensures PagesLinks(bvid, a + b, get, parse) == Followed(PagesLinks(bvid, a, get, parse), PagesLinks(bvid, b, get, parse))
    decreases |a|
  {
    var y := PagesLinks(bvid, b, get, parse);
    if a == [] {
      assert a + b == b;
      assert [] + y.links == y.links;
    } else {
      var ab := a + b;
      assert ab != [] && ab[0] == a[0] && ab[1..] == a[1..] + b;
      PagesLinksHead(bvid, ab, get, parse);
      PagesLinksHead(bvid, a, get, parse);
      PagesLinksAppend(bvid, a[1..], b, get, parse);
      FollowedAssociative(PageLinks(bvid, a[0], get, parse), PagesLinks(bvid, a[1..], get, parse), y);
    }
  }

  /** The walk over pages is the first page's walk followed by the walk over the rest. */
  lemma PagesLinksHead(bvid: string, pages: seq<Json>, get: string -> Response, parse: string -> Option<Json>)
    requires pages != []
    ensures PagesLinks(bvid, pages, get, parse) ==
      Followed(PageLinks(bvid, pages[0], get, parse), PagesLinks(bvid, pages[1..], get, parse))
  {
  }

  /** Two walks followed by a third are the first followed by the other two. */
  lemma FollowedAssociative(x: Collected, y: Collected, z: Collected)
    ensures Followed(Followed(x, y), z) == Followed(x, Followed(y, z))
  {
    if !x.threw && !y.threw {
      assert (x.links + y.links) + z.links == x.links + (y.links + z.links);
    }
  }

  /** The walk over a single page collects what that page gives. */
  lemma PagesLinksOfPage(bvid: string, page: Json, get: string -> Response, parse: string -> Option<Json>)
    ensures PagesLinks(bvid, [page], get, parse) == PageLinks(bvid, page, get, parse)
  {
    assert [page][1..] == [];
    assert PageLinks(bvid, page, get, parse).links + [] == PageLinks(bvid, page, get, parse).links;
  }

  /** The page walk ends in an exception exactly when some page throws. */
  lemma {:induction false} PagesLinksThrew(bvid: string, pages: seq<Json>, get: string -> Response, parse: string -> Option<Json>)
    ensures PagesLinks(bvid, pages, get, parse).threw <==> exists i :: 0 <= i < |pages| && PageLinks(bvid, pages[i], get, parse).threw
  {
    if pages != [] {
      PagesLinksThrew(bvid, pages[1..], get, parse);
      assert forall i :: 1 <= i < |pages| ==> pages[i] == pages[1..][i - 1];
    }
  }

  /** One more page of the walk. */
  lemma PagesLinksStep(bvid: string, pages: seq<Json>, i: nat, get: string -> Response, parse: string -> Option<Json>)
    requires i < |pages|
    ensures var c := PageLinks(bvid, pages[i], get, parse);
            var rest := PagesLinks(bvid, pages[i + 1..], get, parse);
            PagesLinks(bvid, pages[i..], get, parse) == if c.threw then c else Collected(c.links + rest.links, rest.threw)
  {
    var tail := pages[i..];
    assert tail[0] == pages[i] && tail[1..] == pages[i + 1..];
  }

  /** What the walk collects from the first `i` pages is never lost. */
  lemma {:induction false} PagesLinksKeepPrefix(bvid: string, pages: seq<Json>, i: nat, get: string -> Response, parse: string -> Option<Json>)
    requires i <= |pages|
    ensures PagesLinks(bvid, pages[..i], get, parse).links <= PagesLinks(bvid, pages, get, parse).links
  {
    if i > 0 {
      assert pages[..i][0] == pages[0];
      assert pages[..i][1..] == pages[1..][..i - 1];
      PagesLinksKeepPrefix(bvid, pages[1..], i - 1, get, parse);
    }
  }

  /** What `GetDownloadLinks` returns. Every failure before the page walk, a missing
      id included, gives no links. */
  function BilibiliLinks(url: string, get: string -> Response, parse: string -> Option<Json>): (r: seq<string>)
    ensures FindBvid(get(url).url).None? ==> r == []
    ensures FindBvid(get(url).url).Some? && parse(get(ViewUrl(FindBvid(get(url).url).value)).text).None? ==> r == []
  {
    match FindBvid(get(url).url)
    case None => []
    case Some(bvid) =>
      match parse(get(ViewUrl(bvid)).text)
      case None => []
      case Some(view) =>
        match At(view, "data")
        case Throws => []
        case Ok(data) =>
          if !Contains(data, "pages") then []
          else PagesLinks(bvid, Elements(Field(data, "pages")), get, parse).links
  }

  /** For a final URL holding the id `bvid` and a view body that parses to `view`:
      no links without `data.pages`, and otherwise what the page walk over the
      elements of `data.pages` collects. */
  lemma BilibiliLinksOfDocument(url: string, get: string -> Response, parse: string -> Option<Json>, bvid: string, view: Json)
    requires FindBvid(get(url).url) == Some(bvid) && parse(get(ViewUrl(bvid)).text) == Some(view)
    ensures !Contains(view, "data") || !Contains(Field(view, "data"), "pages") ==> BilibiliLinks(url, get, parse) == []
    ensures Contains(view, "data") && Contains(Field(view, "data"), "pages") ==>
      BilibiliLinks(url, get, parse) == PagesLinks(bvid, Elements(Field(Field(view, "data"), "pages")), get, parse).links
  {
  }

  /** The `durl` loop of one page. */
  method CollectDurl(items: seq<Json>) returns (c: Collected)
    ensures c == DurlLinks(items)
  {
    ghost var whole := DurlLinks(items);
    var links: seq<string> := [];
    var j := 0;
    assert items[0..] == items;
    while j < |items|
      invariant j <= |items|
      invariant links + DurlLinks(items[j..]).links == whole.links
      invariant DurlLinks(items[j..]).threw == whole.threw
    {
      DurlLinksStep(items, j);
      ghost var rest := DurlLinks(items[j + 1..]);
      var u := ItemUrl(items[j]);
      if u.Throws? {
        assert links + [] == links;
        return Collected(links, true);
      }
      if u.value.Some? {
        assert (links + [u.value.value]) + rest.links == links + ([u.value.value] + rest.links);
        links := links + [u.value.value];
      }
      j := j + 1;
    }
    assert items[j..] == [];
    assert links + [] == links;
    return Collected(links, false);
  }

  /** The body of the page loop. */
  method CollectPage(bvid: string, page: Json, get: string -> Response, parse: string -> Option<Json>)
    returns (c: Collected)
    ensures c == PageLinks(bvid, page, get, parse)
  {
    var cid := At(page, "cid");
    if cid.Throws? {
      return Collected([], true);
    }
    var n := GetU64(cid.value);
    if n.Throws? {
      return Collected([], true);
    }
    var play := parse(get(PlayUrl(bvid, n.value)).text);
    if play.None? {
      return Collected([], true);
    }
    var data := At(play.value, "data");
    if data.Throws? {
      return Collected([], true);
    }
    if !Contains(data.value, "durl") {
      return Collected([], false);
    }
    c := CollectDurl(Elements(Field(data.value, "durl")));
  }

  /** The page loop, appending each page's links to `res`; an exception ends it. */
  method CollectPages(bvid: string, pages: seq<Json>, get: string -> Response, parse: string -> Option<Json>)
    returns (res: seq<string>)
    ensures res == PagesLinks(bvid, pages, get, parse).links
  {
    res := [];
    var i := 0;
    while i < |pages|
      invariant i <= |pages|
      invariant res + PagesLinks(bvid, pages[i..], get, parse).links == PagesLinks(bvid, pages, get, parse).links
    {
      var c := CollectPage(bvid, pages[i], get, parse);
      PagesLinksStep(bvid, pages, i, get, parse);
      res := res + c.links;
      if c.threw {
        return;
      }
      i := i + 1;
    }
    assert pages[i..] == [];
    assert res + [] == res;
  }

  /** `GetDownloadLinks`: the `try` block, whose exceptions are caught and end it with
      `res` as it stands. */
  method GetDownloadLinks(url: string, get: string -> Response, parse: string -> Option<Json>)
    returns (res: seq<string>)
    ensures res == BilibiliLinks(url, get, parse)
  {
    res := [];
    var bvid := FindBvid(get(url).url);
    if bvid.None? {
      return;
    }
    var view := parse(get(ViewUrl(bvid.value)).text);
    if view.None? {
      return;
    }
    var data := At(view.value, "data");
    if data.Throws? || !Contains(data.value, "pages") {
      return;
    }
    res := CollectPages(bvid.value, Elements(Field(data.value, "pages")), get, parse);
  }

  // ---------------------------------------------------------------------------
  // DownloadFile

  /** `link.substr(link.rfind('.'), link.find('?') - link.rfind('.'))` as written, in
      `size_t` arithmetic: `npos` for a missing character, a difference that wraps
      below zero, and `substr` throwing when the link has no `.` at all. */
  function ExtAsWritten(link: string): (r: Try<string>)
    ensures '.' in link ==> r.Ok?
    ensures '.' in link && |link| < NPOS ==> r.Ok? && r.value != [] && r.value[0] == '.'
    ensures '.' !in link && |link| < NPOS ==> r.Throws?
  {
    var d := OrNpos(LastIndexOf(link, '.'));
    var q := OrNpos(FindChar(link, '?'));
    assert '.' in link && |link| < NPOS ==> SizeSub(q, d) > 0 by {
      if '.' in link && |link| < NPOS {
        SizeSubNonZero(q, d);
      }
    }
    Substr(link, d, SizeSub(q, d))
  }

  /** The `substr` with a count that does not wrap stops at `q` or at the end. */
  lemma SubstrUpTo(s: string, d: nat, q: nat)
    requires d < q < SIZE_T && d <= |s|
    ensures Substr(s, d, SizeSub(q, d)) == Ok(s[d..Min(q, |s|)])
  {
    SizeSubBelow(q, d);
    assert d + Min(q - d, |s| - d) == Min(q, |s|);
  }

  /** The `substr` with a wrapped count runs to the end. */
  lemma SubstrWrapped(s: string, d: nat, q: nat)
    requires q < d <= |s| < NPOS
    ensures Substr(s, d, SizeSub(q, d)) == Ok(s[d..])
  {
    SizeSubWraps(q, d);
    assert Min(SizeSub(q, d), |s| - d) == |s| - d;
    assert s[d..d + (|s| - d)] == s[d..];
  }

  /** As written, when the last `.` comes before the first `?` (or there is no `?`),
      the extension runs from that `.` up to the `?` or the end. */
  lemma ExtAsWrittenBeforeQuery(link: string, d: nat, q: nat)
    requires |link| < NPOS && LastIndexOf(link, '.') == Some(d)
    requires OrNpos(FindChar(link, '?')) == q && d < q
    ensures ExtAsWritten(link) == Ok(link[d..Min(q, |link|)])
  {
    assert ExtAsWritten(link) == Substr(link, d, SizeSub(q, d));
    SubstrUpTo(link, d, q);
  }

  /** As written, when the last `.` comes after the first `?`, the count wraps around
      and the extension runs from that `.` to the end. */
  lemma ExtAsWrittenAfterQuery(link: string, d: nat, q: nat)
    requires |link| < NPOS && LastIndexOf(link, '.') == Some(d)
    requires FindChar(link, '?') == Some(q) && q < d
    ensures ExtAsWritten(link) == Ok(link[d..])
  {
    assert ExtAsWritten(link) == Substr(link, d, SizeSub(q, d));
    SubstrWrapped(link, d, q);
  }

  /** When the link's query holds a `.`, the extension is cut from the query. */
  lemma ExtAsWrittenTakesQuery(path: string, query: string, d: nat)
    requires '?' !in path && d < |query| && query[d] == '.' && '.' !in query[d + 1..]
    requires |path| + 1 + |query| < NPOS
    ensures ExtAsWritten(path + "?" + query) == Ok(query[d..])
  {
    var link := path + "?" + query;
    var dot := |path| + 1 + d;
    assert link[dot] == '.';
    assert link[dot + 1..] == query[d + 1..];
    LastIndexOfAt(link, '.', dot);
    assert link[|path|] == '?' && link[..|path|] == path;
    assert FindChar(link, '?') == Some(|path|);
    ExtAsWrittenAfterQuery(link, dot, |path|);
    assert link[dot..] == query[d..];
  }

  /** The extension meant: the path extension of the link before its query. A link
      whose file name has none throws, as the `substr` does for a link without `.`. */
  function BilibiliExt(link: string): (r: Try<string>)
    ensures r.Ok? ==> r.value != [] && r.value[0] == '.' && '.' !in r.value[1..]
    ensures r.Ok? ==> '/' !in r.value && '?' !in r.value && HasSuffix(UrlPrefix(link), r.value)
    ensures '.' !in Filename(UrlPrefix(link)) ==> r.Throws?
  {
    var path := UrlPrefix(link);
    var e := Extension(path);
    if e == "" then Throws
    else
      assert forall k :: 0 <= k < |e| ==> e[k] == path[|path| - |e| + k];
      Ok(e)
  }

  /** A link `prefix/stem.e`, with or without a query, has the extension `.e`. */
  lemma BilibiliExtOfLink(prefix: string, stem: string, e: string, query: string)
    requires '?' !in prefix && stem != "" && '/' !in stem && '.' !in stem && '?' !in stem
    requires '/' !in e && '.' !in e && '?' !in e
    requires query == "" || query[0] == '?'
    ensures BilibiliExt(prefix + "/" + (stem + ("." + e)) + query) == Ok("." + e)
  {
    var file := stem + ("." + e);
    assert '?' !in file by {
      NotInConcat('?', ".", e);
      NotInConcat('?', stem, "." + e);
    }
    assert '?' !in prefix + "/" + file by {
      NotInConcat('?', prefix, "/");
      NotInConcat('?', prefix + "/", file);
    }
    UrlPrefixOfQuery(prefix + "/" + file, query);
    ExtensionOfName(prefix, stem, e);
  }

  /** A link whose last path segment has no `.` has no extension, whatever dots its
      host or directories hold. */
  lemma BilibiliExtNoDot(prefix: string, name: string, query: string)
    requires '?' !in prefix && '/' !in name && '.' !in name && '?' !in name
    requires query == "" || query[0] == '?'
    ensures BilibiliExt(prefix + "/" + name + query).Throws?
  {
    var base := prefix + "/" + name;
    assert '?' !in base by {
      NotInConcat('?', prefix, "/");
      NotInConcat('?', prefix + "/", name);
    }
    UrlPrefixOfQuery(base, query);
    FilenameAfterSlash(prefix, name);
  }

  /** As written, a last `.` before the query gives the slice from it up to the query. */
  lemma ExtAsWrittenAt(link: string, d: nat)
    requires |link| < NPOS && d < |link| && link[d] == '.' && '.' !in link[d + 1..] && '?' !in link[..d]
    ensures d < |UrlPrefix(link)| && ExtAsWritten(link) == Ok(UrlPrefix(link)[d..])
  {
    LastIndexOfAt(link, '.', d);
    var path := UrlPrefix(link);
    var q := OrNpos(FindChar(link, '?'));
    ExtAsWrittenBeforeQuery(link, d, q);
    assert Min(q, |link|) == |path|;
  }

  /** Where the last `.` of the link is the one of its file name, the code as written
      and the intended extension agree. */
  lemma ExtAsWrittenAgrees(prefix: string, stem: string, e: string, query: string)
    requires '?' !in prefix && stem != "" && '/' !in stem && '.' !in stem && '?' !in stem
    requires '/' !in e && '.' !in e && '?' !in e
    requires (query == "" || query[0] == '?') && '.' !in query
    requires |prefix| + |stem| + |e| + |query| + 2 < NPOS
    ensures ExtAsWritten(prefix + "/" + (stem + ("." + e)) + query) == BilibiliExt(prefix + "/" + (stem + ("." + e)) + query)
  {
    ExtAsWrittenOfLink(prefix, stem, e, query);
    BilibiliExtOfLink(prefix, stem, e, query);
  }

  /** As written, a link `prefix/stem.e` whose query holds no `.` gets `.e`. */
  lemma ExtAsWrittenOfLink(prefix: string, stem: string, e: string, query: string)
    requires '?' !in prefix && '?' !in stem && '.' !in e && '?' !in e
    requires (query == "" || query[0] == '?') && '.' !in query
    requires |prefix| + |stem| + |e| + |query| + 2 < NPOS
    ensures ExtAsWritten(prefix + "/" + (stem + ("." + e)) + query) == Ok("." + e)
  {
    var file := stem + ("." + e);
    var base := prefix + "/" + file;
    var d := |prefix| + 1 + |stem|;
    DotSplit(prefix, stem, e, query);
    ExtAsWrittenAt(base + query, d);
    assert '?' !in base by {
      NotInConcat('?', ".", e);
      NotInConcat('?', stem, "." + e);
      NotInConcat('?', prefix, "/");
      NotInConcat('?', prefix + "/", file);
    }
    UrlPrefixOfQuery(base, query);
    assert base[d..] == "." + e;
  }

  /** In `prefix/stem.e` followed by a query, the `.` after the stem is the last one
      and no `?` comes before it. */
  lemma DotSplit(prefix: string, stem: string, e: string, query: string)
    requires '?' !in prefix && '?' !in stem && '.' !in e && '.' !in query
    ensures var link := prefix + "/" + (stem + ("." + e)) + query; var d := |prefix| + 1 + |stem|;
      d < |link| && link[d] == '.' && '.' !in link[d + 1..] && '?' !in link[..d]
  {
    var head := prefix + "/" + stem;
    var link := prefix + "/" + (stem + ("." + e)) + query;
    assert link == head + "." + (e + query);
    var d := |head|;
    assert link[d + 1..] == e + query;
    assert link[..d] == head;
    NotInConcat('.', e, query);
    NotInConcat('?', prefix, "/");
    NotInConcat('?', prefix + "/", stem);
  }

  /** As written, a link without `?` whose last `.` is followed by `tail` gets `.tail`
      as its extension, `/`s included. */
  lemma ExtAsWrittenNoQuery(head: string, tail: string)
    requires '?' !in head && '?' !in tail && '.' !in tail && |head| + 1 + |tail| < NPOS
    ensures ExtAsWritten(head + "." + tail) == Ok("." + tail)
  {
    var link := head + "." + tail;
    var d := |head|;
    assert link[d] == '.' && link[d + 1..] == tail && link[..d] == head;
    assert '?' !in link by {
      NotInConcat('?', head, ".");
      NotInConcat('?', head + ".", tail);
    }
    UrlPrefixOfQuery(link, "");
    ExtAsWrittenAt(link, d);
    assert link + "" == link;
    assert link[d..] == "." + tail;
  }

  /** A link whose file name has no `.`, but whose host has. */
  const HostDotLink := HostDotHead + "." + HostDotTail
  const HostDotHead := "https://a.b"
  const HostDotTail := "com/v/file"

  /** As written, that link's extension runs from the host's last `.` across the
      directories. */
  lemma HostDotAsWritten()
    ensures ExtAsWritten(HostDotLink) == Ok(".com/v/file")
  {
    HostDotParts();
    ExtAsWrittenNoQuery(HostDotHead, HostDotTail);
  }

  /** The parts of that link hold no `?`, and the part after its last `.` no `.`. */
  lemma HostDotParts()
    ensures '?' !in HostDotHead && '?' !in HostDotTail && '.' !in HostDotTail
    ensures |HostDotHead| + 1 + |HostDotTail| < NPOS && "." + HostDotTail == ".com/v/file"
  {
  }

  /** Intended, that link has no extension. */
  lemma HostDotIntended()
    ensures BilibiliExt(HostDotLink).Throws?
  {
    var prefix, name := "https://a.b.com/v", "file";
    assert prefix + "/" + name + "" == HostDotLink by {
      assert HostDotHead + "." + HostDotTail == "https://a.b.com/v/file";
    }
    assert '?' !in prefix && '/' !in name && '.' !in name && '?' !in name;
    BilibiliExtNoDot(prefix, name, "");
  }

  /** The link that shows the difference: a `.` in the query. */
  const QueryDotLink := "https://h/v.mp4?x=1.2"

  /** As written, the extension of that link is cut from its query. */
  lemma QueryDotAsWritten()
    ensures ExtAsWritten(QueryDotLink) == Ok(".2")
  {
    var path, query := "https://h/v.mp4", "x=1.2";
    assert path + "?" + query == QueryDotLink;
    assert query[3] == '.' && query[4..] == "2";
    ExtAsWrittenTakesQuery(path, query, 3);
    assert query[3..] == ".2";
  }

  /** The intended extension of that link is the one of its file name. */
  lemma QueryDotIntended()
    ensures BilibiliExt(QueryDotLink) == Ok(".mp4")
  {
    var prefix, stem, e, query := "https://h", "v", "mp4", "?x=1.2";
    assert "." + e == ".mp4";
    assert prefix + "/" + (stem + ".mp4") + query == QueryDotLink;
    assert '?' !in prefix && '/' !in stem && '.' !in stem && '?' !in stem;
    assert '/' !in e && '.' !in e && '?' !in e && query[0] == '?';
    BilibiliExtOfLink(prefix, stem, e, query);
  }

  /** `DownloadFile`, with the intended extension: nothing is written when the link
      does not answer 200; a link without a `.` before its query throws, as the
      `substr` does; otherwise the body lands in a fresh file named by a counter id
      and the extension. */
  method DownloadFile(link: string, dir: string, get: string -> Response, store: Utils.Store)
    returns (r: Try<Option<string>>)
    requires store.Valid() && |store.files| < SIZE_T
    modifies store
    ensures store.Valid()
    ensures get(link).status != HTTP_OK ==> r == Ok(None) && unchanged(store)
    ensures get(link).status == HTTP_OK && BilibiliExt(link).Throws? ==> r.Throws? && unchanged(store)
    ensures get(link).status == HTTP_OK && BilibiliExt(link).Ok? ==>
      && r.Ok? && r.value.Some? && r.value.value !in old(store.files)
      && store.files == old(store.files)[r.value.value := get(link).text]
      && exists n: nat ::
           && r.value.value == Utils.CandidatePath(dir, BilibiliExt(link).value, Utils.IdAfter(old(store.counter), n))
           && Utils.FirstFree(dir, BilibiliExt(link).value, old(store.counter), n, old(store.files))
           && store.counter == Utils.IdAfter(old(store.counter), n + 1)
  {
    var resp := get(link);
    if resp.status != HTTP_OK {
      return Ok(None);
    }
    var ext := BilibiliExt(link);
    if ext.Throws? {
      return Throws;
    }
    var saved, n := store.SaveContents(dir, ext.value, resp.text);
    return Ok(Some(saved));
  }

  /** `DownloadFile` as written: the same walk, with the extension cut by the
      `substr` of the source, query and all. */
  method DownloadFileAsWritten(link: string, dir: string, get: string -> Response, store: Utils.Store)
    returns (r: Try<Option<string>>)
    requires store.Valid() && |store.files| < SIZE_T
    modifies store
    ensures store.Valid()
    ensures get(link).status != HTTP_OK ==> r == Ok(None) && unchanged(store)
    ensures get(link).status == HTTP_OK && ExtAsWritten(link).Throws? ==> r.Throws? && unchanged(store)
    ensures get(link).status == HTTP_OK && ExtAsWritten(link).Ok? ==>
      && r.Ok? && r.value.Some? && r.value.value !in old(store.files)
      && store.files == old(store.files)[r.value.value := get(link).text]
      && exists n: nat ::
           && r.value.value == Utils.CandidatePath(dir, ExtAsWritten(link).value, Utils.IdAfter(old(store.counter), n))
           && Utils.FirstFree(dir, ExtAsWritten(link).value, old(store.counter), n, old(store.files))
           && store.counter == Utils.IdAfter(old(store.counter), n + 1)
  {
    var resp := get(link);
    if resp.status != HTTP_OK {
      return Ok(None);
    }
    var ext := ExtAsWritten(link);
    if ext.Throws? {
      return Throws;
    }
    var saved, n := store.SaveContents(dir, ext.value, resp.text);
    return Ok(Some(saved));
  }
}
