/** The XiaoHongShu resolver (`include/xhs.hpp`): the post page embeds its state as a
    script assignment; the resolver cuts that object out by counting braces, rewrites
    the `undefined` literals the page uses, and walks the parsed note for a video
    stream or an image list. */
module Xhs {
  import opened Outcomes
  import opened Json
  import opened Text
  import opened Http
  import Utils

  const Marker := "window.__INITIAL_STATE__="
  const ImageHost := "https://ci.xiaohongshu.com/"
  /** The codecs `extract_video` tries, in order. */
  const Codecs := ["h264", "h265", "av1"]
  const Undefined := ":undefined"
  const NullToken := ":null"
  const PngVariant := "?imageView2/format/png"
  /** `mime_map`, in the ascending key order a `std::map` iterates it. */
  const MimeTable: seq<(string, string)> :=
    [("image/jpeg", ".jpeg"), ("image/png", ".png"), ("image/webp", ".webp"), ("video/mp4", ".mp4")]

  // ---------------------------------------------------------------------------
  // GetUrls

  /** The spellings `https?://(?:www\.)?(?:xiaohongshu|xhslink)\.com/` allows, in the
      order the regular expression tries them. */
  const LinkPrefixes: seq<string> :=
    Utils.Expand(["https://", "http://"], Utils.Expand(["www.", ""], ["xiaohongshu.com/", "xhslink.com/"]))

  /** The class `[\w\-./?=&%]`. */
  predicate IsLinkChar(c: char)
  {
    IsAsciiAlnum(c) || c in "_-./?=&%"
  }

  /** A match of `https?://(?:www\.)?(?:xiaohongshu|xhslink)\.com/[\w\-./?=&%]+` at
      `p`. */
  function XhsMatch(s: string, p: nat): Option<nat>
  {
    Utils.PrefixRunMatch(s, p, LinkPrefixes, IsLinkChar)
  }

  lemma XhsMatchAdvances(text: string)
    ensures Utils.Advances(XhsMatch, text)
  {
  }

  /** `GetUrls`: every link found is a site prefix followed by a non-empty run of
      link characters. */
  function GetUrls(message: string): (r: seq<string>)
    ensures forall u :: u in r ==> Utils.PrefixedRun(u, LinkPrefixes, IsLinkChar)
  {
    Utils.MatchedPrefixRuns(message, XhsMatch, LinkPrefixes, IsLinkChar);
    Utils.MatchedUrls(message, XhsMatch, 0)
  }

  // ---------------------------------------------------------------------------
  // The brace scan

  function Step(c: char): int
  {
    if c == '{' then 1 else if c == '}' then -1 else 0
  }

  /** Opening minus closing braces in `s`. */
  function Balance(s: string): int
  {
    if s == [] then 0 else Balance(s[..|s| - 1]) + Step(s[|s| - 1])
  }

  /** The brace balance from `start` up to and including `k`. */
  function Depth(text: string, start: nat, k: nat): int
    requires start <= k < |text|
  {
    Balance(text[start..k + 1])
  }

  lemma DepthStep(text: string, start: nat, k: nat)
    requires start <= k && k + 1 < |text|
    ensures Depth(text, start, k + 1) == Depth(text, start, k) + Step(text[k + 1])
  {
    assert text[start..k + 2][..k + 1 - start] == text[start..k + 1];
  }

  lemma DepthAtStart(text: string, start: nat)
    requires start < |text| && text[start] == '{'
    ensures Depth(text, start, start) == 1
  {
    var s := text[start..start + 1];
    assert s == [text[start]];
    assert s[..0] == [];
    assert Balance(s) == Balance(s[..0]) + Step(s[0]);
  }

  /** The scan from index `i` on, all braces before it leaving the balance positive. */
  function ScanFrom(text: string, start: nat, i: nat): (end: nat)
    requires start < i <= |text|
    requires forall k :: start <= k < i ==> Depth(text, start, k) > 0
    ensures i <= end <= |text|
    ensures forall k :: start <= k < end ==> Depth(text, start, k) > 0
    ensures end < |text| ==> Depth(text, start, end) == 0
    decreases |text| - i
  {
    if i == |text| then i
    else if Depth(text, start, i) == 0 then i
    else
      DepthStep(text, start, i - 1);
      ScanFrom(text, start, i + 1)
  }

  /** Where the scan that starts at an opening brace stops: the first later index at
      which the balance is back to zero, which is then a closing brace, or the end
      of the text when the balance never returns to zero. In between the balance
      stays positive. */
  function MatchingBrace(text: string, start: nat): (end: nat)
    requires start < |text| && text[start] == '{'
    ensures start < end <= |text|
    ensures forall k :: start <= k < end ==> Depth(text, start, k) > 0
    ensures end < |text| ==> Depth(text, start, end) == 0 && text[end] == '}'
  {
    DepthAtStart(text, start);
    var end := ScanFrom(text, start, start + 1);
    if end < |text| then DepthStep(text, start, end - 1); end else end
  }

  /** The loop over `balance` and `end`. */
  method BraceScan(text: string, start: nat) returns (end: nat)
    requires start < |text| && text[start] == '{'
    ensures end == MatchingBrace(text, start)
  {
    var balance := 0;
    end := start;
    while end < |text|
      invariant start <= end <= |text|
      invariant end == start ==> balance == 0
      invariant end > start ==> balance == Depth(text, start, end - 1)
      invariant forall k :: start <= k < end ==> Depth(text, start, k) > 0
      invariant end > start ==> MatchingBrace(text, start) == ScanFrom(text, start, end)
    {
      if text[end] == '{' {
        balance := balance + 1;
      } else if text[end] == '}' {
        balance := balance - 1;
      }
      if end == start {
        DepthAtStart(text, start);
      } else {
        DepthStep(text, start, end - 1);
      }
      if balance == 0 && end > start {
        break;
      }
      end := end + 1;
    }
  }

  /** `text.substr(start, end - start + 1)`: the object from its opening brace to the
      brace that closes it, or to the end of the text. */
  function StateBlob(text: string, start: nat): (blob: string)
    requires start < |text| && text[start] == '{'
    ensures |blob| >= 1 && blob[0] == '{' && HasPrefix(text[start..], blob)
    ensures MatchingBrace(text, start) < |text| ==> |blob| == MatchingBrace(text, start) - start + 1
    ensures MatchingBrace(text, start) == |text| ==> blob == text[start..]
  {
    Substr(text, start, MatchingBrace(text, start) - start + 1).value
  }

  /** When the braces balance, the blob is one brace-delimited object: it opens with
      `{`, closes with `}`, its braces balance, and no proper prefix of it does. */
  lemma BalancedBlob(text: string, start: nat)
    requires start < |text| && text[start] == '{'
    requires MatchingBrace(text, start) < |text|
    ensures var blob := StateBlob(text, start);
      && |blob| >= 2 && blob[0] == '{' && blob[|blob| - 1] == '}'
      && Balance(blob) == 0
      && forall n :: 0 < n < |blob| ==> Balance(blob[..n]) > 0
  {
    var end := MatchingBrace(text, start);
    var blob := StateBlob(text, start);
    assert blob == text[start..end + 1];
    assert Balance(blob) == Depth(text, start, end);
    forall n | 0 < n < |blob|
      ensures Balance(blob[..n]) > 0
    {
      assert blob[..n] == text[start..start + n];
      assert Depth(text, start, start + n - 1) > 0;
    }
  }

  // ---------------------------------------------------------------------------
  // SanitizeJson

  /** `regex_replace(raw, ":undefined", ":null")`: left to right, matches do not
      overlap. */
  function Sanitize(s: string): (r: string)
    ensures |r| <= |s|
    ensures r == [] <==> s == []
    decreases |s|
  {
    if s == [] then []
    else if HasPrefix(s, Undefined) then NullToken + Sanitize(s[|Undefined|..])
    else [s[0]] + Sanitize(s[1..])
  }

  ghost predicate FreeOfUndefined(s: string)
  {
    forall i: nat :: !OccursAt(s, Undefined, i)
  }

  lemma OccursShift(a: string, b: string, pat: string, j: nat)
    ensures OccursAt(a + b, pat, |a| + j) == OccursAt(b, pat, j)
  {
    if j + |pat| <= |b| {
      assert (a + b)[|a| + j..|a| + j + |pat|] == b[j..j + |pat|];
    }
  }

  /** Text without the token passes through unchanged. */
  lemma {:induction false} SanitizeKeepsCleanText(s: string)
    requires FreeOfUndefined(s)
    ensures Sanitize(s) == s
    decreases |s|
  {
    if s != [] {
      assert !OccursAt(s, Undefined, 0);
      assert !HasPrefix(s, Undefined);
      forall i: nat
        ensures !OccursAt(s[1..], Undefined, i)
      {
        OccursShift([s[0]], s[1..], Undefined, i);
        assert [s[0]] + s[1..] == s;
        assert !OccursAt(s, Undefined, 1 + i);
      }
      SanitizeKeepsCleanText(s[1..]);
    }
  }

  /** The first `:undefined` becomes `:null`: the text before it is kept as it is, and
      the replacement goes on after it. With SanitizeKeepsCleanText this fixes the
      output of every input. */
  lemma {:induction false} SanitizeAtFirst(a: string, b: string)
    requires forall i: nat :: i < |a| ==> !OccursAt(a + Undefined, Undefined, i)
    ensures Sanitize(a + Undefined + b) == a + NullToken + Sanitize(b)
    decreases |a|
  {
    var s := a + Undefined + b;
    if a == [] {
      assert s == Undefined + b;
      assert HasPrefix(s, Undefined);
      assert s[|Undefined|..] == b;
    } else {
      assert !HasPrefix(s, Undefined) by {
        assert !OccursAt(a + Undefined, Undefined, 0);
        assert (a + Undefined)[..|Undefined|] == s[..|Undefined|];
      }
      assert s[1..] == a[1..] + Undefined + b;
      forall i: nat | i < |a[1..]|
        ensures !OccursAt(a[1..] + Undefined, Undefined, i)
      {
        OccursShift([a[0]], a[1..] + Undefined, Undefined, i);
        assert [a[0]] + (a[1..] + Undefined) == a + Undefined;
      }
      SanitizeAtFirst(a[1..], b);
      assert a == [a[0]] + a[1..];
    }
  }

  /** A prefix of the output without `:` was already a prefix of the input. */
  lemma {:induction false} SanitizeColonFreePrefix(t: string, w: string)
    requires ':' !in w && HasPrefix(Sanitize(t), w)
    ensures HasPrefix(t, w)
    decreases |w|
  {
    if w != [] {
      assert Sanitize(t)[0] == w[0] && w[0] != ':';
      assert t != [];
      assert !HasPrefix(t, Undefined);
      assert Sanitize(t) == [t[0]] + Sanitize(t[1..]);
      assert w[0] == t[0];
      assert HasPrefix(Sanitize(t[1..]), w[1..]);
      SanitizeColonFreePrefix(t[1..], w[1..]);
      assert t[..|w|] == [t[0]] + t[1..][..|w| - 1];
    }
  }

  /** A token at the head of the output that does not come from a replacement was
      already at the head of the input. */
  lemma SplicedToken(s: string)
    requires s != []
    ensures OccursAt([s[0]] + Sanitize(s[1..]), Undefined, 0) ==> HasPrefix(s, Undefined)
  {
    var r := [s[0]] + Sanitize(s[1..]);
    if OccursAt(r, Undefined, 0) {
      assert HasPrefix(Sanitize(s[1..]), "undefined") by {
        assert Sanitize(s[1..])[..9] == r[1..10];
      }
      SanitizeColonFreePrefix(s[1..], "undefined");
      assert s[..10] == [s[0]] + s[1..][..9];
    }
  }

  /** The replacement followed by text without the token holds no token. */
  lemma NullThenFree(rest: string)
    requires FreeOfUndefined(rest)
    ensures FreeOfUndefined(NullToken + rest)
  {
    var r := NullToken + rest;
    forall i: nat
      ensures !OccursAt(r, Undefined, i)
    {
      if i == 0 {
        assert r[1] == 'n';
      } else if i < |NullToken| {
        assert r[i] != ':';
      } else {
        OccursShift(NullToken, rest, Undefined, i - |NullToken|);
      }
    }
  }

  /** No `:undefined` is left in the output, not even one spliced together from a
      replacement and its neighbours. */
  lemma {:induction false} SanitizeRemovesUndefined(s: string)
    ensures FreeOfUndefined(Sanitize(s))
    decreases |s|
  {
    if s != [] {
      var r := Sanitize(s);
      if HasPrefix(s, Undefined) {
        SanitizeRemovesUndefined(s[|Undefined|..]);
        NullThenFree(Sanitize(s[|Undefined|..]));
      } else {
        var rest := Sanitize(s[1..]);
        SanitizeRemovesUndefined(s[1..]);
        assert r == [s[0]] + rest;
        forall i: nat
          ensures !OccursAt(r, Undefined, i)
        {
          if i == 0 {
            SplicedToken(s);
          } else {
            OccursShift([s[0]], rest, Undefined, i - 1);
          }
        }
      }
    }
  }

  // ---------------------------------------------------------------------------
  // ExtractImageKey

  predicate IsLowerHex(c: char)
  {
    '0' <= c <= '9' || 'a' <= c <= 'f'
  }

  /** The characters the regular expression `.` does not match. */
  predicate IsLineTerminator(c: char)
  {
    c == '\n' || c == '\r'
  }

  /** A `/`, 32 lower-case hex digits and a `/` start at `p`. */
  predicate HashSegmentAt(s: string, p: nat)
  {
    p + 34 <= |s| && s[p] == '/' && s[p + 33] == '/'
    && forall k :: p < k < p + 33 ==> IsLowerHex(s[k])
  }

  /** Where the lazy `.+?` followed by `!` stops when it resumes at `j`: the first
      `!` from `j` on, provided no line terminator comes before it. */
  function BangFrom(s: string, j: nat): (e: Option<nat>)
    ensures e.Some? ==> j <= e.value < |s| && s[e.value] == '!'
    ensures e.Some? ==> forall k :: j <= k < e.value ==> s[k] != '!' && !IsLineTerminator(s[k])
    ensures e.None? ==> forall k :: j <= k < |s| && s[k] == '!' ==> exists t :: j <= t < k && IsLineTerminator(s[t])
    decreases |s| - j
  {
    if j >= |s| then None
    else if s[j] == '!' then Some(j)
    else if IsLineTerminator(s[j]) then None
    else BangFrom(s, j + 1)
  }

  /** The capture of a match of `\/[0-9a-f]{32}\/(.+?)!` that starts at `p`: at least
      one character after the hash segment, up to the first `!` after that one. */
  function KeyAt(s: string, p: nat): (key: Option<string>)
    ensures key.Some? ==> HashSegmentAt(s, p) && key.value != [] && OccursAt(s, key.value + "!", p + 34)
  {
    if HashSegmentAt(s, p) && p + 34 < |s| && !IsLineTerminator(s[p + 34]) then
      match BangFrom(s, p + 35)
      case Some(e) =>
        assert s[p + 34..e + 1] == s[p + 34..e] + "!";
        Some(s[p + 34..e])
      case None => None
    else None
  }

  /** The leftmost position from `p` on where the pattern matches. */
  function FirstKeyAt(s: string, p: nat): (q: Option<nat>)
    ensures q.Some? ==> p <= q.value && KeyAt(s, q.value).Some?
    ensures q.Some? ==> forall k: nat :: p <= k < q.value ==> KeyAt(s, k).None?
    ensures q.None? ==> forall k: nat :: p <= k ==> KeyAt(s, k).None?
    decreases |s| - p
  {
    if p >= |s| then None
    else if KeyAt(s, p).Some? then Some(p)
    else FirstKeyAt(s, p + 1)
  }

  /** `ExtractImageKey`: the capture of the leftmost match, or `""` when the pattern
      matches nowhere. */
  function ExtractImageKey(url: string): (key: string)
    ensures key == "" <==> forall k: nat :: KeyAt(url, k).None?
    ensures key != "" ==>
      exists k: nat :: KeyAt(url, k) == Some(key) && forall j: nat :: j < k ==> KeyAt(url, j).None?
  {
    match FirstKeyAt(url, 0)
    case Some(q) => KeyAt(url, q).value
    case None => ""
  }

  /** No `/`, 32 lower-case hex digits and `/` start before `p`. */
  predicate NoHashSegmentBefore(s: string, p: nat)
  {
    forall k :: 0 <= k < p ==> !HashSegmentAt(s, k)
  }

  /** A CDN link `<pre>/<hash>/<key>!<rest>` gives back `key`, provided no hash
      segment starts inside `pre` (a scheme, a host and date directories do not
      make one), and `key` holds no line terminator and no `!` after its first
      character. */
  lemma ExtractImageKeyOfPath(pre: string, hash: string, key: string, rest: string)
    requires NoHashSegmentBefore(pre + "/" + hash + "/" + key + "!" + rest, |pre|)
    requires |hash| == 32 && forall c :: c in hash ==> IsLowerHex(c)
    requires key != [] && '!' !in key[1..]
    requires forall c :: c in key ==> !IsLineTerminator(c)
    ensures ExtractImageKey(pre + "/" + hash + "/" + key + "!" + rest) == key
  {
    var url := pre + "/" + hash + "/" + key + "!" + rest;
    var p := |pre|;
    var e := p + 34 + |key|;
    assert url[p] == '/' && url[p + 33] == '/';
    forall k | p < k < p + 33
      ensures IsLowerHex(url[k])
    {
      assert url[k] == hash[k - p - 1];
    }
    assert HashSegmentAt(url, p);
    assert url[p + 34] == key[0];
    assert url[e] == '!';
    forall k | p + 35 <= k < e
      ensures url[k] != '!' && !IsLineTerminator(url[k])
    {
      assert url[k] == key[k - p - 34];
      assert url[k] == key[1..][k - p - 35];
    }
    assert BangFrom(url, p + 35) == Some(e);
    assert url[p + 34..e] == key;
    assert KeyAt(url, p) == Some(key);
    assert FirstKeyAt(url, 0) == Some(p);
  }

  /** A link of the CDN's usual form: scheme, host, date directory, hash, key and
      image-processing suffix. */
  const SampleDir := "http://sns-webpic-qc.xhscdn.com/202403211626"
  const SampleHash := "0123456789abcdef0123456789abcdef"
  const SampleKey := "1040g008"
  const SampleLink := SampleDir + "/" + SampleHash + "/" + SampleKey + "!" + "nd_dft_wlteh_webp_3"

  /** The scheme, host and date directory do not hide the key. */
  lemma SampleLinkKey()
    ensures ExtractImageKey(SampleLink) == SampleKey
  {
    var url := SampleLink;
    assert |SampleDir| == 44 && url[31] == '/' && url[44] == '/';
    forall k | 0 <= k < |SampleDir|
      ensures !HashSegmentAt(url, k)
    {
      if k < 31 {
        assert !IsLowerHex(url[31]);
      } else {
        assert !IsLowerHex(url[44]);
      }
    }
    ExtractImageKeyOfPath(SampleDir, SampleHash, SampleKey, "nd_dft_wlteh_webp_3");
  }

  // ---------------------------------------------------------------------------
  // extract_video

  /** `stream.contains(codec) && stream[codec].is_array() && !stream[codec].empty()` */
  predicate Usable(stream: Json, codec: string)
  {
    Contains(stream, codec) && Field(stream, codec).JArray? && Field(stream, codec).items != []
  }

  /** `stream[codec][0].value("masterUrl", "")`, which throws when that element is not
      an object or its `masterUrl` is not a string. */
  function MasterUrl(stream: Json, codec: string): Try<string>
    requires Usable(stream, codec)
  {
    ValueString(Field(stream, codec).items[0], "masterUrl", "")
  }

  function FirstUsable(stream: Json, codecs: seq<string>): (r: Try<string>)
    ensures r == Ok("") || exists c :: c in codecs && Usable(stream, c) && MasterUrl(stream, c) == r
  {
    if codecs == [] then Ok("")
    else if Usable(stream, codecs[0]) then MasterUrl(stream, codecs[0])
    else FirstUsable(stream, codecs[1..])
  }

  /** The `extract_video` lambda. */
  function ExtractVideo(stream: Json): (r: Try<string>)
    ensures !stream.JObject? ==> r == Ok("")
    ensures r == Ok("") || exists c :: c in Codecs && Usable(stream, c) && MasterUrl(stream, c) == r
  {
    if !stream.JObject? then Ok("") else FirstUsable(stream, Codecs)
  }

  /** The first usable codec decides, even when its `masterUrl` is empty: later codecs
      are never consulted. */
  lemma {:induction false} FirstUsableDecides(stream: Json, codecs: seq<string>, i: nat)
    requires i < |codecs| && Usable(stream, codecs[i])
    requires forall j :: 0 <= j < i ==> !Usable(stream, codecs[j])
    ensures FirstUsable(stream, codecs) == MasterUrl(stream, codecs[i])
  {
    if i > 0 {
      assert !Usable(stream, codecs[0]);
      FirstUsableDecides(stream, codecs[1..], i - 1);
    }
  }

  lemma {:induction false} NoneUsable(stream: Json, codecs: seq<string>)
    requires forall j :: 0 <= j < |codecs| ==> !Usable(stream, codecs[j])
    ensures FirstUsable(stream, codecs) == Ok("")
  {
    if codecs != [] {
      assert !Usable(stream, codecs[0]);
      NoneUsable(stream, codecs[1..]);
    }
  }

  /** The three outcomes of `extract_video`: `""` for a non-object, the `masterUrl`
      of the first usable codec in the order h264, h265, av1, and `""` when none is
      usable. */
  lemma ExtractVideoPriority(stream: Json)
    ensures !stream.JObject? ==> ExtractVideo(stream) == Ok("")
    ensures stream.JObject? && Usable(stream, "h264") ==> ExtractVideo(stream) == MasterUrl(stream, "h264")
    ensures stream.JObject? && !Usable(stream, "h264") && Usable(stream, "h265")
      ==> ExtractVideo(stream) == MasterUrl(stream, "h265")
    ensures stream.JObject? && !Usable(stream, "h264") && !Usable(stream, "h265") && Usable(stream, "av1")
      ==> ExtractVideo(stream) == MasterUrl(stream, "av1")
    ensures stream.JObject? && !Usable(stream, "h264") && !Usable(stream, "h265") && !Usable(stream, "av1")
      ==> ExtractVideo(stream) == Ok("")
  {
    if stream.JObject? {
      if Usable(stream, "h264") {
        FirstUsableDecides(stream, Codecs, 0);
      } else if Usable(stream, "h265") {
        FirstUsableDecides(stream, Codecs, 1);
      } else if Usable(stream, "av1") {
        FirstUsableDecides(stream, Codecs, 2);
      } else {
        NoneUsable(stream, Codecs);
      }
    }
  }

  /** The codec loop of `extract_video`. */
  method ScanCodecs(stream: Json) returns (r: Try<string>)
    ensures r == ExtractVideo(stream)
  {
    if !stream.JObject? {
      return Ok("");
    }
    var i := 0;
    while i < |Codecs|
      invariant i <= |Codecs|
      invariant FirstUsable(stream, Codecs) == FirstUsable(stream, Codecs[i..])
    {
      if Usable(stream, Codecs[i]) {
        return MasterUrl(stream, Codecs[i]);
      }
      assert Codecs[i..][1..] == Codecs[i + 1..];
      i := i + 1;
    }
    return Ok("");
  }

  // ---------------------------------------------------------------------------
  // The image list

  /** The link an item's `urlPre`, or else its `urlDefault`, gives: nothing when it
      has neither or no key can be extracted; a throw when the chosen member is not a
      string. */
  function RawLink(item: Json): (r: Try<Option<string>>)
    ensures r.Ok? && r.value.Some? ==> HasPrefix(r.value.value, ImageHost) && |r.value.value| > |ImageHost|
  {
    var raw :=
      if Contains(item, "urlPre") then Some(Field(item, "urlPre"))
      else if Contains(item, "urlDefault") then Some(Field(item, "urlDefault"))
      else None;
    match raw
    case None => Ok(None)
    case Some(j) =>
      match GetString(j)
      case Throws => Throws
      case Ok(u) =>
        var key := ExtractImageKey(u);
        if key == "" then Ok(None) else Ok(Some(ImageHost + key))
  }

  /** What one `imageList` item contributes: its live-stream video when that is
      non-empty, otherwise its image link. */
  function ItemLink(item: Json): (r: Try<Option<string>>)
    ensures r.Ok? && r.value.Some? ==> r.value.value != ""
  {
    var live := if Contains(item, "stream") then ExtractVideo(Field(item, "stream")) else Ok("");
    match live
    case Throws => Throws
    case Ok(v) => if v != "" then Ok(Some(v)) else RawLink(item)
  }

  /** A live stream wins over the image; `urlPre` wins over `urlDefault`. */
  lemma ItemLinkPriority(item: Json)
    ensures Contains(item, "stream") && ExtractVideo(Field(item, "stream")).Ok?
      && ExtractVideo(Field(item, "stream")).value != ""
      ==> ItemLink(item) == Ok(Some(ExtractVideo(Field(item, "stream")).value))
    ensures (!Contains(item, "stream") || ExtractVideo(Field(item, "stream")) == Ok(""))
      && Contains(item, "urlPre") && Field(item, "urlPre").JString?
      ==> ItemLink(item) == (var k := ExtractImageKey(Field(item, "urlPre").s);
                             if k == "" then Ok(None) else Ok(Some(ImageHost + k)))
    ensures (!Contains(item, "stream") || ExtractVideo(Field(item, "stream")) == Ok(""))
      && !Contains(item, "urlPre") && !Contains(item, "urlDefault")
      ==> ItemLink(item) == Ok(None)
  {
  }

  /** An image item without a stream whose `urlDefault` is a CDN path gives the
      canonical link for the key in that path. */
  lemma ImageItemLink(pre: string, hash: string, key: string, rest: string)
    requires NoHashSegmentBefore(pre + "/" + hash + "/" + key + "!" + rest, |pre|)
    requires |hash| == 32 && forall c :: c in hash ==> IsLowerHex(c)
    requires key != [] && '!' !in key[1..]
    requires forall c :: c in key ==> !IsLineTerminator(c)
    ensures ItemLink(JObject([("urlDefault", JString(pre + "/" + hash + "/" + key + "!" + rest))]))
      == Ok(Some(ImageHost + key))
  {
    var u := pre + "/" + hash + "/" + key + "!" + rest;
    var item := JObject([("urlDefault", JString(u))]);
    assert Lookup(item.members, "stream") == None by {
      assert item.members[1..] == [];
    }
    assert Lookup(item.members, "urlPre") == None by {
      assert item.members[1..] == [];
    }
    assert Field(item, "urlDefault") == JString(u);
    ExtractImageKeyOfPath(pre, hash, key, rest);
  }

  /** The links of the `imageList` loop: items in order, each contributing at most one
      link, until an item throws; the links collected before it are kept. */
  function ImageLinks(items: seq<Json>): (r: seq<string>)
    ensures |r| <= |items|
    ensures forall l :: l in r ==> l != ""
  {
    if items == [] then []
    else match ItemLink(items[0])
      case Throws => []
      case Ok(None) => ImageLinks(items[1..])
      case Ok(Some(l)) => [l] + ImageLinks(items[1..])
  }

  /** When every item gives a link, the result holds exactly those links in item
      order. */
  lemma {:induction false} ImageLinksInOrder(items: seq<Json>)
    requires forall i :: 0 <= i < |items| ==> ItemLink(items[i]).Ok? && ItemLink(items[i]).value.Some?
    ensures |ImageLinks(items)| == |items|
    ensures forall i :: 0 <= i < |items| ==> ImageLinks(items)[i] == ItemLink(items[i]).value.value
  {
    if items != [] {
      ImageLinksInOrder(items[1..]);
    }
  }

  /** No item of the stretch throws. */
  predicate ItemsRead(items: seq<Json>)
  {
    forall i :: 0 <= i < |items| ==> ItemLink(items[i]).Ok?
  }

  /** The walk over two stretches of items in which the first throws nowhere: the
      links of the first, then those of the second. Skipped items contribute nothing
      and do not stop the walk. */
  lemma {:induction false} ImageLinksAppend(a: seq<Json>, b: seq<Json>)
    requires ItemsRead(a)
    ensures ImageLinks(a + b) == ImageLinks(a) + ImageLinks(b)
    decreases |a|
  {
    if a == [] {
      assert a + b == b;
    } else {
      var ab := a + b;
      assert ab[0] == a[0] && ab[1..] == a[1..] + b;
      assert ItemsRead(a[1..]) by {
        forall i | 0 <= i < |a[1..]|
          ensures ItemLink(a[1..][i]).Ok?
        {
          assert a[1..][i] == a[i + 1];
        }
      }
      ImageLinksAppend(a[1..], b);
      assert ItemLink(a[0]).Ok?;
      if ItemLink(a[0]).value.Some? {
        var l := ItemLink(a[0]).value.value;
        assert ([l] + ImageLinks(a[1..])) + ImageLinks(b) == [l] + (ImageLinks(a[1..]) + ImageLinks(b));
      }
    }
  }

  /** When an item of the first stretch throws, the second contributes nothing. */
  lemma ImageLinksAppendThrow(a: seq<Json>, b: seq<Json>, i: nat)
    requires i < |a| && ItemLink(a[i]).Throws?
    ensures ImageLinks(a + b) == ImageLinks(a)
  {
    assert (a + b)[i] == a[i];
    ImageLinksStopAtThrow(a + b, i);
    ImageLinksStopAtThrow(a, i);
    assert (a + b)[..i] == a[..i];
  }

  /** A single item: a throw or a skip gives nothing, a link gives that link. */
  lemma ImageLinksOfItem(item: Json)
    ensures ItemLink(item).Ok? && ItemLink(item).value.Some? ==> ImageLinks([item]) == [ItemLink(item).value.value]
    ensures !(ItemLink(item).Ok? && ItemLink(item).value.Some?) ==> ImageLinks([item]) == []
  {
    assert [item][1..] == [];
  }

  /** An item that throws ends the loop: nothing after it is collected. */
  lemma {:induction false} ImageLinksStopAtThrow(items: seq<Json>, i: nat)
    requires i < |items| && ItemLink(items[i]).Throws?
    ensures ImageLinks(items) == ImageLinks(items[..i])
  {
    if i == 0 {
      assert items[..0] == [];
    } else {
      ImageLinksStopAtThrow(items[1..], i - 1);
      assert items[..i][1..] == items[1..][..i - 1];
    }
  }

  /** The `imageList` loop, appending to `res`; an exception leaves `res` as it is. */
  method CollectImageLinks(items: seq<Json>) returns (res: seq<string>)
    ensures res == ImageLinks(items)
  {
    res := [];
    var i := 0;
    while i < |items|
      invariant i <= |items|
      invariant res + ImageLinks(items[i..]) == ImageLinks(items)
    {
      ghost var tail := items[i..];
      assert tail[0] == items[i] && tail[1..] == items[i + 1..];
      var link := ItemLink(items[i]);
      if link.Throws? {
        assert ImageLinks(tail) == [];
        assert res + [] == res;
        return;
      }
      if link.value.Some? {
        assert ImageLinks(tail) == [link.value.value] + ImageLinks(items[i + 1..]);
        res := res + [link.value.value];
      }
      i := i + 1;
    }
    assert items[i..] == [];
    assert res + [] == res;
  }

  // ---------------------------------------------------------------------------
  // The note walk and GetDownloadLinks

  /** `data["note"]["noteDetailMap"][nid]["note"]` for `nid = data["note"]["firstNoteId"]`,
      or `None` when the walk returns early or throws. */
  function LocateNote(data: Json): (r: Option<Json>)
    ensures !Contains(data, "note") ==> r.None?
    ensures r.Some? ==>
      var note := Field(data, "note");
      && Contains(note, "firstNoteId") && Field(note, "firstNoteId").JString?
      && Contains(note, "noteDetailMap")
      && Contains(Field(note, "noteDetailMap"), Field(note, "firstNoteId").s)
      && Index(Field(Field(note, "noteDetailMap"), Field(note, "firstNoteId").s), "note") == Ok(r.value)
  {
    if !Contains(data, "note") then None
    else
      var note := Field(data, "note");
      if !Contains(note, "firstNoteId") then None
      else match GetString(Field(note, "firstNoteId"))
        case Throws => None
        case Ok(nid) =>
          var details := Index(note, "noteDetailMap").value;
          if !Contains(details, nid) then None
          else match Index(Field(details, nid), "note")
            case Throws => None
            case Ok(nd) => Some(nd)
  }

  /** The state of a page for note `nid` leads to that note's data. */
  lemma LocateNoteOfState(nid: string, nd: Json)
    ensures LocateNote(JObject([("note", JObject([
              ("firstNoteId", JString(nid)),
              ("noteDetailMap", JObject([(nid, JObject([("note", nd)]))]))]))]))
      == Some(nd)
  {
    var entry := JObject([("note", nd)]);
    var details := JObject([(nid, entry)]);
    var note := JObject([("firstNoteId", JString(nid)), ("noteDetailMap", details)]);
    var data := JObject([("note", note)]);
    assert Field(data, "note") == note;
    assert Field(note, "firstNoteId") == JString(nid);
    assert Lookup(note.members[1..], "noteDetailMap") == Some(details);
    assert Index(note, "noteDetailMap") == Ok(details);
    assert Field(details, nid) == entry;
    assert Index(entry, "note") == Ok(nd);
  }

  /** The video of a note of type `video`, or `""` when there is none. */
  function NoteVideo(nd: Json): Try<string>
  {
    match ValueString(nd, "type", "")
    case Throws => Throws
    case Ok(t) =>
      if t == "video" && Contains(nd, "video") then
        var video := Field(nd, "video");
        if Contains(video, "media") && Contains(Field(video, "media"), "stream") then
          ExtractVideo(Field(Field(video, "media"), "stream"))
        else Ok("")
      else Ok("")
  }

  /** The links of a note: its video alone, or else its image list. */
  function NoteLinks(nd: Json): (r: seq<string>)
    ensures forall l :: l in r ==> l != ""
  {
    match NoteVideo(nd)
    case Throws => []
    case Ok(v) =>
      if v != "" then [v]
      else if Contains(nd, "imageList") && Field(nd, "imageList").JArray? then ImageLinks(Field(nd, "imageList").items)
      else []
  }

  /** A video note with a usable stream yields exactly its video: the image list is
      not looked at. */
  lemma VideoNoteIgnoresImages(nd: Json, stream: Json, u: string)
    requires Contains(nd, "video") && Contains(Field(nd, "video"), "media")
    requires Contains(Field(Field(nd, "video"), "media"), "stream")
    requires stream == Field(Field(Field(nd, "video"), "media"), "stream")
    requires Contains(nd, "type") && Field(nd, "type") == JString("video")
    requires ExtractVideo(stream) == Ok(u) && u != ""
    ensures NoteLinks(nd) == [u]
  {
  }

  /** A note that is not a video, or whose video is empty, yields its image links. */
  lemma ImageNoteLinks(nd: Json)
    requires NoteVideo(nd) == Ok("")
    requires Contains(nd, "imageList") && Field(nd, "imageList").JArray?
    ensures NoteLinks(nd) == ImageLinks(Field(nd, "imageList").items)
  {
  }

  /** The page state: the object after the marker, cut out by the brace scan,
      sanitised and parsed; `None` when the marker or the brace is missing or the
      text does not parse. */
  function PageState(text: string, parse: string -> Option<Json>): (r: Option<Json>)
    ensures Find(text, Marker).None? ==> r.None?
  {
    match Find(text, Marker)
    case None => None
    case Some(m) =>
      match FindFrom(text, "{", m)
      case None => None
      case Some(start) =>
        assert text[start..start + 1] == "{";
        parse(Sanitize(StateBlob(text, start)))
  }

  /** The links `GetDownloadLinks` returns for `url`, the exceptions it catches giving
      the links collected until then. */
  function XhsLinks(url: string, get: string -> Response, parse: string -> Option<Json>): (r: seq<string>)
    ensures get(url).status != HTTP_OK ==> r == []
    ensures Find(get(url).text, Marker).None? ==> r == []
    ensures forall l :: l in r ==> l != ""
  {
    var page := get(url);
    if page.status != HTTP_OK then []
    else match PageState(page.text, parse)
      case None => []
      case Some(data) =>
        match LocateNote(data)
        case None => []
        case Some(nd) => NoteLinks(nd)
  }

  /** For a page that answers 200 and whose state parses to `data`: the links of the
      note that `data` locates, or none when it locates none. */
  lemma XhsLinksOfDocument(url: string, get: string -> Response, parse: string -> Option<Json>, data: Json)
    requires get(url).status == HTTP_OK && PageState(get(url).text, parse) == Some(data)
    ensures LocateNote(data).None? ==> XhsLinks(url, get, parse) == []
    ensures LocateNote(data).Some? ==> XhsLinks(url, get, parse) == NoteLinks(LocateNote(data).value)
  {
  }

  /** `GetDownloadLinks`. */
  method GetDownloadLinks(url: string, get: string -> Response, parse: string -> Option<Json>)
    returns (res: seq<string>)
    ensures res == XhsLinks(url, get, parse)
  {
    res := [];
    var page := get(url);
    if page.status != HTTP_OK {
      return;
    }
    var data := ReadState(page.text, parse);
    if data.None? {
      return;
    }
    var note := LocateNote(data.value);
    if note.None? {
      return;
    }
    res := CollectNoteLinks(note.value);
  }

  /** The part of `GetDownloadLinks` that finds the marker, scans the braces and
      parses. A missing `{` after the marker makes the slice start past the end,
      which throws and is caught; a text that does not parse throws too. */
  method ReadState(text: string, parse: string -> Option<Json>) returns (data: Option<Json>)
    ensures data == PageState(text, parse)
  {
    var marker := Find(text, Marker);
    if marker.None? {
      return None;
    }
    var open := FindFrom(text, "{", marker.value);
    if open.None? {
      return None;
    }
    var start := open.value;
    assert text[start..start + 1] == "{";
    var end := BraceScan(text, start);
    var blob := Substr(text, start, end - start + 1).value;
    assert blob == StateBlob(text, start);
    data := parse(Sanitize(blob));
  }

  /** The part of `GetDownloadLinks` that walks the note. */
  method CollectNoteLinks(nd: Json) returns (res: seq<string>)
    ensures res == NoteLinks(nd)
  {
    res := [];
    var kind := ValueString(nd, "type", "");
    if kind.Throws? {
      return;
    }
    if kind.value == "video" && Contains(nd, "video") {
      var video := Field(nd, "video");
      if Contains(video, "media") && Contains(Field(video, "media"), "stream") {
        var v := ScanCodecs(Field(Field(video, "media"), "stream"));
        if v.Throws? {
          return;
        }
        if v.value != "" {
          res := [v.value];
          return;
        }
      }
    }
    if Contains(nd, "imageList") && Field(nd, "imageList").JArray? {
      res := CollectImageLinks(Field(nd, "imageList").items);
    }
  }

  // ---------------------------------------------------------------------------
  // DownloadFile

  /** The suffix of the first table entry whose MIME type occurs in `contentType`,
      or `.bin`. */
  function MimeFrom(table: seq<(string, string)>, contentType: string): (ext: string)
    ensures ext == ".bin" || exists i :: 0 <= i < |table| && ContainsSub(contentType, table[i].0) && ext == table[i].1
  {
    if table == [] then ".bin"
    else if ContainsSub(contentType, table[0].0) then table[0].1
    else MimeFrom(table[1..], contentType)
  }

  lemma {:induction false} MimeFirstMatch(table: seq<(string, string)>, contentType: string, i: nat)
    requires i < |table| && ContainsSub(contentType, table[i].0)
    requires forall j :: 0 <= j < i ==> !ContainsSub(contentType, table[j].0)
    ensures MimeFrom(table, contentType) == table[i].1
  {
    if i > 0 {
      assert !ContainsSub(contentType, table[0].0);
      MimeFirstMatch(table[1..], contentType, i - 1);
    }
  }

  lemma {:induction false} MimeDefault(table: seq<(string, string)>, contentType: string)
    requires forall j :: 0 <= j < |table| ==> !ContainsSub(contentType, table[j].0)
    ensures MimeFrom(table, contentType) == ".bin"
  {
    if table != [] {
      assert !ContainsSub(contentType, table[0].0);
      MimeDefault(table[1..], contentType);
    }
  }

  /** The `mime_map` loop. */
  method ExtensionFor(contentType: string) returns (ext: string)
    ensures ext == MimeFrom(MimeTable, contentType)
  {
    ext := ".bin";
    var i := 0;
    while i < |MimeTable|
      invariant i <= |MimeTable|
      invariant MimeFrom(MimeTable, contentType) == MimeFrom(MimeTable[i..], contentType)
    {
      if ContainsSub(contentType, MimeTable[i].0) {
        ext := MimeTable[i].1;
        return;
      }
      assert MimeTable[i..][1..] == MimeTable[i + 1..];
      i := i + 1;
    }
  }

  /** The response whose body is saved: for an image, the PNG rendition when that
      request succeeds, otherwise the first response. */
  function SavedResponse(link: string, get: string -> Response): (r: Response)
    ensures r == get(link) || r == get(link + PngVariant)
    ensures !ContainsSub(get(link).contentType, "image/") ==> r == get(link)
    ensures get(link).status == HTTP_OK ==> r.status == HTTP_OK
  {
    var r := get(link);
    if ContainsSub(r.contentType, "image/") && get(link + PngVariant).status == HTTP_OK then get(link + PngVariant)
    else r
  }

  /** `DownloadFile`: nothing is written when the link does not answer 200; otherwise
      the saved body lands in a fresh file named by a counter id and the extension
      its content type maps to. */
  method DownloadFile(link: string, dir: string, get: string -> Response, store: Utils.Store)
    returns (path: Option<string>)
    requires store.Valid() && |store.files| < SIZE_T
    modifies store
    ensures store.Valid()
    ensures get(link).status != HTTP_OK ==> path.None? && unchanged(store)
    ensures get(link).status == HTTP_OK ==>
      var saved := SavedResponse(link, get);
      && path.Some? && path.value !in old(store.files)
      && store.files == old(store.files)[path.value := saved.text]
      && exists n: nat ::
           && path.value == Utils.CandidatePath(dir, MimeFrom(MimeTable, saved.contentType), Utils.IdAfter(old(store.counter), n))
           && Utils.FirstFree(dir, MimeFrom(MimeTable, saved.contentType), old(store.counter), n, old(store.files))
           && store.counter == Utils.IdAfter(old(store.counter), n + 1)
  {
    var r := get(link);
    if r.status != HTTP_OK {
      return None;
    }
    if ContainsSub(r.contentType, "image/") {
      var png := get(link + PngVariant);
      if png.status == HTTP_OK {
        r := png;
      }
    }
    var ext := ExtensionFor(r.contentType);
    var saved, n := store.SaveContents(dir, ext, r.text);
    return Some(saved);
  }
}
