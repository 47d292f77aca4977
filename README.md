# ciel_parser resolvers, modelled in Dafny

ciel_parser is a chat bot. It spots links to five media sites in a message: XiaoHongShu, Weibo, Twitter, Bilibili and Pixiv. For each link it turns the post into a list of direct media links (`GetDownloadLinks`) and then saves each medium into a download directory (`DownloadFile`). This project models that link-resolution and file-naming core, the header files under `include/`, one Dafny module per header:

- `xhs.dfy` (`Xhs`): the XiaoHongShu resolver. It cuts the page state out of the HTML with a brace-depth scan, rewrites `:undefined` to `:null`, chooses a note's video by codec priority or else its image list, extracts image keys, and maps Content-Type to an extension through the MIME table.
- `weibo.dfy` (`Weibo`): the status id taken from the URL tail, one picture per `pic_ids` entry, the largest playback rendition (the first one wins a tie), and the extension of the link without its query.
- `twitter.dfy` (`Twitter`): the status id from `status/<digits>`, the flat `media_extended` list, the extension rule, and the original-size rewrite of CDN images.
- `bilibili.dfy` (`Bilibili`): the BV id of the final URL, the nested page / `durl` walk that keeps the links it collected when an exception ends it, and the extension slice.
- `pixiv.dfy` (`Pixiv`): the artwork id, one `urls.original` per `body` element, and the path extension.
- `utils.dfy` (`Utils`): `TryNTimes`, a `Store` class holding `g_counter` and the download directory (a finite map from path to contents) with `GenerateUniqueId` and `SaveContents`, and the URL scanner that every `GetUrls` shares.
- `json.dfy`, `http.dfy`, `text.dfy`, `outcomes.dfy`: an abstract JSON value and the accessor semantics of the JSON library; the HTTP response; the `std::string` and `std::filesystem::path` operations the resolvers use; and Option / Try / Outcome.

The model keeps the network and JSON text parsing out:
- every resolver takes the network as a function `get` from a requested URL to a `Response` (status, final URL, Content-Type, body);
- JSON parsing is a function `parse` from text to an optional JSON value.

Every C++ exception the code can raise is explicit:
- `Try` marks a step that can throw;
- `Outcome.Threw` marks a resolver from which the exception escapes (Weibo, Twitter, Pixiv);
- XiaoHongShu and Bilibili catch their exceptions, and the model returns the links collected up to the throw.

Each `GetUrls` regular expression is a hand-written recogniser. Each site's `GetUrls` is proved to return only links of the whole pattern's shape: prefix, host and path part alike. That the recogniser finds the same matches as `std::regex` on every input is not proved (see Left out).

## Model

| member | source | states |
|---|---|---|
| Utils.TryNTimes | include/utils.hpp:10-21 | at most `n` calls; every call before the last one threw; stopping before `n` means the last call succeeded; one sleep per failed call |
| Utils.MatchedUrlsShape | include/utils.hpp:23-27 | every token the scanner returns is a whole match of the recogniser, so it has every shape the recogniser guarantees |
| Utils.MatchedPrefixRuns | include/utils.hpp:23-27 | a scanner driven by a "prefix, then a run of a class" recogniser returns only tokens that are one of the prefixes followed by a non-empty run of the class |
| Utils.ExpandMembers | include/pixiv.hpp:21 | the expansion of a choice of heads followed by a choice of tails holds exactly the head+tail concatenations |
| Utils.ExpandHas | include/twitter.hpp:22 | any chosen head followed by any chosen tail is one of the expanded prefixes |
| Utils.PrefixRunMatch | include/xhs.hpp:22 | a match of "one of the literal prefixes, then a non-empty greedy run of a class" ends after its start and within the text |
| Utils.PrefixRunMatchWhich | include/xhs.hpp:22 | a match starts with one of the prefixes and ends exactly where the greedy class run after it ends |
| Utils.PrefixRunMatchNone | include/xhs.hpp:22 | no match means that no prefix present at the position is followed by a class character |
| Utils.PrefixRunShape | include/xhs.hpp:22 | the matched text is a prefix followed by a non-empty run of class characters |
| Utils.Search | include/pixiv.hpp:33 | `regex_search`: the reported start matches, no earlier position does, and no result means no position matches |
| Utils.SearchFirst | include/pixiv.hpp:33 | the search returns the first matching position |
| Utils.IdAfterNext | include/utils.hpp:29-31 | advancing the wrapping counter once more gives the next id |
| Utils.IdsDistinct | include/utils.hpp:29-31 | fewer than 2^64 successive ids are pairwise distinct |
| Utils.CandidatePathInjective | include/utils.hpp:36 | distinct ids give distinct candidate paths `dir/<id><ext>` |
| Utils.TriedStep | include/utils.hpp:35-39 | each loop iteration tries a path that was not tried before |
| Utils.TriedGrow | include/utils.hpp:35-39 | a colliding candidate is a further existing file, so the tried set grows inside the finite set of existing files |
| Utils.AllTakenStep | include/utils.hpp:35-38 | after `n` collisions and one more, the first `n + 1` candidate paths all exist |
| Utils.FirstFreeUnique | include/utils.hpp:35-42 | the number of collisions before the first free candidate is determined by the counter and the directory |
| Utils.Store.constructor | include/utils.hpp:29 | the counter starts at 0 over the given directory |
| Utils.Store.GenerateUniqueId | include/utils.hpp:31 | returns the previous counter value and advances the counter by one, wrapping at 2^64 |
| Utils.Store.SaveContents | include/utils.hpp:33-44 | after `n` collisions, returns the candidate `dir/<id><ext>` of the id `n` steps after the old counter; that path was absent and every earlier candidate existed; the counter ends `n + 1` steps on; the directory gains exactly that entry and nothing else changes; the loop terminates because every collision consumes a fresh id and an existing file |
| Utils.Store.WriteFile | include/weibo.hpp:97-98 | an unconditional write: the directory maps the path to the contents and nothing else changes |
| Text.FindFrom | include/xhs.hpp:42 | `find`: the first occurrence at or after the start, or none anywhere after it |
| Text.FindChar | include/weibo.hpp:33 | `find(c)`: the first occurrence of the character, or none |
| Text.LastIndexOf | include/weibo.hpp:32 | `find_last_of` / `rfind`: the last occurrence of the character, or none |
| Text.LastIndexOfAt | include/bilibili.hpp:82 | an occurrence with no later occurrence is the one `rfind` reports |
| Text.SizeSubBelow | include/bilibili.hpp:82 | `size_t` subtraction without wrap-around is the plain difference |
| Text.SizeSubWraps | include/bilibili.hpp:82 | `size_t` subtraction below zero wraps around by 2^64 |
| Text.SizeSubNonZero | include/bilibili.hpp:82 | the `size_t` difference of distinct values is never zero |
| Text.Substr | include/bilibili.hpp:82 | `substr` throws exactly when the position is past the end, and otherwise clamps the count |
| Text.Decimal | include/utils.hpp:36 | `std::format("{}", n)` is a non-empty digit string |
| Text.ParseDecimalOfDecimal | include/utils.hpp:36 | reading a rendered number back gives the number |
| Text.DecimalInjective | include/utils.hpp:36 | distinct numbers render as distinct strings |
| Text.RunEnd | include/twitter.hpp:22 | a greedy run: every character in it is in the class, and the one after it is not |
| Text.RunEndAt | include/twitter.hpp:31 | a run ends at the first position outside the class |
| Text.UrlPrefix | include/twitter.hpp:48 | `substr(0, find('?'))`: a `?`-free prefix of the link, cut at its first `?` |
| Text.UrlPrefixOfQuery | include/twitter.hpp:48 | a query that is empty or starts with `?` is not part of the prefix |
| Text.Filename | include/pixiv.hpp:61 | `path::filename()` is a `/`-free suffix of the path |
| Text.Extension | include/pixiv.hpp:61 | `path::extension()` is empty, or a `.` with no later `.` or `/` that ends the path |
| Text.DotTail | include/pixiv.hpp:61 | the tail of a file name from a `.` with no later `.` has the shape of an extension |
| Text.FilenameAfterSlash | include/pixiv.hpp:61 | the file name is what follows the last `/` |
| Text.LastDot | include/pixiv.hpp:61 | the last `.` of `stem.e` is the one after the stem |
| Text.ExtensionOfFilename | include/pixiv.hpp:61 | a path whose file name is `stem.e` has the extension `.e` |
| Text.ExtensionOfName | include/pixiv.hpp:61 | `prefix/stem.e` has the extension `.e` |
| Text.Join | include/utils.hpp:36 | `dir / name` ends with the name |
| Text.JoinInjective | include/utils.hpp:36 | two names joined to one directory give one path only when the names are equal |
| Json.Index | include/pixiv.hpp:46 | non-const `j[key]` succeeds exactly on an object or null; a present key gives its member, a missing one null |
| Json.At | include/pixiv.hpp:47 | const `j[key]` succeeds exactly when the key is present, and gives its member |
| Json.IndexAgreesWithAt | include/pixiv.hpp:46-47 | where the const access succeeds, the non-const one gives the same member |
| Json.GetString | include/weibo.hpp:63 | `get<std::string>()` succeeds exactly on a string, and gives it |
| Json.GetU64 | include/bilibili.hpp:52 | `get<uint64_t>()` succeeds exactly on a number; the result is below 2^64 and congruent to it, and equal to it when it is in range |
| Json.GetNumber | include/weibo.hpp:71 | `get<double>()` succeeds exactly on a number, and gives it |
| Json.ValueString | include/twitter.hpp:40 | `value(key, "")` succeeds exactly on an object whose member, if present, is a string; a missing key gives the default |
| Json.ValueNumber | include/weibo.hpp:71 | `value(key, 0.0)` succeeds exactly on an object whose member, if present, is a number; a missing key gives the default |
| Json.Elements | include/pixiv.hpp:46 | a range-for visits an array's items, an object's member values, nothing for null, and a scalar itself |
| Xhs.XhsMatchAdvances | include/xhs.hpp:22 | every match of the link pattern is non-empty and inside the message |
| Xhs.GetUrls | include/xhs.hpp:22-27 | every link found is a site prefix followed by a non-empty run of `[\w\-./?=&%]` |
| Xhs.DepthStep | include/xhs.hpp:51-56 | each index changes the brace depth by +1 for `{`, -1 for `}`, 0 otherwise |
| Xhs.DepthAtStart | include/xhs.hpp:48-53 | the depth is 1 after the opening brace |
| Xhs.ScanFrom | include/xhs.hpp:51-60 | the scan stops at the first later index where the depth is back to 0, or at the end; the depth stays positive before that |
| Xhs.MatchingBrace | include/xhs.hpp:48-60 | the scan from the first `{` ends past it; the depth stays positive strictly before the end, and a stop inside the text is at a `}` with depth 0 |
| Xhs.BraceScan | include/xhs.hpp:48-60 | the `balance`/`end` loop computes exactly `MatchingBrace` |
| Xhs.BalancedBlob | include/xhs.hpp:48-63 | when the braces balance, the slice begins with `{`, ends with `}`, balances, and no proper prefix of it does |
| Xhs.StateBlob | include/xhs.hpp:48-63 | the slice handed to the sanitiser starts at the first `{` and is a prefix of the text from there; balanced braces end it at the matching `}`, otherwise it runs to the end |
| Xhs.SanitizeKeepsCleanText | include/xhs.hpp:165-168 | text without `:undefined` passes through unchanged |
| Xhs.Sanitize | include/xhs.hpp:165-168 | the replacement never lengthens the text and is empty only for empty text |
| Xhs.SanitizeAtFirst | include/xhs.hpp:165-168 | the first `:undefined` becomes `:null`, the text before it is kept and the rest is rewritten the same way |
| Xhs.SanitizeColonFreePrefix | include/xhs.hpp:165-168 | the replacement changes no character before the first `:` |
| Xhs.SplicedToken | include/xhs.hpp:165-168 | a `:undefined` at the head of the output that is not produced by a replacement was already in the input |
| Xhs.NullThenFree | include/xhs.hpp:165-168 | a `:null` put in front of text without `:undefined` creates none |
| Xhs.SanitizeRemovesUndefined | include/xhs.hpp:165-168 | no `:undefined` is left in the output, not even one spliced from a replacement and its neighbours |
| Xhs.BangFrom | include/xhs.hpp:158 | the lazy `.+?!` stops at the first `!` that no line terminator precedes |
| Xhs.KeyAt | include/xhs.hpp:158-160 | a match is `/`, 32 lower-case hex digits, `/`, then a non-empty key followed by `!` |
| Xhs.FirstKeyAt | include/xhs.hpp:159 | the leftmost position where the key pattern matches |
| Xhs.ExtractImageKey | include/xhs.hpp:157-163 | `""` exactly when the pattern matches nowhere; otherwise the key of the leftmost match |
| Xhs.ExtractImageKeyOfPath | include/xhs.hpp:157-163 | a CDN path `pre/<hash>/<key>!rest` with no hash segment starting inside `pre` gives back exactly `key` |
| Xhs.SampleLinkKey | include/xhs.hpp:157-163 | a CDN image link of the usual shape gives back its key |
| Xhs.FirstUsableDecides | include/xhs.hpp:82-86 | the first codec with a non-empty array decides, even when its `masterUrl` is empty |
| Xhs.NoneUsable | include/xhs.hpp:82-87 | no usable codec gives `""` |
| Xhs.FirstUsable | include/xhs.hpp:82-87 | the result is `""` or the `masterUrl` of a usable codec from the list |
| Xhs.ExtractVideo | include/xhs.hpp:78-88 | a non-object stream gives `""`; otherwise the result is `""` or the `masterUrl` of one of h264, h265, av1 that is usable |
| Xhs.ExtractVideoPriority | include/xhs.hpp:78-88 | `""` for a non-object; else h264, h265, av1 in that order, the first usable one deciding; `""` when none is usable |
| Xhs.ScanCodecs | include/xhs.hpp:82-87 | the codec loop computes exactly `ExtractVideo` |
| Xhs.RawLink | include/xhs.hpp:108-120 | an image link is `https://ci.xiaohongshu.com/` followed by a non-empty key |
| Xhs.ItemLink | include/xhs.hpp:100-121 | an item contributes no empty link |
| Xhs.ItemLinkPriority | include/xhs.hpp:101-116 | a non-empty live stream wins; otherwise `urlPre` comes before `urlDefault`; an item with neither contributes nothing |
| Xhs.ImageItemLink | include/xhs.hpp:108-120 | an item whose `urlDefault` is such a CDN path gives `https://ci.xiaohongshu.com/<key>` |
| Xhs.ImageLinks | include/xhs.hpp:99-121 | at most one non-empty link per item |
| Xhs.ImageLinksInOrder | include/xhs.hpp:99-121 | when every item gives a link, the result holds exactly those links in item order |
| Xhs.ImageLinksAppend | include/xhs.hpp:99-121 | when the first items all read without throwing, the links of a concatenation are the links of the first items followed by those of the rest |
| Xhs.ImageLinksAppendThrow | include/xhs.hpp:99-125 | when one of the first items throws, the items after them add nothing |
| Xhs.ImageLinksOfItem | include/xhs.hpp:108-120 | one item gives its link, or nothing when it is skipped |
| Xhs.ImageLinksStopAtThrow | include/xhs.hpp:99-125 | an item that throws ends the loop; the links collected before it are kept |
| Xhs.CollectImageLinks | include/xhs.hpp:99-125 | the `imageList` loop computes exactly `ImageLinks` |
| Xhs.LocateNoteOfState | include/xhs.hpp:65-76 | the state of a page for note `nid` leads to that note's data |
| Xhs.LocateNote | include/xhs.hpp:65-76 | no `note` gives nothing; a located note means `firstNoteId` is a string, `noteDetailMap` holds it, and the result is that entry's `note` |
| Xhs.NoteLinks | include/xhs.hpp:90-122 | a note yields no empty link |
| Xhs.VideoNoteIgnoresImages | include/xhs.hpp:90-97 | a video note whose stream gives a non-empty URL yields exactly that one link |
| Xhs.ImageNoteLinks | include/xhs.hpp:90-122 | a note without a usable video yields its image-list links |
| Xhs.PageState | include/xhs.hpp:42-63 | a page without the `window.__INITIAL_STATE__=` marker has no state |
| Xhs.XhsLinks | include/xhs.hpp:29-127 | a non-200 page, or a page without the marker, gives no links; no link is empty |
| Xhs.XhsLinksOfDocument | include/xhs.hpp:62-122 | for a page answering 200 whose state parses: no note gives no links, otherwise the links of the note found |
| Xhs.GetDownloadLinks | include/xhs.hpp:29-127 | the method computes exactly `XhsLinks` |
| Xhs.ReadState | include/xhs.hpp:42-63 | marker search, brace scan, sanitising and parsing compute exactly `PageState` |
| Xhs.CollectNoteLinks | include/xhs.hpp:76-122 | the note walk computes exactly `NoteLinks` |
| Xhs.MimeFirstMatch | include/xhs.hpp:143-149 | the first table entry whose MIME type occurs in the Content-Type gives the extension |
| Xhs.MimeDefault | include/xhs.hpp:143-149 | no matching entry gives `.bin` |
| Xhs.MimeFrom | include/xhs.hpp:143-149 | the extension is `.bin` or the suffix of a table entry whose MIME type occurs in the Content-Type |
| Xhs.ExtensionFor | include/xhs.hpp:143-149 | the `mime_map` loop computes exactly the first-match extension |
| Xhs.SavedResponse | include/xhs.hpp:131-141 | the saved response is the link's own or its PNG variant's; a non-image is saved as fetched; a 200 link saves a 200 response |
| Xhs.DownloadFile | include/xhs.hpp:129-151 | a non-200 link writes nothing; otherwise the saved response (the PNG variant of an image, when that answers 200) goes to a fresh `dir/<id><ext>` |
| Weibo.HostEnd | include/weibo.hpp:22 | the host part of a match ends after its start and within the text |
| Weibo.WeiboMatch | include/weibo.hpp:22 | a match ends after its start and within the text |
| Weibo.WeiboMatchAdvances | include/weibo.hpp:22 | every match is non-empty and inside the message |
| Weibo.GetUrls | include/weibo.hpp:21-27 | every link found is `http(s)://[m.]weibo.(com\|cn)/` followed by non-space text that does not start with `u/`, and no link is a user-profile link |
| Weibo.SchemeStep | include/weibo.hpp:22 | `https?://` ends after the scheme that is spelled out |
| Weibo.SubStep | include/weibo.hpp:22 | the optional `m.` is taken exactly when the host has it |
| Weibo.TldStep | include/weibo.hpp:22 | `com` is tried before `cn`, and the one spelled out is taken |
| Weibo.AfterScheme | include/weibo.hpp:22 | after the scheme, the steps match the rest of the host |
| Weibo.HostEndOfHost | include/weibo.hpp:22 | wherever a host is spelled out, the host part matches exactly that host |
| Weibo.SchemeOf | include/weibo.hpp:22 | the scheme the recogniser read is `http` or `https` followed by `://` |
| Weibo.TldOf | include/weibo.hpp:22 | the domain ending read is `com` or `cn` followed by `/` |
| Weibo.AfterSchemeOf | include/weibo.hpp:22 | after the scheme, the text is `[m.]weibo.` and a domain ending followed by `/` |
| Weibo.HostOfHostEnd | include/weibo.hpp:22 | wherever the host part matches, a host the pattern allows is spelled out and the match ends right after it |
| Weibo.MatchIsWeiboLink | include/weibo.hpp:22 | every single match has the full shape of the pattern |
| Weibo.MatchNotAtProfile | include/weibo.hpp:22 | the `(?!u/)` lookahead rules out a match that starts with a host followed by `u/` |
| Weibo.MatchNotProfile | include/weibo.hpp:22 | no single match is a user-profile link |
| Weibo.StatusId | include/weibo.hpp:32-35 | the id holds no `/` and no `?` |
| Weibo.StatusIdAfterSlash | include/weibo.hpp:32-35 | the id is the segment after the last `/`, without its query |
| Weibo.StatusIdOfUrl | include/weibo.hpp:32-35 | a status link gives back its last segment, with or without a query |
| Weibo.CutStatusId | include/weibo.hpp:32-35 | the in-place `resize` computes exactly `StatusId` |
| Weibo.PictureUrl | include/weibo.hpp:63 | an id that is not a string throws; a URL found is the `largest.url` string listed for the id |
| Weibo.PictureUrlOfInfo | include/weibo.hpp:63 | a picture listed with its largest rendition gives that rendition's URL |
| Weibo.MissingPictureThrows | include/weibo.hpp:63 | an id missing from `pic_infos` is not skipped: the lookup throws |
| Weibo.PictureLinks | include/weibo.hpp:61-65 | succeeds exactly when every id has a URL; then one URL per id, in `pic_ids` order |
| Weibo.CollectPictures | include/weibo.hpp:61-65 | the `pic_ids` loop computes exactly `PictureLinks` |
| Weibo.MaxFrom | include/weibo.hpp:70-72 | the chosen position is inside the list |
| Weibo.BestIndex | include/weibo.hpp:70-73 | the chosen position is inside the list |
| Weibo.MaxFromFirstMax | include/weibo.hpp:70-72 | the scan keeps the first entry of largest size |
| Weibo.BestIsFirstMaximum | include/weibo.hpp:70-73 | the chosen entry has the largest size, and every earlier entry a strictly smaller one, so the first of equal maxima wins |
| Weibo.MaxFromThrows | include/weibo.hpp:70-72 | a later entry whose size cannot be read makes the scan throw |
| Weibo.BestIndexThrows | include/weibo.hpp:70-73 | with two entries or more, an unreadable size throws; a single entry is chosen without reading it |
| Weibo.PlaySize | include/weibo.hpp:71 | the size is read exactly when `play_info` is an object whose `size`, if present, is a number; a missing size reads as 0 |
| Weibo.VideoUrl | include/weibo.hpp:74 | succeeds exactly when `play_info.url` is a string, and gives that string |
| Weibo.BestVideo | include/weibo.hpp:70-75 | an empty list gives no video; a non-empty list that succeeds gives one, the URL of the entry that `BestIndex` chooses |
| Weibo.MediaVideo | include/weibo.hpp:67-77 | without `page_info.media_info.playback_list` there is no video; with it, the video is the one `max_element` picks from that list |
| Weibo.StatusPictures | include/weibo.hpp:61-65 | without both `pic_ids` and `pic_infos` there are no pictures; otherwise one URL per id, each the id's `PictureUrl` |
| Weibo.WeiboLinks | include/weibo.hpp:29-80 | a non-200 response, or a body that does not parse, gives no links |
| Weibo.WeiboLinksOfDocument | include/weibo.hpp:55-79 | for a status answering 200 that parses: the call throws exactly when the pictures or the video throw, and otherwise returns the pictures followed by the video when there is one |
| Weibo.PicturesThenVideo | include/weibo.hpp:61-77 | the pictures come first, one per id and in id order; one more link follows exactly when the playback list is non-empty, and it is the URL of the first entry of largest size |
| Weibo.GetDownloadLinks | include/weibo.hpp:29-80 | the method computes exactly `WeiboLinks` |
| Weibo.WeiboExt | include/weibo.hpp:90-94 | the extension is non-empty, starts with `.` and holds no `/` |
| Weibo.WeiboExtOfLink | include/weibo.hpp:90-94 | a link `prefix/stem.e`, with or without a query, is saved with `.e` |
| Weibo.WeiboExtDefault | include/weibo.hpp:90-94 | a link whose last segment has no `.` is saved with `.bin` |
| Weibo.QueryIgnored | include/weibo.hpp:90-91 | the query never decides the extension, even when it holds a `.` |
| Weibo.DownloadFile | include/weibo.hpp:82-101 | a non-200 link writes nothing; otherwise the body goes to `dir/<ts><ext>`, replacing any file of that name, and the counter is untouched |
| Twitter.TwitterMatch | include/twitter.hpp:22 | a match ends after its start and within the text |
| Twitter.TwitterMatchAdvances | include/twitter.hpp:22 | every match is non-empty and inside the message |
| Twitter.PrefixOf | include/twitter.hpp:22 | the optional `https://`/`http://` and `www.` read form one of the allowed prefixes |
| Twitter.HostUserOf | include/twitter.hpp:22 | after the prefix comes `twitter` or `x`, `.com/`, and a non-empty user name without `/` |
| Twitter.MatchParts | include/twitter.hpp:22 | a match is host, user, `/status/` and digits up to its end |
| Twitter.JoinHead | include/twitter.hpp:22 | the prefix, host and user read one after another form the head of the link |
| Twitter.MatchHead | include/twitter.hpp:22 | a match spells an allowed head, `/status/`, and then only digits up to its end |
| Twitter.SliceStatusAfter | include/twitter.hpp:22 | the matched slice is the head, `/status/` and a non-empty digit run |
| Twitter.MatchIsStatusLink | include/twitter.hpp:22 | every single match has the full shape of the pattern |
| Twitter.GetUrls | include/twitter.hpp:21-26 | every link found is `[http(s)://][www.](twitter\|x).com/<user>/status/<digits>` with a non-empty user name without `/` |
| Twitter.LastStatus | include/twitter.hpp:31 | the greedy `^.*` settles on the last `status/` that is followed by a digit |
| Twitter.StatusId | include/twitter.hpp:31 | a URL with a line terminator is kept whole; otherwise a URL with `status/<digit>` gives a non-empty digit string |
| Twitter.StatusLinkIndex | include/twitter.hpp:31 | the characters of `pre status/ digits rest` after `status/` |
| Twitter.LastStatusOfLink | include/twitter.hpp:31 | in a status link, the last `status/<digit>` is the one spelled out |
| Twitter.DigitsOfLink | include/twitter.hpp:31 | the digit run after `status/` is exactly the id's digits |
| Twitter.LinkHasNoTerminator | include/twitter.hpp:31 | a status link has a line terminator only where its parts have one |
| Twitter.StatusIdOfUrl | include/twitter.hpp:31 | a status link gives back its digits, whatever query follows |
| Twitter.MediaLinks | include/twitter.hpp:38-42 | succeeds exactly when every entry has a readable URL; then one entry per media element, in order |
| Twitter.EntryWithoutUrl | include/twitter.hpp:40 | an entry without `url` contributes `""` rather than being skipped |
| Twitter.MediaUrl | include/twitter.hpp:40 | succeeds exactly when the entry is an object whose `url`, if present, is a string; a missing `url` gives `""` |
| Twitter.CollectMedia | include/twitter.hpp:38-42 | the `media_extended` loop computes exactly `MediaLinks` |
| Twitter.TwitterLinks | include/twitter.hpp:28-44 | a non-200 API response gives no links; a returned list has one entry per `media_extended` element |
| Twitter.TwitterLinksOfDocument | include/twitter.hpp:38-43 | for an API response answering 200 that parses: no `media_extended` gives no links; otherwise one `url` per element in order, or a throw when one cannot be read |
| Twitter.TwitterLinksOfNonJson | include/twitter.hpp:36-38 | a body that does not parse gives no links |
| Twitter.GetDownloadLinks | include/twitter.hpp:28-44 | the method computes exactly `TwitterLinks` |
| Twitter.TwitterExt | include/twitter.hpp:48-52 | the extension starts with `.` and holds no `/` |
| Twitter.TwitterExtOfLink | include/twitter.hpp:48-52 | a link `prefix/stem.e`, with or without a query, is saved with `.e` |
| Twitter.TwitterExtDefault | include/twitter.hpp:48-52 | a link whose last segment has no `.` is saved with `.mp4` |
| Twitter.CdnExtension | include/twitter.hpp:48-52 | a CDN image link's extension is its file name's, whatever the query |
| Twitter.FinalLinkRewritesOnlyCdnImages | include/twitter.hpp:54-59 | only `.jpg`/`.png` links containing `pbs.twimg.com` are rewritten, and a rewritten link asks for `name=orig` |
| Twitter.CdnHostIn | include/twitter.hpp:55 | every link on the media path contains the CDN host |
| Twitter.RewriteOfParts | include/twitter.hpp:54-59 | the rewrite of a link whose prefix is `pre` followed by the extension |
| Twitter.FinalLink | include/twitter.hpp:54-59 | a link without the CDN host, or with an extension other than `.jpg`/`.png`, is fetched unchanged |
| Twitter.CdnImageRewrite | include/twitter.hpp:48-59 | a CDN image link is fetched as the original-size image of the same name and keeps its extension |
| Twitter.DownloadFile | include/twitter.hpp:46-72 | a non-200 final link writes nothing; otherwise its body goes to `dir/<ts><ext>`, replacing any file of that name |
| Bilibili.BilibiliMatchAdvances | include/bilibili.hpp:22 | every match is non-empty and inside the message |
| Bilibili.GetUrls | include/bilibili.hpp:21-27 | every link found is a site path, with or without a scheme, followed by a non-empty run of characters other than a space, white space and NUL (the class as compiled) |
| Bilibili.BilibiliMatchIntendedAdvances | include/bilibili.hpp:22 | with the intended class, every match is non-empty and inside the message |
| Bilibili.GetUrlsIntended | include/bilibili.hpp:21-27 | intended: every link is a site path followed by characters other than a space, white space and the ideographic space |
| Bilibili.SpaceMessagePrefix | include/bilibili.hpp:22 | the message `https://b23.tv/abc` followed by U+3000 starts with a link prefix |
| Bilibili.IdeographicSpaceAsWritten | include/bilibili.hpp:22 | as compiled, that message is found whole, the ideographic space included |
| Bilibili.IdeographicSpaceIntended | include/bilibili.hpp:22 | intended, the link ends before the ideographic space |
| Bilibili.BvAt | include/bilibili.hpp:40 | a BV id match is 12 characters long |
| Bilibili.FindBvid | include/bilibili.hpp:40-46 | a found id is `BV` plus ten alphanumerics and occurs in the final URL at the leftmost matching position; none means no position matches |
| Bilibili.FindBvidOfLink | include/bilibili.hpp:40-46 | a link whose text before the id holds no `B` gives that id |
| Bilibili.ItemUrl | include/bilibili.hpp:60-62 | an item without `url` is skipped; a string `url` is taken; another `url` throws |
| Bilibili.DurlLinks | include/bilibili.hpp:59-63 | at most one link per `durl` item |
| Bilibili.DurlLinksSound | include/bilibili.hpp:59-63 | the `durl` walk throws exactly when some item's `url` is not a string, and every link is some item's `url` |
| Bilibili.Followed | include/bilibili.hpp:50-69 | a walk followed by another keeps the first one's links and throws when either throws |
| Bilibili.DurlLinksAppend | include/bilibili.hpp:59-63 | the walk over a concatenation is the walk over the first items followed by the walk over the rest |
| Bilibili.DurlLinksOfItem | include/bilibili.hpp:59-63 | one item gives nothing without a `url`, its `url` when that is a string, and a throw otherwise |
| Bilibili.DurlLinksKeepPrefix | include/bilibili.hpp:59-69 | the links collected from the first items are never lost, even when a later item throws |
| Bilibili.PagesLinksThrew | include/bilibili.hpp:50-69 | the page walk throws exactly when some page throws |
| Bilibili.PagesLinksKeepPrefix | include/bilibili.hpp:50-69 | the links of the first pages are never lost |
| Bilibili.PagesLinksAppend | include/bilibili.hpp:50-69 | the page walk over a concatenation is the walk over the first pages followed by the walk over the rest |
| Bilibili.PagesLinksOfPage | include/bilibili.hpp:51-64 | the walk over one page is that page's links |
| Bilibili.PageLinks | include/bilibili.hpp:51-64 | a page without a numeric `cid` throws before collecting anything; with one, an unparsed play body or one without `data` throws, `data` without `durl` gives nothing, and otherwise the page gives the `durl` walk of its play list |
| Bilibili.PagesLinks | include/bilibili.hpp:50-69 | no pages give no links; the first page's links are a prefix of the result |
| Bilibili.BilibiliLinks | include/bilibili.hpp:29-71 | no BV id in the final URL, or a view body that does not parse, gives no links |
| Bilibili.BilibiliLinksOfDocument | include/bilibili.hpp:39-69 | for a found BV id and a view body that parses: no `data.pages` gives no links, otherwise the links of the page walk over `data.pages` |
| Bilibili.CollectDurl | include/bilibili.hpp:59-63 | the `durl` loop computes exactly `DurlLinks` |
| Bilibili.CollectPage | include/bilibili.hpp:51-64 | the body of the page loop computes exactly `PageLinks` |
| Bilibili.CollectPages | include/bilibili.hpp:50-69 | the page loop computes exactly the links of `PagesLinks`, keeping them when an exception ends it |
| Bilibili.GetDownloadLinks | include/bilibili.hpp:29-71 | the method computes exactly `BilibiliLinks` |
| Bilibili.ExtAsWritten | include/bilibili.hpp:82 | as written: a link with a `.` gives a result starting with `.`; a link without one throws |
| Bilibili.SubstrUpTo | include/bilibili.hpp:82 | a count that does not wrap stops at the `?` or at the end |
| Bilibili.SubstrWrapped | include/bilibili.hpp:82 | a wrapped count runs to the end |
| Bilibili.ExtAsWrittenBeforeQuery | include/bilibili.hpp:82 | the last `.` before the first `?` gives the slice up to the `?` or the end |
| Bilibili.ExtAsWrittenAfterQuery | include/bilibili.hpp:82 | the last `.` after the first `?` gives the slice to the end |
| Bilibili.ExtAsWrittenTakesQuery | include/bilibili.hpp:82 | a `.` in the query makes the extension a slice of the query |
| Bilibili.BilibiliExt | include/bilibili.hpp:82 | intended: the path extension of the link before its query: `.`-led, holding no other `.`, no `/` and no `?`, a suffix of that part; a file name without `.` throws |
| Bilibili.BilibiliExtOfLink | include/bilibili.hpp:82 | `prefix/stem.e`, with or without a query, has the extension `.e` |
| Bilibili.BilibiliExtNoDot | include/bilibili.hpp:82 | intended: a link whose last path segment has no `.` has no extension, whatever dots its host or directories hold |
| Bilibili.ExtAsWrittenAgrees | include/bilibili.hpp:82 | where the last `.` of the link is the one of its file name and the query has none, the code as written and the intended rule agree |
| Bilibili.QueryDotAsWritten | include/bilibili.hpp:82 | as written, `https://h/v.mp4?x=1.2` gives `.2` |
| Bilibili.QueryDotIntended | include/bilibili.hpp:82 | intended, `https://h/v.mp4?x=1.2` gives `.mp4` |
| Bilibili.ExtAsWrittenAt | include/bilibili.hpp:82 | as written, a last `.` before the query gives the slice from it up to the query |
| Bilibili.ExtAsWrittenOfLink | include/bilibili.hpp:82 | as written, `prefix/stem.e` with a dot-free query gives `.e` |
| Bilibili.ExtAsWrittenNoQuery | include/bilibili.hpp:82 | as written, a link without `?` gets everything from its last `.` on, `/`s included |
| Bilibili.HostDotAsWritten | include/bilibili.hpp:82 | as written, `https://a.b.com/v/file` gives `.com/v/file` |
| Bilibili.HostDotIntended | include/bilibili.hpp:82 | intended, `https://a.b.com/v/file` has no extension |
| Bilibili.DownloadFile | include/bilibili.hpp:73-84 | a non-200 link writes nothing; a link without an extension throws; otherwise the body goes to a fresh `dir/<id><ext>` |
| Bilibili.DownloadFileAsWritten | include/bilibili.hpp:73-84 | the same as `DownloadFile` with the extension expression as written: a link without `.` throws; otherwise the body goes to a fresh `dir/<id><ext>` with `ext` the slice as written |
| Pixiv.PixivMatchAdvances | include/pixiv.hpp:21 | every match is non-empty and inside the message |
| Pixiv.GetUrls | include/pixiv.hpp:21-26 | every link found is `http(s)://[www.]pixiv.net/artworks/<digits>` |
| Pixiv.PrefixParts | include/pixiv.hpp:21 | each link prefix is a site root followed by `artworks/` |
| Pixiv.ArtworkAtIs | include/pixiv.hpp:31 | a match of `artworks/(\d+)` is `artworks/` followed by the longest digit run |
| Pixiv.ArtworkIdSound | include/pixiv.hpp:31-36 | an id is a non-empty digit run after the leftmost `artworks/` followed by a digit; none means `artworks/<digit>` occurs nowhere |
| Pixiv.ArtworkId | include/pixiv.hpp:31-36 | an id found is a non-empty digit string read at the leftmost match |
| Pixiv.ArtworkIdOfLink | include/pixiv.hpp:31-36 | an artwork link gives back its digits |
| Pixiv.GetUrlsIds | include/pixiv.hpp:21-38 | every link found is fetched under the id it spells |
| Pixiv.OriginalUrl | include/pixiv.hpp:47 | succeeds exactly when `urls.original` is a string, and gives that string |
| Pixiv.OriginalLinks | include/pixiv.hpp:46-48 | succeeds exactly when every element has a URL; then one `urls.original` per `body` element, in order |
| Pixiv.CollectOriginals | include/pixiv.hpp:46-48 | the `body` loop computes exactly `OriginalLinks` |
| Pixiv.PixivLinks | include/pixiv.hpp:28-50 | no artwork id, or a non-200 response, gives no links; a body that does not parse throws |
| Pixiv.PixivLinksOfDocument | include/pixiv.hpp:46-48 | for any parsed document: a non-object, non-null document throws; otherwise the result is exactly the `urls.original` of each `body` element in order, or a throw when one of them has none |
| Pixiv.GetDownloadLinks | include/pixiv.hpp:28-50 | the method computes exactly `PixivLinks` |
| Pixiv.DownloadFile | include/pixiv.hpp:52-63 | a non-200 link writes nothing; otherwise the body goes to a fresh `dir/<id><ext>`, where `ext` is the path extension of the whole link |
| Pixiv.OriginalExtension | include/pixiv.hpp:61 | an original-image link ending in `name.ext` is saved with `.ext` |

## Left out

- HTTP: every `cpr::Get` and `cpr::Session` call, request headers, query-parameter encoding (the Weibo `id` parameter is appended unencoded) and redirect following are not modelled. The network is the parameter `get`, and Bilibili's final URL is a field of its response.
- JSON text parsing is the parameter `parse`. Numbers are integers, so `play_info.size` is compared as an integer rather than a `double`, and floating point is not modelled.
- Json.Index: the null that the non-const `operator[]` inserts for a missing key is not kept, because the code never reads the document again after the insertion.
- Json.At: a missing key under the const `operator[]` is undefined behaviour in the JSON library; the model treats it as a throw.
- The general `std::regex` engine is not modelled. Each URL pattern, the BV id, `artworks/(\d+)`, `status/(\d+)`, the image-key pattern and `:undefined` has its own recogniser, proved to return only text of the pattern's shape. Agreement with the engine on every input is not proved.
- Messages are sequences of characters, not UTF-8 bytes. The Bilibili class `[^ \s\u3000]` is modelled as compiled: over `char`, the `\u3000` escape becomes the character 0, so the class excludes NUL and not the ideographic space (see Findings). `Bilibili.GetUrls` uses that class; `Bilibili.GetUrlsIntended` uses the intended one.
- `TryNTimes` returns normally after `n` failed calls, because the code does (`include/utils.hpp:12-20`). The five-second sleeps are counted, not slept.
- Resolvers may throw: Weibo, Twitter and Pixiv give `Outcome.Threw` where a JSON access throws, as the code does.
- Utils.Store.GenerateUniqueId: ids increase only until the counter wraps at 2^64, and `IdsDistinct` is stated for fewer than 2^64 successive ids.
- Utils.Store.SaveContents: it requires fewer than 2^64 existing files, so that the loop can end.
- Utils.Store.WriteFile: writes always succeed in the model. The code ignores a failed `std::ofstream` open (`include/utils.hpp:40`, `include/weibo.hpp:98`, `include/twitter.hpp:69`) and still returns the path; a missing parent directory is one such failure. `std::filesystem::exists` throwing `filesystem_error` on an I/O error (`include/utils.hpp:37`) is not modelled either, so every `DownloadFile` ensures about the new directory contents holds for a file system that accepts every write.
- Atomic memory ordering of `g_counter`, concurrent resolvers, and the race between the existence check and the write in `SaveContents` are not modelled. The model is sequential.
- The range-for over the temporary that `parse` returns at `include/pixiv.hpp:46` relies on the C++23 lifetime extension of temporaries in a range initialiser (P2718R0); the model reads the parsed document as a value.
- Logging (`LOG_INFO`, `LOG_ERROR`, `LOG_WARNING`) is not modelled.
- The clock reading that names Weibo and Twitter files is the parameter `ts`. Those writes replace any file of the same name, as the code does.
- Paths are strings. `dir / name` adds a separator unless `dir` is empty or already ends in `/`; absolute names and other path normalisation are not modelled.
- Bilibili's first response is used whatever its status code, as the code does. Its view request is not checked for status either.
- Bilibili.DownloadFile uses the intended extension rule (see Findings), which throws for a file name without `.`, as the code does for a link without any `.`; `Bilibili.ExtAsWritten` models the expression as written and `Bilibili.DownloadFileAsWritten` the download with it.
- `std::string` lengths of `npos` and more are excluded from the `size_t` lemmas about the Bilibili extension slice.
- `app/bot.cpp` (the chat transport, task fan-out, and which resolvers are registered: Bilibili is not), `include/quill.hpp` and `include/config.hpp` are not part of this model.

## Findings

| source | as written | input that shows it | evidently intended | confidence | as-written member | corrected member |
|---|---|---|---|---|---|---|
| include/bilibili.hpp:82 | `substr(rfind('.'), find('?') - rfind('.'))` takes the last `.` of the whole link, its query included; when that `.` comes after the `?`, the `size_t` difference wraps and the slice runs to the end | `https://h/v.mp4?x=1.2` gives the extension `.2` | the extension of the path before the query, `.mp4` | not executed | Bilibili.QueryDotAsWritten | Bilibili.QueryDotIntended |
| include/bilibili.hpp:82 | `rfind('.')` searches the whole link, so for a file name without `.` it finds a `.` of the host or of a directory, and the slice runs across the `/`s | `https://a.b.com/v/file` gives the extension `.com/v/file`, naming the file `dir/<id>.com/v/file` | the file name has no extension, and the link is reported as having none | not executed | Bilibili.HostDotAsWritten | Bilibili.HostDotIntended |
| include/bilibili.hpp:22 | the raw string spells `\u3000` for `std::regex` over `char`; the escape's code 0x3000 is cut to `char`, the character 0, so the class `[^ \s\u3000]` excludes NUL and not the ideographic space | `https://b23.tv/abc` followed by U+3000 is found whole, the ideographic space included | the link ends before the ideographic space: `https://b23.tv/abc` | not executed | Bilibili.IdeographicSpaceAsWritten | Bilibili.IdeographicSpaceIntended |
