/** The `std::string` searches and slices, `std::format` of an unsigned integer and
    the `std::filesystem::path` operations the resolvers use. */
module Text {
  import opened Outcomes

  /** `std::string::npos`, the largest `size_t`. */
  const NPOS: nat := 0xFFFF_FFFF_FFFF_FFFF
  /** Number of distinct `size_t` values. */
  const SIZE_T: nat := 0x1_0000_0000_0000_0000

  predicate HasPrefix(s: string, p: string)
  {
    |p| <= |s| && s[..|p|] == p
  }

  lemma Assoc(a: string, b: string, c: string)
    ensures a + b + c == a + (b + c)
  {
  }

  /** The groupings of a four-part concatenation used by the link lemmas. */
  lemma Regroup(a: string, b: string, c: string, d: string)
    ensures a + b + c + d == a + (b + c) + d == a + (b + c + d)
    ensures a + (b + c) == a + b + c
  {
  }

  /** A character in neither part is not in their concatenation. */
  lemma NotInConcat(c: char, a: string, b: string)
    requires c !in a && c !in b
    ensures c !in a + b
  {
    assert forall x :: x in a + b ==> x in a || x in b;
  }

  /** A string starts with its first part. */
  lemma PrefixOfConcat(a: string, b: string)
    ensures HasPrefix(a + b, a)
  {
    assert (a + b)[..|a|] == a;
  }

  /** Dropping the length of a suffix leaves what came before it. */
  lemma PrefixBeforeSuffix(a: string, b: string)
    ensures (a + b)[..|a + b| - |b|] == a
  {
    assert (a + b)[..|a|] == a;
  }

  /** A string with a prefix is that prefix followed by the rest. */
  lemma PrefixThenRest(s: string, p: string)
    requires HasPrefix(s, p)
    ensures s == p + s[|p|..]
  {
    assert s == s[..|p|] + s[|p|..];
  }

  predicate HasSuffix(s: string, p: string)
  {
    |p| <= |s| && s[|s| - |p|..] == p
  }

  predicate OccursAt(s: string, pat: string, i: nat)
  {
    i + |pat| <= |s| && s[i..i + |pat|] == pat
  }

  /** An occurrence of `a + b` is an occurrence of `a` followed by one of `b`. */
  lemma OccursSplit(s: string, a: string, b: string, p: nat)
    requires OccursAt(s, a + b, p)
    ensures OccursAt(s, a, p) && OccursAt(s, b, p + |a|)
  {
    assert s[p..p + |a|] == s[p..p + |a + b|][..|a|];
    assert s[p + |a|..p + |a| + |b|] == s[p..p + |a + b|][|a|..];
  }

  /** An occurrence of `a` followed by one of `b` is an occurrence of `a + b`. */
  lemma OccursJoin(s: string, a: string, b: string, p: nat)
    requires OccursAt(s, a, p) && OccursAt(s, b, p + |a|)
    ensures OccursAt(s, a + b, p)
  {
    assert s[p..p + |a + b|] == s[p..p + |a|] + s[p + |a|..p + |a| + |b|];
  }

  /** A slice sees the same occurrences as the text it is cut from, inside its
      bounds. */
  lemma OccursAtSlice(s: string, lo: nat, hi: nat, pat: string, i: nat)
    requires lo <= hi <= |s| && lo + i + |pat| <= hi
    ensures OccursAt(s[lo..hi], pat, i) == OccursAt(s, pat, lo + i)
  {
    var a, b := s[lo..hi][i..i + |pat|], s[lo + i..lo + i + |pat|];
    forall k | 0 <= k < |pat|
      ensures a[k] == b[k]
    {
    }
    assert a == b;
  }

  lemma CharAt(s: string, pat: string, p: nat, k: nat)
    requires OccursAt(s, pat, p) && k < |pat|
    ensures s[p + k] == pat[k]
  {
    assert s[p..p + |pat|][k] == s[p + k];
  }

  /** One differing character rules an occurrence out. */
  lemma Mismatch(s: string, pat: string, p: nat, k: nat)
    requires k < |pat| && p + k < |s| && s[p + k] != pat[k]
    ensures !OccursAt(s, pat, p)
  {
    if p + |pat| <= |s| {
      assert s[p..p + |pat|][k] == s[p + k];
    }
  }

  /** `s.find(pat, from)`: the first occurrence at or after `from`. */
  function FindFrom(s: string, pat: string, from: nat): (r: Option<nat>)
    ensures r.Some? ==> from <= r.value && OccursAt(s, pat, r.value)
    ensures r.Some? ==> forall k :: from <= k < r.value ==> !OccursAt(s, pat, k)
    ensures r.None? ==> forall k :: from <= k ==> !OccursAt(s, pat, k)
    decreases |s| - from
  {
    if from + |pat| > |s| then None
    else if OccursAt(s, pat, from) then Some(from)
    else FindFrom(s, pat, from + 1)
  }

  function Find(s: string, pat: string): Option<nat>
  {
    FindFrom(s, pat, 0)
  }

  /** `s.contains(pat)`. */
  predicate ContainsSub(s: string, pat: string)
  {
    Find(s, pat).Some?
  }

  /** An occurrence anywhere makes `contains` true. */
  lemma OccursContains(s: string, pat: string, p: nat)
    requires OccursAt(s, pat, p)
    ensures ContainsSub(s, pat)
  {
  }

  /** `s.find(c)`. */
  function FindChar(s: string, c: char): (r: Option<nat>)
    ensures r.Some? ==> r.value < |s| && s[r.value] == c && c !in s[..r.value]
    ensures r.None? ==> c !in s
  {
    if s == [] then None
    else if s[0] == c then Some(0)
    else match FindChar(s[1..], c)
      case None => None
      case Some(i) => assert s[1..][..i] == s[1..i + 1]; Some(i + 1)
  }

  /** `s.rfind(c)` and `s.find_last_of(c)`. */
  function LastIndexOf(s: string, c: char): (r: Option<nat>)
    ensures r.Some? ==> r.value < |s| && s[r.value] == c && c !in s[r.value + 1..]
    ensures r.None? ==> c !in s
  {
    if s == [] then None
    else if s[|s| - 1] == c then Some(|s| - 1)
    else
      var r := LastIndexOf(s[..|s| - 1], c);
      assert s == s[..|s| - 1] + [s[|s| - 1]];
      r
  }

  /** The last occurrence of a character is the one after which it does not occur. */
  lemma LastIndexOfAt(s: string, c: char, i: nat)
    requires i < |s| && s[i] == c && c !in s[i + 1..]
    ensures LastIndexOf(s, c) == Some(i)
  {
    assert s[i] in s;
    var r := LastIndexOf(s, c).value;
    forall k | i < k < |s|
      ensures s[k] != c
    {
      assert s[k] == s[i + 1..][k - i - 1];
    }
    forall k | r < k < |s|
      ensures s[k] != c
    {
      assert s[k] == s[r + 1..][k - r - 1];
    }
  }

  /** A search result as the `size_t` the source holds. */
  function OrNpos(r: Option<nat>): nat
  {
    if r.Some? then r.value else NPOS
  }

  /** `a - b` on `size_t`, wrapping below zero. */
  function SizeSub(a: nat, b: nat): nat
  {
    (a - b) % SIZE_T
  }

  /** Without wrap-around, `size_t` subtraction is the plain difference. */
  lemma SizeSubBelow(a: nat, b: nat)
    requires b <= a < SIZE_T
    ensures SizeSub(a, b) == a - b
  {
  }

  /** Below zero, `size_t` subtraction wraps around once. */
  lemma SizeSubWraps(a: nat, b: nat)
    requires a < b < SIZE_T
    ensures SizeSub(a, b) == a - b + SIZE_T
  {
  }

  /** `size_t` subtraction of two distinct values is never zero. */
  lemma SizeSubNonZero(a: nat, b: nat)
    requires a < SIZE_T && b < SIZE_T && a != b
    ensures SizeSub(a, b) > 0
  {
    if a < b {
      SizeSubWraps(a, b);
    } else {
      SizeSubBelow(a, b);
    }
  }

  function Min(a: nat, b: nat): nat
  {
    if a <= b then a else b
  }

  /** `s.substr(pos, count)`: throws `std::out_of_range` when `pos` is past the end,
      and clamps `count` to the characters that remain. */
  function Substr(s: string, pos: nat, count: nat): (r: Try<string>)
    ensures r.Ok? <==> pos <= |s|
    ensures r.Ok? ==> r.value == s[pos..pos + Min(count, |s| - pos)]
  {
    if pos > |s| then Throws else Ok(s[pos..pos + Min(count, |s| - pos)])
  }

  // ---------------------------------------------------------------------------
  // Decimal rendering of an unsigned integer, as `std::format("{}", n)` does it

  predicate IsDigit(c: char)
  {
    '0' <= c <= '9'
  }

  predicate AllDigits(s: string)
  {
    forall i :: 0 <= i < |s| ==> IsDigit(s[i])
  }

  function DigitChar(d: nat): (c: char)
    requires d < 10
    ensures IsDigit(c)
  {
    ('0' as int + d) as char
  }

  function Decimal(n: nat): (r: string)
    ensures |r| > 0 && AllDigits(r)
  {
    if n < 10 then [DigitChar(n)] else Decimal(n / 10) + [DigitChar(n % 10)]
  }

  function ParseDecimal(s: string): nat
    requires AllDigits(s)
  {
    if s == [] then 0
    else ParseDecimal(s[..|s| - 1]) * 10 + (s[|s| - 1] as int - '0' as int)
  }

  /** Reading back a rendered number gives the number. */
  lemma {:induction false} ParseDecimalOfDecimal(n: nat)
    ensures ParseDecimal(Decimal(n)) == n
  {
    if n >= 10 {
      var d := Decimal(n);
      assert d[..|d| - 1] == Decimal(n / 10);
      ParseDecimalOfDecimal(n / 10);
    }
  }

  /** Distinct numbers are rendered as distinct strings. */
  lemma DecimalInjective(a: nat, b: nat)
    requires Decimal(a) == Decimal(b)
    ensures a == b
  {
    ParseDecimalOfDecimal(a);
    ParseDecimalOfDecimal(b);
  }

  /** The class `\s`: the characters `isspace` accepts. */
  predicate IsSpace(c: char)
  {
    c == ' ' || c == '\t' || c == '\n' || c == '\U{B}' || c == '\U{C}' || c == '\r'
  }

  predicate IsAsciiAlnum(c: char)
  {
    IsDigit(c) || 'a' <= c <= 'z' || 'A' <= c <= 'Z'
  }

  /** The end of the longest run of characters satisfying `p` that starts at `i`. */
  function RunEnd(s: string, i: nat, p: char -> bool): (e: nat)
    requires i <= |s|
    ensures i <= e <= |s|
    ensures forall k :: i <= k < e ==> p(s[k])
    ensures e < |s| ==> !p(s[e])
    decreases |s| - i
  {
    if i == |s| || !p(s[i]) then i else RunEnd(s, i + 1, p)
  }

  /** A run ends at the first position outside the class. */
  lemma {:induction false} RunEndAt(s: string, i: nat, p: char -> bool, e: nat)
    requires i <= e <= |s| && (forall k :: i <= k < e ==> p(s[k])) && (e < |s| ==> !p(s[e]))
    ensures RunEnd(s, i, p) == e
    decreases e - i
  {
    if i < e {
      RunEndAt(s, i + 1, p, e);
    }
  }

  /** A link without its query: what comes before the first `?`. */
  function UrlPrefix(link: string): (p: string)
    ensures HasPrefix(link, p) && '?' !in p
    ensures |p| < |link| ==> link[|p|] == '?'
  {
    match FindChar(link, '?')
    case None => link
    case Some(q) => link[..q]
  }

  /** A query, empty or starting with `?`, is not part of the prefix. */
  lemma UrlPrefixOfQuery(base: string, query: string)
    requires '?' !in base && (query == "" || query[0] == '?')
    ensures UrlPrefix(base + query) == base
  {
    var link := base + query;
    if query == "" {
      assert link == base;
    } else {
      assert link[|base|] == '?' && link[..|base|] == base;
    }
  }

  // ---------------------------------------------------------------------------
  // std::filesystem::path

  /** `path::filename()`: what follows the last `/`. */
  function Filename(p: string): (r: string)
    ensures '/' !in r && HasSuffix(p, r)
  {
    match LastIndexOf(p, '/')
    case None => p
    case Some(i) => p[i + 1..]
  }

  /** `path::extension()`: from the last `.` of the file name to its end, and empty
      when the name has no `.`, starts with its only `.`, or is `.` or `..`. */
  function Extension(p: string): (r: string)
    ensures r == "" || (r[0] == '.' && HasSuffix(p, r) && '/' !in r && '.' !in r[1..])
  {
    var f := Filename(p);
    if f == "." || f == ".." then ""
    else match LastIndexOf(f, '.')
      case None => ""
      case Some(i) =>
        if i == 0 then ""
        else
          DotTail(p, f, i);
          f[i..]
  }

  /** From a `.` of a suffix to its end, with no later `.`, is an extension-shaped suffix. */
  lemma DotTail(p: string, f: string, i: nat)
    requires HasSuffix(p, f) && '/' !in f
    requires i < |f| && f[i] == '.' && '.' !in f[i + 1..]
    ensures var r := f[i..]; r[0] == '.' && HasSuffix(p, r) && '/' !in r && '.' !in r[1..]
  {
    var r := f[i..];
    assert r[1..] == f[i + 1..];
    assert p[|p| - |r|..] == p[|p| - |f|..][i..];
  }

  /** What follows the last `/` is the file name. */
  lemma FilenameAfterSlash(prefix: string, file: string)
    requires '/' !in file
    ensures Filename(prefix + "/" + file) == file
  {
    var p := prefix + "/" + file;
    assert p[|prefix|] == '/';
    assert p[|prefix| + 1..] == file;
    LastIndexOfAt(p, '/', |prefix|);
  }

  /** The last `.` of `stem.e` is the one after `stem`. */
  lemma LastDot(stem: string, e: string)
    requires '.' !in stem && '.' !in e
    ensures LastIndexOf(stem + ("." + e), '.') == Some(|stem|)
  {
    var file := stem + ("." + e);
    assert file[|stem|..] == "." + e;
    assert file[|stem| + 1..] == e;
    LastIndexOfAt(file, '.', |stem|);
  }

  /** A path whose file name is `stem.e` has the extension `.e`. */
  lemma ExtensionOfFilename(p: string, stem: string, e: string)
    requires stem != "" && '.' !in stem && '/' !in e && '.' !in e
    requires Filename(p) == stem + ("." + e)
    ensures Extension(p) == "." + e
  {
    var file := stem + ("." + e);
    LastDot(stem, e);
    assert file[0] == stem[0];
    assert file != "." && file != "..";
    assert file[|stem|..] == "." + e;
  }

  /** A file name `stem.e` after the last `/` gives the extension `.e`. */
  lemma ExtensionOfName(prefix: string, stem: string, e: string)
    requires stem != "" && '/' !in stem && '.' !in stem && '/' !in e && '.' !in e
    ensures Extension(prefix + "/" + (stem + ("." + e))) == "." + e
  {
    var file := stem + ("." + e);
    assert '/' !in file by {
      assert '/' !in "." + e;
    }
    FilenameAfterSlash(prefix, file);
    ExtensionOfFilename(prefix + "/" + file, stem, e);
  }

  /** `dir / name` for a relative `name`: a separator is added unless `dir` is empty
      or already ends with one. */
  function Join(dir: string, name: string): (r: string)
    ensures HasSuffix(r, name)
  {
    if dir == [] then name
    else if dir[|dir| - 1] == '/' then dir + name
    else dir + "/" + name
  }

  /** Two names joined to one directory give the same path only when they are equal. */
  lemma JoinInjective(dir: string, a: string, b: string)
    requires Join(dir, a) == Join(dir, b)
    ensures a == b
  {
    var p := Join(dir, a);
    var k := |p| - |a|;
    assert a == p[k..];
    assert b == p[k..];
  }
}
