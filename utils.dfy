/** The helpers every resolver shares: the bounded retry loop, the URL scanner, the
    id counter and the collision-avoiding file writer. */
module Utils {
  import opened Outcomes
  import opened Text

  /** `TryNTimes<N>(f)`. `throws(i)` says whether the call of `f` numbered `i` (from
      0) throws; the five-second sleeps are counted instead of slept. */
  method TryNTimes(n: nat, throws: nat -> bool) returns (calls: nat, sleeps: nat)
    ensures calls <= n
    ensures forall i :: 0 <= i < calls - 1 ==> throws(i)
    ensures calls < n ==> 0 < calls && !throws(calls - 1)
    ensures sleeps == if 0 < calls && !throws(calls - 1) then calls - 1 else calls
  {
    calls, sleeps := 0, 0;
    var i := 0;
    while i < n
      invariant i <= n && calls == i && sleeps == i
      invariant forall k :: 0 <= k < i ==> throws(k)
    {
      calls := calls + 1;
      if !throws(i) {
        return;
      }
      sleeps := sleeps + 1;
      i := i + 1;
    }
  }

  // ---------------------------------------------------------------------------
  // GetMatchedUrlsFromPattern

  /** A recogniser for one fixed URL pattern: the end of the match that starts at
      position `p` of the text, if one does. */
  type Matcher = (string, nat) -> Option<nat>

  ghost predicate Advances(m: Matcher, text: string)
  {
    forall p: nat :: m(text, p).Some? ==> p < m(text, p).value <= |text|
  }

  /** The matches a `regex_token_iterator` visits from position `from` on: the
      leftmost match, then the next search from where that match ends. */
  function MatchedUrls(text: string, m: Matcher, from: nat): seq<string>
    requires from <= |text| && Advances(m, text)
    decreases |text| - from
  {
    if from == |text| then []
    else match m(text, from)
      case Some(q) => [text[from..q]] + MatchedUrls(text, m, q)
      case None => MatchedUrls(text, m, from + 1)
  }

  /** Every URL the scanner returns is a whole match of the recogniser, so it has
      every property the recogniser guarantees of its matches. */
  lemma {:induction false} MatchedUrlsShape(text: string, m: Matcher, from: nat, shape: string -> bool)
    requires from <= |text| && Advances(m, text)
    requires forall p: nat :: m(text, p).Some? ==> shape(text[p..m(text, p).value])
    ensures forall u :: u in MatchedUrls(text, m, from) ==> shape(u)
    decreases |text| - from
  {
    if from < |text| {
      match m(text, from)
      case Some(q) => MatchedUrlsShape(text, m, q, shape);
      case None => MatchedUrlsShape(text, m, from + 1, shape);
    }
  }

  /** Every way of writing one of `heads` followed by one of `tails`, in the order a
      backtracking matcher tries them: the first head with each tail in turn, then
      the next head. */
  function Expand(heads: seq<string>, tails: seq<string>): seq<string>
  {
    if heads == [] then []
    else seq(|tails|, j requires 0 <= j < |tails| => heads[0] + tails[j]) + Expand(heads[1..], tails)
  }

  /** The expansion holds exactly the head-and-tail concatenations. */
  lemma {:induction false} ExpandMembers(heads: seq<string>, tails: seq<string>)
    ensures forall x :: x in Expand(heads, tails) <==> exists h, t :: h in heads && t in tails && x == h + t
  {
    if heads != [] {
      var first := seq(|tails|, j requires 0 <= j < |tails| => heads[0] + tails[j]);
      var rest := Expand(heads[1..], tails);
      ExpandMembers(heads[1..], tails);
      assert Expand(heads, tails) == first + rest;
      forall x | x in Expand(heads, tails)
        ensures exists h, t :: h in heads && t in tails && x == h + t
      {
        if x in first {
          var j :| 0 <= j < |tails| && first[j] == x;
          assert heads[0] in heads && tails[j] in tails && x == heads[0] + tails[j];
        } else {
          var h, t :| h in heads[1..] && t in tails && x == h + t;
          assert h in heads;
        }
      }
      forall x | exists h, t :: h in heads && t in tails && x == h + t
        ensures x in Expand(heads, tails)
      {
        var h, t :| h in heads && t in tails && x == h + t;
        if h == heads[0] {
          var j :| 0 <= j < |tails| && tails[j] == t;
          assert first[j] == x;
        } else {
          var i :| 0 <= i < |heads| && heads[i] == h;
          assert h in heads[1..] by {
            assert heads[1..][i - 1] == h;
          }
        }
      }
    }
  }

  /** One head followed by one tail is in the expansion. */
  lemma ExpandHas(heads: seq<string>, tails: seq<string>, h: string, t: string)
    requires h in heads && t in tails
    ensures h + t in Expand(heads, tails)
  {
    ExpandMembers(heads, tails);
  }

  /** The match at `p` of a pattern made of a choice between literal prefixes
      followed by a greedy, non-empty run of a character class: the prefixes are
      tried in order, and the first one followed by at least one character of the
      class wins, with the longest such run. */
  function PrefixRunMatch(s: string, p: nat, prefixes: seq<string>, inClass: char -> bool): (r: Option<nat>)
    ensures r.Some? ==> p < r.value <= |s|
    decreases |prefixes|
  {
    if prefixes == [] then None
    else
      var q := p + |prefixes[0]|;
      if OccursAt(s, prefixes[0], p) && RunEnd(s, q, inClass) > q then Some(RunEnd(s, q, inClass))
      else PrefixRunMatch(s, p, prefixes[1..], inClass)
  }

  /** A match starts with one of the prefixes, the `k`-th, and ends where the greedy
      run after it ends. */
  lemma {:induction false} PrefixRunMatchWhich(s: string, p: nat, prefixes: seq<string>, inClass: char -> bool)
    returns (k: nat)
    requires PrefixRunMatch(s, p, prefixes, inClass).Some?
    ensures k < |prefixes| && OccursAt(s, prefixes[k], p)
    ensures p + |prefixes[k]| < PrefixRunMatch(s, p, prefixes, inClass).value == RunEnd(s, p + |prefixes[k]|, inClass)
    decreases |prefixes|
  {
    var q := p + |prefixes[0]|;
    if OccursAt(s, prefixes[0], p) && RunEnd(s, q, inClass) > q {
      k := 0;
    } else {
      var j := PrefixRunMatchWhich(s, p, prefixes[1..], inClass);
      k := j + 1;
      assert prefixes[k] == prefixes[1..][j];
    }
  }

  /** There is no match only when no prefix present at `p` is followed by a
      character of the class. */
  lemma {:induction false} PrefixRunMatchNone(s: string, p: nat, prefixes: seq<string>, inClass: char -> bool)
    requires PrefixRunMatch(s, p, prefixes, inClass).None?
    ensures forall k :: 0 <= k < |prefixes| && OccursAt(s, prefixes[k], p) ==>
              RunEnd(s, p + |prefixes[k]|, inClass) == p + |prefixes[k]|
    decreases |prefixes|
  {
    if prefixes != [] {
      var rest := prefixes[1..];
      PrefixRunMatchNone(s, p, rest, inClass);
      forall k | 0 <= k < |prefixes| && OccursAt(s, prefixes[k], p)
        ensures RunEnd(s, p + |prefixes[k]|, inClass) == p + |prefixes[k]|
      {
        if k > 0 {
          assert prefixes[k] == rest[k - 1];
        }
      }
    }
  }

  /** `u` is one of `prefixes` followed by a non-empty run of the class. */
  ghost predicate PrefixedRun(u: string, prefixes: seq<string>, inClass: char -> bool)
  {
    exists pre :: pre in prefixes && HasPrefix(u, pre) && |pre| < |u|
                  && forall i :: |pre| <= i < |u| ==> inClass(u[i])
  }

  /** What such a recogniser matches has the pattern's shape. */
  lemma PrefixRunShape(s: string, p: nat, prefixes: seq<string>, inClass: char -> bool)
    requires PrefixRunMatch(s, p, prefixes, inClass).Some?
    ensures PrefixedRun(s[p..PrefixRunMatch(s, p, prefixes, inClass).value], prefixes, inClass)
  {
    var e := PrefixRunMatch(s, p, prefixes, inClass).value;
    var k := PrefixRunMatchWhich(s, p, prefixes, inClass);
    var pre, u := prefixes[k], s[p..e];
    assert pre in prefixes;
    assert u[..|pre|] == s[p..p + |pre|];
    forall i | |pre| <= i < |u|
      ensures inClass(u[i])
    {
      assert u[i] == s[p + i];
    }
    assert HasPrefix(u, pre) && |pre| < |u|;
  }

  /** Every URL a prefix-and-run recogniser lets the scanner return is one of the
      prefixes followed by a non-empty run of the class. */
  lemma MatchedPrefixRuns(text: string, m: Matcher, prefixes: seq<string>, inClass: char -> bool)
    requires forall p: nat :: m(text, p) == PrefixRunMatch(text, p, prefixes, inClass)
    ensures Advances(m, text)
    ensures forall u :: u in MatchedUrls(text, m, 0) ==> PrefixedRun(u, prefixes, inClass)
  {
    forall p: nat | m(text, p).Some?
      ensures PrefixedRun(text[p..m(text, p).value], prefixes, inClass)
    {
      PrefixRunShape(text, p, prefixes, inClass);
    }
    MatchedUrlsShape(text, m, 0, u => PrefixedRun(u, prefixes, inClass));
  }

  /** `regex_search` from position `from` on: the start and end of the leftmost
      match. */
  function Search(s: string, m: Matcher, from: nat): (r: Option<(nat, nat)>)
    ensures r.Some? ==> from <= r.value.0 && m(s, r.value.0) == Some(r.value.1)
    ensures r.Some? ==> forall k :: from <= k < r.value.0 ==> m(s, k).None?
    ensures r.None? ==> forall k :: from <= k <= |s| ==> m(s, k).None?
    decreases |s| + 1 - from
  {
    if from > |s| then None
    else if m(s, from).Some? then Some((from, m(s, from).value))
    else Search(s, m, from + 1)
  }

  /** The search stops at the first position where the recogniser matches. */
  lemma {:induction false} SearchFirst(s: string, m: Matcher, from: nat, p: nat)
    requires from <= p <= |s| && m(s, p).Some?
    requires forall k :: from <= k < p ==> m(s, k).None?
    ensures Search(s, m, from) == Some((p, m(s, p).value))
    decreases p - from
  {
    if from < p {
      SearchFirst(s, m, from + 1, p);
    }
  }

  // ---------------------------------------------------------------------------
  // GenerateUniqueId and SaveContents

  /** The id the counter hands out `j` calls after it stood at `c0`. */
  function IdAfter(c0: nat, j: nat): nat
  {
    (c0 + j) % SIZE_T
  }

  /** Advancing the counter once more gives the next id. */
  lemma IdAfterNext(c0: nat, n: nat)
    ensures (IdAfter(c0, n) + 1) % SIZE_T == IdAfter(c0, n + 1)
  {
    var x := c0 + n;
    var q, r := x / SIZE_T, x % SIZE_T;
    assert x + 1 == q * SIZE_T + (r + 1);
    if r + 1 == SIZE_T {
      assert x + 1 == (q + 1) * SIZE_T;
    }
  }

  /** Fewer than 2^64 successive ids are pairwise distinct. */
  lemma IdsDistinct(c0: nat, j: nat, n: nat)
    requires j < n < SIZE_T
    ensures IdAfter(c0, j) != IdAfter(c0, n)
  {
    var r := (c0 + j) % SIZE_T;
    var q := (c0 + j) / SIZE_T;
    var d := n - j;
    assert c0 + n == q * SIZE_T + (r + d);
    if r + d < SIZE_T {
      assert (c0 + n) % SIZE_T == r + d;
    } else {
      assert c0 + n == (q + 1) * SIZE_T + (r + d - SIZE_T);
      assert (c0 + n) % SIZE_T == r + d - SIZE_T;
    }
  }

  lemma {:induction false} SubsetSize<T>(a: set<T>, b: set<T>)
    requires a <= b
    ensures |a| <= |b|
    decreases |a|
  {
    if a != {} {
      var x :| x in a;
      SubsetSize(a - {x}, b - {x});
    }
  }

  /** The path `SaveContents` tries for a given id. */
  function CandidatePath(dir: string, ext: string, id: nat): string
  {
    Join(dir, Decimal(id) + ext)
  }

  /** Distinct ids give distinct candidate paths. */
  lemma CandidatePathInjective(dir: string, ext: string, a: nat, b: nat)
    requires CandidatePath(dir, ext, a) == CandidatePath(dir, ext, b)
    ensures a == b
  {
    JoinInjective(dir, Decimal(a) + ext, Decimal(b) + ext);
    var x, y := Decimal(a) + ext, Decimal(b) + ext;
    assert Decimal(a) == x[..|x| - |ext|];
    assert Decimal(b) == y[..|y| - |ext|];
    DecimalInjective(a, b);
  }

  /** Every path in `tried` is the candidate of one of the first `n` ids handed out
      from `c0` on. */
  ghost predicate Tried(dir: string, ext: string, c0: nat, n: nat, tried: set<string>)
  {
    forall p :: p in tried ==> exists j :: 0 <= j < n && p == CandidatePath(dir, ext, IdAfter(c0, j))
  }

  /** The next candidate was not tried before, as long as fewer than 2^64 were, so
      trying it makes the set one larger. */
  lemma TriedStep(dir: string, ext: string, c0: nat, n: nat, tried: set<string>)
    requires n < SIZE_T && Tried(dir, ext, c0, n, tried)
    ensures var c := CandidatePath(dir, ext, IdAfter(c0, n));
            c !in tried && Tried(dir, ext, c0, n + 1, tried + {c}) && |tried + {c}| == |tried| + 1
  {
    var candidate := CandidatePath(dir, ext, IdAfter(c0, n));
    if candidate in tried {
      var j :| 0 <= j < n && candidate == CandidatePath(dir, ext, IdAfter(c0, j));
      CandidatePathInjective(dir, ext, IdAfter(c0, n), IdAfter(c0, j));
      IdsDistinct(c0, j, n);
      assert false;
    }
  }

  /** A candidate that collides with an existing file joins the tried ones, which
      stay a set of existing files, one per id handed out. */
  lemma TriedGrow(dir: string, ext: string, c0: nat, n: nat, tried: set<string>, existing: set<string>)
    requires tried <= existing && |tried| == n && |existing| < SIZE_T
    requires Tried(dir, ext, c0, n, tried)
    requires CandidatePath(dir, ext, IdAfter(c0, n)) in existing
    ensures var more := tried + {CandidatePath(dir, ext, IdAfter(c0, n))};
            more <= existing && |more| == n + 1 && Tried(dir, ext, c0, n + 1, more)
  {
    SubsetSize(tried, existing);
    TriedStep(dir, ext, c0, n, tried);
  }

  /** The `n`-th id handed out from `c0` on gives the first candidate path not in
      `existing`: every earlier one names an existing file. */
  ghost predicate FirstFree(dir: string, ext: string, c0: nat, n: nat, existing: map<string, string>)
  {
    CandidatePath(dir, ext, IdAfter(c0, n)) !in existing && AllTaken(dir, ext, c0, n, existing)
  }

  /** The candidates of the first `n` ids from `c0` on all name existing files. */
  ghost predicate AllTaken(dir: string, ext: string, c0: nat, n: nat, existing: map<string, string>)
  {
    forall j :: 0 <= j < n ==> CandidatePath(dir, ext, IdAfter(c0, j)) in existing
  }

  /** One more colliding candidate extends the run of taken ones. */
  lemma AllTakenStep(dir: string, ext: string, c0: nat, n: nat, existing: map<string, string>)
    requires AllTaken(dir, ext, c0, n, existing) && CandidatePath(dir, ext, IdAfter(c0, n)) in existing
    ensures AllTaken(dir, ext, c0, n + 1, existing)
  {
  }

  /** At most one number of tries ends at the first free path. */
  lemma FirstFreeUnique(dir: string, ext: string, c0: nat, n: nat, m: nat, existing: map<string, string>)
    requires FirstFree(dir, ext, c0, n, existing) && FirstFree(dir, ext, c0, m, existing)
    ensures n == m
  {
  }

  /** The process-wide counter `g_counter` and the download directory tree, the
      latter as a finite map from path to file contents. */
  class Store {
    var counter: nat
    var files: map<string, string>

    /** `g_counter` is a `size_t`. */
    ghost predicate Valid()
      reads this
    {
      counter < SIZE_T
    }

    constructor (existing: map<string, string>)
      ensures Valid() && counter == 0 && files == existing
    {
      counter := 0;
      files := existing;
    }

    /** `GenerateUniqueId`: hands out the counter and advances it by one, wrapping
      at 2^64 like the `fetch_add` it models. */
    method GenerateUniqueId() returns (id: nat)
      requires Valid()
      modifies this`counter
      ensures Valid()
      ensures id == old(counter) && counter == (old(counter) + 1) % SIZE_T
    {
      id := counter;
      counter := (counter + 1) % SIZE_T;
    }

    /** Writes `contents` to `<dir>/<id><ext>`, the first such path not in use, where
      each candidate takes a fresh id: after `n` collisions the path is the one of
      the `n`-th id from the old counter, and the counter has moved past it. The loop
      ends because the existing files are finite and every candidate that collides
      is a different existing file. */
    method SaveContents(dir: string, ext: string, contents: string) returns (path: string, ghost n: nat)
      requires Valid() && |files| < SIZE_T
      modifies this
      ensures Valid() && n < SIZE_T
      ensures path == CandidatePath(dir, ext, IdAfter(old(counter), n))
      ensures FirstFree(dir, ext, old(counter), n, old(files))
      ensures counter == IdAfter(old(counter), n + 1)
      ensures files == old(files)[path := contents]
    {
      ghost var c0 := counter;
      n := 0;
      ghost var tried: set<string> := {};
      while true
        invariant Valid() && files == old(files)
        invariant counter == IdAfter(c0, n)
        invariant tried <= files.Keys && |tried| == n && Tried(dir, ext, c0, n, tried)
        invariant AllTaken(dir, ext, c0, n, files)
        decreases |files| - n
      {
        var next := GenerateUniqueId();
        assert next == IdAfter(c0, n);
        IdAfterNext(c0, n);
        var candidate := CandidatePath(dir, ext, next);
        if candidate in files {
          TriedGrow(dir, ext, c0, n, tried, files.Keys);
          AllTakenStep(dir, ext, c0, n, files);
          SubsetSize(tried + {candidate}, files.Keys);
          tried := tried + {candidate};
          n := n + 1;
          continue;
        }
        SubsetSize(tried, files.Keys);
        files := files[candidate := contents];
        return candidate, n;
      }
    }

    /** An unconditional write, as the resolvers that name files by timestamp do. */
    method WriteFile(path: string, contents: string)
      modifies this`files
      ensures files == old(files)[path := contents]
    {
      files := files[path := contents];
    }
  }
}
