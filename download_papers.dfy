/** The id and URL logic of the arXiv downloader: how a paper id is
    normalised, which PDF URLs are tried for it and in which order, and how
    the list of ids is read out of the parsed pending-papers file. */
module Download {
  import opened Builtins

  // The three mirrors a PDF is looked up under.
  const BaseUrls: seq<string> := ["https://arxiv.org/pdf", "https://arxiv.org/pdf/hep-th", "https://arxiv.org/pdf/hep-ph"]
  const DefaultVersion: string := "v1"
  const OldFormatLength: nat := 7

  // ---------------------------------------------------------------------------
  // Ids

  /** ArxivDownloader.normalize_arxiv_id: the id for the URL and the base of
      the file name. Both are the text before the first 'v' (any version
      suffix removed); both branches of the source give the same value. */
  function NormalizeArxivId(arxivId: string): (r: (string, string))
    ensures r.0 == r.1
    ensures r.0 <= arxivId && 'v' !in r.0
    ensures |r.0| == |arxivId| || arxivId[|r.0|] == 'v'
  {
    SplitFirst(arxivId, 'v');
    var clean := Split(arxivId, 'v')[0];
    var urlId := clean;
    var filename := if '.' in clean then clean else clean;
    (urlId, filename)
  }

  /** The second piece of `s.split(c)` is what follows the first `c`, up to
      the next one. */
  lemma {:induction false} SplitSecond(s: string, c: char)
    requires c in s
    ensures |Split(s, c)| >= 2
    ensures |Split(s, c)[0]| < |s|
    ensures Split(s, c)[1] == Split(s[|Split(s, c)[0]| + 1..], c)[0]
    decreases |s|
  {
    SplitFirst(s, c);
    if s[0] != c {
      assert c in s[1..] by {
        var k :| 0 <= k < |s| && s[k] == c;
        assert s[1..][k - 1] == c;
      }
      SplitSecond(s[1..], c);
      var rest := Split(s[1..], c);
      assert Split(s, c)[1] == rest[1];
      assert s[1..][|rest[0]| + 1..] == s[|Split(s, c)[0]| + 1..];
    }
  }

  /** The version the id carries: None without a 'v', otherwise the text
      between its first and second 'v' (possibly empty). */
  function VersionOf(arxivId: string): (r: Option<string>)
    ensures r.Some? <==> 'v' in arxivId
  {
    if 'v' in arxivId then
      SplitFirst(arxivId, 'v');
      Some(Split(arxivId, 'v')[1])
    else None
  }

  /** The version is the piece right after the first 'v': it holds no 'v'
      and ends where the id ends or at the next 'v'. */
  lemma VersionAfterFirstV(arxivId: string)
    requires 'v' in arxivId
    ensures var clean := NormalizeArxivId(arxivId).0;
            var v := VersionOf(arxivId).value;
            && |clean| < |arxivId| && arxivId[|clean|] == 'v'
            && v <= arxivId[|clean| + 1..] && 'v' !in v
            && (|clean| + 1 + |v| == |arxivId| || arxivId[|clean| + 1 + |v|] == 'v')
  {
    SplitSecond(arxivId, 'v');
    SplitFirst(arxivId, 'v');
    SplitFirst(arxivId[|Split(arxivId, 'v')[0]| + 1..], 'v');
  }

  // ---------------------------------------------------------------------------
  // Candidate URLs

  function PlainUrl(base: string, urlId: string): string
  {
    base + "/" + urlId + ".pdf"
  }

  function VersionedUrl(base: string, urlId: string, version: string): string
  {
    base + "/" + urlId + "v" + version + ".pdf"
  }

  function DefaultVersionUrl(base: string, urlId: string): string
  {
    base + "/" + urlId + DefaultVersion + ".pdf"
  }

  function SplitPathUrl(base: string, urlId: string): string
    requires |urlId| >= 2
  {
    base + "/" + urlId[..2] + "/" + urlId[2..] + ".pdf"
  }

  /** An old-style id: seven characters and no dot. */
  predicate IsOldFormat(urlId: string)
  {
    |urlId| == OldFormatLength && '.' !in urlId
  }

  predicate HasVersion(version: Option<string>)
  {
    version.Some? && version.value != ""
  }

  /** The URLs tried under one mirror, in order: the bare id, the id with its
      own version when it has a non-empty one, the id with v1, and the split
      path for old-style ids. */
  function BaseCandidates(base: string, urlId: string, version: Option<string>): seq<string>
  {
    [PlainUrl(base, urlId)]
    + (if HasVersion(version) then [VersionedUrl(base, urlId, version.value)] else [])
    + [DefaultVersionUrl(base, urlId)]
    + (if IsOldFormat(urlId) then [SplitPathUrl(base, urlId)] else [])
  }

  /** `u` has one of the four forms tried under `base`. */
  predicate IsCandidateForm(base: string, urlId: string, version: Option<string>, u: string)
  {
    || u == PlainUrl(base, urlId)
    || (HasVersion(version) && u == VersionedUrl(base, urlId, version.value))
    || u == DefaultVersionUrl(base, urlId)
    || (IsOldFormat(urlId) && u == SplitPathUrl(base, urlId))
  }

  lemma BaseCandidatesMember(base: string, urlId: string, version: Option<string>, u: string)
    ensures u in BaseCandidates(base, urlId, version) <==> IsCandidateForm(base, urlId, version, u)
  {
  }

  lemma BaseCandidatesLength(base: string, urlId: string, version: Option<string>)
    ensures 2 <= |BaseCandidates(base, urlId, version)| <= 4
    ensures BaseCandidates(base, urlId, version)[0] == PlainUrl(base, urlId)
  {
  }

  /** The URLs for every mirror, mirror by mirror, before duplicates are
      removed. */
  function Candidates(bases: seq<string>, urlId: string, version: Option<string>): seq<string>
  {
    if bases == [] then []
    else Candidates(bases[..|bases| - 1], urlId, version) + BaseCandidates(bases[|bases| - 1], urlId, version)
  }

  lemma {:induction false} CandidatesMember(bases: seq<string>, urlId: string, version: Option<string>, u: string)
    ensures u in Candidates(bases, urlId, version)
            <==> exists b :: 0 <= b < |bases| && u in BaseCandidates(bases[b], urlId, version)
    decreases |bases|
  {
    if bases != [] {
      var init := bases[..|bases| - 1];
      CandidatesMember(init, urlId, version, u);
      if exists b :: 0 <= b < |init| && u in BaseCandidates(init[b], urlId, version) {
        var b :| 0 <= b < |init| && u in BaseCandidates(init[b], urlId, version);
        assert bases[b] == init[b];
      }
      if exists b :: 0 <= b < |bases| && u in BaseCandidates(bases[b], urlId, version) {
        var b :| 0 <= b < |bases| && u in BaseCandidates(bases[b], urlId, version);
        if b < |init| {
          assert init[b] == bases[b];
        }
      }
    }
  }

  lemma CandidatesSnoc(bases: seq<string>, k: nat, urlId: string, version: Option<string>)
    requires k < |bases|
    ensures Candidates(bases[..k + 1], urlId, version)
            == Candidates(bases[..k], urlId, version) + BaseCandidates(bases[k], urlId, version)
  {
    assert bases[..k + 1][..k] == bases[..k];
  }

  lemma {:induction false} CandidatesLength(bases: seq<string>, urlId: string, version: Option<string>)
    ensures |Candidates(bases, urlId, version)| <= 4 * |bases|
    ensures bases != [] ==> Candidates(bases, urlId, version)[0] == PlainUrl(bases[0], urlId)
    decreases |bases|
  {
    if bases != [] {
      var init := bases[..|bases| - 1];
      CandidatesLength(init, urlId, version);
      BaseCandidatesLength(bases[|bases| - 1], urlId, version);
      if init != [] {
        assert init[0] == bases[0];
      }
    }
  }

  // ---------------------------------------------------------------------------
  // Removing duplicates, first occurrence first

  /** Each element is kept at its first occurrence and dropped at later ones. */
  function Dedup<T(==)>(xs: seq<T>): seq<T>
  {
    if xs == [] then []
    else if xs[|xs| - 1] in xs[..|xs| - 1] then Dedup(xs[..|xs| - 1])
    else Dedup(xs[..|xs| - 1]) + [xs[|xs| - 1]]
  }

  predicate Distinct<T(==)>(xs: seq<T>)
  {
    forall i, j :: 0 <= i < j < |xs| ==> xs[i] != xs[j]
  }

  /** Nothing is lost and nothing is added. */
  lemma {:induction false} DedupElements<T>(xs: seq<T>)
    ensures forall x :: x in Dedup(xs) <==> x in xs
    ensures |Dedup(xs)| <= |xs|
    decreases |xs|
  {
    if xs != [] {
      var init := xs[..|xs| - 1];
      DedupElements(init);
      assert xs == init + [xs[|xs| - 1]];
    }
  }

  /** No element is kept twice. */
  lemma {:induction false} DedupDistinct<T>(xs: seq<T>)
    ensures Distinct(Dedup(xs))
    decreases |xs|
  {
    if xs != [] {
      var init := xs[..|xs| - 1];
      DedupDistinct(init);
      DedupElements(init);
    }
  }

  /** The positions of the first occurrences, in increasing order. */
  function FirstOccurrences<T(==)>(xs: seq<T>): (r: seq<nat>)
    ensures forall t :: 0 <= t < |r| ==> r[t] < |xs|
  {
    if xs == [] then []
    else if xs[|xs| - 1] in xs[..|xs| - 1] then FirstOccurrences(xs[..|xs| - 1])
    else FirstOccurrences(xs[..|xs| - 1]) + [|xs| - 1]
  }

  /** The positions kept come in increasing order. */
  lemma {:induction false} FirstOccurrencesIncreasing<T>(xs: seq<T>)
    ensures forall s, t :: 0 <= s < t < |FirstOccurrences(xs)| ==> FirstOccurrences(xs)[s] < FirstOccurrences(xs)[t]
    decreases |xs|
  {
    if xs != [] {
      FirstOccurrencesIncreasing(xs[..|xs| - 1]);
    }
  }

  /** The positions kept are exactly those where an element occurs for the
      first time. */
  lemma {:induction false} FirstOccurrencesMember<T>(xs: seq<T>, k: int)
    ensures k in FirstOccurrences(xs) <==> 0 <= k < |xs| && xs[k] !in xs[..k]
    decreases |xs|
  {
    if xs != [] {
      var init := xs[..|xs| - 1];
      assert xs[..|xs| - 1] == init;
      if k == |xs| - 1 {
        assert k !in FirstOccurrences(init);
      } else {
        FirstOccurrencesMember(init, k);
        if 0 <= k < |init| {
          assert init[..k] == xs[..k];
        }
      }
    }
  }

  /** Removing duplicates keeps the first occurrences, in the order they
      appear. */
  lemma {:induction false} DedupKeepsFirstOccurrences<T>(xs: seq<T>)
    ensures |Dedup(xs)| == |FirstOccurrences(xs)|
    ensures forall t :: 0 <= t < |Dedup(xs)| ==> Dedup(xs)[t] == xs[FirstOccurrences(xs)[t]]
    decreases |xs|
  {
    if xs != [] {
      var init := xs[..|xs| - 1];
      DedupKeepsFirstOccurrences(init);
      var f := FirstOccurrences(init);
      forall t | 0 <= t < |f| ensures xs[f[t]] == init[f[t]] {
      }
    }
  }

  /** The first element always stays first. */
  lemma {:induction false} DedupFirst<T>(xs: seq<T>)
    requires xs != []
    ensures Dedup(xs) != [] && Dedup(xs)[0] == xs[0]
    decreases |xs|
  {
    if |xs| > 1 {
      var init := xs[..|xs| - 1];
      DedupFirst(init);
    }
  }

  lemma DedupSnoc<T>(xs: seq<T>, i: nat)
    requires i < |xs|
    ensures Dedup(xs[..i + 1]) == if xs[i] in xs[..i] then Dedup(xs[..i]) else Dedup(xs[..i]) + [xs[i]]
  {
    assert xs[..i + 1][..i] == xs[..i];
  }

  // ---------------------------------------------------------------------------
  // get_arxiv_urls

  /** The URLs tried for an id, in order. */
  function ArxivUrls(arxivId: string): seq<string>
  {
    Dedup(Candidates(BaseUrls, NormalizeArxivId(arxivId).0, VersionOf(arxivId)))
  }

  /** One pass of that loop: the forms tried under one mirror, appended. */
  method AppendCandidates(urls: seq<string>, baseUrl: string, urlId: string, version: Option<string>)
    returns (r: seq<string>)
    ensures r == urls + BaseCandidates(baseUrl, urlId, version)
  {
    ghost var versioned := if HasVersion(version) then [VersionedUrl(baseUrl, urlId, version.value)] else [];
    ghost var splitPath := if IsOldFormat(urlId) then [SplitPathUrl(baseUrl, urlId)] else [];
    r := urls + [PlainUrl(baseUrl, urlId)];
    if version.Some? && version.value != "" {
      r := r + [VersionedUrl(baseUrl, urlId, version.value)];
    }
    assert r == urls + ([PlainUrl(baseUrl, urlId)] + versioned);
    r := r + [DefaultVersionUrl(baseUrl, urlId)];
    if |urlId| == OldFormatLength && '.' !in urlId {
      r := r + [SplitPathUrl(baseUrl, urlId)];
    }
    assert r == urls + ([PlainUrl(baseUrl, urlId)] + versioned + [DefaultVersionUrl(baseUrl, urlId)] + splitPath);
  }

  /** The loop of get_arxiv_urls over the mirrors (`bases` is the list of
      mirrors, BaseUrls). */
  method CandidateUrls(bases: seq<string>, urlId: string, version: Option<string>) returns (urls: seq<string>)
    ensures urls == Candidates(bases, urlId, version)
  {
    urls := [];
    var k := 0;
    while k < |bases|
      invariant 0 <= k <= |bases|
      invariant urls == Candidates(bases[..k], urlId, version)
    {
      var baseUrl := bases[k];
      CandidatesSnoc(bases, k, urlId, version);
      urls := AppendCandidates(urls, baseUrl, urlId, version);
      k := k + 1;
    }
    assert bases[..k] == bases;
  }

  /** The loop of get_arxiv_urls that keeps a `seen` set. */
  method RemoveDuplicates(urls: seq<string>) returns (uniqueUrls: seq<string>)
    ensures uniqueUrls == Dedup(urls)
  {
    var seen: set<string> := {};
    uniqueUrls := [];
    var i := 0;
    while i < |urls|
      invariant 0 <= i <= |urls|
      invariant uniqueUrls == Dedup(urls[..i])
      invariant forall x :: x in seen <==> x in urls[..i]
    {
      DedupSnoc(urls, i);
      var url := urls[i];
      if url !in seen {
        seen := seen + {url};
        uniqueUrls := uniqueUrls + [url];
      }
      assert urls[..i + 1] == urls[..i] + [url];
      i := i + 1;
    }
    assert urls[..i] == urls;
  }

  /** ArxivDownloader.get_arxiv_urls: the candidates for every mirror, then
      repeats dropped, first occurrence first. */
  method GetArxivUrls(arxivId: string) returns (uniqueUrls: seq<string>)
    ensures uniqueUrls == ArxivUrls(arxivId)
  {
    var (urlId, filename) := NormalizeArxivId(arxivId);
    var hasVersion := 'v' in arxivId;
    var version: Option<string> := if hasVersion then VersionOf(arxivId) else None;
    var urls := CandidateUrls(BaseUrls, urlId, version);
    uniqueUrls := RemoveDuplicates(urls);
  }

  /** The URLs tried are distinct, the first is the bare id on the main
      mirror, and there are at most twelve (three mirrors, four forms each). */
  lemma ArxivUrlsShape(arxivId: string)
    ensures var urls := ArxivUrls(arxivId);
            && Distinct(urls)
            && urls != [] && urls[0] == "https://arxiv.org/pdf/" + NormalizeArxivId(arxivId).0 + ".pdf"
            && |urls| <= 12
  {
    var c := Candidates(BaseUrls, NormalizeArxivId(arxivId).0, VersionOf(arxivId));
    DedupDistinct(c);
    CandidatesLength(BaseUrls, NormalizeArxivId(arxivId).0, VersionOf(arxivId));
    DedupFirst(c);
    DedupElements(c);
  }

  /** Exactly the candidate forms are tried: the versioned form only for an
      id with a non-empty version, and the split path only for an old-style
      id. */
  lemma ArxivUrlsMember(arxivId: string, u: string)
    ensures var urlId := NormalizeArxivId(arxivId).0;
            var version := VersionOf(arxivId);
            u in ArxivUrls(arxivId)
            <==> exists b :: 0 <= b < |BaseUrls| && IsCandidateForm(BaseUrls[b], urlId, version, u)
  {
    var urlId := NormalizeArxivId(arxivId).0;
    var version := VersionOf(arxivId);
    DedupElements(Candidates(BaseUrls, urlId, version));
    CandidatesMember(BaseUrls, urlId, version, u);
    forall b | 0 <= b < |BaseUrls| {
      BaseCandidatesMember(BaseUrls[b], urlId, version, u);
    }
  }

  // ---------------------------------------------------------------------------
  // extract_arxiv_ids_from_json

  /** A parsed JSON value (numbers as integers). */
  datatype Json =
    | JNull
    | JBool(b: bool)
    | JNum(n: int)
    | JStr(s: string)
    | JArr(items: seq<Json>)
    | JObj(fields: map<string, Json>)

  /** What one entry of the list contributes: the `arxiv_id` of an object
      that has one, the entry itself when it is a string, nothing otherwise. */
  function Contribution(paper: Json): seq<Json>
  {
    if paper.JObj? && "arxiv_id" in paper.fields then [paper.fields["arxiv_id"]]
    else if paper.JStr? then [paper]
    else []
  }

  function Collected(papers: seq<Json>): seq<Json>
  {
    if papers == [] then [] else Collected(papers[..|papers| - 1]) + Contribution(papers[|papers| - 1])
  }

  /** The entry yields the id `x`: it is the string `x`, or an object whose
      `arxiv_id` is the string `x`. */
  predicate Yields(paper: Json, x: string)
  {
    paper == JStr(x) || (paper.JObj? && "arxiv_id" in paper.fields && paper.fields["arxiv_id"] == JStr(x))
  }

  lemma {:induction false} CollectedMember(papers: seq<Json>, x: string)
    ensures JStr(x) in Collected(papers) <==> exists k :: 0 <= k < |papers| && Yields(papers[k], x)
    decreases |papers|
  {
    if papers != [] {
      var init := papers[..|papers| - 1];
      CollectedMember(init, x);
      assert JStr(x) in Contribution(papers[|papers| - 1]) <==> Yields(papers[|papers| - 1], x);
      if exists k :: 0 <= k < |init| && Yields(init[k], x) {
        var k :| 0 <= k < |init| && Yields(init[k], x);
        assert papers[k] == init[k];
      }
      if exists k :: 0 <= k < |papers| && Yields(papers[k], x) {
        var k :| 0 <= k < |papers| && Yields(papers[k], x);
        if k < |init| {
          assert init[k] == papers[k];
        }
      }
    }
  }

  predicate AllStrings(xs: seq<Json>)
  {
    forall k :: 0 <= k < |xs| ==> xs[k].JStr?
  }

  /** Ascending by code points, no repeats. */
  predicate StrictlySorted(xs: seq<string>)
  {
    forall i, j :: 0 <= i < j < |xs| ==> StrLess(xs[i], xs[j])
  }

  /** A strictly sorted list has no repeats. */
  lemma SortedDistinct(xs: seq<string>)
    requires StrictlySorted(xs)
    ensures Distinct(xs)
  {
    forall i, j | 0 <= i < j < |xs| ensures xs[i] != xs[j] {
      if xs[i] == xs[j] {
        StrLessIrreflexive(xs[i]);
      }
    }
  }

  lemma SameEmptiness(xs: seq<string>, ys: seq<string>)
    requires forall x :: x in xs <==> x in ys
    ensures xs == [] <==> ys == []
  {
    if xs != [] {
      assert xs[0] in ys;
    }
    if ys != [] {
      assert ys[0] in xs;
    }
  }

  /** Two strictly sorted lists with the same elements are the same list:
      sorting the set of ids leaves no choice. */
  lemma {:induction false} SortedUnique(xs: seq<string>, ys: seq<string>)
    requires StrictlySorted(xs) && StrictlySorted(ys)
    requires forall x :: x in xs <==> x in ys
    ensures xs == ys
    decreases |xs|
  {
    SameEmptiness(xs, ys);
    if xs != [] {
      if xs[0] != ys[0] {
        assert ys[0] in xs;
        assert xs[0] in ys;
        var i :| 0 <= i < |xs| && xs[i] == ys[0];
        var j :| 0 <= j < |ys| && ys[j] == xs[0];
        assert StrLess(xs[0], ys[0]) by {
          assert i != 0;
        }
        assert StrLess(ys[0], xs[0]) by {
          assert j != 0;
        }
        StrLessAsymmetric(xs[0], ys[0]);
      } else {
        forall x ensures x in xs[1..] <==> x in ys[1..] {
          if x in xs[1..] {
            var i :| 1 <= i < |xs| && xs[i] == x;
            StrLessIrreflexive(x);
            assert x != xs[0];
            assert x in ys;
          }
          if x in ys[1..] {
            var j :| 1 <= j < |ys| && ys[j] == x;
            StrLessIrreflexive(x);
            assert x != ys[0];
            assert x in xs;
          }
        }
        SortedUnique(xs[1..], ys[1..]);
      }
    }
  }

  /** Adds `x` to a sorted list unless it is already there. */
  function Insert(xs: seq<string>, x: string): seq<string>
  {
    if xs == [] then [x]
    else if x == xs[0] then xs
    else if StrLess(x, xs[0]) then [x] + xs
    else [xs[0]] + Insert(xs[1..], x)
  }

  lemma {:induction false} InsertSorted(xs: seq<string>, x: string)
    requires StrictlySorted(xs)
    ensures StrictlySorted(Insert(xs, x))
    ensures forall y :: y in Insert(xs, x) <==> y in xs || y == x
    decreases |xs|
  {
    if xs != [] && x != xs[0] {
      if StrLess(x, xs[0]) {
        var r := [x] + xs;
        forall i, j | 0 <= i < j < |r| ensures StrLess(r[i], r[j]) {
          if i == 0 && j > 1 {
            StrLessTransitive(x, xs[0], xs[j - 1]);
          }
        }
      } else {
        StrLessTotal(x, xs[0]);
        InsertSorted(xs[1..], x);
        var rest := Insert(xs[1..], x);
        var r := [xs[0]] + rest;
        forall i, j | 0 <= i < j < |r| ensures StrLess(r[i], r[j]) {
          if i == 0 {
            assert r[j] in rest;
            if r[j] != x {
              var k :| 0 <= k < |xs[1..]| && xs[1..][k] == r[j];
              assert xs[k + 1] == r[j];
            }
          } else {
            assert r[i] == rest[i - 1] && r[j] == rest[j - 1];
          }
        }
        forall y ensures y in r <==> y in xs || y == x {
          assert xs == [xs[0]] + xs[1..];
        }
      }
    }
  }

  /** The loop over the entries of the list. */
  method CollectIds(papers: seq<Json>) returns (collected: seq<Json>)
    ensures collected == Collected(papers)
  {
    collected := [];
    var i := 0;
    while i < |papers|
      invariant 0 <= i <= |papers|
      invariant collected == Collected(papers[..i])
    {
      var paper := papers[i];
      if paper.JObj? && "arxiv_id" in paper.fields {
        collected := collected + [paper.fields["arxiv_id"]];
      } else if paper.JStr? {
        collected := collected + [paper];
      }
      assert papers[..i + 1][..i] == papers[..i];
      i := i + 1;
    }
    assert papers[..i] == papers;
  }

  /** list(set(ids)) followed by sort(), as insertion into a sorted list; a
      value that is not a string gives None (it is not an id). */
  method SortUnique(collected: seq<Json>) returns (r: Option<seq<string>>)
    ensures r.Some? <==> AllStrings(collected)
    ensures collected == [] ==> r == Some([])
    ensures r.Some? ==> StrictlySorted(r.value)
    ensures r.Some? ==> forall x :: x in r.value <==> JStr(x) in collected
  {
    var sorted: seq<string> := [];
    var j := 0;
    while j < |collected|
      invariant 0 <= j <= |collected|
      invariant StrictlySorted(sorted) && (j == 0 ==> sorted == [])
      invariant AllStrings(collected[..j])
      invariant forall x :: x in sorted <==> JStr(x) in collected[..j]
    {
      if !collected[j].JStr? {
        return None;
      }
      InsertSorted(sorted, collected[j].s);
      sorted := Insert(sorted, collected[j].s);
      assert collected[..j + 1] == collected[..j] + [collected[j]];
      j := j + 1;
    }
    assert collected[..j] == collected;
    return Some(sorted);
  }

  /** ArxivDownloader.extract_arxiv_ids_from_json on the parsed file (None
      when the file is missing or is not valid JSON). Entries of a list are
      collected, then repeats are dropped and the ids sorted; a collected id
      that is not a string makes the result empty. */
  method ExtractArxivIds(parsed: Option<Json>) returns (arxivIds: seq<string>)
    ensures StrictlySorted(arxivIds)
    ensures parsed.None? || !parsed.value.JArr? ==> arxivIds == []
    ensures parsed.Some? && parsed.value.JArr? && !AllStrings(Collected(parsed.value.items)) ==> arxivIds == []
    ensures parsed.Some? && parsed.value.JArr? && AllStrings(Collected(parsed.value.items)) ==>
              forall x :: x in arxivIds <==> JStr(x) in Collected(parsed.value.items)
  {
    if parsed.None? {
      return [];
    }
    var papers := parsed.value;
    var collected: seq<Json> := [];
    if papers.JArr? {
      collected := CollectIds(papers.items);
    }
    var r := SortUnique(collected);
    arxivIds := if r.Some? then r.value else [];
  }
}
