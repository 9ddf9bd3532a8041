/** The decision logic of the working-papers bot: which search results are
    new working papers, how their links are made absolute, and how the
    papers found for a stream's search terms are merged by URL into one
    message per stream. */
module WorkingPapers {
  import opened Wrappers
  import Seqs
  import OrderedMap

  const Topic: string := "working papers"

  /** The site root relative links are resolved against. */
  const NberSite: string := "https://www.nber.org"

  /** For each stream, in declaration order, the `(facet, term)` searches
      whose new papers it announces. */
  const StreamSearchTerms: seq<(string, seq<(string, string)>)> := [
    ("field/appliedmicro", []),
    ("field/development", [
      ("programs", "Development Economics"),
      ("topic", "Development and Growth"),
      ("topic", "Development")]),
    ("field/finance", [
      ("programs", "Asset Pricing"),
      ("programs", "Corporate Finance"),
      ("groups", "Behavioral Finance"),
      ("groups", "Household Finance"),
      ("topics", "Financial Markets"),
      ("topics", "Financial Institutions"),
      ("topics", "Corporate Finance"),
      ("topics", "Behavioral Finance"),
      ("topics", "Portfolio Selection and Asset Pricing")]),
    ("field/health", [
      ("programs", "Economics of Health"),
      ("topics", "Health")]),
    ("field/history", [
      ("programs", "Development of the American Economy"),
      ("topics", "Macroeconomic History"),
      ("topics", "Financial History"),
      ("topics", "Labor and Health History"),
      ("topics", "Other History")]),
    ("field/io", [
      ("programs", "Industrial Organization"),
      ("topics", "Industrial Organization"),
      ("topics", "Market Structure and Firm Performance"),
      ("topics", "Firm Behavior"),
      ("topics", "Nonprofits"),
      ("topics", "Antitrust"),
      ("topics", "Regulatory Economics"),
      ("topics", "Industry Studies")]),
    ("field/labor", [
      ("programs", "Labor Studies"),
      ("groups", "Personnel Economics"),
      ("topics", "Labor Economics"),
      ("topics", "Demography and Aging"),
      ("topics", "Labor Supply and Demand"),
      ("topics", "Labor Compensation"),
      ("topics", "Labor Market Structures"),
      ("topics", "Labor Relations"),
      ("topics", "Unemployment and Immigration"),
      ("topics", "Labor Discrimination")]),
    ("field/macro", [
      ("programs", "International Finance and Macroeconomics"),
      ("programs", "Monetary Economics"),
      ("programs", "Economic Fluctuations and Growth"),
      ("programs", "International Finance and Macroeconomics"),
      ("topics", "Macroeconomics"),
      ("topics", "Macroeconomic Models"),
      ("topics", "Consumption and Investment"),
      ("topics", "Business Cycles"),
      ("topics", "Money and Interest Rates"),
      ("topics", "Monetary Policy"),
      ("topics", "Fiscal Policy")]),
    ("field/metrics", [
      ("topics", "Econometrics"),
      ("topics", "Estimation Methods")]),
    ("field/microtheory", [
      ("groups", "Market Design")]),
    ("field/organizational", [
      ("groups", "Organizational Economics")]),
    ("field/political", [
      ("programs", "Political Economy"),
      ("programs", "Law and Economics"),
      ("topics", "Law and Economics")]),
    ("field/public", [
      ("programs", "Public Economics"),
      ("groups", "Economics of Crime"),
      ("topics", "Public Economics"),
      ("topics", "Taxation"),
      ("topics", "Public Goods"),
      ("topics", "National Fiscal Issues"),
      ("topics", "Subnational Fiscal Issues")])
  ]

  /** An author of a paper, with the link to their page when there is one. */
  datatype Author = Author(name: string, url: Option<string>)

  /** An author entry of a search result once its HTML is parsed: the text
      and the `href` of its first link, if any. */
  datatype RawAuthor = RawAuthor(text: string, href: Option<string>)

  /** One entry of the search API's `results`. `newThisWeek` is `None` when
      the field is absent. */
  datatype SearchResult = SearchResult(
    kind: string,
    newThisWeek: Option<bool>,
    title: string,
    url: string,
    summary: string,
    authors: seq<RawAuthor>)

  datatype WorkingPaper = WorkingPaper(url: string, title: string, authors: seq<Author>, summary: string)

  // ---------------------------------------------------------------------
  // Links
  // ---------------------------------------------------------------------

  function IsHash(c: char): bool {
    c == '#'
  }

  /** `urldefrag(url)[0]`: the URL up to its first `#`. */
  function Defrag(url: string): (r: string)
    ensures r <= url
    ensures '#' !in r
    ensures |r| < |url| ==> url[|r|] == '#'
  {
    match Seqs.FirstIndex(url, IsHash)
    case None => url
    case Some(i) => url[..i]
  }

  /** The link starts with `/`: it is relative to the site root (or, with a
      second `/`, to the scheme). */
  predicate IsRootRelative(url: string) {
    |url| > 0 && url[0] == '/'
  }

  /** `_fix_url`: drop the fragment, then resolve a link that starts with
      `/` against `https://www.nber.org/`. */
  function FixUrl(url: string): (r: string)
    ensures '#' !in r
    ensures !IsRootRelative(r)
    ensures !IsRootRelative(Defrag(url)) ==> r == Defrag(url)
    ensures IsRootRelative(Defrag(url)) && !("//" <= Defrag(url)) ==> r == NberSite + Defrag(url)
    ensures "//" <= Defrag(url) ==> r == "https:" + Defrag(url)
  {
    var d := Defrag(url);
    if IsRootRelative(d) then
      if "//" <= d then "https:" + d else NberSite + d
    else d
  }

  /** Fixing a fixed link changes nothing. */
  lemma FixUrlIdempotent(url: string)
    ensures FixUrl(FixUrl(url)) == FixUrl(url)
  {
    var r := FixUrl(url);
    assert Defrag(r) == r;
  }

  /** Whatever follows a `#` never reaches the fixed link: links that differ
      only in their fragment are fixed alike. */
  lemma FixUrlIgnoresFragment(url: string, fragment: string)
    requires '#' !in url
    ensures FixUrl(url + "#" + fragment) == FixUrl(url)
  {
    var u := url + "#" + fragment;
    assert u[|url|] == '#';
    assert Defrag(url) == url;
    assert Defrag(u) == url by {
      var d := Defrag(u);
      assert |d| == |url|;
      assert d == u[..|url|] == url;
    }
  }

  // ---------------------------------------------------------------------
  // New working papers of one search
  // ---------------------------------------------------------------------

  /** The result is a working paper flagged new this week; a missing flag
      counts as not new. */
  predicate IsNew(result: SearchResult) {
    result.kind == "working_paper" && result.newThisWeek == Some(true)
  }

  function ToAuthor(raw: RawAuthor): (a: Author)
    ensures a.name == raw.text
    ensures a.url.None? <==> raw.href.None?
    ensures a.url.Some? ==> a.url.value == FixUrl(raw.href.value)
  {
    Author(raw.text, match raw.href case None => None case Some(h) => Some(FixUrl(h)))
  }

  function ToPaper(result: SearchResult): (p: WorkingPaper)
    ensures p.url == FixUrl(result.url) && '#' !in p.url
    ensures p.title == result.title && p.summary == result.summary
    ensures |p.authors| == |result.authors|
    ensures forall i :: 0 <= i < |result.authors| ==> p.authors[i] == ToAuthor(result.authors[i])
  {
    WorkingPaper(FixUrl(result.url), result.title, Seqs.Map(result.authors, ToAuthor), result.summary)
  }

  /** `get_new_working_papers` after the request: the loop over the results
      that skips everything but new working papers. It yields the new
      working papers in result order. */
  function NewWorkingPapers(results: seq<SearchResult>): (r: seq<WorkingPaper>)
    ensures r == Seqs.Map(Seqs.Filter(results, IsNew), ToPaper)
    ensures forall k :: 0 <= k < |r| ==> '#' !in r[k].url
    decreases |results|
  {
    if |results| == 0 then []
    else
      var pre := results[..|results| - 1];
      var x := results[|results| - 1];
      NewWorkingPapersStep(pre, x, results);
      NewWorkingPapers(pre) + (if IsNew(x) then [ToPaper(x)] else [])
  }

  /** One more result adds its paper at the end when it is a new working paper. */
  lemma NewWorkingPapersStep(pre: seq<SearchResult>, x: SearchResult, results: seq<SearchResult>)
    requires results == pre + [x]
    ensures Seqs.Map(Seqs.Filter(results, IsNew), ToPaper) ==
      Seqs.Map(Seqs.Filter(pre, IsNew), ToPaper) + (if IsNew(x) then [ToPaper(x)] else [])
  {
    Seqs.FilterSnoc(pre, x, IsNew);
    Seqs.MapAppend(Seqs.Filter(pre, IsNew), if IsNew(x) then [x] else [], ToPaper);
  }

  // ---------------------------------------------------------------------
  // Merging by URL
  // ---------------------------------------------------------------------

  /** The papers' URLs, in order. */
  function Urls(papers: seq<WorkingPaper>): (us: seq<string>)
    ensures |us| == |papers|
    ensures forall i :: 0 <= i < |papers| ==> us[i] == papers[i].url
  {
    seq(|papers|, i requires 0 <= i < |papers| => papers[i].url)
  }

  /** The last paper with URL `u`: the one a sequence of assignments keyed
      by URL leaves behind. */
  function LastWithUrl(papers: seq<WorkingPaper>, u: string): (r: Option<WorkingPaper>)
    ensures r.None? <==> u !in Urls(papers)
    ensures r.Some? ==> exists i :: (0 <= i < |papers| && papers[i] == r.value && r.value.url == u
      && forall j :: i < j < |papers| ==> papers[j].url != u)
    decreases |papers|
  {
    if |papers| == 0 then None
    else
      var pre := papers[..|papers| - 1];
      var p := papers[|papers| - 1];
      assert Urls(papers) == Urls(pre) + [p.url];
      if p.url == u then Some(p)
      else
        assert forall i :: 0 <= i < |pre| ==> papers[i] == pre[i];
        LastWithUrl(pre, u)
  }

  /** Every entry is keyed by its paper's URL. */
  ghost predicate KeyedByUrl(m: seq<(string, WorkingPaper)>) {
    forall u :: OrderedMap.Get(m, u).Some? ==> OrderedMap.Get(m, u).value.url == u
  }

  /** `working_papers[paper.url] = paper` for each paper in turn. A URL seen
      before keeps its place and takes the latest paper; a new one is added
      at the end. */
  function MergePapers(m: seq<(string, WorkingPaper)>, papers: seq<WorkingPaper>): (r: seq<(string, WorkingPaper)>)
    ensures OrderedMap.Keys(m) <= OrderedMap.Keys(r)
    ensures forall u :: u in OrderedMap.Keys(r) <==> u in OrderedMap.Keys(m) || u in Urls(papers)
    ensures forall u :: (OrderedMap.Get(r, u) ==
      if LastWithUrl(papers, u).Some? then LastWithUrl(papers, u) else OrderedMap.Get(m, u))
    ensures (forall i :: 0 <= i < |papers| ==> papers[i].url in OrderedMap.Keys(m)) ==>
      OrderedMap.Keys(r) == OrderedMap.Keys(m)
    ensures OrderedMap.DistinctKeys(m) ==> OrderedMap.DistinctKeys(r)
    ensures KeyedByUrl(m) ==> KeyedByUrl(r)
    decreases |papers|
  {
    if |papers| == 0 then m
    else
      var pre := papers[..|papers| - 1];
      var p := papers[|papers| - 1];
      var m' := MergePapers(m, pre);
      MergeStepKeys(m, papers, m');
      MergeStepNoNewKey(m, papers, pre, m');
      MergeStepGet(m, papers, m');
      MergeStepDistinct(m, m', p);
      MergeStepKeyed(m, m', p);
      OrderedMap.Put(m', p.url, p)
  }

  /** The keys after one more assignment. */
  lemma MergeStepKeys(m: seq<(string, WorkingPaper)>, papers: seq<WorkingPaper>, m': seq<(string, WorkingPaper)>)
    requires |papers| > 0
    requires OrderedMap.Keys(m) <= OrderedMap.Keys(m')
    requires forall u :: u in OrderedMap.Keys(m') <==> u in OrderedMap.Keys(m) || u in Urls(papers[..|papers| - 1])
    ensures OrderedMap.Keys(m) <= OrderedMap.Keys(OrderedMap.Put(m', papers[|papers| - 1].url, papers[|papers| - 1]))
    ensures forall u :: u in OrderedMap.Keys(OrderedMap.Put(m', papers[|papers| - 1].url, papers[|papers| - 1])) <==>
      u in OrderedMap.Keys(m) || u in Urls(papers)
  {
    var pre := papers[..|papers| - 1];
    var p := papers[|papers| - 1];
    assert papers == pre + [p];
    UrlsSnoc(pre, p);
  }

  /** The URLs of one more paper. */
  lemma UrlsSnoc(papers: seq<WorkingPaper>, p: WorkingPaper)
    ensures Urls(papers + [p]) == Urls(papers) + [p.url]
  {
  }

  /** One more assignment to a URL already present adds no key. */
  lemma MergeStepNoNewKey(m: seq<(string, WorkingPaper)>, papers: seq<WorkingPaper>, pre: seq<WorkingPaper>,
                          m': seq<(string, WorkingPaper)>)
    requires |papers| > 0 && pre == papers[..|papers| - 1]
    requires (forall i :: 0 <= i < |pre| ==> pre[i].url in OrderedMap.Keys(m)) ==> OrderedMap.Keys(m') == OrderedMap.Keys(m)
    ensures (forall i :: 0 <= i < |papers| ==> papers[i].url in OrderedMap.Keys(m)) ==>
      OrderedMap.Keys(OrderedMap.Put(m', papers[|papers| - 1].url, papers[|papers| - 1])) == OrderedMap.Keys(m)
  {
    if forall i :: 0 <= i < |papers| ==> papers[i].url in OrderedMap.Keys(m) {
      assert forall i :: 0 <= i < |pre| ==> pre[i] == papers[i];
      assert papers[|papers| - 1].url in OrderedMap.Keys(m);
    }
  }

  /** One more assignment keeps the keys distinct. */
  lemma MergeStepDistinct(m: seq<(string, WorkingPaper)>, m': seq<(string, WorkingPaper)>, p: WorkingPaper)
    requires OrderedMap.DistinctKeys(m) ==> OrderedMap.DistinctKeys(m')
    ensures OrderedMap.DistinctKeys(m) ==> OrderedMap.DistinctKeys(OrderedMap.Put(m', p.url, p))
  {
    var ks := OrderedMap.Keys(m');
    var ks' := OrderedMap.Keys(OrderedMap.Put(m', p.url, p));
    if p.url !in ks {
      assert forall i :: 0 <= i < |ks| ==> ks'[i] == ks[i];
    }
  }

  /** The papers after one more assignment. */
  lemma MergeStepGet(m: seq<(string, WorkingPaper)>, papers: seq<WorkingPaper>, m': seq<(string, WorkingPaper)>)
    requires |papers| > 0
    requires forall u :: (OrderedMap.Get(m', u) ==
      if LastWithUrl(papers[..|papers| - 1], u).Some? then LastWithUrl(papers[..|papers| - 1], u) else OrderedMap.Get(m, u))
    ensures forall u :: (OrderedMap.Get(OrderedMap.Put(m', papers[|papers| - 1].url, papers[|papers| - 1]), u) ==
      if LastWithUrl(papers, u).Some? then LastWithUrl(papers, u) else OrderedMap.Get(m, u))
  {
  }

  /** One more assignment keyed by the paper's URL keeps every entry keyed by its URL. */
  lemma MergeStepKeyed(m: seq<(string, WorkingPaper)>, m': seq<(string, WorkingPaper)>, p: WorkingPaper)
    requires KeyedByUrl(m) ==> KeyedByUrl(m')
    ensures KeyedByUrl(m) ==> KeyedByUrl(OrderedMap.Put(m', p.url, p))
  {
  }

  /** The keys after assigning to `urls` in turn, starting from the keys
      `ks`: each URL not yet present is added at the end, so new keys come
      in the order they are first assigned. */
  function AddKeys(ks: seq<string>, urls: seq<string>): (r: seq<string>)
    ensures ks <= r
    ensures forall u :: u in r <==> u in ks || u in urls
    ensures Seqs.Distinct(ks) ==> Seqs.Distinct(r)
    decreases |urls|
  {
    if |urls| == 0 then ks
    else AddKeys(if urls[0] in ks then ks else ks + [urls[0]], urls[1..])
  }

  /** One more assignment at the end adds its URL when it is new. */
  lemma {:induction false} AddKeysSnoc(ks: seq<string>, urls: seq<string>, u: string)
    ensures AddKeys(ks, urls + [u]) ==
      if u in AddKeys(ks, urls) then AddKeys(ks, urls) else AddKeys(ks, urls) + [u]
    decreases |urls|
  {
    if |urls| == 0 {
      assert urls + [u] == [u];
      assert [u][1..] == [];
    } else {
      assert (urls + [u])[0] == urls[0];
      assert (urls + [u])[1..] == urls[1..] + [u];
      AddKeysSnoc(if urls[0] in ks then ks else ks + [urls[0]], urls[1..], u);
    }
  }

  /** A merge lists the keys it started with, then each new URL in the
      order of its first paper. */
  lemma {:induction false} MergePapersKeys(m: seq<(string, WorkingPaper)>, papers: seq<WorkingPaper>)
    ensures OrderedMap.Keys(MergePapers(m, papers)) == AddKeys(OrderedMap.Keys(m), Urls(papers))
    decreases |papers|
  {
    if |papers| == 0 {
      assert Urls(papers) == [];
    } else {
      var pre := papers[..|papers| - 1];
      var p := papers[|papers| - 1];
      assert Urls(papers) == Urls(pre) + [p.url];
      MergePapersKeys(m, pre);
      AddKeysSnoc(OrderedMap.Keys(m), Urls(pre), p.url);
    }
  }

  /** Merging one more paper adds its URL at the end when it is new, and
      otherwise keeps the keys. */
  lemma MergePapersKeysSnoc(m: seq<(string, WorkingPaper)>, papers: seq<WorkingPaper>, p: WorkingPaper)
    ensures OrderedMap.Keys(MergePapers(m, papers + [p])) ==
      if p.url in OrderedMap.Keys(MergePapers(m, papers)) then OrderedMap.Keys(MergePapers(m, papers))
      else OrderedMap.Keys(MergePapers(m, papers)) + [p.url]
  {
    assert (papers + [p])[..|papers|] == papers;
  }

  /** Merging `a + b` is merging `a`, then `b`. */
  lemma {:induction false} MergePapersAppend(m: seq<(string, WorkingPaper)>, a: seq<WorkingPaper>, b: seq<WorkingPaper>)
    ensures MergePapers(m, a + b) == MergePapers(MergePapers(m, a), b)
    decreases |b|
  {
    if |b| == 0 {
      assert a + b == a;
    } else {
      var b' := b[..|b| - 1];
      assert (a + b)[..|a + b| - 1] == a + b';
      assert (a + b)[|a + b| - 1] == b[|b| - 1];
      MergePapersAppend(m, a, b');
    }
  }

  /** The new working papers of one `(facet, term)` search. `fetch` stands
      for the search API: the results it returns for the query. */
  function Search(fetch: (string, string) -> seq<SearchResult>, term: (string, string)): seq<WorkingPaper> {
    NewWorkingPapers(fetch(term.0, term.1))
  }

  /** Some search of `terms` found a paper with URL `u`. */
  ghost predicate FoundUrl(fetch: (string, string) -> seq<SearchResult>, terms: seq<(string, string)>, u: string) {
    exists i :: 0 <= i < |terms| && u in Urls(Search(fetch, terms[i]))
  }

  /** Some search of `terms` found the paper `p`. */
  ghost predicate FoundPaper(fetch: (string, string) -> seq<SearchResult>, terms: seq<(string, string)>, p: WorkingPaper) {
    exists i :: 0 <= i < |terms| && p in Search(fetch, terms[i])
  }

  /** `r` is `m` after merging the searches of `terms`: every URL found by
      some search is a key, nothing else is added, and every paper that
      changed was found by some search. */
  ghost predicate MergedFrom(fetch: (string, string) -> seq<SearchResult>, m: seq<(string, WorkingPaper)>,
                             terms: seq<(string, string)>, r: seq<(string, WorkingPaper)>) {
    && OrderedMap.Keys(m) <= OrderedMap.Keys(r)
    && (forall u :: u in OrderedMap.Keys(r) <==> u in OrderedMap.Keys(m) || FoundUrl(fetch, terms, u))
    && (forall u :: (OrderedMap.Get(r, u) == OrderedMap.Get(m, u)
         || (OrderedMap.Get(r, u).Some? && FoundPaper(fetch, terms, OrderedMap.Get(r, u).value))))
  }

  /** The loop of `make_messages` over one stream's search terms, each
      merging its new papers into the stream's dictionary. */
  function MergeTerms(fetch: (string, string) -> seq<SearchResult>, m: seq<(string, WorkingPaper)>, terms: seq<(string, string)>): (r: seq<(string, WorkingPaper)>)
    ensures MergedFrom(fetch, m, terms, r)
    ensures OrderedMap.DistinctKeys(m) ==> OrderedMap.DistinctKeys(r)
    ensures KeyedByUrl(m) ==> KeyedByUrl(r)
    decreases |terms|
  {
    if |terms| == 0 then m
    else
      var pre := terms[..|terms| - 1];
      var t := terms[|terms| - 1];
      assert terms == pre + [t];
      var m' := MergeTerms(fetch, m, pre);
      MergeTermsStep(fetch, m, pre, t, m');
      MergePapers(m', Search(fetch, t))
  }

  /** One more search merged. */
  lemma MergeTermsStep(fetch: (string, string) -> seq<SearchResult>, m: seq<(string, WorkingPaper)>,
                       pre: seq<(string, string)>, t: (string, string), m': seq<(string, WorkingPaper)>)
    requires MergedFrom(fetch, m, pre, m')
    ensures MergedFrom(fetch, m, pre + [t], MergePapers(m', Search(fetch, t)))
  {
    var r := MergePapers(m', Search(fetch, t));
    MergeTermsStepKeys(fetch, m, pre, t, m', r);
    MergeTermsStepFound(fetch, m, pre, t, m', r);
    MergeTermsStepPapers(fetch, m, pre, t, m', r);
  }

  /** A URL found by one of `pre + [t]` was found by one of `pre` or by `t`. */
  lemma FoundUrlSnoc(fetch: (string, string) -> seq<SearchResult>, pre: seq<(string, string)>, t: (string, string), u: string)
    ensures FoundUrl(fetch, pre + [t], u) <==> FoundUrl(fetch, pre, u) || u in Urls(Search(fetch, t))
  {
    if FoundUrl(fetch, pre + [t], u) {
      FoundUrlSnocSplit(fetch, pre, t, u);
    }
    if FoundUrl(fetch, pre, u) || u in Urls(Search(fetch, t)) {
      FoundUrlSnocJoin(fetch, pre, t, u);
    }
  }

  /** A URL some search of `pre + [t]` found was found by `pre` or by `t`. */
  lemma FoundUrlSnocSplit(fetch: (string, string) -> seq<SearchResult>, pre: seq<(string, string)>, t: (string, string), u: string)
    requires FoundUrl(fetch, pre + [t], u)
    ensures FoundUrl(fetch, pre, u) || u in Urls(Search(fetch, t))
  {
    var terms := pre + [t];
    var i :| 0 <= i < |terms| && u in Urls(Search(fetch, terms[i]));
    if i < |pre| {
      assert terms[i] == pre[i];
    }
  }

  /** A URL found by `pre` or by `t` was found by some search of `pre + [t]`. */
  lemma FoundUrlSnocJoin(fetch: (string, string) -> seq<SearchResult>, pre: seq<(string, string)>, t: (string, string), u: string)
    requires FoundUrl(fetch, pre, u) || u in Urls(Search(fetch, t))
    ensures FoundUrl(fetch, pre + [t], u)
  {
    var terms := pre + [t];
    if u in Urls(Search(fetch, t)) {
      assert terms[|pre|] == t;
    } else {
      var i :| 0 <= i < |pre| && u in Urls(Search(fetch, pre[i]));
      assert terms[i] == pre[i];
    }
  }

  /** After one more search, every key was there before or found by a search. */
  lemma MergeTermsStepKeys(fetch: (string, string) -> seq<SearchResult>, m: seq<(string, WorkingPaper)>,
                           pre: seq<(string, string)>, t: (string, string),
                           m': seq<(string, WorkingPaper)>, r: seq<(string, WorkingPaper)>)
    requires forall u :: u in OrderedMap.Keys(m') <==> u in OrderedMap.Keys(m) || FoundUrl(fetch, pre, u)
    requires forall u :: u in OrderedMap.Keys(r) <==> u in OrderedMap.Keys(m') || u in Urls(Search(fetch, t))
    ensures forall u :: u in OrderedMap.Keys(r) ==> u in OrderedMap.Keys(m) || FoundUrl(fetch, pre + [t], u)
  {
    forall u | u in OrderedMap.Keys(r)
      ensures u in OrderedMap.Keys(m) || FoundUrl(fetch, pre + [t], u)
    {
      FoundUrlSnoc(fetch, pre, t, u);
    }
  }

  /** After one more search, every URL some search found is a key. */
  lemma MergeTermsStepFound(fetch: (string, string) -> seq<SearchResult>, m: seq<(string, WorkingPaper)>,
                            pre: seq<(string, string)>, t: (string, string),
                            m': seq<(string, WorkingPaper)>, r: seq<(string, WorkingPaper)>)
    requires OrderedMap.Keys(m) <= OrderedMap.Keys(m') <= OrderedMap.Keys(r)
    requires forall u :: u in OrderedMap.Keys(m') <==> u in OrderedMap.Keys(m) || FoundUrl(fetch, pre, u)
    requires forall u :: u in OrderedMap.Keys(r) <==> u in OrderedMap.Keys(m') || u in Urls(Search(fetch, t))
    ensures OrderedMap.Keys(m) <= OrderedMap.Keys(r)
    ensures forall u :: u in OrderedMap.Keys(m) || FoundUrl(fetch, pre + [t], u) ==> u in OrderedMap.Keys(r)
  {
    forall u | FoundUrl(fetch, pre + [t], u)
      ensures u in OrderedMap.Keys(r)
    {
      FoundUrlSnoc(fetch, pre, t, u);
    }
  }

  /** After one more search, every changed paper was found by a search. */
  lemma MergeTermsStepPapers(fetch: (string, string) -> seq<SearchResult>, m: seq<(string, WorkingPaper)>,
                             pre: seq<(string, string)>, t: (string, string),
                             m': seq<(string, WorkingPaper)>, r: seq<(string, WorkingPaper)>)
    requires forall u :: (OrderedMap.Get(m', u) == OrderedMap.Get(m, u)
      || (OrderedMap.Get(m', u).Some? && FoundPaper(fetch, pre, OrderedMap.Get(m', u).value)))
    requires forall u :: (OrderedMap.Get(r, u) ==
      if LastWithUrl(Search(fetch, t), u).Some? then LastWithUrl(Search(fetch, t), u) else OrderedMap.Get(m', u))
    ensures forall u :: (OrderedMap.Get(r, u) == OrderedMap.Get(m, u)
      || (OrderedMap.Get(r, u).Some? && FoundPaper(fetch, pre + [t], OrderedMap.Get(r, u).value)))
  {
    var terms := pre + [t];
    forall u
      ensures OrderedMap.Get(r, u) == OrderedMap.Get(m, u)
        || (OrderedMap.Get(r, u).Some? && FoundPaper(fetch, terms, OrderedMap.Get(r, u).value))
    {
      var last := LastWithUrl(Search(fetch, t), u);
      if last.Some? {
        assert terms[|pre|] == t;
        assert last.value in Search(fetch, t);
      } else if OrderedMap.Get(m', u) != OrderedMap.Get(m, u) {
        var i :| 0 <= i < |pre| && OrderedMap.Get(m', u).value in Search(fetch, pre[i]);
        assert terms[i] == pre[i];
      }
    }
  }

  /** The dictionary of one stream: all its searches merged into an empty one. */
  function StreamPapers(fetch: (string, string) -> seq<SearchResult>, terms: seq<(string, string)>): (r: seq<(string, WorkingPaper)>)
    ensures OrderedMap.DistinctKeys(r) && KeyedByUrl(r)
    ensures forall u :: u in OrderedMap.Keys(r) <==> FoundUrl(fetch, terms, u)
    ensures forall u :: OrderedMap.Get(r, u).Some? ==> FoundPaper(fetch, terms, OrderedMap.Get(r, u).value)
  {
    assert OrderedMap.Keys<string, WorkingPaper>([]) == [];
    MergeTerms(fetch, [], terms)
  }

  /** The papers of all searches of `terms`, one search after another. */
  function AllFound(fetch: (string, string) -> seq<SearchResult>, terms: seq<(string, string)>): seq<WorkingPaper>
    decreases |terms|
  {
    if |terms| == 0 then []
    else AllFound(fetch, terms[..|terms| - 1]) + Search(fetch, terms[|terms| - 1])
  }

  /** Merging search by search is merging all their papers in one run. */
  lemma {:induction false} MergeTermsFlat(fetch: (string, string) -> seq<SearchResult>, m: seq<(string, WorkingPaper)>, terms: seq<(string, string)>)
    ensures MergeTerms(fetch, m, terms) == MergePapers(m, AllFound(fetch, terms))
    decreases |terms|
  {
    if |terms| > 0 {
      var pre := terms[..|terms| - 1];
      MergeTermsFlat(fetch, m, pre);
      MergePapersAppend(m, AllFound(fetch, pre), Search(fetch, terms[|terms| - 1]));
    }
  }

  /** A stream's dictionary keeps, for each URL, the paper the last search
      that found it returned last, and lists the URLs in the order they
      were first found. */
  lemma StreamPapersLastFound(fetch: (string, string) -> seq<SearchResult>, terms: seq<(string, string)>)
    ensures forall u :: OrderedMap.Get(StreamPapers(fetch, terms), u) == LastWithUrl(AllFound(fetch, terms), u)
    ensures OrderedMap.Keys(StreamPapers(fetch, terms)) == AddKeys([], Urls(AllFound(fetch, terms)))
  {
    MergeTermsFlat(fetch, [], terms);
    MergePapersKeys([], AllFound(fetch, terms));
    assert OrderedMap.Keys<string, WorkingPaper>([]) == [];
  }

  // ---------------------------------------------------------------------
  // Repeated searches
  // ---------------------------------------------------------------------

  /** Which URLs a merge adds, and where, depends only on the keys it starts from. */
  lemma {:induction false} MergePapersSameKeys(m1: seq<(string, WorkingPaper)>, m2: seq<(string, WorkingPaper)>, papers: seq<WorkingPaper>)
    requires OrderedMap.Keys(m1) == OrderedMap.Keys(m2)
    ensures OrderedMap.Keys(MergePapers(m1, papers)) == OrderedMap.Keys(MergePapers(m2, papers))
    decreases |papers|
  {
    if |papers| > 0 {
      MergePapersSameKeys(m1, m2, papers[..|papers| - 1]);
    }
  }

  lemma {:induction false} MergeTermsSameKeys(fetch: (string, string) -> seq<SearchResult>,
      m1: seq<(string, WorkingPaper)>, m2: seq<(string, WorkingPaper)>, terms: seq<(string, string)>)
    requires OrderedMap.Keys(m1) == OrderedMap.Keys(m2)
    ensures OrderedMap.Keys(MergeTerms(fetch, m1, terms)) == OrderedMap.Keys(MergeTerms(fetch, m2, terms))
    decreases |terms|
  {
    if |terms| > 0 {
      var pre := terms[..|terms| - 1];
      MergeTermsSameKeys(fetch, m1, m2, pre);
      MergePapersSameKeys(MergeTerms(fetch, m1, pre), MergeTerms(fetch, m2, pre), Search(fetch, terms[|terms| - 1]));
    }
  }

  /** Merging `a + b` is merging `a`, then `b`. */
  lemma {:induction false} MergeTermsAppend(fetch: (string, string) -> seq<SearchResult>,
      m: seq<(string, WorkingPaper)>, a: seq<(string, string)>, b: seq<(string, string)>)
    ensures MergeTerms(fetch, m, a + b) == MergeTerms(fetch, MergeTerms(fetch, m, a), b)
    decreases |b|
  {
    if |b| == 0 {
      assert a + b == a;
    } else {
      var b' := b[..|b| - 1];
      assert (a + b)[..|a + b| - 1] == a + b';
      assert (a + b)[|a + b| - 1] == b[|b| - 1];
      MergeTermsAppend(fetch, m, a, b');
    }
  }

  /** A search already made for the stream finds no URL that is not yet a
      key: repeating it adds no paper and moves none. */
  lemma RepeatedSearchAddsNoUrl(fetch: (string, string) -> seq<SearchResult>, a: seq<(string, string)>,
                                t: (string, string), b: seq<(string, string)>)
    requires t in a
    ensures OrderedMap.Keys(StreamPapers(fetch, a + [t] + b)) == OrderedMap.Keys(StreamPapers(fetch, a + b))
  {
    var m := MergeTerms(fetch, [], a);
    var found := Search(fetch, t);
    var i :| 0 <= i < |a| && a[i] == t;
    assert forall k :: 0 <= k < |found| ==> found[k].url in OrderedMap.Keys(m) by {
      forall k | 0 <= k < |found|
        ensures found[k].url in OrderedMap.Keys(m)
      {
        assert Urls(found)[k] == found[k].url;
        assert FoundUrl(fetch, a, found[k].url);
      }
    }
    MergeTermsAppend(fetch, [], a + [t], b);
    MergeTermsAppend(fetch, [], a, [t]);
    MergeTermsAppend(fetch, [], a, b);
    assert [t][..0] == [];
    assert MergeTerms(fetch, m, [t]) == MergePapers(m, found);
    MergeTermsSameKeys(fetch, MergeTerms(fetch, m, [t]), m, b);
  }

  /** The same for a repeat anywhere in the list of searches. */
  lemma RepeatedSearchAt(fetch: (string, string) -> seq<SearchResult>, terms: seq<(string, string)>, i: nat, j: nat)
    requires i < j < |terms| && terms[i] == terms[j]
    ensures OrderedMap.Keys(StreamPapers(fetch, terms)) == OrderedMap.Keys(StreamPapers(fetch, terms[..j] + terms[j + 1..]))
  {
    assert terms == terms[..j] + [terms[j]] + terms[j + 1..];
    assert terms[..j][i] == terms[j];
    RepeatedSearchAddsNoUrl(fetch, terms[..j], terms[j], terms[j + 1..]);
  }

  /** The macroeconomics stream makes its first search a second time, as
      its fourth; by `RepeatedSearchAt` that search adds nothing. */
  lemma MacroSearchRepeats()
    ensures StreamSearchTerms[7].0 == "field/macro"
    ensures StreamSearchTerms[7].1[3] == StreamSearchTerms[7].1[0]
  {
  }

  // ---------------------------------------------------------------------
  // Messages
  // ---------------------------------------------------------------------

  /** A message to a stream, under a topic, listing papers. */
  datatype Message = Message(to: string, topic: string, papers: seq<WorkingPaper>)

  /** A stream with the dictionary of its searches. */
  function StreamEntry(fetch: (string, string) -> seq<SearchResult>): ((string, seq<(string, string)>)) -> (string, seq<(string, WorkingPaper)>) {
    (entry: (string, seq<(string, string)>)) => (entry.0, StreamPapers(fetch, entry.1))
  }

  /** The stream's dictionary is not empty. */
  predicate HasPapers(entry: (string, seq<(string, WorkingPaper)>)) {
    |entry.1| > 0
  }

  /** The message listing the dictionary's papers in insertion order. */
  function ToMessage(entry: (string, seq<(string, WorkingPaper)>)): Message {
    Message(entry.0, Topic, OrderedMap.Values(entry.1))
  }

  /** The messages for the streams' dictionaries: one per non-empty
      dictionary, in order, none for the others. */
  function MessagesOf(entries: seq<(string, seq<(string, WorkingPaper)>)>): (r: seq<Message>)
    ensures r == Seqs.Map(Seqs.Filter(entries, HasPapers), ToMessage)
    ensures forall k :: 0 <= k < |r| ==> r[k].topic == Topic && |r[k].papers| > 0
    decreases |entries|
  {
    if |entries| == 0 then []
    else
      var entry := entries[0];
      var rest := MessagesOf(entries[1..]);
      var head := if HasPapers(entry) then [entry] else [];
      Seqs.MapAppend(head, Seqs.Filter(entries[1..], HasPapers), ToMessage);
      if |entry.1| == 0 then rest
      else [ToMessage(entry)] + rest
  }

  /** The loop of `make_messages` over the streams, each merging its
      searches into a fresh dictionary: one message per stream whose
      searches found new papers, in table order, none for the others. */
  function StreamMessages(fetch: (string, string) -> seq<SearchResult>, table: seq<(string, seq<(string, string)>)>): (r: seq<Message>)
    ensures r == Seqs.Map(Seqs.Filter(Seqs.Map(table, StreamEntry(fetch)), HasPapers), ToMessage)
    ensures forall k :: 0 <= k < |r| ==> r[k].topic == Topic && |r[k].papers| > 0
    ensures |r| <= |table|
  {
    MessagesOf(Seqs.Map(table, StreamEntry(fetch)))
  }

  /** `make_messages` on the bot's own table. */
  function MakeMessages(fetch: (string, string) -> seq<SearchResult>): (r: seq<Message>)
    ensures forall k :: 0 <= k < |r| ==> r[k].topic == Topic && |r[k].papers| > 0
    ensures |r| <= |StreamSearchTerms|
  {
    StreamMessages(fetch, StreamSearchTerms)
  }

  /** A stream gets a message exactly when its searches found papers, and
      the message lists the papers of its dictionary. */
  lemma MessageIff(fetch: (string, string) -> seq<SearchResult>, table: seq<(string, seq<(string, string)>)>,
                   stream: string, papers: seq<WorkingPaper>)
    ensures Message(stream, Topic, papers) in StreamMessages(fetch, table)
      <==> exists terms :: (stream, terms) in table && papers == OrderedMap.Values(StreamPapers(fetch, terms)) && |papers| > 0
  {
    var msg := Message(stream, Topic, papers);
    if msg in StreamMessages(fetch, table) {
      MessageSource(fetch, table, msg);
    }
    if exists terms :: (stream, terms) in table && papers == OrderedMap.Values(StreamPapers(fetch, terms)) && |papers| > 0 {
      var terms :| (stream, terms) in table && papers == OrderedMap.Values(StreamPapers(fetch, terms)) && |papers| > 0;
      MessageFor(fetch, table, stream, terms);
    }
  }

  /** Every message comes from a non-empty dictionary. */
  lemma MessageEntry(entries: seq<(string, seq<(string, WorkingPaper)>)>, msg: Message) returns (j: nat)
    requires msg in MessagesOf(entries)
    ensures j < |entries| && msg == ToMessage(entries[j]) && |entries[j].1| > 0
  {
    var r := MessagesOf(entries);
    var kept := Seqs.Filter(entries, HasPapers);
    var k :| 0 <= k < |r| && r[k] == msg;
    assert kept[k] in kept;
    j :| 0 <= j < |entries| && entries[j] == kept[k];
  }

  /** Every non-empty dictionary gets its message. */
  lemma EntryMessage(entries: seq<(string, seq<(string, WorkingPaper)>)>, j: nat)
    requires j < |entries| && |entries[j].1| > 0
    ensures ToMessage(entries[j]) in MessagesOf(entries)
  {
    var r := MessagesOf(entries);
    var kept := Seqs.Filter(entries, HasPapers);
    assert entries[j] in kept;
    var k :| 0 <= k < |kept| && kept[k] == entries[j];
    assert r[k] == ToMessage(kept[k]);
  }

  /** Every message comes from a table entry whose searches found papers. */
  lemma MessageSource(fetch: (string, string) -> seq<SearchResult>, table: seq<(string, seq<(string, string)>)>, msg: Message)
    requires msg in StreamMessages(fetch, table)
    ensures exists terms :: (msg.to, terms) in table && msg.papers == OrderedMap.Values(StreamPapers(fetch, terms))
  {
    var entries := Seqs.Map(table, StreamEntry(fetch));
    var i := MessageEntry(entries, msg);
    assert entries[i] == (table[i].0, StreamPapers(fetch, table[i].1));
    assert table[i] == (msg.to, table[i].1);
  }

  /** A table entry whose searches found papers gets its message. */
  lemma MessageFor(fetch: (string, string) -> seq<SearchResult>, table: seq<(string, seq<(string, string)>)>,
                   stream: string, terms: seq<(string, string)>)
    requires (stream, terms) in table
    ensures |StreamPapers(fetch, terms)| > 0 ==>
      Message(stream, Topic, OrderedMap.Values(StreamPapers(fetch, terms))) in StreamMessages(fetch, table)
  {
    var entries := Seqs.Map(table, StreamEntry(fetch));
    var i :| 0 <= i < |table| && table[i] == (stream, terms);
    assert entries[i] == (stream, StreamPapers(fetch, terms));
    if |StreamPapers(fetch, terms)| > 0 {
      EntryMessage(entries, i);
    }
  }

  /** The papers of a dictionary keyed by URL are listed under their keys:
      their URLs are the keys, in order, so no URL is listed twice. */
  lemma ValuesUrls(m: seq<(string, WorkingPaper)>)
    requires OrderedMap.DistinctKeys(m) && KeyedByUrl(m)
    ensures Urls(OrderedMap.Values(m)) == OrderedMap.Keys(m)
    ensures Seqs.Distinct(Urls(OrderedMap.Values(m)))
  {
    OrderedMap.KeysIndex(m);
    forall i | 0 <= i < |m|
      ensures Urls(OrderedMap.Values(m))[i] == OrderedMap.Keys(m)[i]
    {
      OrderedMap.GetDistinct(m, i);
    }
  }

  /** A stream's message lists every URL its searches found exactly once,
      and only papers its searches found. */
  lemma MessagePapers(fetch: (string, string) -> seq<SearchResult>, terms: seq<(string, string)>)
    ensures var papers := OrderedMap.Values(StreamPapers(fetch, terms));
      && Seqs.Distinct(Urls(papers))
      && (forall u :: u in Urls(papers) <==> FoundUrl(fetch, terms, u))
      && (forall p :: p in papers ==> FoundPaper(fetch, terms, p))
  {
    var m := StreamPapers(fetch, terms);
    var papers := OrderedMap.Values(m);
    ValuesUrls(m);
    forall p | p in papers
      ensures FoundPaper(fetch, terms, p)
    {
      var i :| 0 <= i < |papers| && papers[i] == p;
      OrderedMap.GetDistinct(m, i);
    }
  }

  /** A stream without searches never gets a message, provided no other
      entry of the table names the same stream. */
  lemma NoSearchesNoMessage(fetch: (string, string) -> seq<SearchResult>, table: seq<(string, seq<(string, string)>)>, i: nat)
    requires OrderedMap.DistinctKeys(table) && i < |table| && table[i].1 == []
    ensures forall msg :: msg in StreamMessages(fetch, table) ==> msg.to != table[i].0
  {
    OrderedMap.KeysIndex(table);
    var entries := Seqs.Map(table, StreamEntry(fetch));
    assert entries[i] == (table[i].0, StreamPapers(fetch, []));
    assert |entries[i].1| == 0;
    forall msg | msg in StreamMessages(fetch, table)
      ensures msg.to != table[i].0
    {
      var j := MessageEntry(entries, msg);
      assert j != i;
      assert msg.to == table[j].0;
    }
  }

  /** The streams of the search table are distinct. */
  lemma StreamSearchKeysDistinct()
    ensures OrderedMap.DistinctKeys(StreamSearchTerms)
  {
    var t := StreamSearchTerms;
    forall i, j | 0 <= i < j < |t|
      ensures t[i].0 != t[j].0
    {
      assert |t[i].0| != |t[j].0| || t[i].0[6] != t[j].0[6];
    }
    OrderedMap.DistinctKeysIntro(t);
  }

  /** The applied-microeconomics stream has no searches, so it never gets a message. */
  lemma AppliedMicroNeverAnnounced(fetch: (string, string) -> seq<SearchResult>)
    ensures forall msg :: msg in MakeMessages(fetch) ==> msg.to != "field/appliedmicro"
  {
    StreamSearchKeysDistinct();
    assert StreamSearchTerms[0] == ("field/appliedmicro", []);
    NoSearchesNoMessage(fetch, StreamSearchTerms, 0);
  }
}
