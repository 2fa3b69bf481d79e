/** `expandSitemap` (scripts/ingest/lib/sitemap.ts): a stack-based walk of a
    sitemap-index tree that fetches every distinct sitemap URL once and
    returns the `<loc>` of every `<urlset>/<url>` entry it meets.

    Fetching and XML parsing are abstracted into a `Web`: a map from URL to
    the parsed document, where a URL outside the map is a fetch (or parse)
    that throws. */
module Sitemap {
  import opened Wrappers
  import opened Seqs

  type Url = string

  /** The `sitemap` or `url` children of a parsed document. The XML parser
      yields a single object when the element occurs once and an array when
      it occurs several times. */
  datatype Children = Scalar(loc: Url) | List(locs: seq<Url>)

  /** A parsed sitemap document: the `<sitemapindex>/<sitemap>` children and
      the `<urlset>/<url>` children, each absent when the document has none.
      A document may carry both. */
  datatype Document = Document(index: Option<Children>, urlset: Option<Children>)

  /** What a fetch of each URL yields; a missing URL is a fetch that throws. */
  type Web = map<Url, Document>

  /** `Array.isArray(c) ? c : [c]`, then the `loc` of each entry. */
  function Locs(c: Children): seq<Url> {
    match c
    case Scalar(l) => [l]
    case List(ls) => ls
  }

  function OptionalLocs(c: Option<Children>): seq<Url> {
    match c
    case None => []
    case Some(children) => Locs(children)
  }

  /** The child sitemaps a document pushes on the stack. */
  function ChildSitemaps(d: Document): seq<Url> {
    OptionalLocs(d.index)
  }

  /** The page URLs a document appends to the result. */
  function PageUrls(d: Document): seq<Url> {
    OptionalLocs(d.urlset)
  }

  /** The child sitemaps of the fetchable documents among `us`, in order. */
  function ChildrenOf(web: Web, us: seq<Url>): seq<Url> {
    if us == [] then []
    else
      var u := us[|us| - 1];
      ChildrenOf(web, us[..|us| - 1]) + (if u in web then ChildSitemaps(web[u]) else [])
  }

  /** The page URLs of the fetchable documents among `us`, in order. */
  function PagesOf(web: Web, us: seq<Url>): seq<Url> {
    if us == [] then []
    else
      var u := us[|us| - 1];
      PagesOf(web, us[..|us| - 1]) + (if u in web then PageUrls(web[u]) else [])
  }

  lemma ChildrenOfSnoc(web: Web, us: seq<Url>, u: Url)
    ensures ChildrenOf(web, us + [u]) == ChildrenOf(web, us) + (if u in web then ChildSitemaps(web[u]) else [])
    ensures PagesOf(web, us + [u]) == PagesOf(web, us) + (if u in web then PageUrls(web[u]) else [])
  {
    assert (us + [u])[..|us|] == us;
  }

  /** Every URL in `ChildrenOf` is a child of one of the fetchable documents. */
  lemma {:induction false} ChildrenOfSource(web: Web, us: seq<Url>, c: Url)
    requires c in ChildrenOf(web, us)
    ensures exists j :: 0 <= j < |us| && us[j] in web && c in ChildSitemaps(web[us[j]])
  {
    var init := us[..|us| - 1];
    var u := us[|us| - 1];
    if c in ChildrenOf(web, init) {
      ChildrenOfSource(web, init, c);
      var j :| 0 <= j < |init| && init[j] in web && c in ChildSitemaps(web[init[j]]);
      assert us[j] == init[j];
    } else {
      assert u in web && c in ChildSitemaps(web[u]);
    }
  }

  // ---------------------------------------------------------------------
  // The traversal

  /** The loop state: the work stack, the `seen` set, the page URLs gathered
      so far, and the URLs fetched so far in fetch order. */
  datatype Walk = Walk(stack: seq<Url>, seen: set<Url>, pages: seq<Url>, fetched: seq<Url>)

  /** The end of a traversal: the returned page list, or the URL whose fetch
      threw; and every URL that was fetched, in order. */
  datatype Expansion = Expansion(result: Result<seq<Url>, Url>, fetched: seq<Url>)

  lemma UnseenShrinks(keys: set<Url>, seen: set<Url>, u: Url)
    requires u in keys && u !in seen
    ensures |keys - (seen + {u})| < |keys - seen|
  {
    assert keys - (seen + {u}) == (keys - seen) - {u};
  }

  /** The loop of `expandSitemap`, one iteration per call: pop a URL, skip it
      if seen, otherwise mark it seen, fetch it, push its child sitemaps and
      append its page URLs. It terminates on every web, cycles included: each
      fetch adds a URL of the finite web to `seen`, and each skip shortens
      the stack. */
  function Run(web: Web, w: Walk): Expansion
    decreases |web.Keys - w.seen|, |w.stack|
  {
    if w.stack == [] then Expansion(Success(w.pages), w.fetched)
    else
      var url := w.stack[|w.stack| - 1];
      var rest := w.stack[..|w.stack| - 1];
      if url in w.seen then Run(web, w.(stack := rest))
      else if url !in web then Expansion(Failure(url), w.fetched + [url])
      else
        var doc := web[url];
        UnseenShrinks(web.Keys, w.seen, url);
        Run(web, Walk(rest + ChildSitemaps(doc), w.seen + {url}, w.pages + PageUrls(doc), w.fetched + [url]))
  }

  function InitialWalk(start: Url): Walk {
    Walk([start], {}, [], [])
  }

  /** `expandSitemap(start, fetchText)` as a function. */
  function Expand(web: Web, start: Url): Expansion {
    Run(web, InitialWalk(start))
  }

  /** `expandSitemap` as written: a `while` loop over an explicit stack. Its
      outcome and fetch trace are those of `Expand`. */
  method ExpandSitemap(start: Url, web: Web) returns (result: Result<seq<Url>, Url>, fetched: seq<Url>)
    ensures Expansion(result, fetched) == Expand(web, start)
    ensures Guarantees(web, start, Expansion(result, fetched))
  {
    ExpandGuarantees(web, start);
    var urls: seq<Url> := [];
    var stack := [start];
    var seen: set<Url> := {};
    fetched := [];
    while stack != []
      invariant Run(web, Walk(stack, seen, urls, fetched)) == Expand(web, start)
      decreases |web.Keys - seen|, |stack|
    {
      var url := stack[|stack| - 1];
      stack := stack[..|stack| - 1];
      if url in seen {
        continue;
      }
      ghost var seenBefore := seen;
      seen := seen + {url};
      fetched := fetched + [url];
      if url !in web {
        return Failure(url), fetched;
      }
      UnseenShrinks(web.Keys, seenBefore, url);
      var doc := web[url];
      stack := stack + ChildSitemaps(doc);
      urls := urls + PageUrls(doc);
    }
    return Success(urls), fetched;
  }

  // ---------------------------------------------------------------------
  // What the traversal guarantees

  /** `seen` is the set of fetched URLs, each fetched once and successfully,
      and the gathered pages are those of the fetched documents. */
  ghost predicate FetchedSoFar(web: Web, w: Walk) {
    && (forall u :: u in w.seen <==> u in w.fetched)
    && Distinct(w.fetched)
    && (forall i :: 0 <= i < |w.fetched| ==> w.fetched[i] in web)
    && w.pages == PagesOf(web, w.fetched)
  }

  /** Before the first fetch the stack holds only the start; after it, the
      start is the first URL fetched. */
  ghost predicate StartFirst(start: Url, w: Walk) {
    && (|w.fetched| == 0 ==> w.stack == [start])
    && (|w.fetched| > 0 ==> w.fetched[0] == start)
  }

  /** Every stacked URL is the start or a child of a fetched document. */
  ghost predicate StackDerived(web: Web, start: Url, w: Walk) {
    forall u :: u in w.stack ==> u == start || u in ChildrenOf(web, w.fetched)
  }

  /** Every URL fetched after the first is a child sitemap of a document
      fetched before it. */
  ghost predicate Derived(web: Web, fetched: seq<Url>) {
    forall i :: 0 < i < |fetched| ==> fetched[i] in ChildrenOf(web, fetched[..i])
  }

  /** Every child of a fetched document is seen or still on the stack. */
  ghost predicate ChildrenPending(web: Web, w: Walk) {
    forall c :: c in ChildrenOf(web, w.fetched) ==> c in w.seen || c in w.stack
  }

  /** The facts the loop keeps. */
  ghost predicate Invariant(web: Web, start: Url, w: Walk) {
    && FetchedSoFar(web, w)
    && StartFirst(start, w)
    && StackDerived(web, start, w)
    && Derived(web, w.fetched)
    && ChildrenPending(web, w)
  }

  /** What a finished traversal promises. */
  ghost predicate Guarantees(web: Web, start: Url, e: Expansion) {
    && |e.fetched| > 0 && e.fetched[0] == start
    && Distinct(e.fetched)
    && Derived(web, e.fetched)
    && (e.result.Success? ==>
          && (forall i :: 0 <= i < |e.fetched| ==> e.fetched[i] in web)
          && e.result.value == PagesOf(web, e.fetched)
          && (forall c :: c in ChildrenOf(web, e.fetched) ==> c in e.fetched))
    && (e.result.Failure? ==>
          && e.result.error == e.fetched[|e.fetched| - 1]
          && e.result.error !in web
          && (forall i :: 0 <= i < |e.fetched| - 1 ==> e.fetched[i] in web))
  }

  lemma InvariantSkip(web: Web, start: Url, w: Walk)
    requires Invariant(web, start, w) && w.stack != [] && w.stack[|w.stack| - 1] in w.seen
    ensures Invariant(web, start, w.(stack := w.stack[..|w.stack| - 1]))
  {
    var url := w.stack[|w.stack| - 1];
    var rest := w.stack[..|w.stack| - 1];
    assert forall u :: u in w.stack <==> u in rest || u == url;
  }

  /** The popped URL is new: it is not the start (already fetched first) so it
      is a child of a fetched document. */
  lemma PoppedIsChild(web: Web, start: Url, w: Walk)
    requires Invariant(web, start, w) && w.stack != [] && w.stack[|w.stack| - 1] !in w.seen
    ensures |w.fetched| == 0 ==> w.stack[|w.stack| - 1] == start
    ensures |w.fetched| > 0 ==> w.stack[|w.stack| - 1] in ChildrenOf(web, w.fetched)
  {
    var url := w.stack[|w.stack| - 1];
    assert url in w.stack;
    if |w.fetched| > 0 {
      assert w.fetched[0] in w.seen;
    }
  }

  /** Appending a new URL that is a child of the fetched documents (or the
      start, first) keeps the fetch trace duplicate-free and derived. */
  lemma TraceExtends(web: Web, start: Url, w: Walk, url: Url)
    requires Invariant(web, start, w) && url !in w.seen
    requires |w.fetched| == 0 ==> url == start
    requires |w.fetched| > 0 ==> url in ChildrenOf(web, w.fetched)
    ensures Distinct(w.fetched + [url])
    ensures Derived(web, w.fetched + [url])
    ensures (w.fetched + [url])[0] == start
  {
    var f' := w.fetched + [url];
    assert forall i :: 0 <= i < |w.fetched| ==> f'[..i] == w.fetched[..i];
    assert f'[..|w.fetched|] == w.fetched;
  }

  lemma InvariantFetch(web: Web, start: Url, w: Walk)
    requires Invariant(web, start, w) && w.stack != []
    requires w.stack[|w.stack| - 1] !in w.seen && w.stack[|w.stack| - 1] in web
    ensures var url := w.stack[|w.stack| - 1]; var doc := web[url];
      Invariant(web, start, Walk(w.stack[..|w.stack| - 1] + ChildSitemaps(doc), w.seen + {url}, w.pages + PageUrls(doc), w.fetched + [url]))
  {
    var url := w.stack[|w.stack| - 1];
    var rest := w.stack[..|w.stack| - 1];
    var doc := web[url];
    var w' := Walk(rest + ChildSitemaps(doc), w.seen + {url}, w.pages + PageUrls(doc), w.fetched + [url]);
    PoppedIsChild(web, start, w);
    TraceExtends(web, start, w, url);
    FetchKeepsFetchedSoFar(web, w, url, w'.stack);
    FetchKeepsStackDerived(web, start, w);
    FetchKeepsChildrenPending(web, w);
    assert StartFirst(start, w');
  }

  /** Fetching a new, fetchable URL keeps `seen`, the fetch trace and the
      gathered pages in step, whatever the stack. */
  lemma FetchKeepsFetchedSoFar(web: Web, w: Walk, url: Url, stack: seq<Url>)
    requires FetchedSoFar(web, w) && url !in w.seen && url in web
    ensures FetchedSoFar(web, Walk(stack, w.seen + {url}, w.pages + PageUrls(web[url]), w.fetched + [url]))
  {
    var f' := w.fetched + [url];
    ChildrenOfSnoc(web, w.fetched, url);
    assert forall u :: u in w.seen + {url} <==> u in f';
    assert forall i :: 0 <= i < |w.fetched| ==> f'[i] == w.fetched[i] && f'[i] != url;
    assert forall i :: 0 <= i < |f'| ==> f'[i] in web;
  }

  /** Replacing the popped URL by its child sitemaps keeps every stacked URL
      the start or a child of a fetched document. */
  lemma FetchKeepsStackDerived(web: Web, start: Url, w: Walk)
    requires StackDerived(web, start, w) && w.stack != [] && w.stack[|w.stack| - 1] in web
    ensures var url := w.stack[|w.stack| - 1]; var doc := web[url];
      StackDerived(web, start, Walk(w.stack[..|w.stack| - 1] + ChildSitemaps(doc), w.seen + {url}, w.pages + PageUrls(doc), w.fetched + [url]))
  {
    var url := w.stack[|w.stack| - 1];
    var rest := w.stack[..|w.stack| - 1];
    var doc := web[url];
    var f' := w.fetched + [url];
    ChildrenOfSnoc(web, w.fetched, url);
    forall u | u in rest + ChildSitemaps(doc)
      ensures u == start || u in ChildrenOf(web, f')
    {
      if u in rest {
        assert u in w.stack;
      } else {
        assert u in ChildSitemaps(doc);
      }
    }
  }

  /** After the fetch every child of a fetched document is still seen or
      stacked: the popped URL is now seen, its children are now stacked. */
  lemma FetchKeepsChildrenPending(web: Web, w: Walk)
    requires ChildrenPending(web, w) && w.stack != [] && w.stack[|w.stack| - 1] in web
    ensures var url := w.stack[|w.stack| - 1]; var doc := web[url];
      ChildrenPending(web, Walk(w.stack[..|w.stack| - 1] + ChildSitemaps(doc), w.seen + {url}, w.pages + PageUrls(doc), w.fetched + [url]))
  {
    var url := w.stack[|w.stack| - 1];
    var rest := w.stack[..|w.stack| - 1];
    var doc := web[url];
    var f' := w.fetched + [url];
    ChildrenOfSnoc(web, w.fetched, url);
    assert forall u :: u in w.stack <==> u in rest || u == url;
    forall c | c in ChildrenOf(web, f')
      ensures c in w.seen + {url} || c in rest + ChildSitemaps(doc)
    {
      if c in ChildrenOf(web, w.fetched) && c != url {
        assert c in w.seen || c in rest;
      }
    }
  }

  /** An empty stack ends the traversal with its guarantees. */
  lemma GuaranteesWhenDone(web: Web, start: Url, w: Walk)
    requires Invariant(web, start, w) && w.stack == []
    ensures Guarantees(web, start, Run(web, w))
  {
    assert Run(web, w) == Expansion(Success(w.pages), w.fetched);
    assert forall c :: c in ChildrenOf(web, w.fetched) ==> c in w.fetched;
  }

  /** A popped URL that cannot be fetched ends the traversal with its
      guarantees. */
  lemma GuaranteesWhenThrown(web: Web, start: Url, w: Walk)
    requires Invariant(web, start, w) && w.stack != []
    requires w.stack[|w.stack| - 1] !in w.seen && w.stack[|w.stack| - 1] !in web
    ensures Guarantees(web, start, Run(web, w))
  {
    var url := w.stack[|w.stack| - 1];
    assert Run(web, w) == Expansion(Failure(url), w.fetched + [url]);
    PoppedIsChild(web, start, w);
    TraceExtends(web, start, w, url);
    var f := w.fetched + [url];
    assert forall i :: 0 <= i < |f| - 1 ==> f[i] == w.fetched[i];
  }

  /** From any state satisfying the invariant, the traversal ends with its
      guarantees. */
  lemma {:induction false} RunGuarantees(web: Web, start: Url, w: Walk)
    requires Invariant(web, start, w)
    ensures Guarantees(web, start, Run(web, w))
    decreases |web.Keys - w.seen|, |w.stack|
  {
    if w.stack == [] {
      GuaranteesWhenDone(web, start, w);
    } else {
      var url := w.stack[|w.stack| - 1];
      var rest := w.stack[..|w.stack| - 1];
      if url in w.seen {
        InvariantSkip(web, start, w);
        RunGuarantees(web, start, w.(stack := rest));
        assert Run(web, w) == Run(web, w.(stack := rest));
      } else if url !in web {
        GuaranteesWhenThrown(web, start, w);
      } else {
        var doc := web[url];
        var next := Walk(rest + ChildSitemaps(doc), w.seen + {url}, w.pages + PageUrls(doc), w.fetched + [url]);
        InvariantFetch(web, start, w);
        UnseenShrinks(web.Keys, w.seen, url);
        RunGuarantees(web, start, next);
        assert Run(web, w) == Run(web, next);
      }
    }
  }

  /** `expandSitemap` fetches the start URL first and every distinct URL at
      most once, however often it is referenced (self- and cyclic references
      included); each later URL is a child sitemap of an earlier document. On
      success every fetched document's child sitemaps were fetched too, and
      the result is exactly the concatenation of the page URLs of the fetched
      documents, in fetch order, duplicates kept. A fetch that throws ends
      the expansion with that URL and no page list. */
  lemma ExpandGuarantees(web: Web, start: Url)
    ensures Guarantees(web, start, Expand(web, start))
  {
    RunGuarantees(web, start, InitialWalk(start));
  }

  /** The fetched URLs lie in every set that holds the start and the child
      sitemaps of each of its fetchable members: they are reachable from the
      start through child-sitemap links. */
  lemma {:induction false} FetchedAreReachable(web: Web, start: Url, reach: set<Url>)
    requires start in reach
    requires forall u, c :: u in reach && u in web && c in ChildSitemaps(web[u]) ==> c in reach
    ensures forall u :: u in Expand(web, start).fetched ==> u in reach
  {
    var f := Expand(web, start).fetched;
    ExpandGuarantees(web, start);
    forall i | 0 <= i < |f|
      ensures f[i] in reach
    {
      ReachableByIndex(web, start, reach, f, i);
    }
  }

  lemma {:induction false} ReachableByIndex(web: Web, start: Url, reach: set<Url>, f: seq<Url>, i: int)
    requires start in reach
    requires forall u, c :: u in reach && u in web && c in ChildSitemaps(web[u]) ==> c in reach
    requires |f| > 0 && f[0] == start && Derived(web, f)
    requires 0 <= i < |f|
    ensures f[i] in reach
    decreases i
  {
    if i > 0 {
      ChildrenOfSource(web, f[..i], f[i]);
      var j :| 0 <= j < i && f[..i][j] in web && f[i] in ChildSitemaps(web[f[..i][j]]);
      ReachableByIndex(web, start, reach, f, j);
    }
  }

  /** On success the fetched URLs are exactly the URLs reachable from the
      start: they form a set closed under child-sitemap links, and it is the
      least such set. */
  lemma FetchedAreClosed(web: Web, start: Url)
    requires Expand(web, start).result.Success?
    ensures var f := Expand(web, start).fetched;
      && start in f
      && forall u, c :: u in f && u in web && c in ChildSitemaps(web[u]) ==> c in f
  {
    var f := Expand(web, start).fetched;
    ExpandGuarantees(web, start);
    forall u, c | u in f && u in web && c in ChildSitemaps(web[u])
      ensures c in f
    {
      var j :| 0 <= j < |f| && f[j] == u;
      ChildrenOfMember(web, f, j, c);
    }
  }

  lemma {:induction false} ChildrenOfMember(web: Web, us: seq<Url>, j: int, c: Url)
    requires 0 <= j < |us| && us[j] in web && c in ChildSitemaps(web[us[j]])
    ensures c in ChildrenOf(web, us)
  {
    if j < |us| - 1 {
      ChildrenOfMember(web, us[..|us| - 1], j, c);
    }
  }

  // ---------------------------------------------------------------------
  // Scalar children behave as one-element lists

  /** Two webs that fetch the same URLs and list the same child and page
      URLs for each. */
  ghost predicate SameLinks(web1: Web, web2: Web) {
    && web1.Keys == web2.Keys
    && forall u :: u in web1 ==> ChildSitemaps(web1[u]) == ChildSitemaps(web2[u]) && PageUrls(web1[u]) == PageUrls(web2[u])
  }

  lemma {:induction false} RunSameLinks(web1: Web, web2: Web, w: Walk)
    requires SameLinks(web1, web2)
    ensures Run(web1, w) == Run(web2, w)
    decreases |web1.Keys - w.seen|, |w.stack|
  {
    if w.stack != [] {
      var url := w.stack[|w.stack| - 1];
      var rest := w.stack[..|w.stack| - 1];
      if url in w.seen {
        RunSameLinks(web1, web2, w.(stack := rest));
      } else if url in web1 {
        var doc := web1[url];
        UnseenShrinks(web1.Keys, w.seen, url);
        RunSameLinks(web1, web2, Walk(rest + ChildSitemaps(doc), w.seen + {url}, w.pages + PageUrls(doc), w.fetched + [url]));
      }
    }
  }

  /** A single child element, which the parser yields as a scalar, read as a
      one-element list. */
  function AsList(c: Option<Children>): (r: Option<Children>)
    ensures OptionalLocs(r) == OptionalLocs(c)
    ensures r.None? == c.None?
    ensures r.Some? ==> r.value.List?
  {
    match c
    case Some(Scalar(l)) => Some(List([l]))
    case _ => c
  }

  /** The web with every scalar child rewritten as a one-element list. */
  function ListsOnly(web: Web): (r: Web)
    ensures SameLinks(r, web)
  {
    map u | u in web :: Document(AsList(web[u].index), AsList(web[u].urlset))
  }

  /** A scalar `sitemap` or `url` child is handled exactly like a one-element
      list: rewriting every scalar as a list changes neither the result nor
      the fetch trace. */
  lemma ScalarIsSingletonList(web: Web, start: Url)
    ensures Expand(ListsOnly(web), start) == Expand(web, start)
  {
    RunSameLinks(ListsOnly(web), web, InitialWalk(start));
  }

  /** A document holding both a sitemap index and a urlset contributes
      both: its pages come first, then those of its child sitemap. */
  lemma IndexAndUrlsetBoth(start: Url, child: Url, p: Url, q: Url)
    requires child != start
    ensures var web := map[start := Document(Some(Scalar(child)), Some(Scalar(p))),
                           child := Document(None, Some(List([q])))];
      Expand(web, start) == Expansion(Success([p, q]), [start, child])
  {
    var web := map[start := Document(Some(Scalar(child)), Some(Scalar(p))),
                   child := Document(None, Some(List([q])))];
    var d1, d2 := web[start], web[child];
    assert ChildSitemaps(d1) == [child] && PageUrls(d1) == [p];
    assert ChildSitemaps(d2) == [] && PageUrls(d2) == [q];
    var w1 := Walk([start][..0] + ChildSitemaps(d1), {} + {start}, [] + PageUrls(d1), [] + [start]);
    assert w1 == Walk([child], {start}, [p], [start]);
    assert Run(web, InitialWalk(start)) == Run(web, w1);
    var w2 := Walk([child][..0] + ChildSitemaps(d2), {start} + {child}, [p] + PageUrls(d2), [start] + [child]);
    assert w2 == Walk([], {start, child}, [p, q], [start, child]);
    assert child !in w1.seen;
    assert Run(web, w1) == Run(web, w2);
  }

  /** A page listed twice in a urlset appears twice in the result. */
  lemma DuplicatePagesKept(start: Url, page: Url)
    ensures Expand(map[start := Document(None, Some(List([page, page])))], start)
         == Expansion(Success([page, page]), [start])
  {
    var web := map[start := Document(None, Some(List([page, page])))];
    var doc := web[start];
    assert ChildSitemaps(doc) == [] && PageUrls(doc) == [page, page];
    var w1 := Walk([start][..0] + ChildSitemaps(doc), {} + {start}, [] + PageUrls(doc), [] + [start]);
    assert w1 == Walk([], {start}, [page, page], [start]);
    assert Run(web, InitialWalk(start)) == Run(web, w1);
  }
}
