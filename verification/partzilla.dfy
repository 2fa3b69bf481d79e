/** The pure parts of the Partzilla ingest script
    (scripts/ingest/partzilla.ts): which expanded URLs are crawled, and the
    script's own single-shot `fetchText`. */
module Partzilla {
  import opened Wrappers
  import opened Strings
  import opened Seqs
  import Sitemap
  import FetchTx

  /** The root of the catalog sitemap tree. */
  const SitemapRoot: string := "https://www.partzilla.com/sitemap/i/catalog/0.xml"

  const CatalogMarker: string := "/catalog/"
  const SnowmobileMarker: string := "/snowmobile"

  /** `isSnowmobile(u)`: a catalog URL of the snowmobile line. */
  function IsSnowmobile(u: string): (r: bool)
    ensures r <==> HasSubstring(u, CatalogMarker) && HasSubstring(u, SnowmobileMarker)
  {
    Includes(u, CatalogMarker) && Includes(u, SnowmobileMarker)
  }

  /** The `.filter(isSnowmobile)` step: the crawled URLs are the snowmobile
      URLs of the expanded list, in their order and with their repetitions. */
  function CrawlList(urls: seq<string>): (r: seq<string>)
    ensures IsSubsequence(r, urls)
    ensures forall i :: 0 <= i < |r| ==> IsSnowmobile(r[i])
    ensures forall u :: u in r <==> u in urls && IsSnowmobile(u)
  {
    Filter(urls, IsSnowmobile)
  }

  /** Every URL of the expanded list keeps its number of occurrences if it
      is a snowmobile URL, and loses all of them otherwise. */
  lemma CrawlListMultiplicity(urls: seq<string>, u: string)
    ensures multiset(CrawlList(urls))[u] == if IsSnowmobile(u) then multiset(urls)[u] else 0
  {
    FilterMultiplicity(urls, IsSnowmobile, u);
  }

  /** Filtering the crawl list again changes nothing. */
  lemma CrawlListIdempotent(urls: seq<string>)
    ensures CrawlList(CrawlList(urls)) == CrawlList(urls)
  {
    FilterIdempotent(urls, IsSnowmobile);
  }

  /** The URLs `main` queues, given the sitemap tree reachable from the root:
      the snowmobile pages of a successful expansion, or the URL whose fetch
      aborted the run (then nothing is queued). */
  function CrawlTargets(web: Sitemap.Web): (r: Result<seq<string>, string>)
    ensures r.Success? <==> Sitemap.Expand(web, SitemapRoot).result.Success?
    ensures r.Failure? ==> r.error == Sitemap.Expand(web, SitemapRoot).result.error
    ensures r.Success? ==> forall u :: u in r.value <==> u in Sitemap.Expand(web, SitemapRoot).result.value && IsSnowmobile(u)
  {
    match Sitemap.Expand(web, SitemapRoot).result
    case Success(pages) => Success(CrawlList(pages))
    case Failure(u) => Failure(u)
  }

  /** On success the queued URLs are the snowmobile pages listed by the
      fetched urlsets, in the order the expansion produced them. */
  lemma CrawlTargetsArePages(web: Sitemap.Web)
    requires CrawlTargets(web).Success?
    ensures var e := Sitemap.Expand(web, SitemapRoot);
      CrawlTargets(web).value == CrawlList(Sitemap.PagesOf(web, e.fetched))
  {
    Sitemap.ExpandGuarantees(web, SitemapRoot);
  }

  /** Why the script's own `fetchText` threw: a non-ok status, or the
      request itself failed. */
  datatype FetchOnceError = Status(status: int) | Network

  /** The script's local `fetchText`: one request, no retry, a throw on any
      non-ok status. */
  function FetchOnce(reply: FetchTx.Reply): (r: Result<string, FetchOnceError>)
    ensures r.Success? <==> reply.Http? && FetchTx.IsOk(reply.status)
    ensures r.Success? ==> r.value == reply.body
    ensures reply.Http? && !FetchTx.IsOk(reply.status) ==> r == Failure(Status(reply.status))
  {
    match reply
    case NetworkError => Failure(Network)
    case Http(status, body) => if FetchTx.IsOk(status) then Success(body) else Failure(Status(status))
  }

  /** The local fetch behaves like the shared retrying `fetchText` with a
      single attempt: one request, the same body on success, and a failure
      exactly when the shared loop fails, without any sleep. */
  lemma FetchOnceIsSingleAttempt(server: nat -> FetchTx.Reply, backoff: Option<int>)
    ensures var t := FetchTx.FetchRun(Some(FetchTx.Options(Some(1), backoff)), server);
      && t.requests == 1
      && t.sleeps == []
      && (FetchOnce(server(0)).Success? <==> t.result.Success?)
      && (t.result.Success? ==> t.result.value == FetchOnce(server(0)).value)
  {
    var opts := Some(FetchTx.Options(Some(1), backoff));
    var t := FetchTx.FetchRun(opts, server);
    FetchTx.FetchOutcome(opts, server);
    FetchTx.SleepSchedule(opts, server);
    assert FetchTx.RetriesOf(opts) == 1;
  }
}
