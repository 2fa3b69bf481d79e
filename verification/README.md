# Snow Salvage: a Dafny model of its list logic and ingestion helpers

Snow Salvage is a used-snowmobile-parts shop. Donor sleds are stripped for
parts; the parts are listed in an admin inventory and on a public catalogue.
Partzilla's OEM catalogue is ingested through a sitemap crawl. This project
models the deterministic core of that system as pure Dafny functions over
sequences, strings and maps, and proves what each piece promises:

- **Sitemap expansion** (`Sitemap`). This is the stack-and-`seen`-set walk
  of a sitemap-index tree. A parsed document has an optional
  `<sitemapindex>` and an optional `<urlset>` child list. Each list is a
  single child (`Scalar`) or an array (`List`), as the XML parser yields
  them. Fetching is a `map` from URL to document; a missing URL is a fetch
  that throws. The walk terminates on every web, cyclic ones included. The
  measure is the pair (fetchable URLs not yet seen, stack height).
- **Retrying fetch** (`FetchTx`). This is the bounded retry loop with linear
  backoff. The server is a parameter whose k-th reply is a status and body,
  or a network failure. Sleeps and warnings come back as values.
- **Partzilla ingest** (`Partzilla`). It models the `isSnowmobile` URL test,
  the filter over the expanded URLs, and the script's single-shot fetch.
- **Home page** (`Home`). It covers the de-duplicated manufacturer list and
  the initially selected make. It also covers the Year → Model grouping
  with its orderings and totals.
- **Searches** (`Search`, `Inventory`, `DonorList`, `PublicParts`). These
  are the case-insensitive substring searches over a blob of each row's
  present fields. The inventory adds its visibility toggle, the "Visible"
  counter and the donor label.
- **New donor form** (`NewDonor`). It covers photo picking and removal, the
  normalisation of the text fields, and photo storage paths. It also covers
  the request sequence of a submission: donor insert, per-photo upload and
  image row, cover update, redirect or error. The store is a parameter that
  says which requests fail.

`Strings`, `Seqs` and `Sorting` hold the JavaScript string and array
operations these rely on, each with its own contract. `Wrappers` holds
`Option` and `Result`.

Each loop of the source appears twice:
- as a terminating recursive function (`Sitemap.Run`, `FetchTx.Attempts`,
  `NewDonor.UploadFrom`);
- for the two ingestion loops, also as a `while` method. Its invariant ties
  it to the function (`Sitemap.ExpandSitemap`, `FetchTx.FetchText`).

Behaviour of the code worth knowing:
- `fetchText` retries every non-2xx status alike. There is no separate
  handling of 403, 429 or 5xx.
- A network failure is not caught, so it ends the call at once.
- The final error names the attempt count and the URL, not the last status.
- With `retries <= 0` no request is sent at all.
- `expandSitemap` de-duplicates sitemap URLs through `seen`, but not page
  URLs. A page listed twice is returned twice.
- The new donor form takes as cover the first non-empty public URL (`if
  (!coverUrl)`), which is the first photo's URL whenever that is non-empty.
- The cover update is skipped when there is no such URL.
- The home page groups donors in a plain object literal. A model bucket named after a property that every object inherits, such as `constructor` or `toString`, finds that property instead of an empty list, and `.push` throws a TypeError. `Home.Grouping` models this failure; see Findings.

## Model

Functions that only compute carry no `ensures` of their own; the lemmas
below state what they promise:
- `Sitemap.Run` and `Sitemap.Expand`: RunGuarantees, ExpandGuarantees and the rows after them.
- `FetchTx.RetriesOf` and `FetchTx.BackoffOf`: DefaultOptions.
- `FetchTx.Attempts`: AttemptsCount, AttemptsReplies, AttemptsSleeps, AttemptsWarnings, AttemptsStatusBlind.
- `Home.InitialMake`, `Home.YearKeyOf`, `Home.ModelKeyOf` and `Home.TotalParts`: InitialMakeBlank, InitialMakeIsFirst, YearHeading, YearLabelInjective, ModelKeyFacts, TotalPartsByBucket, TotalPartsAppend.
- `Inventory.Blob`, `Inventory.Shown` and `Inventory.VisibleCount`: FieldMatchFound, BlankFieldIgnored, FilteredParts, HiddenOffNarrows, VisibleCountMatches.
- `DonorList.Blob`: FieldMatchFound, ZeroIsSearchable, FieldsSeparatedBySpaces.
- `PublicParts.Blob` and `PublicParts.Base`: FieldMatchFound, Filtered.
- `NewDonor.Extension` and `NewDonor.StoragePath`: the Extension and path rows.
- `NewDonor.UploadFrom` and `NewDonor.AfterInsert`: UploadFollowsPlan, UploadStops, UploadCover and the AfterInsert rows.

| member | source | states |
|---|---|---|
| Sitemap.ExpandSitemap | scripts/ingest/lib/sitemap.ts:5-38 | The while loop over an explicit stack returns the same result and fetch trace as the recursive walk, and that outcome satisfies every traversal guarantee below |
| Sitemap.ExpandGuarantees | scripts/ingest/lib/sitemap.ts:9-37 | The start URL is fetched first and no URL is fetched twice; every later fetch is a child sitemap of an earlier document. On success every fetched document's children were fetched, and the result is exactly the page URLs of the fetched documents in fetch order. A throwing fetch ends the walk with that URL and no page list |
| Sitemap.RunGuarantees | scripts/ingest/lib/sitemap.ts:13-34 | From any loop state satisfying the invariant, the remaining iterations end with those guarantees |
| Sitemap.InvariantFetch | scripts/ingest/lib/sitemap.ts:14-34 | Fetching a popped, unseen URL keeps the loop invariant. The invariant says: seen equals fetched, fetches are distinct and derived from the start, pages match the fetched documents, every child is seen or stacked |
| Sitemap.InvariantSkip | scripts/ingest/lib/sitemap.ts:14-15 | Popping an already seen URL keeps the loop invariant |
| Sitemap.PoppedIsChild | scripts/ingest/lib/sitemap.ts:14-16 | A popped unseen URL is the start (before any fetch) or a child sitemap of a fetched document |
| Sitemap.TraceExtends | scripts/ingest/lib/sitemap.ts:16-18 | Fetching such a URL keeps the fetch trace duplicate-free, derived, and headed by the start |
| Sitemap.FetchKeepsFetchedSoFar | scripts/ingest/lib/sitemap.ts:16-26 | Fetching a new, fetchable URL keeps the seen set equal to the fetched URLs, the fetches distinct and fetchable, and the pages those of the fetched documents in order |
| Sitemap.FetchKeepsStackDerived | scripts/ingest/lib/sitemap.ts:20-26 | The child sitemaps it pushes keep every stacked URL the start or a child of a fetched document |
| Sitemap.FetchKeepsChildrenPending | scripts/ingest/lib/sitemap.ts:20-26 | Every child of a fetched document stays seen or stacked |
| Sitemap.GuaranteesWhenDone | scripts/ingest/lib/sitemap.ts:13-37 | An empty stack returns the gathered pages, and every child of a fetched document was fetched |
| Sitemap.GuaranteesWhenThrown | scripts/ingest/lib/sitemap.ts:18 | A popped URL that cannot be fetched ends the walk with that URL as the error and as the last fetch |
| Sitemap.UnseenShrinks | scripts/ingest/lib/sitemap.ts:15-16 | Marking an unseen fetchable URL as seen shrinks the set of fetchable unseen URLs, which makes the walk terminate on cyclic webs |
| Sitemap.FetchedAreReachable | scripts/ingest/lib/sitemap.ts:13-26 | Every fetched URL lies in any set that holds the start and is closed under child-sitemap links |
| Sitemap.FetchedAreClosed | scripts/ingest/lib/sitemap.ts:20-26 | On success the fetched URLs contain the start and are closed under child-sitemap links, so they are exactly the reachable URLs |
| Sitemap.AsList | scripts/ingest/lib/sitemap.ts:21-23 | Rewriting a scalar child as a one-element list keeps its locs and its presence |
| Sitemap.ListsOnly | scripts/ingest/lib/sitemap.ts:20-34 | The web with every scalar rewritten as a list has the same URLs, child sitemaps and pages |
| Sitemap.RunSameLinks | scripts/ingest/lib/sitemap.ts:13-34 | Two webs with the same URLs, child sitemaps and pages give identical walks |
| Sitemap.ScalarIsSingletonList | scripts/ingest/lib/sitemap.ts:20-34 | A scalar sitemap or url child behaves exactly like a one-element list: same result, same fetches |
| Sitemap.IndexAndUrlsetBoth | scripts/ingest/lib/sitemap.ts:20-34 | A document with both an index and a urlset contributes its pages and has its child fetched; the child's pages follow |
| Sitemap.DuplicatePagesKept | scripts/ingest/lib/sitemap.ts:28-34 | A page listed twice in a urlset appears twice in the result |
| FetchTx.DefaultOptions | scripts/ingest/lib/fetchTx.ts:19-20 | Absent options or absent fields mean 3 attempts and a 1500 ms backoff |
| FetchTx.FetchText | scripts/ingest/lib/fetchTx.ts:15-48 | The counted for loop yields exactly the outcome, request count, sleeps and warnings of the recursive attempt function |
| FetchTx.AttemptStep | scripts/ingest/lib/fetchTx.ts:36-44 | A non-ok attempt moves its request, its sleep (unless last) and its warning from the rest of the loop into the effects so far |
| FetchTx.Snippet | scripts/ingest/lib/fetchTx.ts:36 | The snippet has at most 500 characters. Its only whitespace is single plain spaces, and apart from whitespace it is exactly the first 500 characters of the body |
| FetchTx.SnippetCut | scripts/ingest/lib/fetchTx.ts:36 | Only the first 500 characters of a longer body reach the snippet |
| FetchTx.SnippetRun | scripts/ingest/lib/fetchTx.ts:36 | Within the first 500 characters, a maximal whitespace run becomes exactly one plain space in its place, between the snippets of the text before and after it |
| FetchTx.SnippetOfCleanBody | scripts/ingest/lib/fetchTx.ts:36 | A body of at most 500 characters with nothing to collapse is its own snippet |
| FetchTx.WarningText | scripts/ingest/lib/fetchTx.ts:38-40 | The warning text is never empty; it is `[empty body]` for an empty body and the snippet otherwise |
| FetchTx.AttemptsCount | scripts/ingest/lib/fetchTx.ts:22-47 | From any attempt on, at most the remaining attempts are requested, all of them when the loop gives up. There is one sleep fewer than requests, and one warning per non-ok reply |
| FetchTx.AttemptsReplies | scripts/ingest/lib/fetchTx.ts:22-34 | Every reply before the last request was non-ok. A returned body is the last reply's ok body, and a network failure is the last reply |
| FetchTx.AttemptsSleeps | scripts/ingest/lib/fetchTx.ts:42-44 | The k-th sleep from attempt a on is backoffMs * (a + k) |
| FetchTx.AttemptsWarnings | scripts/ingest/lib/fetchTx.ts:36-40 | The k-th warning from attempt a on carries attempt a + k and that non-ok reply's status and body |
| FetchTx.FetchOutcome | scripts/ingest/lib/fetchTx.ts:19-47 | At most `retries` requests, none when it is <= 0 (then it throws at once). A body is that of the first ok reply after only non-ok ones. A network failure propagates at once. Giving up happens exactly after `retries` non-ok replies |
| FetchTx.AlwaysFailingServer | scripts/ingest/lib/fetchTx.ts:22-47 | If the first `retries` replies are non-ok, exactly that many requests are sent and the call throws naming the count |
| FetchTx.SleepSchedule | scripts/ingest/lib/fetchTx.ts:42-44 | Sleep k (from 0) lasts backoffMs * (k + 1), and there is one sleep fewer than requests: none after the last attempt |
| FetchTx.SleepsIncrease | scripts/ingest/lib/fetchTx.ts:42-44 | With a positive backoff the sleeps strictly increase |
| FetchTx.TotalSleepOnExhaustion | scripts/ingest/lib/fetchTx.ts:42-44 | When every attempt fails, twice the total sleep is backoffMs * retries * (retries - 1) |
| FetchTx.WarningsLogged | scripts/ingest/lib/fetchTx.ts:36-40 | Warning k is logged for attempt k + 1, whose reply was non-ok, with its status and body; a decisive reply logs nothing |
| FetchTx.AttemptsStatusBlind | scripts/ingest/lib/fetchTx.ts:32-45 | From any attempt on, two servers that agree on which replies are ok, non-ok or network failures, and on the ok bodies, give the same outcome, requests and sleeps |
| FetchTx.StatusBlind | scripts/ingest/lib/fetchTx.ts:32-45 | Every non-ok status is retried identically: which status is returned never changes outcome, request count or sleeps |
| Partzilla.IsSnowmobile | scripts/ingest/partzilla.ts:21-23 | A URL is crawled iff it contains both `/catalog/` and `/snowmobile` |
| Partzilla.CrawlList | scripts/ingest/partzilla.ts:26 | The crawl list is an order-preserving sub-list of the expanded URLs; it keeps exactly the snowmobile URLs |
| Partzilla.CrawlListMultiplicity | scripts/ingest/partzilla.ts:26 | A snowmobile URL keeps all its occurrences and any other URL loses all of them |
| Partzilla.CrawlListIdempotent | scripts/ingest/partzilla.ts:26 | Filtering the crawl list again changes nothing |
| Partzilla.CrawlTargets | scripts/ingest/partzilla.ts:19-26 | The queued URLs exist iff the expansion from the catalog root succeeds; they are its snowmobile pages; a failed expansion reports the throwing URL |
| Partzilla.CrawlTargetsArePages | scripts/ingest/partzilla.ts:26 | On success the queued URLs are the snowmobile entries of the fetched documents' urlsets, in expansion order |
| Partzilla.FetchOnce | scripts/ingest/partzilla.ts:9-17 | The local fetch succeeds iff the reply is an ok HTTP response, with its body; a non-ok status throws with that status |
| Partzilla.FetchOnceIsSingleAttempt | scripts/ingest/partzilla.ts:9-17 | The local fetch agrees with the shared retrying fetch run with one attempt: one request, no sleep, the same success and body |
| Home.TrimmedMakes | app/page.tsx:54 | One trimmed make per loaded row, missing data giving none |
| Home.UniqueMakes | app/page.tsx:53-55 | The manufacturer list holds no duplicates and holds exactly the non-blank trimmed makes |
| Home.MakesTrimmed | app/page.tsx:53-55 | Every listed manufacturer is non-empty and its own trim |
| Home.MakesInFirstOccurrenceOrder | app/page.tsx:53-55 | Manufacturers are listed in the order of their first occurrence among the rows |
| Home.InitialMakeBlank | app/page.tsx:58 | The initial make is `''` iff every row's trimmed make is blank |
| Home.InitialMakeIsFirst | app/page.tsx:58 | Otherwise it is the trimmed make of the first row whose make is not blank |
| Home.YearHeading | app/page.tsx:101 | A donor is listed under `—` iff its year is missing or 0; otherwise it is listed under the decimal text of its year |
| Home.YearLabelInjective | app/page.tsx:101-103 | Distinct year buckets have distinct headings, so bucketing by heading string is bucketing by year |
| Home.ModelKeyFacts | app/page.tsx:102 | The model bucket is never empty. It is `—` iff the model is missing, blank or `—` after trimming, and the trimmed model otherwise |
| Home.StrOrder | app/page.tsx:117 | The model comparison is a strict total order (irreflexive, transitive, total); its transitivity and totality are proved by the helpers StrLessTransitive and StrLessTotal |
| Home.Grouped | app/page.tsx:97-120 | The grouping shown when no model bucket is an inherited object property: every year block is headed by the label of its year bucket |
| Home.GroupingThrowsAt | app/page.tsx:99-105 | The grouping loop throws iff some donor's model bucket is an inherited property name of a plain object, and then at the first such donor |
| Home.Grouping | app/page.tsx:97-120 | The memoised grouping fails at exactly that donor, and otherwise yields the Year → Model blocks |
| Home.ConstructorModelThrows | app/page.tsx:101-105 | A donor whose model is `constructor`, with or without surrounding whitespace, makes the grouping throw |
| Home.PaddedModelKey | app/page.tsx:102 | A model typed with whitespace around a name goes to the bucket of that name |
| Home.Groups | app/page.tsx:114-119 | Group i of a block holds model i and exactly the block's donors with that model |
| Home.Blocks | app/page.tsx:114-119 | Block i is the block of year i |
| Home.YearsOrdered | app/page.tsx:108-112 | Year blocks are strictly ordered newest first, each year once, with `—` last |
| Home.ModelsOrdered | app/page.tsx:116-117 | Within a block the model names are distinct and ascending |
| Home.BucketContents | app/page.tsx:100-106 | Each bucket is non-empty and holds exactly the donors of its year and model, in input order |
| Home.GroupContents | app/page.tsx:103-105 | The group of a model used in a year is non-empty, a sub-list of the donors, and holds exactly the donors with that year and model |
| Home.DonorPlaced | app/page.tsx:100-106 | Every donor lies in a bucket, which carries its year and model |
| Home.DonorOnlyInOwnBucket | app/page.tsx:100-106 | A donor found in a bucket has that bucket's year and model, so it is in no other bucket |
| Home.GroupsWeight | app/page.tsx:114-119 | Summing a per-donor weight over a block's groups is summing it per model name |
| Home.BlockWeight | app/page.tsx:218 | A year block carries the total weight of the donors of its year |
| Home.BlocksWeightByYear | app/page.tsx:108-119 | Summing over the blocks is summing per year bucket |
| Home.GroupedPartition | app/page.tsx:100-119 | The buckets partition the donors: any per-donor weight summed over all buckets equals its sum over all donors |
| Home.BucketSizesSum | app/page.tsx:122 | The bucket sizes add up to `totalDonors` |
| Home.BlockCount | app/page.tsx:218 | The donor count under a year heading is the number of donors of that year |
| Home.TotalPartsByBucket | app/page.tsx:123 | The parts counted bucket by bucket add up to `totalParts` |
| Home.TotalPartsAppend | app/page.tsx:123 | `totalParts` adds each donor's count once, a missing count as 0 |
| Inventory.YearText | app/admin/inventory/page.tsx:97 | A donor year contributes text iff it is present and non-zero, and then its decimal text |
| Inventory.DonorFields | app/admin/inventory/page.tsx:96-100 | The donor's year text, make and model, in that order; all three absent for a part without a donor |
| Inventory.FilteredParts | app/admin/inventory/page.tsx:87-119 | The result is an ordered sub-list of the shown rows, all visible when hidden rows are off. A part is in it iff it is loaded, shown by the toggle and its blob contains the needle. A blank query keeps every shown row |
| Inventory.FilteredIsSubsequence | app/admin/inventory/page.tsx:90-118 | The result is an ordered sub-list of all loaded parts |
| Inventory.HiddenOffNarrows | app/admin/inventory/page.tsx:91 | Turning hidden rows off removes exactly the non-visible rows from the result for the same query |
| Inventory.VisibleCountMatches | app/admin/inventory/page.tsx:160 | With a blank query and hidden rows off, the list is exactly as long as the "Visible" counter |
| Inventory.FieldMatchFound | app/admin/inventory/page.tsx:95-117 | A shown part is found when any of its own or its donor's fields contains the needle once lower-cased |
| Inventory.BlankFieldIgnored | app/admin/inventory/page.tsx:104-114 | A null and an empty column leave the same blob |
| Inventory.DonorLabel | app/admin/inventory/page.tsx:202 | The donor cell is never empty |
| Inventory.DonorLabelFull | app/admin/inventory/page.tsx:202 | A donor with a non-zero year, a make and a model is shown as year, make and model joined by single spaces, in that order |
| Inventory.DonorLabelFacts | app/admin/inventory/page.tsx:202 | The donor cell is `—` iff there is no donor or it has no non-zero year and no non-empty make or model; every present donor field appears in it |
| DonorList.NumberText | app/admin/donor/page.tsx:56 | A number contributes text iff it is present, zero included, and then its decimal text |
| DonorList.Filtered | app/admin/donor/page.tsx:52-62 | The result is an ordered sub-list of the rows; a blank query keeps all rows; a row is kept iff its blob contains the needle |
| DonorList.CounterBound | app/admin/donor/page.tsx:97 | The shown count never exceeds the total |
| DonorList.FieldMatchFound | app/admin/donor/page.tsx:55-60 | A row is found when any one of its fields contains the needle once lower-cased |
| DonorList.ZeroIsSearchable | app/admin/donor/page.tsx:56 | A year or mileage of 0 still puts `0` in the blob |
| DonorList.FieldsSeparatedBySpaces | app/admin/donor/page.tsx:56-58 | When no field contains a space, splitting the blob on spaces gives back exactly the present fields |
| PublicParts.QueryOf | app/parts/page.tsx:33 | The query is empty iff the parameter is absent or blank; otherwise it has no surrounding whitespace |
| PublicParts.QueryInfix | app/parts/page.tsx:33 | The query is the parameter's text with only the whitespace around it removed: an infix with nothing but whitespace before and after it |
| PublicParts.Filtered | app/parts/page.tsx:64-74 | The result is an ordered sub-list of the fetched rows; an empty query keeps them all; a row is kept iff its blob contains the lower-cased query |
| PublicParts.PaddingIgnored | app/parts/page.tsx:33 | Whitespace around the parameter does not change the result |
| PublicParts.FieldMatchFound | app/parts/page.tsx:68-73 | A row is found when its title, category or condition contains the query once lower-cased |
| Search.Needle | app/admin/inventory/page.tsx:88 | The needle is empty iff the query is blank, is no longer than the query, and has no upper-case ASCII letter |
| Search.NeedleInfix | app/admin/inventory/page.tsx:88 | The needle is the lower-cased infix of the query left after removing only the whitespace before and after it |
| Search.SearchRows | app/admin/inventory/page.tsx:93-118 | The search result is an ordered sub-list of the rows; a row is kept iff its blob contains the needle; an empty needle keeps all rows |
| Search.SearchMultiplicity | app/admin/donor/page.tsx:55-61 | A matching row keeps all its occurrences and any other row loses all of them |
| Search.SearchShrinks | app/admin/donor/page.tsx:97 | A search never returns more rows than it is given |
| Search.SearchIdempotent | app/admin/donor/page.tsx:55-61 | Searching the result again for the same needle changes nothing |
| Search.FieldHit | app/admin/inventory/page.tsx:104-117 | A field containing the needle after lower-casing makes the whole lower-cased blob contain it |
| NewDonor.PickPhotos | app/admin/donor/new/page.tsx:31-38 | No file list changes nothing. Otherwise the photos become exactly the picked image files, as an ordered sub-list, with preview i made for file i |
| NewDonor.PickedMultiplicity | app/admin/donor/new/page.tsx:35 | Each picked image is kept as often as it was picked; nothing else is kept |
| NewDonor.RemovePhotoAt | app/admin/donor/new/page.tsx:40-46 | An in-range index removes exactly that position from the files and from the previews, keeping the others in order, so one occurrence of that file is lost; an out-of-range index leaves each list unchanged |
| NewDonor.NullIfBlank | app/admin/donor/new/page.tsx:58 | A field is null iff only whitespace was typed; otherwise it is the typed text's trim, non-empty with no surrounding whitespace |
| NewDonor.NullIfBlankInfix | app/admin/donor/new/page.tsx:58 | A stored value is the typed text with only the whitespace before and after it removed |
| NewDonor.NullIfBlankIdempotent | app/admin/donor/new/page.tsx:58-64 | Normalising a normalised value changes nothing |
| NewDonor.NullIfBlankPadded | app/admin/donor/new/page.tsx:58-64 | Whitespace typed around a value is ignored |
| NewDonor.NumberInput | app/admin/donor/new/page.tsx:61-63 | Year and miles are null iff nothing was typed, and otherwise pass on the typed text unchanged |
| NewDonor.FormRow | app/admin/donor/new/page.tsx:57-65 | Each text column of the inserted row is null iff its field is blank, and otherwise holds that field's trimmed text; year and miles are null iff empty, and otherwise hold the typed text |
| NewDonor.ExtensionShape | app/admin/donor/new/page.tsx:77 | The extension is never empty and never contains a dot |
| NewDonor.ExtensionOfSuffix | app/admin/donor/new/page.tsx:77 | A name ending in a dot and a non-empty dot-free suffix has that suffix, lower-cased, as extension |
| NewDonor.ExtensionOfDotless | app/admin/donor/new/page.tsx:77 | A name without a dot is, lower-cased, its own extension |
| NewDonor.ExtensionFallback | app/admin/donor/new/page.tsx:77 | An empty name or one ending in a dot gets `jpg` |
| NewDonor.PhotoNumber | app/admin/donor/new/page.tsx:78 | The photo number is at least two characters, all digits |
| NewDonor.PhotoNumberValue | app/admin/donor/new/page.tsx:78 | The padded photo number reads back as i + 1 |
| NewDonor.NumberedNameInjective | app/admin/donor/new/page.tsx:78 | Equal numbered names have equal photo indices, whatever the extensions |
| NewDonor.StoragePathsDistinct | app/admin/donor/new/page.tsx:78 | Two photos of one donor share a storage path only if they have the same index |
| NewDonor.PhotoPaths | app/admin/donor/new/page.tsx:75-78 | Photo i is stored under `donors/<id>/<id>-<NN>.<ext>` with its own number and extension |
| NewDonor.Plan | app/admin/donor/new/page.tsx:75-102 | The requests for the photos are two per photo and hold no donor insert and no cover update |
| NewDonor.PlanAt | app/admin/donor/new/page.tsx:93-99 | Photo k is uploaded to its own path, and its image row carries that path's public URL and sort order k |
| NewDonor.FirstNonEmpty | app/admin/donor/new/page.tsx:91 | The chosen cover is empty iff every URL is empty, and otherwise one of the URLs |
| NewDonor.FirstNonEmptyIsFirst | app/admin/donor/new/page.tsx:91 | The chosen cover is the first non-empty URL: the one every earlier URL of which is empty |
| NewDonor.Submit | app/admin/donor/new/page.tsx:53-121 | A submission always begins with the donor insert, and a failed insert ends it at once with an error |
| NewDonor.UploadFollowsPlan | app/admin/donor/new/page.tsx:75-102 | The photo loop makes a prefix of the planned requests, all of them when it succeeds |
| NewDonor.UploadStops | app/admin/donor/new/page.tsx:75-102 | The photo loop succeeds only if all its requests succeed, and otherwise stops at the first failing one |
| NewDonor.UploadCover | app/admin/donor/new/page.tsx:73-91 | After a complete loop the cover is the initial one or, if that was empty, the first non-empty public URL |
| NewDonor.AfterInsertOutcome | app/admin/donor/new/page.tsx:72-121 | After the insert, the donor page opens iff no request fails; otherwise the requests stop at the first failure |
| NewDonor.AfterInsertFollowsPlan | app/admin/donor/new/page.tsx:75-102 | After the insert, the requests follow the photo plan in order up to the first failure |
| NewDonor.AfterInsertCover | app/admin/donor/new/page.tsx:104-112 | The cover is saved, last, iff every photo went through and some public URL is non-empty; it is the first such URL |
| NewDonor.SubmitOutcome | app/admin/donor/new/page.tsx:53-121 | The donor page `/admin/donor/<new id>` opens iff no request fails; otherwise the requests stop at the first failing one |
| NewDonor.DonorPage | app/admin/donor/new/page.tsx:115 | The redirect target lies under `/admin/donor/` |
| Strings.Trim | app/admin/inventory/page.tsx:88 | Trimming gives an empty string exactly for blank input, otherwise one without whitespace at either end, never longer than the input |
| Strings.TrimInfix | app/admin/inventory/page.tsx:88 | The trimmed text is an infix of the input with only whitespace before and after it |
| Strings.TrimPadded | app/parts/page.tsx:33 | Whitespace added around a string does not change its trim |
| Strings.TrimOfTrimmed | app/page.tsx:102 | A string with no whitespace at either end is its own trim |
| Strings.Lower | app/admin/inventory/page.tsx:115 | Lower-casing keeps the length and maps each character on its own |
| Strings.LowerKeepsSubstring | app/admin/inventory/page.tsx:115-117 | An occurrence survives lower-casing both strings |
| Strings.Includes | app/admin/inventory/page.tsx:117 | `includes` holds iff the text occurs as a contiguous block |
| Strings.Split | app/admin/donor/new/page.tsx:77 | Splitting always yields at least one piece, and no piece holds the separator |
| Strings.SplitLastPiece | app/admin/donor/new/page.tsx:77 | The last piece is the text after the last separator, or the whole string when there is none |
| Strings.SplitAfterLastSeparator | app/admin/donor/new/page.tsx:77 | Whatever precedes the last separator, the text after it is the last piece |
| Strings.JoinSplit | app/admin/donor/new/page.tsx:77 | Joining the pieces of a split restores the string |
| Strings.PadStart | app/admin/donor/new/page.tsx:78 | Padding reaches the width (or keeps a longer string's length), keeps the string as its suffix and fills the rest with the fill character |
| Strings.ZeroPaddingKeepsValue | app/admin/donor/new/page.tsx:78 | Padding a digit string with zeros keeps its digits and its value |
| Strings.NatToStringRoundTrip | app/admin/donor/new/page.tsx:78 | Reading back the decimal text of n gives n |
| Strings.IntToStringInjective | app/page.tsx:101 | Distinct integers print differently |
| Strings.Present | app/admin/inventory/page.tsx:101 | The kept values are all non-empty, never more than the values given, and are exactly the non-null, non-empty values |
| Strings.PresentAppend | app/admin/inventory/page.tsx:101 | Filtering a concatenation is concatenating the filtered parts, so order and repetitions are kept |
| Strings.PresentSingle | app/admin/inventory/page.tsx:101 | A single value is kept iff it is present and non-empty |
| Strings.PresentIgnoresBlank | app/admin/inventory/page.tsx:113 | A null or empty value can be swapped for another without changing what is kept |
| Strings.JoinPresentFacts | app/admin/inventory/page.tsx:101-102 | The joined text is empty iff no value is present, and every present value occurs in it |
| Strings.JoinPresentThree | app/admin/inventory/page.tsx:101-102 | Three non-empty values are joined in order with single spaces |
| Strings.JoinPresentSplit | app/admin/donor/page.tsx:56-58 | Joining with single spaces and splitting recovers space-free values |
| Strings.CollapseSpaces | scripts/ingest/lib/fetchTx.ts:36 | Collapsing whitespace never lengthens the text, empties only the empty text, and keeps whether it starts with whitespace |
| Strings.CollapseAppend | scripts/ingest/lib/fetchTx.ts:36 | Collapsing a concatenation that does not join two whitespace runs collapses each part on its own |
| Strings.CollapseRun | scripts/ingest/lib/fetchTx.ts:36 | A maximal whitespace run becomes exactly one plain space in its place, between the collapsed text before and after it |
| Strings.CollapseIsCollapsed | scripts/ingest/lib/fetchTx.ts:36 | The collapsed text has single plain spaces only |
| Strings.CollapseKeepsText | scripts/ingest/lib/fetchTx.ts:36 | Collapsing loses and adds no non-whitespace character |
| Strings.CollapseFixpoint | scripts/ingest/lib/fetchTx.ts:36 | Text with nothing to collapse is left unchanged |
| Strings.CollapseIdempotent | scripts/ingest/lib/fetchTx.ts:36 | Collapsing twice is collapsing once |
| Seqs.Filter | scripts/ingest/partzilla.ts:26 | The filtered list is an ordered sub-list holding exactly the elements that satisfy the test |
| Seqs.FilterMultiplicity | scripts/ingest/partzilla.ts:26 | Filtering keeps every occurrence of a passing element and none of a failing one |
| Seqs.FilterIdempotent | scripts/ingest/partzilla.ts:26 | Filtering twice by the same test is filtering once |
| Seqs.FilterCommute | app/admin/inventory/page.tsx:91-118 | Two filters give the same list in either order |
| Seqs.FilterLength | app/admin/inventory/page.tsx:160 | The filtered length is the number of passing elements |
| Seqs.Dedup | app/page.tsx:53-55 | De-duplication keeps each value once, loses none, and orders them by first occurrence |
| Seqs.FilterFirstIndex | app/page.tsx:54 | Filtering keeps the relative order of first occurrences of passing values |
| Seqs.RemoveAt | app/admin/donor/new/page.tsx:44-45 | Filtering out index idx removes exactly that position, or nothing for an out-of-range idx |
| Seqs.Select | app/page.tsx:103-105 | A bucket is the ordered sub-list of exactly the elements with its key |
| Seqs.PartitionSum | app/page.tsx:100-106 | Over distinct keys covering every element, the per-key sums add up to the total |
| Seqs.SumByAppend | app/page.tsx:123 | The sum over a concatenation is the sum of the sums |
| Sorting.SortedKeys | app/page.tsx:108-112 | The sorted key list holds exactly the keys |
| Sorting.SortedKeysSorted | app/page.tsx:108-117 | Under a strict total order the key list is strictly ascending |
| Sorting.InsertSorted | app/page.tsx:108-117 | Inserting into a strictly sorted list keeps it strictly sorted |
| Sorting.SortedUnique | app/page.tsx:108-117 | Two strictly sorted lists with the same elements are equal, so the order fixes the result |

## Left out

- Supabase queries, inserts, uploads and updates are not modelled as calls. The pages' loaded rows are inputs; the new donor form's store is a `Store` parameter giving the new id, which requests fail and each path's public URL. Database filters such as the public parts page's listed-and-in-stock query are database behaviour.
- `fetch`, `res.text()`, the XML parser and `cheerio` are abstracted: a sitemap fetch is a map lookup, and a retrying fetch sees a `server(k)` reply. Request headers and redirects are left out.
- `sleep` and `setTimeout` are left out: the sleeps are returned as a list of durations, not waited.
- Console logging is left out; warnings are returned as values. The text of the thrown errors is left out; an error carries only the attempt count or the failing attempt.
- PQueue rate limiting and the per-URL crawl jobs in the Partzilla script are left out: they are concurrency and timing, and their extraction and upserts exist only as placeholder comments.
- React state, effects, loading flags and rendering are left out, and so are `URL.createObjectURL` and `revokeObjectURL`: object URLs come from an `objectUrl` parameter and revocation is not modelled.
- NewDonor.NumberInput: `Number(year)` and `Number(miles)` are not modelled; the inserted row keeps the typed text, so what `Number` makes of it is left open.
- Home.StrLess: `localeCompare` is replaced by lexicographic code-point order, which ModelsOrdered is stated for; locale collation is left out.
- FetchTx.Snippet: the 500 characters are counted as Unicode characters, whereas `slice(0, 500)` counts UTF-16 code units; a body with characters outside the Basic Multilingual Plane keeps fewer characters in the source.
- FetchTx.FetchText: `retries` and `backoffMs` are taken as integers, whereas the source accepts any `number`. With a fractional `retries` such as 2.5 the source sends 2 requests but also sleeps after the last one, because `2 < 2.5`, so the one-sleep-fewer-than-requests promise of AttemptsCount and SleepSchedule holds for integer options only. NaN and infinite options are left out too.
- Numeric columns are integers: `Inventory.PartRow.quantity`, the donor `year` and `miles` of `DonorList`, and `parts_in_stock`. A fractional quantity, and the `toString` text of a fractional number or of one of 1e21 or more (exponent notation), are left out.
- Strings.Lower: `toLowerCase` is modelled as ASCII lowering only; Unicode case mapping is left out.
- Home.YearKeyOf: year blocks are keyed by the year itself rather than by the string `String(year)`; YearLabelInjective shows the two give the same buckets. Non-integer or non-finite years are out of scope, since years are integers here.
- Home.PartsOf: `parts_in_stock || 0` is modelled for a missing count only; NaN is not a value here.
- NewDonor.Submit: the error message shown after a failure and the loading flag are left out; the outcome records only that an error was shown.
- Dates, prices (`toFixed`), `toLocaleString`, and the pages' other display-only formatting are left out.
- The Supabase client construction (lib/supabase.ts, scripts/ingest/lib/supabaseAdmin.ts) is not part of this model.

## Findings

| source | as written | input that shows it | evidently intended | confidence | as-written member | corrected member |
|---|---|---|---|---|---|---|
| app/page.tsx:98-105 | the buckets are plain object literals, so for a model named like an inherited property the or-assignment of an empty list keeps that property, and `.push(d)` throws a TypeError | one donor with model `constructor` | a prototype-free map, so every model gets its own list | not executed | Home.ConstructorModelThrows | Home.Grouped |
