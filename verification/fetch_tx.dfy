/** `fetchText` (scripts/ingest/lib/fetchTx.ts): up to `retries` GET requests
    with a linear backoff, returning the body of the first `ok` response and
    throwing once the attempts are used up.

    The origin server is a parameter: `server(k)` is what the `k`-th request
    (counting from 0) yields. Sleeps and diagnostics are returned as values
    instead of being performed. */
module FetchTx {
  import opened Wrappers
  import opened Strings

  /** What one `fetch(url)` + `res.text()` yields: a status and body, or a
      rejected promise (DNS failure, reset connection, …). */
  datatype Reply = Http(status: int, body: string) | NetworkError

  /** `Response.ok`: a status in the range 200–299. */
  predicate IsOk(status: int) {
    200 <= status <= 299
  }

  /** A reply the loop answers with another attempt: any non-ok HTTP status.
      No status is treated differently from another. */
  predicate Retryable(r: Reply) {
    r.Http? && !IsOk(r.status)
  }

  /** The optional `{ retries, backoffMs }` argument. */
  datatype Options = Options(retries: Option<int>, backoffMs: Option<int>)

  const DefaultRetries: int := 3
  const DefaultBackoffMs: int := 1500
  const SnippetLength: nat := 500

  /** `opts?.retries ?? 3` */
  function RetriesOf(opts: Option<Options>): int {
    match opts
    case None => DefaultRetries
    case Some(o) => o.retries.GetOr(DefaultRetries)
  }

  /** `opts?.backoffMs ?? 1500` */
  function BackoffOf(opts: Option<Options>): int {
    match opts
    case None => DefaultBackoffMs
    case Some(o) => o.backoffMs.GetOr(DefaultBackoffMs)
  }

  /** Why `fetchText` threw: every attempt answered non-ok (the message names
      the attempt count), or a request itself failed, which the loop does not
      catch. */
  datatype FetchError = Exhausted(retries: int) | Network(attempt: nat)

  /** The warning logged for a non-ok attempt: its number, the status, and
      the response body whose `Snippet` the warning prints. */
  datatype Warning = Warning(attempt: nat, status: int, body: string)

  /** The effects of one call: the outcome, how many requests were sent, the
      sleeps requested in order (milliseconds), and the warnings logged. */
  datatype Trace = Trace(result: Result<string, FetchError>, requests: nat, sleeps: seq<int>, warnings: seq<Warning>)

  /** `text.slice(0, 500).replace(/\s+/g, " ")`: at most 500 characters, with
      whitespace runs collapsed to one space and nothing else changed. */
  function Snippet(body: string): (r: string)
    ensures |r| <= SnippetLength
    ensures IsCollapsed(r)
    ensures RemoveSpaces(r) == RemoveSpaces(if |body| <= SnippetLength then body else body[..SnippetLength])
  {
    var cut := if |body| <= SnippetLength then body else body[..SnippetLength];
    CollapseKeepsText(cut);
    CollapseIsCollapsed(cut);
    CollapseSpaces(cut)
  }

  /** A short body with no whitespace run to collapse is its own snippet. */
  lemma SnippetOfCleanBody(body: string)
    requires |body| <= SnippetLength && IsCollapsed(body)
    ensures Snippet(body) == body
  {
    CollapseFixpoint(body);
  }

  /** Only the first 500 characters of the body matter. */
  lemma SnippetCut(body: string)
    requires |body| > SnippetLength
    ensures Snippet(body) == Snippet(body[..SnippetLength])
  {
  }

  /** Within the first 500 characters, a maximal whitespace run becomes one
      plain space in its place, between the snippets of the text around it. */
  lemma SnippetRun(x: string, w: string, y: string)
    requires |x| + |w| + |y| <= SnippetLength
    requires w != [] && AllSpace(w)
    requires x == [] || !IsSpace(x[|x| - 1])
    requires y == [] || !IsSpace(y[0])
    ensures Snippet(x + w + y) == Snippet(x) + " " + Snippet(y)
  {
    assert Snippet(x) == CollapseSpaces(x) && Snippet(y) == CollapseSpaces(y);
    assert Snippet(x + w + y) == CollapseSpaces(x + w + y);
    CollapseRun(x, w, y);
  }

  /** `snippet || "[empty body]"`: the text a warning prints, which falls
      back to `[empty body]` exactly for an empty body. */
  function WarningText(w: Warning): (r: string)
    ensures r != []
    ensures w.body == [] ==> r == "[empty body]"
    ensures w.body != [] ==> r == Snippet(w.body)
  {
    var snippet := Snippet(w.body);
    if snippet == [] then "[empty body]" else snippet
  }

  /** The number of attempts from `attempt` up to `retries` inclusive. */
  function Left(retries: int, attempt: nat): nat {
    if attempt <= retries then retries - attempt + 1 else 0
  }

  /** `if (attempt < retries) await sleep(backoffMs * attempt)`: no sleep
      after the final attempt. */
  function Pause(retries: int, backoffMs: int, attempt: nat): seq<int> {
    if attempt < retries then [backoffMs * attempt] else []
  }

  /** The effects of the first `requests` attempts followed by those of the
      rest of the loop. */
  function Prepend(requests: nat, sleeps: seq<int>, warnings: seq<Warning>, rest: Trace): Trace {
    Trace(rest.result, requests + rest.requests, sleeps + rest.sleeps, warnings + rest.warnings)
  }

  /** Attempts `attempt`, `attempt + 1`, … `retries` of the loop. A non-ok
      attempt logs a warning and, unless it is the last, sleeps
      `backoffMs * attempt` before the next; the loop falling through throws. */
  function Attempts(retries: int, backoffMs: int, server: nat -> Reply, attempt: nat): Trace
    requires attempt >= 1
    decreases Left(retries, attempt)
  {
    if attempt > retries then Trace(Failure(Exhausted(retries)), 0, [], [])
    else
      match server(attempt - 1)
      case NetworkError => Trace(Failure(Network(attempt)), 1, [], [])
      case Http(status, body) =>
        if IsOk(status) then Trace(Success(body), 1, [], [])
        else
          Prepend(1, Pause(retries, backoffMs, attempt), [Warning(attempt, status, body)],
                  Attempts(retries, backoffMs, server, attempt + 1))
  }

  /** `fetchText(url, opts)` as a function of the server's replies. */
  function FetchRun(opts: Option<Options>, server: nat -> Reply): Trace {
    Attempts(RetriesOf(opts), BackoffOf(opts), server, 1)
  }

  /** One non-ok attempt of the loop moves its request, its sleep and its
      warning from the rest of the loop to the effects so far. */
  lemma AttemptStep(retries: int, backoffMs: int, server: nat -> Reply, attempt: nat, sleeps: seq<int>, warnings: seq<Warning>)
    requires 1 <= attempt <= retries && Retryable(server(attempt - 1))
    ensures var r := server(attempt - 1);
      Prepend(attempt - 1, sleeps, warnings, Attempts(retries, backoffMs, server, attempt))
      == Prepend(attempt, sleeps + Pause(retries, backoffMs, attempt), warnings + [Warning(attempt, r.status, r.body)],
                 Attempts(retries, backoffMs, server, attempt + 1))
  {
    var r := server(attempt - 1);
    var pause := Pause(retries, backoffMs, attempt);
    var w := Warning(attempt, r.status, r.body);
    var rest := Attempts(retries, backoffMs, server, attempt + 1);
    assert Attempts(retries, backoffMs, server, attempt) == Prepend(1, pause, [w], rest);
    assert (sleeps + pause) + rest.sleeps == sleeps + (pause + rest.sleeps);
    assert (warnings + [w]) + rest.warnings == warnings + ([w] + rest.warnings);
  }

  /** `fetchText` as written: a counted `for` loop. Its effects are those of
      `FetchRun`. */
  method FetchText(opts: Option<Options>, server: nat -> Reply) returns (t: Trace)
    ensures t == FetchRun(opts, server)
  {
    var retries := RetriesOf(opts);
    var backoffMs := BackoffOf(opts);
    var sleeps: seq<int> := [];
    var warnings: seq<Warning> := [];
    var attempt: nat := 1;
    ghost var goal := Attempts(retries, backoffMs, server, 1);
    assert goal == Prepend(0, [], [], goal);
    while attempt <= retries
      invariant attempt >= 1
      invariant goal == Prepend(attempt - 1, sleeps, warnings, Attempts(retries, backoffMs, server, attempt))
      decreases Left(retries, attempt)
    {
      var reply := server(attempt - 1);
      if reply.NetworkError? {
        return Prepend(attempt - 1, sleeps, warnings, Trace(Failure(Network(attempt)), 1, [], []));
      }
      if IsOk(reply.status) {
        return Prepend(attempt - 1, sleeps, warnings, Trace(Success(reply.body), 1, [], []));
      }
      AttemptStep(retries, backoffMs, server, attempt, sleeps, warnings);
      var pause := if attempt < retries then [backoffMs * attempt] else [];
      warnings := warnings + [Warning(attempt, reply.status, reply.body)];
      sleeps := sleeps + pause;
      attempt := attempt + 1;
    }
    return Prepend(attempt - 1, sleeps, warnings, Trace(Failure(Exhausted(retries)), 0, [], []));
  }

  // ---------------------------------------------------------------------
  // What the loop guarantees

  /** The loop ran out of attempts (as opposed to returning a body or
      propagating a network failure). */
  predicate GaveUp(t: Trace) {
    t.result.Failure? && t.result.error.Exhausted?
  }

  /** `r` is an ok response carrying `body`. */
  predicate OkWith(r: Reply, body: string) {
    r.Http? && IsOk(r.status) && r.body == body
  }

  /** Every request from index `lo` up to (not including) `hi` got a
      retryable reply. */
  ghost predicate AllRetryable(server: nat -> Reply, lo: nat, hi: int) {
    forall k: nat :: lo <= k < hi ==> Retryable(server(k))
  }

  /** How many requests and sleeps the loop makes from `attempt` on. */
  lemma {:induction false} AttemptsCount(retries: int, backoffMs: int, server: nat -> Reply, attempt: nat)
    requires attempt >= 1
    ensures var t := Attempts(retries, backoffMs, server, attempt);
      && t.requests <= Left(retries, attempt)
      && (GaveUp(t) ==> t.requests == Left(retries, attempt) && t.result.error.retries == retries)
      && (!GaveUp(t) ==> t.requests >= 1)
      && |t.sleeps| == (if t.requests == 0 then 0 else t.requests - 1)
      && |t.warnings| == (if GaveUp(t) then t.requests else t.requests - 1)
    decreases Left(retries, attempt)
  {
    if attempt <= retries && Retryable(server(attempt - 1)) {
      AttemptsCount(retries, backoffMs, server, attempt + 1);
    }
  }

  /** Which replies the loop saw from `attempt` on: non-ok ones up to the
      last request, whose reply decides the outcome. */
  lemma {:induction false} AttemptsReplies(retries: int, backoffMs: int, server: nat -> Reply, attempt: nat)
    requires attempt >= 1
    ensures var t := Attempts(retries, backoffMs, server, attempt);
      && AllRetryable(server, attempt - 1, attempt - 1 + t.requests - (if GaveUp(t) then 0 else 1))
      && (t.result.Success? ==> t.requests >= 1 && OkWith(server(attempt - 2 + t.requests), t.result.value))
      && (t.result.Failure? && t.result.error.Network? ==>
            t.requests >= 1 && server(attempt - 2 + t.requests).NetworkError? && t.result.error.attempt == attempt - 1 + t.requests)
    decreases Left(retries, attempt)
  {
    if attempt <= retries && Retryable(server(attempt - 1)) {
      AttemptsReplies(retries, backoffMs, server, attempt + 1);
    }
  }

  /** The sleeps from `attempt` on grow linearly with the attempt number. */
  lemma {:induction false} AttemptsSleeps(retries: int, backoffMs: int, server: nat -> Reply, attempt: nat)
    requires attempt >= 1
    ensures var s := Attempts(retries, backoffMs, server, attempt).sleeps;
      forall k :: 0 <= k < |s| ==> s[k] == backoffMs * (attempt + k)
    decreases Left(retries, attempt)
  {
    var s := Attempts(retries, backoffMs, server, attempt).sleeps;
    if attempt <= retries && Retryable(server(attempt - 1)) {
      var next: nat := attempt + 1;
      AttemptsSleeps(retries, backoffMs, server, next);
      assert forall m :: 0 <= m < |Attempts(retries, backoffMs, server, next).sleeps| ==>
        Attempts(retries, backoffMs, server, next).sleeps[m] == backoffMs * (next + m);
      var rest := Attempts(retries, backoffMs, server, next).sleeps;
      if attempt < retries {
        assert s == [backoffMs * attempt] + rest;
        forall k | 1 <= k < |s|
          ensures s[k] == backoffMs * (attempt + k)
        {
          assert s[k] == rest[k - 1] == backoffMs * (next + (k - 1));
        }
      } else {
        assert s == rest == [];
      }
    } else {
      assert s == [];
    }
  }

  /** `ws[k]` is the warning for attempt `first + k`, whose reply was non-ok. */
  ghost predicate LoggedAt(ws: seq<Warning>, server: nat -> Reply, first: nat, k: int)
    requires first >= 1 && 0 <= k < |ws|
  {
    var r := server(first - 1 + k);
    Retryable(r) && ws[k] == Warning(first + k, r.status, r.body)
  }

  ghost predicate WarningsFrom(ws: seq<Warning>, server: nat -> Reply, first: nat)
    requires first >= 1
  {
    forall k :: 0 <= k < |ws| ==> LoggedAt(ws, server, first, k)
  }

  /** The warnings from `attempt` on: one per non-ok reply, in order. */
  lemma {:induction false} AttemptsWarnings(retries: int, backoffMs: int, server: nat -> Reply, attempt: nat)
    requires attempt >= 1
    ensures WarningsFrom(Attempts(retries, backoffMs, server, attempt).warnings, server, attempt)
    decreases Left(retries, attempt)
  {
    if attempt <= retries && Retryable(server(attempt - 1)) {
      AttemptsWarnings(retries, backoffMs, server, attempt + 1);
      var ws := Attempts(retries, backoffMs, server, attempt).warnings;
      var rest := Attempts(retries, backoffMs, server, attempt + 1).warnings;
      var r := server(attempt - 1);
      assert ws == [Warning(attempt, r.status, r.body)] + rest;
      forall k | 1 <= k < |ws|
        ensures LoggedAt(ws, server, attempt, k)
      {
        assert ws[k] == rest[k - 1];
        assert LoggedAt(rest, server, attempt + 1, k - 1);
      }
      assert LoggedAt(ws, server, attempt, 0);
    }
  }

  /** The outcome of `fetchText` is decided by the first reply that is not a
      non-ok status: at most `retries` requests are sent (none when `retries`
      is zero or negative); the body of the first ok response is returned
      and nothing more is requested; a network failure propagates at once;
      and the error naming the attempt count is thrown only after exactly
      `retries` non-ok replies. */
  lemma FetchOutcome(opts: Option<Options>, server: nat -> Reply)
    ensures var t := FetchRun(opts, server); var n := RetriesOf(opts);
      && t.requests <= (if n > 0 then n else 0)
      && (n <= 0 ==> t.requests == 0 && t.result == Failure(Exhausted(n)))
      && (t.result.Success? ==>
            t.requests >= 1 && OkWith(server(t.requests - 1), t.result.value) && AllRetryable(server, 0, t.requests - 1))
      && (t.result.Failure? && t.result.error.Network? ==>
            t.requests >= 1 && server(t.requests - 1).NetworkError? && AllRetryable(server, 0, t.requests - 1))
      && (GaveUp(t) ==> t.requests == (if n > 0 then n else 0) && t.result.error.retries == n && AllRetryable(server, 0, n))
  {
    AttemptsCount(RetriesOf(opts), BackoffOf(opts), server, 1);
    AttemptsReplies(RetriesOf(opts), BackoffOf(opts), server, 1);
  }

  /** A server whose first `retries` replies are all non-ok makes
      `fetchText` send exactly that many requests and throw. */
  lemma AlwaysFailingServer(opts: Option<Options>, server: nat -> Reply)
    requires AllRetryable(server, 0, RetriesOf(opts))
    ensures var t := FetchRun(opts, server);
      && t.result == Failure(Exhausted(RetriesOf(opts)))
      && t.requests == Left(RetriesOf(opts), 1)
  {
    FetchOutcome(opts, server);
    AttemptsCount(RetriesOf(opts), BackoffOf(opts), server, 1);
  }

  /** The sleep after failed attempt `k` is `backoffMs * k`, and there is
      none after the final attempt or after a decisive reply: one sleep
      fewer than the requests sent. */
  lemma SleepSchedule(opts: Option<Options>, server: nat -> Reply)
    ensures var t := FetchRun(opts, server);
      && |t.sleeps| == (if t.requests == 0 then 0 else t.requests - 1)
      && forall k :: 0 <= k < |t.sleeps| ==> t.sleeps[k] == BackoffOf(opts) * (k + 1)
  {
    AttemptsCount(RetriesOf(opts), BackoffOf(opts), server, 1);
    AttemptsSleeps(RetriesOf(opts), BackoffOf(opts), server, 1);
  }

  /** With a positive backoff the sleeps strictly increase. */
  lemma SleepsIncrease(opts: Option<Options>, server: nat -> Reply)
    requires BackoffOf(opts) > 0
    ensures var s := FetchRun(opts, server).sleeps;
      forall i, j :: 0 <= i < j < |s| ==> s[i] < s[j]
  {
    SleepSchedule(opts, server);
    var s := FetchRun(opts, server).sleeps;
    var b := BackoffOf(opts);
    forall i, j | 0 <= i < j < |s|
      ensures s[i] < s[j]
    {
      MultiplyMonotone(b, i + 1, j + 1);
    }
  }

  lemma MultiplyMonotone(b: int, x: int, y: int)
    requires b > 0 && x < y
    ensures b * x < b * y
  {
    assert b * y - b * x == b * (y - x);
  }

  /** The sum of a list of sleeps. */
  function Total(xs: seq<int>): int {
    if xs == [] then 0 else Total(xs[..|xs| - 1]) + xs[|xs| - 1]
  }

  /** The sum of `b * 1, …, b * n`, doubled, is `b * n * (n + 1)`. */
  lemma {:induction false} LinearSeriesTotal(xs: seq<int>, b: int)
    requires forall k :: 0 <= k < |xs| ==> xs[k] == b * (k + 1)
    ensures 2 * Total(xs) == b * |xs| * (|xs| + 1)
  {
    if xs != [] {
      var n := |xs|;
      LinearSeriesTotal(xs[..n - 1], b);
      assert b * (n - 1) * n + 2 * (b * n) == b * n * (n + 1);
    }
  }

  /** When every attempt fails the loop sleeps `backoffMs * retries *
      (retries - 1) / 2` milliseconds in total (stated doubled, so without
      division). */
  lemma TotalSleepOnExhaustion(opts: Option<Options>, server: nat -> Reply)
    requires RetriesOf(opts) > 0
    requires AllRetryable(server, 0, RetriesOf(opts))
    ensures var n := RetriesOf(opts);
      2 * Total(FetchRun(opts, server).sleeps) == BackoffOf(opts) * n * (n - 1)
  {
    AlwaysFailingServer(opts, server);
    SleepSchedule(opts, server);
    LinearSeriesTotal(FetchRun(opts, server).sleeps, BackoffOf(opts));
  }

  /** Each non-ok attempt logs its attempt number, status and body (printed
      as its `WarningText`); a decisive reply logs nothing. */
  lemma WarningsLogged(opts: Option<Options>, server: nat -> Reply)
    ensures var t := FetchRun(opts, server);
      && |t.warnings| == (if GaveUp(t) then t.requests else t.requests - 1)
      && forall k :: 0 <= k < |t.warnings| ==>
           Retryable(server(k)) && t.warnings[k] == Warning(k + 1, server(k).status, server(k).body)
  {
    AttemptsCount(RetriesOf(opts), BackoffOf(opts), server, 1);
    AttemptsWarnings(RetriesOf(opts), BackoffOf(opts), server, 1);
    var ws := FetchRun(opts, server).warnings;
    forall k | 0 <= k < |ws|
      ensures Retryable(server(k)) && ws[k] == Warning(k + 1, server(k).status, server(k).body)
    {
      assert LoggedAt(ws, server, 1, k);
    }
  }

  /** Two servers that agree on which replies are network failures, which
      are non-ok, and what the ok bodies are. Non-ok statuses and bodies may
      differ freely. */
  ghost predicate SameVerdicts(s1: nat -> Reply, s2: nat -> Reply) {
    forall k: nat ::
      && (s1(k).NetworkError? <==> s2(k).NetworkError?)
      && (Retryable(s1(k)) <==> Retryable(s2(k)))
      && (s1(k).Http? && IsOk(s1(k).status) ==> OkWith(s2(k), s1(k).body))
  }

  lemma {:induction false} AttemptsStatusBlind(retries: int, backoffMs: int, s1: nat -> Reply, s2: nat -> Reply, attempt: nat)
    requires attempt >= 1
    requires SameVerdicts(s1, s2)
    ensures var t1, t2 := Attempts(retries, backoffMs, s1, attempt), Attempts(retries, backoffMs, s2, attempt);
      t1.result == t2.result && t1.requests == t2.requests && t1.sleeps == t2.sleeps
    decreases Left(retries, attempt)
  {
    if attempt <= retries {
      var r1, r2 := s1(attempt - 1), s2(attempt - 1);
      assert (r1.NetworkError? <==> r2.NetworkError?) && (Retryable(r1) <==> Retryable(r2));
      assert r1.Http? && IsOk(r1.status) ==> OkWith(r2, r1.body);
      if Retryable(r1) {
        AttemptsStatusBlind(retries, backoffMs, s1, s2, attempt + 1);
      }
    }
  }

  /** Every non-ok status is retried identically: 403, 404, 429 and 503 lead
      to the same outcome, request count and sleeps. */
  lemma StatusBlind(opts: Option<Options>, s1: nat -> Reply, s2: nat -> Reply)
    requires SameVerdicts(s1, s2)
    ensures FetchRun(opts, s1).result == FetchRun(opts, s2).result
    ensures FetchRun(opts, s1).requests == FetchRun(opts, s2).requests
    ensures FetchRun(opts, s1).sleeps == FetchRun(opts, s2).sleeps
  {
    AttemptsStatusBlind(RetriesOf(opts), BackoffOf(opts), s1, s2, 1);
  }

  /** Absent options, or options whose fields are absent, mean three
      attempts with a 1500 ms backoff. */
  lemma DefaultOptions(server: nat -> Reply)
    ensures FetchRun(None, server) == Attempts(3, 1500, server, 1)
    ensures FetchRun(Some(Options(None, None)), server) == FetchRun(None, server)
  {
  }
}
