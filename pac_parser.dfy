/**
  The PAC-file cache of pac-parser.go. A `pacParser` keeps the last PAC file it loaded, the pool
  of parsers built from it, the time of the last refresh, the `Last-Modified` value of the last
  good response and the last refresh error. A refresh happens when the cache is older than the
  TTL. It sends a conditional GET and then, depending on the outcome, keeps, replaces or drops
  the cached file.

  The HTTP client, the clock, the gopac JavaScript engine and logrus are not modelled: a
  refresh receives the current time `now`, a `fetch` function answering the request, and a
  `parse` function saying whether gopac accepts a body. Log lines are returned as values. A
  pool is a token recording the PAC file it was built from.
*/
module PacParser {
  import opened Basics
  import Decimal

  /** A `*sync.Pool` of gopac parsers, all built from `source`. */
  datatype Pool = Pool(source: seq<byte>)

  datatype Severity = Debug | Info | Error

  /** One logrus line. */
  datatype LogEntry = LogEntry(severity: Severity, message: string)

  /** The GET request the refresh sends, with its optional `If-Modified-Since` header. */
  datatype Request = Request(verb: string, uri: string, ifModifiedSince: Option<string>)

  /**
    A response that arrived: its status code, its `last-modified` header ("" when absent,
    as `Header.Get` gives it) and the outcome of `ioutil.ReadAll` on its body.
  */
  datatype Response = Response(status: nat, lastModified: string, body: Result<seq<byte>>)

  /** The outcome of `gopac.Parser.ParseBytes`. */
  datatype ParseOutcome = Parsed | ParseError(message: string)

  /**
    The mutable fields of `pacParser`. Time is in nanoseconds since the Unix epoch, a nil
    `[]byte` is the empty sequence, and an error is its `Error()` text.
  */
  datatype CacheState = CacheState(pool: Option<Pool>, lastUpdateDate: int, content: seq<byte>,
                                   lastModifiedHeader: string, lastError: Option<string>)

  const StatusOK: nat := 200
  const StatusNotModified: nat := 304
  const FallbackPrefix := "An error happened while retrieving PAC file, no proxy will be used : "
  const InvalidStatusPrefix := "invalid status while reading PAC file: "
  const NotModifiedMessage := "PAC file didn't change (HTTP 304), do nothing"
  const SameContentMessage := "PAC file didn't change (same content), do nothing"
  const LoadedMessage := "New PAC file loaded successfully"

  /** The cache invariant: a pool, when there is one, was built from the cached PAC file. */
  predicate PoolMatchesContent(s: CacheState)
  {
    s.pool.Some? ==> s.pool.value.source == s.content
  }

  /** The state `init` leaves: last refresh at the epoch, everything else at its zero value. */
  function Initial(): (s: CacheState)
    ensures s.lastUpdateDate == 0 && s.pool.None? && s.lastModifiedHeader == "" && s.lastError.None?
    ensures PoolMatchesContent(s)
  {
    CacheState(None, 0, [], "", None)
  }

  /** `mustRefresh`: `lastUpdateDate + ttl` is strictly before `now`; at exactly that instant the cache is still fresh. */
  predicate MustRefresh(s: CacheState, ttl: int, now: int): (b: bool)
    ensures now <= s.lastUpdateDate + ttl ==> !b
    ensures now > s.lastUpdateDate + ttl ==> b
  {
    s.lastUpdateDate + ttl < now
  }

  /** The request for the PAC file: conditional exactly when a `Last-Modified` value is remembered. */
  function BuildRequest(uri: string, lastModifiedHeader: string): (r: Request)
    ensures r.verb == "GET" && r.uri == uri
    ensures r.ifModifiedSince.Some? <==> |lastModifiedHeader| > 0
    ensures r.ifModifiedSince.Some? ==> r.ifModifiedSince.value == lastModifiedHeader
  {
    Request("GET", uri, if |lastModifiedHeader| > 0 then Some(lastModifiedHeader) else None)
  }

  /** What one refresh step leaves: the new state, the pool it hands back, and the log lines. */
  datatype Step = Step(state: CacheState, pool: Option<Pool>, log: seq<LogEntry>)

  /**
    `fallbackOnError`: forget the PAC file and record `err`. The line is logged at error
    severity exactly when the error differs from the one already recorded, so a failure that
    repeats is reported once.
  */
  function Fallback(s: CacheState, err: string): (r: Step)
    ensures r.pool.None? && r.state.pool.None?
    ensures r.state.content == [] && r.state.lastModifiedHeader == "" && r.state.lastError == Some(err)
    ensures r.state.lastUpdateDate == s.lastUpdateDate
    ensures |r.log| == 1 && r.log[0].message == FallbackPrefix + err
    ensures r.log[0].severity == Error <==> (s.lastError.None? || s.lastError.value != err)
    ensures r.log[0].severity != Error ==> r.log[0].severity == Debug
  {
    var severity := if s.lastError.None? || s.lastError.value != err then Error else Debug;
    Step(s.(lastError := Some(err), content := [], pool := None, lastModifiedHeader := ""), None,
         [LogEntry(severity, FallbackPrefix + err)])
  }

  /** The part of `refreshPacFile` after the request was sent (lines 72-120), given the outcome of `Do`. */
  function HandleResponse(s: CacheState, outcome: Result<Response>, parse: seq<byte> -> ParseOutcome): (r: Step)
    ensures r.pool == r.state.pool
    ensures r.state.lastUpdateDate == s.lastUpdateDate
  {
    match outcome
    case Err(e) => Fallback(s, e)
    case Ok(resp) =>
      if s.pool.Some? && resp.status == StatusNotModified then
        Step(s.(lastError := None), s.pool, [LogEntry(Debug, NotModifiedMessage)])
      else if resp.status != StatusOK then
        Fallback(s, InvalidStatusPrefix + Decimal.Format(resp.status))
      else
        var s1 := s.(lastModifiedHeader := resp.lastModified);
        match resp.body
        case Err(e) => Fallback(s1, e)
        case Ok(body) =>
          if body == s1.content then
            Step(s1.(lastError := None), s1.pool, [LogEntry(Debug, SameContentMessage)])
          else
            match parse(body)
            case ParseError(e) => Fallback(s1, e)
            case Parsed =>
              Step(s1.(content := body, pool := Some(Pool(body)), lastError := None), Some(Pool(body)),
                   [LogEntry(Info, LoadedMessage)])
  }

  /**
    `refreshPacFile` at time `now`: nothing at all when the cache is fresh; otherwise the request,
    the handling of its outcome, and the deferred `lastUpdateDate = now`. The pool handed back is
    always the pool the cache now holds.
  */
  function Refresh(s: CacheState, ttl: int, uri: string, now: int,
                   fetch: Request -> Result<Response>, parse: seq<byte> -> ParseOutcome): (r: Step)
    ensures r.pool == r.state.pool
  {
    if !MustRefresh(s, ttl, now) then Step(s, s.pool, [])
    else
      var h := HandleResponse(s, fetch(BuildRequest(uri, s.lastModifiedHeader)), parse);
      Step(h.state.(lastUpdateDate := now), h.pool, h.log)
  }

  /** What `findProxy` yields: the new state, the proxy rule (or the evaluator's error) and the log lines. */
  datatype Answer = Answer(state: CacheState, result: Result<string>, log: seq<LogEntry>)

  /**
    `findProxy(url, host)` at time `now`: refresh when stale, then "DIRECT" without a pool, or
    the rule that `evaluate` (gopac's `FindProxy` on a parser of the given PAC file) returns.
  */
  function Lookup(s: CacheState, ttl: int, uri: string, now: int, fetch: Request -> Result<Response>,
                  parse: seq<byte> -> ParseOutcome, evaluate: (seq<byte>, string, string) -> Result<string>,
                  url: string, host: string): (r: Answer)
    ensures r.state.lastUpdateDate == s.lastUpdateDate || r.state.lastUpdateDate == now
  {
    var st := if MustRefresh(s, ttl, now) then Refresh(s, ttl, uri, now, fetch, parse) else Step(s, s.pool, []);
    Answer(st.state, if st.pool.None? then Ok("DIRECT") else evaluate(st.pool.value.source, url, host), st.log)
  }

  /** One `findProxy` call: its time, its arguments, and how the PAC server would answer at that time. */
  datatype Call = Call(now: int, url: string, host: string, fetch: Request -> Result<Response>)

  /** The outcome of a sequence of calls: the final state, each call's answer, and all log lines in order. */
  datatype Trace = Trace(state: CacheState, results: seq<Result<string>>, log: seq<LogEntry>)

  /** The calls in order, each one seeing the state the previous one left. */
  function Run(s: CacheState, ttl: int, uri: string, calls: seq<Call>, parse: seq<byte> -> ParseOutcome,
               evaluate: (seq<byte>, string, string) -> Result<string>): (t: Trace)
    ensures |t.results| == |calls|
    decreases |calls|
  {
    if calls == [] then Trace(s, [], [])
    else
      var a := Lookup(s, ttl, uri, calls[0].now, calls[0].fetch, parse, evaluate, calls[0].url, calls[0].host);
      var rest := Run(a.state, ttl, uri, calls[1..], parse, evaluate);
      Trace(rest.state, [a.result] + rest.results, a.log + rest.log)
  }

  /** The number of error-severity lines in a log. */
  function ErrorCount(log: seq<LogEntry>): (n: nat)
    ensures n <= |log|
  {
    if log == [] then 0 else (if log[0].severity == Error then 1 else 0) + ErrorCount(log[1..])
  }

  lemma {:induction false} ErrorCountAppend(a: seq<LogEntry>, b: seq<LogEntry>)
    ensures ErrorCount(a + b) == ErrorCount(a) + ErrorCount(b)
  {
    if a == [] {
      assert a + b == b;
    } else {
      ErrorCountAppend(a[1..], b);
      assert (a + b)[1..] == a[1..] + b;
    }
  }

  /** The pacParser object; its methods follow the Go code step by step. */
  class PacParserObject {
    var pool: Option<Pool>
    var lastUpdateDate: int
    var currentPacFileContent: seq<byte>
    var lastModifiedHeader: string
    var lastError: Option<string>
    const pacFileURI: string
    const pacFileTTL: int

    function State(): CacheState
      reads this
    {
      CacheState(pool, lastUpdateDate, currentPacFileContent, lastModifiedHeader, lastError)
    }

    ghost predicate Valid()
      reads this
    {
      PoolMatchesContent(State())
    }

    /** `init`: the URI and TTL from the configuration, and a last refresh at the epoch. */
    constructor (uri: string, ttl: int)
      ensures State() == Initial() && pacFileURI == uri && pacFileTTL == ttl
      ensures Valid()
    {
      pool := None;
      lastUpdateDate := 0;
      currentPacFileContent := [];
      lastModifiedHeader := "";
      lastError := None;
      pacFileURI := uri;
      pacFileTTL := ttl;
    }

    method FallbackOnError(err: string) returns (result: Option<Pool>, entry: LogEntry)
      modifies this
      ensures State() == Fallback(old(State()), err).state
      ensures result == Fallback(old(State()), err).pool && [entry] == Fallback(old(State()), err).log
      ensures Valid()
    {
      var severity := if lastError == None || lastError.value != err then Error else Debug;
      entry := LogEntry(severity, FallbackPrefix + err);
      lastError := Some(err);
      currentPacFileContent := [];
      pool := None;
      lastModifiedHeader := "";
      result := None;
    }

    method RefreshPacFile(now: int, fetch: Request -> Result<Response>, parse: seq<byte> -> ParseOutcome)
      returns (result: Option<Pool>, log: seq<LogEntry>)
      requires Valid()
      modifies this
      ensures State() == Refresh(old(State()), pacFileTTL, pacFileURI, now, fetch, parse).state
      ensures result == Refresh(old(State()), pacFileTTL, pacFileURI, now, fetch, parse).pool
      ensures log == Refresh(old(State()), pacFileTTL, pacFileURI, now, fetch, parse).log
      ensures Valid()
    {
      if !MustRefresh(State(), pacFileTTL, now) {
        return pool, [];
      }
      var req := Request("GET", pacFileURI, None);
      if |lastModifiedHeader| > 0 {
        req := req.(ifModifiedSince := Some(lastModifiedHeader));
      }
      var response := fetch(req);
      if response.Err? {
        var entry;
        result, entry := FallbackOnError(response.message);
        log := [entry];
      } else if pool != None && response.value.status == StatusNotModified {
        log := [LogEntry(Debug, NotModifiedMessage)];
        lastError := None;
        result := pool;
      } else if response.value.status != StatusOK {
        var entry;
        result, entry := FallbackOnError(InvalidStatusPrefix + Decimal.Format(response.value.status));
        log := [entry];
      } else {
        lastModifiedHeader := response.value.lastModified;
        var body := response.value.body;
        if body.Err? {
          var entry;
          result, entry := FallbackOnError(body.message);
          log := [entry];
        } else if body.value == currentPacFileContent {
          log := [LogEntry(Debug, SameContentMessage)];
          lastError := None;
          result := pool;
        } else {
          var parsed := parse(body.value);
          if parsed.ParseError? {
            var entry;
            result, entry := FallbackOnError(parsed.message);
            log := [entry];
          } else {
            currentPacFileContent := body.value;
            result := Some(Pool(body.value));
            pool := result;
            lastError := None;
            log := [LogEntry(Info, LoadedMessage)];
          }
        }
      }
      lastUpdateDate := now;
    }

    method FindProxy(url: string, host: string, now: int, fetch: Request -> Result<Response>,
                     parse: seq<byte> -> ParseOutcome, evaluate: (seq<byte>, string, string) -> Result<string>)
      returns (answer: Result<string>, log: seq<LogEntry>)
      requires Valid()
      modifies this
      ensures State() == Lookup(old(State()), pacFileTTL, pacFileURI, now, fetch, parse, evaluate, url, host).state
      ensures answer == Lookup(old(State()), pacFileTTL, pacFileURI, now, fetch, parse, evaluate, url, host).result
      ensures log == Lookup(old(State()), pacFileTTL, pacFileURI, now, fetch, parse, evaluate, url, host).log
      ensures Valid()
    {
      var currentPool := pool;
      log := [];
      if MustRefresh(State(), pacFileTTL, now) {
        currentPool, log := RefreshPacFile(now, fetch, parse);
      }
      if currentPool == None {
        return Ok("DIRECT"), log;
      }
      answer := evaluate(currentPool.value.source, url, host);
    }
  }
}

/** What a refresh and a lookup promise, outcome by outcome, and what a sequence of lookups keeps. */
module PacParserProperties {
  import opened Basics
  import Decimal
  import opened PacParser

  /** A fresh cache is left exactly as it is: no request, no log line, not even a new timestamp. */
  lemma FreshCacheUntouched(s: CacheState, ttl: int, uri: string, now: int,
                            fetch: Request -> Result<Response>, parse: seq<byte> -> ParseOutcome)
    requires !MustRefresh(s, ttl, now)
    ensures Refresh(s, ttl, uri, now, fetch, parse) == Step(s, s.pool, [])
  {
  }

  /** Every refresh that goes ahead records `now` as the last update, whatever its outcome. */
  lemma RefreshStampsNow(s: CacheState, ttl: int, uri: string, now: int,
                         fetch: Request -> Result<Response>, parse: seq<byte> -> ParseOutcome)
    requires MustRefresh(s, ttl, now)
    ensures Refresh(s, ttl, uri, now, fetch, parse).state.lastUpdateDate == now
  {
  }

  /** Staleness only grows with time: a cache that must be refreshed at `now` must be refreshed at any later time. */
  lemma StalenessMonotone(s: CacheState, ttl: int, now: int, later: int)
    requires MustRefresh(s, ttl, now) && now <= later
    ensures MustRefresh(s, ttl, later)
  {
  }

  /** With a non-negative TTL, a cache just refreshed at `now` is fresh at `now`: a second lookup at the same time sends no request. */
  lemma JustRefreshedIsFresh(s: CacheState, ttl: int, uri: string, now: int,
                             fetch: Request -> Result<Response>, parse: seq<byte> -> ParseOutcome)
    requires ttl >= 0 && MustRefresh(s, ttl, now)
    ensures !MustRefresh(Refresh(s, ttl, uri, now, fetch, parse).state, ttl, now)
  {
  }

  /** A transport error drops the cached file. */
  lemma TransportErrorFallsBack(s: CacheState, ttl: int, uri: string, now: int,
                                fetch: Request -> Result<Response>, parse: seq<byte> -> ParseOutcome, e: string)
    requires MustRefresh(s, ttl, now) && fetch(BuildRequest(uri, s.lastModifiedHeader)) == Err(e)
    ensures Refresh(s, ttl, uri, now, fetch, parse).state == Fallback(s, e).state.(lastUpdateDate := now)
    ensures Refresh(s, ttl, uri, now, fetch, parse).log == Fallback(s, e).log
  {
  }

  /** A 304 while a pool exists keeps file, pool and header, and only clears the recorded error. */
  lemma NotModifiedKeepsPool(s: CacheState, ttl: int, uri: string, now: int,
                             fetch: Request -> Result<Response>, parse: seq<byte> -> ParseOutcome, resp: Response)
    requires MustRefresh(s, ttl, now) && fetch(BuildRequest(uri, s.lastModifiedHeader)) == Ok(resp)
    requires s.pool.Some? && resp.status == StatusNotModified
    ensures Refresh(s, ttl, uri, now, fetch, parse) ==
            Step(s.(lastError := None, lastUpdateDate := now), s.pool, [LogEntry(Debug, NotModifiedMessage)])
  {
  }

  /** A 304 with no pool is an invalid status: the refresh falls back. */
  lemma NotModifiedWithoutPool(s: CacheState, ttl: int, uri: string, now: int,
                               fetch: Request -> Result<Response>, parse: seq<byte> -> ParseOutcome, resp: Response)
    requires MustRefresh(s, ttl, now) && fetch(BuildRequest(uri, s.lastModifiedHeader)) == Ok(resp)
    requires s.pool.None? && resp.status == StatusNotModified
    ensures Refresh(s, ttl, uri, now, fetch, parse).state ==
            Fallback(s, InvalidStatusPrefix + "304").state.(lastUpdateDate := now)
    ensures Refresh(s, ttl, uri, now, fetch, parse).log == Fallback(s, InvalidStatusPrefix + "304").log
  {
    assert Decimal.Format(304) == "304";
  }

  /** Any other status than 200 (and than 304 with a pool) falls back with the status in the message. */
  lemma InvalidStatusFallsBack(s: CacheState, ttl: int, uri: string, now: int,
                               fetch: Request -> Result<Response>, parse: seq<byte> -> ParseOutcome, resp: Response)
    requires MustRefresh(s, ttl, now) && fetch(BuildRequest(uri, s.lastModifiedHeader)) == Ok(resp)
    requires resp.status != StatusOK && !(s.pool.Some? && resp.status == StatusNotModified)
    ensures Refresh(s, ttl, uri, now, fetch, parse).state ==
            Fallback(s, InvalidStatusPrefix + Decimal.Format(resp.status)).state.(lastUpdateDate := now)
    ensures Refresh(s, ttl, uri, now, fetch, parse).log ==
            Fallback(s, InvalidStatusPrefix + Decimal.Format(resp.status)).log
  {
  }

  /** A 200 whose body cannot be read falls back; the header it carried is dropped with the rest. */
  lemma BodyReadErrorFallsBack(s: CacheState, ttl: int, uri: string, now: int,
                               fetch: Request -> Result<Response>, parse: seq<byte> -> ParseOutcome, resp: Response)
    requires MustRefresh(s, ttl, now) && fetch(BuildRequest(uri, s.lastModifiedHeader)) == Ok(resp)
    requires resp.status == StatusOK && resp.body.Err?
    ensures Refresh(s, ttl, uri, now, fetch, parse).state == Fallback(s, resp.body.message).state.(lastUpdateDate := now)
    ensures Refresh(s, ttl, uri, now, fetch, parse).log == Fallback(s, resp.body.message).log
  {
  }

  /** A 200 with the bytes already cached keeps file and pool, takes the new header and clears the error. */
  lemma SameContentKeepsPool(s: CacheState, ttl: int, uri: string, now: int,
                             fetch: Request -> Result<Response>, parse: seq<byte> -> ParseOutcome, resp: Response)
    requires MustRefresh(s, ttl, now) && fetch(BuildRequest(uri, s.lastModifiedHeader)) == Ok(resp)
    requires resp.status == StatusOK && resp.body == Ok(s.content)
    ensures Refresh(s, ttl, uri, now, fetch, parse) ==
            Step(s.(lastModifiedHeader := resp.lastModified, lastError := None, lastUpdateDate := now), s.pool,
                 [LogEntry(Debug, SameContentMessage)])
  {
  }

  /** A 200 with new bytes that gopac accepts replaces file and pool and clears the error. */
  lemma NewContentLoaded(s: CacheState, ttl: int, uri: string, now: int,
                         fetch: Request -> Result<Response>, parse: seq<byte> -> ParseOutcome, resp: Response, body: seq<byte>)
    requires MustRefresh(s, ttl, now) && fetch(BuildRequest(uri, s.lastModifiedHeader)) == Ok(resp)
    requires resp.status == StatusOK && resp.body == Ok(body) && body != s.content && parse(body) == Parsed
    ensures Refresh(s, ttl, uri, now, fetch, parse) ==
            Step(CacheState(Some(Pool(body)), now, body, resp.lastModified, None), Some(Pool(body)),
                 [LogEntry(Info, LoadedMessage)])
  {
  }

  /** A 200 with new bytes that gopac rejects falls back with gopac's error. */
  lemma NewContentRejected(s: CacheState, ttl: int, uri: string, now: int,
                           fetch: Request -> Result<Response>, parse: seq<byte> -> ParseOutcome, resp: Response,
                           body: seq<byte>, e: string)
    requires MustRefresh(s, ttl, now) && fetch(BuildRequest(uri, s.lastModifiedHeader)) == Ok(resp)
    requires resp.status == StatusOK && resp.body == Ok(body) && body != s.content && parse(body) == ParseError(e)
    ensures Refresh(s, ttl, uri, now, fetch, parse).state == Fallback(s, e).state.(lastUpdateDate := now)
    ensures Refresh(s, ttl, uri, now, fetch, parse).log == Fallback(s, e).log
  {
  }

  /** Every pool in the cache was built from a PAC file gopac accepted. */
  predicate PoolParsed(s: CacheState, parse: seq<byte> -> ParseOutcome)
  {
    s.pool.Some? ==> parse(s.pool.value.source) == Parsed
  }

  /** A refresh keeps both pool invariants: built from the cached file, and from a file gopac accepted. */
  lemma RefreshKeepsInvariants(s: CacheState, ttl: int, uri: string, now: int,
                               fetch: Request -> Result<Response>, parse: seq<byte> -> ParseOutcome)
    ensures PoolMatchesContent(s) ==> PoolMatchesContent(Refresh(s, ttl, uri, now, fetch, parse).state)
    ensures PoolParsed(s, parse) ==> PoolParsed(Refresh(s, ttl, uri, now, fetch, parse).state, parse)
  {
  }

  /** A lookup on a fresh cache asks the server nothing: its outcome does not depend on `fetch`. */
  lemma FreshLookupIgnoresServer(s: CacheState, ttl: int, uri: string, now: int,
                                 fetch1: Request -> Result<Response>, fetch2: Request -> Result<Response>,
                                 parse: seq<byte> -> ParseOutcome, evaluate: (seq<byte>, string, string) -> Result<string>,
                                 url: string, host: string)
    requires !MustRefresh(s, ttl, now)
    ensures Lookup(s, ttl, uri, now, fetch1, parse, evaluate, url, host) == Lookup(s, ttl, uri, now, fetch2, parse, evaluate, url, host)
    ensures Lookup(s, ttl, uri, now, fetch1, parse, evaluate, url, host).state == s
  {
  }

  /**
    A lookup on a stale cache refreshes: it leaves the state and the log lines `refreshPacFile`
    would, and answers from the pool that refresh keeps. With `FreshLookupIgnoresServer`, a lookup
    consults the server exactly when the cache is stale.
  */
  lemma StaleLookupRefreshes(s: CacheState, ttl: int, uri: string, now: int, fetch: Request -> Result<Response>,
                             parse: seq<byte> -> ParseOutcome, evaluate: (seq<byte>, string, string) -> Result<string>,
                             url: string, host: string)
    requires MustRefresh(s, ttl, now)
    ensures var r := Lookup(s, ttl, uri, now, fetch, parse, evaluate, url, host);
      var f := Refresh(s, ttl, uri, now, fetch, parse);
      r.state == f.state && r.log == f.log &&
      r.result == (if f.pool.None? then Ok("DIRECT") else evaluate(f.pool.value.source, url, host))
  {
  }

  /**
    The answer comes from the cache as the lookup leaves it: "DIRECT" when it holds no pool,
    otherwise the rule the evaluator gives on the cached PAC file.
  */
  lemma LookupUsesCachedFile(s: CacheState, ttl: int, uri: string, now: int, fetch: Request -> Result<Response>,
                             parse: seq<byte> -> ParseOutcome, evaluate: (seq<byte>, string, string) -> Result<string>,
                             url: string, host: string)
    requires PoolMatchesContent(s)
    ensures var r := Lookup(s, ttl, uri, now, fetch, parse, evaluate, url, host);
      PoolMatchesContent(r.state) &&
      (r.state.pool.None? ==> r.result == Ok("DIRECT")) &&
      (r.state.pool.Some? ==> r.result == evaluate(r.state.content, url, host))
  {
    RefreshKeepsInvariants(s, ttl, uri, now, fetch, parse);
  }

  /**
    Right after `init`, a lookup at any time later than the TTL (counted from the epoch) refreshes,
    and its request carries no `If-Modified-Since`.
  */
  lemma FirstLookupFetches(ttl: int, uri: string, now: int, fetch: Request -> Result<Response>,
                           parse: seq<byte> -> ParseOutcome, evaluate: (seq<byte>, string, string) -> Result<string>,
                           url: string, host: string)
    requires ttl < now
    ensures MustRefresh(Initial(), ttl, now)
    ensures Lookup(Initial(), ttl, uri, now, fetch, parse, evaluate, url, host).state ==
            HandleResponse(Initial(), fetch(Request("GET", uri, None)), parse).state.(lastUpdateDate := now)
  {
  }

  /** Both pool invariants hold after any sequence of lookups that starts with them. */
  lemma {:induction false} RunKeepsInvariants(s: CacheState, ttl: int, uri: string, calls: seq<Call>,
                                              parse: seq<byte> -> ParseOutcome,
                                              evaluate: (seq<byte>, string, string) -> Result<string>)
    requires PoolMatchesContent(s) && PoolParsed(s, parse)
    ensures PoolMatchesContent(Run(s, ttl, uri, calls, parse, evaluate).state)
    ensures PoolParsed(Run(s, ttl, uri, calls, parse, evaluate).state, parse)
    decreases |calls|
  {
    if calls != [] {
      var c := calls[0];
      if MustRefresh(s, ttl, c.now) {
        RefreshKeepsInvariants(s, ttl, uri, c.now, c.fetch, parse);
      }
      var a := Lookup(s, ttl, uri, c.now, c.fetch, parse, evaluate, c.url, c.host);
      RunKeepsInvariants(a.state, ttl, uri, calls[1..], parse, evaluate);
    }
  }

  /**
    A lookup sequence in which gopac accepts none of the PAC files the server actually delivers
    (a 200 with a readable body) starts and stays without a pool, so every lookup answers DIRECT.
    This covers an unreachable server and one that only ever sends errors.
  */
  lemma {:induction false} NeverParsedAlwaysDirect(s: CacheState, ttl: int, uri: string, calls: seq<Call>,
                                                   parse: seq<byte> -> ParseOutcome,
                                                   evaluate: (seq<byte>, string, string) -> Result<string>)
    requires s.pool.None?
    requires forall i, r, resp :: 0 <= i < |calls| && calls[i].fetch(r) == Ok(resp) && resp.status == StatusOK && resp.body.Ok?
               ==> parse(resp.body.value).ParseError?
    ensures Run(s, ttl, uri, calls, parse, evaluate).state.pool.None?
    ensures forall i :: 0 <= i < |calls| ==> Run(s, ttl, uri, calls, parse, evaluate).results[i] == Ok("DIRECT")
    decreases |calls|
  {
    if calls != [] {
      var c := calls[0];
      var a := Lookup(s, ttl, uri, c.now, c.fetch, parse, evaluate, c.url, c.host);
      if MustRefresh(s, ttl, c.now) {
        var outcome := c.fetch(BuildRequest(uri, s.lastModifiedHeader));
        if outcome.Ok? && outcome.value.status == StatusOK && outcome.value.body.Ok? {
          assert parse(outcome.value.body.value).ParseError?;
        }
      }
      assert a.state.pool.None? && a.result == Ok("DIRECT");
      forall i, r, resp | 0 <= i < |calls[1..]| && calls[1..][i].fetch(r) == Ok(resp) && resp.status == StatusOK && resp.body.Ok?
        ensures parse(resp.body.value).ParseError?
      {
        assert calls[1..][i] == calls[i + 1];
      }
      NeverParsedAlwaysDirect(a.state, ttl, uri, calls[1..], parse, evaluate);
      var t := Run(s, ttl, uri, calls, parse, evaluate);
      forall i | 0 <= i < |calls|
        ensures t.results[i] == Ok("DIRECT")
      {
        if i > 0 {
          assert t.results[i] == Run(a.state, ttl, uri, calls[1..], parse, evaluate).results[i - 1];
        }
      }
    }
  }

  /**
    While the server keeps failing with the same error, the failure is logged at error severity
    at most once, and not at all when that error was already the recorded one.
  */
  lemma {:induction false} RepeatedFailureLoggedOnce(s: CacheState, ttl: int, uri: string, calls: seq<Call>,
                                                     parse: seq<byte> -> ParseOutcome,
                                                     evaluate: (seq<byte>, string, string) -> Result<string>, e: string)
    requires forall i, r :: 0 <= i < |calls| ==> calls[i].fetch(r) == Err(e)
    ensures ErrorCount(Run(s, ttl, uri, calls, parse, evaluate).log) <= if s.lastError == Some(e) then 0 else 1
    decreases |calls|
  {
    if calls != [] {
      var c := calls[0];
      var a := Lookup(s, ttl, uri, c.now, c.fetch, parse, evaluate, c.url, c.host);
      var rest := Run(a.state, ttl, uri, calls[1..], parse, evaluate);
      assert forall i, r :: 0 <= i < |calls[1..]| ==> calls[1..][i].fetch(r) == Err(e) by {
        forall i, r | 0 <= i < |calls[1..]|
          ensures calls[1..][i].fetch(r) == Err(e)
        {
          assert calls[1..][i] == calls[i + 1];
        }
      }
      RepeatedFailureLoggedOnce(a.state, ttl, uri, calls[1..], parse, evaluate, e);
      ErrorCountAppend(a.log, rest.log);
      if MustRefresh(s, ttl, c.now) {
        assert c.fetch(BuildRequest(uri, s.lastModifiedHeader)) == Err(e);
        assert a.state.lastError == Some(e);
        assert ErrorCount(a.log) == (if s.lastError == Some(e) then 0 else 1);
      } else {
        assert a.log == [] && a.state == s;
      }
    }
  }
}
