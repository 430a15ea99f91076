# pac-transparent-proxy, modelled in Dafny

pac-transparent-proxy is a transparent TCP proxy. The kernel redirects outgoing connections to
it. It recovers each connection's original destination, asks a PAC (proxy auto-config) script
which upstream proxy to use, and then relays the bytes in one of three modes:
- directly to the destination;
- by rewriting plain HTTP requests for the upstream proxy;
- through an HTTP CONNECT tunnel.

This project models the decision-making core of that program and proves its properties.

- `basics.dfy` (`Basics`): bytes, `Option`, `Result`.
- `decimal.dfy` (`Decimal`): Go's `%d` rendering of a natural number (`Format`). It has an inverse (`Parse`) and a round-trip proof.
- `pac_parser.dfy` (`PacParser`, `PacParserProperties`): the PAC cache of `pac-parser.go`.
  - `PacParserObject` is a class with the fields of `pacParser`. Its methods `FallbackOnError`, `RefreshPacFile` and `FindProxy` update those fields step by step, as the Go methods do.
  - Each method is proved to leave the state, and return the values, given by the pure transition functions `Fallback`, `Refresh` and `Lookup`. `Run` chains `Lookup` over a sequence of calls.
  - The properties are lemmas about those functions: one per outcome of a refresh, the invariants on the pool, and properties of runs of many lookups.
- `rule_parser.dfy` (`RuleParser`, `RuleParserProperties`): a hand-written matcher for the pattern `^([A-Z]+)(\s+([^\;]+\:[0-9]{1,5}))?;?` under Go's leftmost-first submatch semantics. `MatchRuleLeftmostFirst` proves it equal to a declarative description:
  - the directive is the longest capital prefix;
  - the host group is the first way of matching the group in the backtracking order, compared against every other way it could match.
- `forwarder.dfy` (`Forwarder`): the decisions of `forwarder.go`:
  - `computeProxyProtocol`;
  - how `forward` picks a relay, fails, or panics;
  - the CONNECT status check of `forwardTunnel`.
- `original_dst.dfy` (`OriginalDst`): `getDestinationHost` and its two per-family readers.
  - The kernel leaves the `SO_ORIGINAL_DST` result in a 112-byte buffer. The model reads the address bytes and the big-endian port from it.
  - IPv4 addresses are rendered in dotted decimal, with `ParseIPv4` as the proved inverse.

External effects are parameters:
- The PAC server's answer is a function `fetch` from the request to a response or a transport error.
- gopac's parse verdict is a function `parse` on the body bytes.
- gopac's evaluation is a function `evaluate` from (PAC file, url, host) to a rule string or an error.
- The clock is an integer `now`, in nanoseconds since the Unix epoch, read once per call.
- The kernel query is a function from (level, option) to a buffer or an errno text.
- `net.SplitHostPort`, the IPv4 test of `net.ParseIP(..).To4()` and `net.ResolveTCPAddr` are given outcomes.
- `net.IP.String` on sixteen bytes is also given.

Log lines are returned as values with their severity. Errors are represented by their `Error()` text, because the Go code compares errors by that text.

The model follows the code in these places, where a reader might expect otherwise:
- **PROXY or HTTP without a host.** Such a directive is not rejected. The code builds a proxy URL with an empty host (`RewriteIff`, `TunnelWhen`).
- **304 with no cached pool.** It is not "cache retained". With no pool, a 304 is an invalid status and the cache falls back (`NotModifiedWithoutPool`).
- **304 with a pool.** The recorded error is cleared (`NotModifiedKeepsPool`).
- **When the request is conditional.** It carries `If-Modified-Since` whenever a non-empty `Last-Modified` value is remembered. That value is taken from every 200 response, even one whose body is then dropped, and cleared by every fallback.
- **A rule with no leading capital letter.** `FindStringSubmatch` then gives nil, and indexing `parts[1]` panics. It does not select DIRECT (`PanicIff`).

## Model

| member | source | states |
|---|---|---|
| Decimal.Format | pac-parser.go:87 | `%d` renders a natural number as at least one digit, with no leading zero unless the number is zero |
| Decimal.ParseFormat | pac-parser.go:87 | the decimal text reads back as the number it renders |
| Decimal.FormatInjective | forwarder.go:134 | distinct numbers render differently |
| RuleParser.ChooseHostPathFirst | forwarder.go:13 | the host group the matcher picks is the first way the group can match, in the backtracking order (most whitespace, rightmost colon, most digits); with no such way, the optional group is absent |
| RuleParser.ChooseHostPath | forwarder.go:13 | when a host group is chosen, the text it captures (from the end of the kept whitespace through the colon and its digits) lies within the rule after the directive |
| RuleParser.MatchRule | forwarder.go:41 | `FindStringSubmatch`: no match exactly when the rule is empty or starts with a non-capital; a directive is a non-empty prefix of the rule |
| RuleParser.MatchRuleLeftmostFirst | forwarder.go:13 | no match exactly when the rule is empty or starts with a non-capital; the directive is the longest capital prefix; the host is absent iff group 2 cannot match, and otherwise it is the text of the first way it matches |
| RuleParserProperties.FirstDirectiveOnly | forwarder.go:13 | only the first `;`-separated part influences the match |
| RuleParserProperties.MatchProxyRule | forwarder.go:13 | `D host:port` with capitals D, a `;`-free host not starting with whitespace and 1-5 digits, followed by nothing or `;…`, gives directive D and host `host:port` |
| RuleParserProperties.HostShape | forwarder.go:13 | a captured host holds no `;` and ends in `:` and 1-5 digits |
| RuleParserProperties.MatchBareDirective | forwarder.go:13 | a capital word followed by nothing, or by a character that is neither a capital nor whitespace (such as `;`), gives that directive with no host |
| RuleParserProperties.ExampleProxy | forwarder.go:13 | `PROXY 10.0.0.1:8080` gives PROXY with host `10.0.0.1:8080` |
| RuleParserProperties.ExampleFirstDirective | forwarder.go:41 | `PROXY 10.0.0.1:8080;DIRECT` gives PROXY with host `10.0.0.1:8080`; the DIRECT fallback is not looked at |
| RuleParserProperties.ExampleBareDirectives | forwarder.go:13 | `DIRECT` and `PROXY` give themselves without a host; `Direct` gives directive `D` |
| RuleParserProperties.ExampleNoMatch | forwarder.go:41 | `direct` and the empty rule do not match |
| RuleParserProperties.ExampleSpaceGivenBack | forwarder.go:13 | in `PROXY  :80`, the whitespace run gives one blank back, so the host is ` :80` |
| Forwarder.ComputeProxyProtocol | forwarder.go:31-38 | scheme `http` exactly for PROXY and HTTP; any other directive gets the error naming it |
| Forwarder.SelectMode | forwarder.go:40-66 | `forward` panics exactly when the rule does not match; any proxy mode has scheme `http` and a PROXY or HTTP directive; rewrite mode only without tunnelling and for port 80; with tunnelling on, the only failure is the unsupported-protocol error |
| Forwarder.PanicIff | forwarder.go:41-42 | `forward` panics exactly when the rule is empty or starts with a non-capital |
| Forwarder.DirectIff | forwarder.go:42-45 | direct forwarding exactly when the directive is DIRECT; the empty-directive test is unreachable |
| Forwarder.UnsupportedDirective | forwarder.go:46-49 | a directive other than DIRECT, PROXY and HTTP ends `forward` with the unsupported-protocol error |
| Forwarder.RewriteIff | forwarder.go:50-62 | rewrite mode exactly for PROXY or HTTP, tunnelling off, and a destination on port 80; the proxy is `http` with group 3 (or an empty host) |
| Forwarder.TunnelWhen | forwarder.go:55-65 | PROXY or HTTP with tunnelling on, or with a destination port other than 80, goes through the tunnel |
| Forwarder.TunnelNeverResolves | forwarder.go:55-56 | with tunnelling on, the resolver's answer does not influence the decision |
| Forwarder.ResolveErrorIff | forwarder.go:55-59 | for PROXY or HTTP, a resolution error is returned exactly when tunnelling is off |
| Forwarder.ProxyHostShape | forwarder.go:50-53 | the proxy handed to a relay has scheme `http` and a host with no `;` that is empty or ends in `:` and 1-5 digits |
| Forwarder.ExampleScenarios | forwarder.go:40-66 | for `PROXY 10.0.0.5:3128`: port 80 without tunnelling is rewritten; port 443, or tunnelling on, is tunnelled |
| Forwarder.ConnectStatusError | forwarder.go:133-134 | a CONNECT answer is accepted exactly when its status is 200; otherwise the error is `proxy returned status: ` and the status |
| Forwarder.ConnectStatusRecoverable | forwarder.go:134 | the status can be read back out of the error text |
| OriginalDst.PortOf | original-dst.go:48-49 | the port is the big-endian value of bytes 2 and 3, below 65536 |
| OriginalDst.PortRoundTrip | original-dst.go:48-49 | a port stored big-endian is read back unchanged |
| OriginalDst.PortBytesOfPort | original-dst.go:64-65 | the decoded port stores back to exactly bytes 2 and 3 |
| OriginalDst.FormatIPv4 | original-dst.go:50 | the dotted-decimal text splits at its dots into the four bytes' decimal numbers |
| OriginalDst.ParseFormatIPv4 | original-dst.go:50 | dotted decimal of four bytes parses back to those bytes |
| OriginalDst.FormatIPv4Injective | original-dst.go:50 | distinct IPv4 addresses get distinct texts |
| OriginalDst.DecodeIPv4 | original-dst.go:46-50 | the IPv4 reading of the buffer succeeds; its port is the big-endian value of bytes 2 and 3, and its host is canonical dotted decimal: splitting it at the dots gives exactly the `%d` numerals of bytes 4 to 7 |
| OriginalDst.DecodeIPv4Exact | original-dst.go:46-50 | two buffers give the same IPv4 destination iff their port bytes and their four address bytes (bytes 2 to 7) agree |
| OriginalDst.DecodeIPv4ReadsBack | original-dst.go:47-50 | the host text of the IPv4 reading parses back to bytes 4 to 7 |
| OriginalDst.DecodeIPv6 | original-dst.go:62-66 | the IPv6 reading of the buffer succeeds; the port is the big-endian value of bytes 2-3 and the host is the rendering of bytes 8-23 |
| OriginalDst.DecodeIPv6Exact | original-dst.go:62-66 | the IPv6 destination depends only on the port bytes and the sixteen address bytes 8 to 23 |
| OriginalDst.DecodeIPv6Port | original-dst.go:64-66 | two buffers give the same IPv6 port iff their bytes 2 and 3 agree |
| OriginalDst.QueryIPv4 | original-dst.go:37-51 | a failed IPv4 query gives ("", 0, err); otherwise the port is that of the buffer, the host parses back to its bytes 4 to 7, and splitting the host at the dots gives exactly the `%d` numerals of those bytes (no leading zeros) |
| OriginalDst.QueryIPv6 | original-dst.go:53-67 | a failed IPv6 query gives ("", 0, err); otherwise the port is that of the buffer and the host is the rendering of its bytes 8 to 23 |
| OriginalDst.GetDestinationHost | original-dst.go:13-28 | any failure gives ("", 0, err); a `conn.File` or `SplitHostPort` failure gives its own error; otherwise the result is the IPv4 query's when the local address is IPv4, and the IPv6 query's when it is not; a success has a port below 65536 |
| OriginalDst.FamilyBranch | original-dst.go:24-27 | an IPv4 local address consults only the IPv4 query, any other only the IPv6 query |
| OriginalDst.QueryFailure | original-dst.go:40-43 | a failed socket-option query of the chosen family gives ("", 0, err) |
| OriginalDst.ExampleIPv4 | original-dst.go:46-50 | address bytes 203.0.113.9 and port bytes 0x01 0xBB decode to ("203.0.113.9", 443) |
| OriginalDst.ExampleResolver | original-dst.go:13-50 | with an IPv4 local address and that buffer from the IPv4 query, the resolver returns ("203.0.113.9", 443) and no error |
| PacParser.Initial | pac-parser.go:131-132 | the last refresh is at the epoch (0), with no pool, header or error, so the pool invariant holds |
| PacParser.MustRefresh | pac-parser.go:36-38 | stale exactly when `now` is strictly after `lastUpdateDate + ttl`; at that very instant the cache is still fresh |
| PacParser.BuildRequest | pac-parser.go:62-70 | a GET to the configured URI, carrying `If-Modified-Since` exactly when the remembered header is non-empty, with that header as its value |
| PacParser.Fallback | pac-parser.go:40-51 | no pool (returned or kept), no content, no header, the new error recorded, the timestamp untouched; one line, at error severity exactly when the recorded error was absent or had a different text, else at debug severity |
| PacParser.HandleResponse | pac-parser.go:72-120 | the pool handed back is the pool kept, and the timestamp is not touched before the deferred stamp |
| PacParser.Refresh | pac-parser.go:54-60 | the pool handed back is always the pool the cache holds afterwards |
| PacParser.Lookup | pac-parser.go:141-145 | the timestamp either stays or becomes `now` |
| PacParser.PacParserObject.constructor | pac-parser.go:131-139 | the initial state, the configured URI and TTL, and the invariant |
| PacParser.PacParserObject.FallbackOnError | pac-parser.go:40-51 | the fields and the returned pool and log line are those of `Fallback` |
| PacParser.PacParserObject.RefreshPacFile | pac-parser.go:54-121 | the fields, the returned pool and the log lines are those of `Refresh`; the pool invariant is kept |
| PacParser.PacParserObject.FindProxy | pac-parser.go:141-153 | the fields, the answer and the log lines are those of `Lookup`; the pool invariant is kept |
| PacParserProperties.FreshCacheUntouched | pac-parser.go:56-58 | a cache that is not stale is left exactly as is, timestamp included, with no log line |
| PacParserProperties.RefreshStampsNow | pac-parser.go:60 | every refresh that goes ahead sets the last update to `now`, whatever the outcome |
| PacParserProperties.StalenessMonotone | pac-parser.go:36-38 | a cache stale at some time is stale at every later time |
| PacParserProperties.JustRefreshedIsFresh | pac-parser.go:56-60 | with a non-negative TTL, a cache just refreshed at `now` is fresh at `now` |
| PacParserProperties.TransportErrorFallsBack | pac-parser.go:71-75 | a transport error falls back with that error |
| PacParserProperties.NotModifiedKeepsPool | pac-parser.go:79-83 | a 304 with a pool keeps content, pool and header, clears the error, and logs at debug |
| PacParserProperties.NotModifiedWithoutPool | pac-parser.go:79-87 | a 304 without a pool falls back with `invalid status while reading PAC file: 304` |
| PacParserProperties.InvalidStatusFallsBack | pac-parser.go:86-88 | any other non-200 status falls back with the status in the message |
| PacParserProperties.BodyReadErrorFallsBack | pac-parser.go:89-95 | a 200 whose body fails to read falls back, and the header just taken is cleared again |
| PacParserProperties.SameContentKeepsPool | pac-parser.go:89-102 | a 200 with the cached bytes keeps content and pool, takes the new `last-modified` header, and clears the error |
| PacParserProperties.NewContentLoaded | pac-parser.go:104-120 | a 200 with new bytes that parse: content and pool come from those bytes, the header is the response's, the error is cleared, one info line |
| PacParserProperties.NewContentRejected | pac-parser.go:104-108 | a 200 with new bytes that do not parse falls back with the parse error |
| PacParserProperties.RefreshKeepsInvariants | pac-parser.go:109-117 | a refresh keeps "the pool was built from the cached content" and "the pool was built from bytes that parse" |
| PacParserProperties.FreshLookupIgnoresServer | pac-parser.go:142-145 | a lookup on a fresh cache neither consults the server nor changes the state |
| PacParserProperties.StaleLookupRefreshes | pac-parser.go:141-152 | a lookup on a stale cache leaves the state and log lines of a refresh, and answers DIRECT or the evaluator's rule from the pool that refresh keeps; with the lemma above, the server is consulted exactly when the cache is stale |
| PacParserProperties.LookupUsesCachedFile | pac-parser.go:146-152 | a lookup answers DIRECT when no pool remains, and otherwise evaluates the cached PAC file |
| PacParserProperties.FirstLookupFetches | pac-parser.go:132 | after `init`, a lookup later than the TTL counted from the epoch refreshes, with an unconditional request |
| PacParserProperties.RunKeepsInvariants | pac-parser.go:141-145 | both pool invariants hold after any sequence of lookups |
| PacParserProperties.NeverParsedAlwaysDirect | pac-parser.go:146-149 | when gopac accepts none of the bodies the server delivers with status 200 (including a server that is never reachable), a cache without a pool keeps none and answers DIRECT to every lookup in a sequence |
| PacParserProperties.RepeatedFailureLoggedOnce | pac-parser.go:42-46 | while the server keeps failing with one error, at most one error-severity line is logged, and none if that error was already recorded |

## Left out

- Request coalescing (`singleflight.Group`) and parser pooling (`sync.Pool`) are concurrency mechanisms. A refresh is a plain sequential step, and a pool is a token naming the PAC file its parsers come from. Pointer identity of pools is not modelled.
- gopac's parsing and `FindProxy` evaluation run a JavaScript engine. They are the parameters `parse` and `evaluate`.
- `http.Client` with its file transport and timeout is the parameter `fetch`. Reading the body is part of the given response.
- PacParser.Lookup: `findProxy` and `refreshPacFile` each call `time.Now()`, and the deferred stamp calls it again. The model uses one reading `now` per call, so it does not capture the clock moving between the two staleness checks.
- PacParser.MustRefresh: `time.Time.Add` saturation and monotonic-clock details are not modelled. Time is an unbounded integer.
- HTTP status codes are natural numbers.
- logrus output is returned as a list of lines instead of being written.
- `init`: only the timestamp, URI and TTL are modelled. The HTTP transport it builds is not.
- `forwardDirect`, `forwardHTTPviaProxy` and `duplex`/`pipe` are not modelled: dialing, the request-rewriting loop over buffered reads and writes, and the two goroutines copying bytes. The same goes for the dial, the request write and the response read in `forwardTunnel`. Only its status check is modelled.
- Forwarder.SelectMode: `net.ResolveTCPAddr` is given as its outcome (a port or an error).
- Forwarder.SelectMode: a panic is the value `Panic`, not a process crash.
- OriginalDst.GetDestinationHost: `conn.File`, `net.SplitHostPort` and the IPv4 test `net.ParseIP(..).To4() != nil` are given as outcomes. The deferred `file.Close` is not modelled; its result is discarded.
- OriginalDst.QueryIPv4: the `Syscall6` call and the `unsafe` pointer casts become a function from (level, option) to the buffer contents or the errno text. The buffer length the kernel reports is not modelled.
- OriginalDst.DecodeIPv6: `net.IP.String` on sixteen bytes (the compressed notation of RFC 5952) is a parameter. The model states only which bytes it is applied to.
- The command-line and configuration handling (`cli.go`) and the listener with its accept loop (`transproxy.go`) are not part of this model.
