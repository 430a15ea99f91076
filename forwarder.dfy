/**
  The decisions of forwarder.go: which proxy scheme a directive names, which of the three relays
  `forward` uses for a rule, and when a CONNECT answer ends the tunnel attempt. The relays
  themselves (dialing, HTTP serialisation, the two copying goroutines) are not modelled.
*/
module Forwarder {
  import opened Basics
  import Decimal
  import opened RuleParser
  import opened RuleParserProperties

  /** `computeProxyProtocol`: the URL scheme for a proxy directive, or the error for an unknown one. */
  function ComputeProxyProtocol(directive: string): (r: Result<string>)
    ensures r.Ok? <==> directive == "PROXY" || directive == "HTTP"
    ensures r.Ok? ==> r.value == "http"
    ensures r.Err? ==> r.message == directive + " is not a supported proxy protocol"
  {
    if directive == "PROXY" || directive == "HTTP" then Ok("http")
    else Err(directive + " is not a supported proxy protocol")
  }

  /** The `url.URL{Scheme, Host}` handed to the proxy relays. */
  datatype ProxyURL = ProxyURL(scheme: string, host: string)

  /** The relay `forward` hands the connection to. */
  datatype Mode =
    | Direct                    // forwardDirect: dial the destination itself
    | Rewrite(proxy: ProxyURL)  // forwardHTTPviaProxy: relay requests in absolute form through the proxy
    | Tunnel(proxy: ProxyURL)   // forwardTunnel: open an HTTP CONNECT tunnel through the proxy

  /**
    What `forward` does before any relay starts: pick a mode, return an error, or panic. The panic
    is Go's index out of range on `parts[1]` when the pattern did not match and `parts` is nil.
  */
  datatype Decision = Forward(mode: Mode) | Fail(message: string) | Panic

  /** Group 3 of the match, or "" when the optional group did not take part (Go's FindStringSubmatch gives ""). */
  function HostOrEmpty(m: RuleMatch): string
  {
    if m.host.Some? then m.host.value else ""
  }

  /**
    The mode selection of `forward` for the rule string `rule`, the configuration's tunnel flag and
    `resolved`, the outcome of `net.ResolveTCPAddr` on the destination (its port, or its error).
    The resolution is only consulted when tunnelling is off.
  */
  function SelectMode(rule: string, tunnel: bool, resolved: Result<int>): (d: Decision)
    ensures d == Panic <==> MatchRule(rule).None?
    ensures d.Forward? && !d.mode.Direct? ==>
              MatchRule(rule).value.directive in {"PROXY", "HTTP"} && d.mode.proxy.scheme == "http"
    ensures d.Forward? && d.mode.Rewrite? ==> !tunnel && resolved == Ok(80)
    ensures d.Fail? && tunnel ==> d == Fail(MatchRule(rule).value.directive + " is not a supported proxy protocol")
  {
    match MatchRule(rule)
    case None => Panic
    case Some(m) =>
      if |m.directive| == 0 || m.directive == "DIRECT" then Forward(Direct)
      else
        match ComputeProxyProtocol(m.directive)
        case Err(e) => Fail(e)
        case Ok(scheme) =>
          var proxy := ProxyURL(scheme, HostOrEmpty(m));
          if scheme == "http" && !tunnel then
            match resolved
            case Err(e) => Fail(e)
            case Ok(port) => if port == 80 then Forward(Rewrite(proxy)) else Forward(Tunnel(proxy))
          else Forward(Tunnel(proxy))
  }

  /** A rule that does not start with a capital letter makes `forward` panic; every other rule gets a decision. */
  lemma PanicIff(rule: string, tunnel: bool, resolved: Result<int>)
    ensures SelectMode(rule, tunnel, resolved) == Panic <==> rule == [] || !IsUpper(rule[0])
  {
    MatchRuleLeftmostFirst(rule);
  }

  /**
    Direct forwarding is chosen exactly when the directive is DIRECT; the `len(parts[1]) == 0`
    alternative never fires, because a match always has at least one capital.
  */
  lemma DirectIff(rule: string, tunnel: bool, resolved: Result<int>)
    ensures SelectMode(rule, tunnel, resolved) == Forward(Direct)
        <==> MatchRule(rule).Some? && MatchRule(rule).value.directive == "DIRECT"
    ensures MatchRule(rule).Some? ==> |MatchRule(rule).value.directive| != 0
  {
    MatchRuleLeftmostFirst(rule);
  }

  /** Any directive other than DIRECT, PROXY and HTTP (FOO, or the D of "Direct") is refused with its name in the error. */
  lemma UnsupportedDirective(rule: string, tunnel: bool, resolved: Result<int>)
    requires MatchRule(rule).Some?
    requires MatchRule(rule).value.directive !in {"DIRECT", "PROXY", "HTTP"}
    ensures SelectMode(rule, tunnel, resolved)
         == Fail(MatchRule(rule).value.directive + " is not a supported proxy protocol")
  {
    MatchRuleLeftmostFirst(rule);
  }

  /**
    Rewrite mode is chosen exactly when the directive is PROXY or HTTP, tunnelling is off and the
    destination resolves to port 80; the proxy is then `http://` plus group 3, or an empty host
    when the rule gave none.
  */
  lemma RewriteIff(rule: string, tunnel: bool, resolved: Result<int>, proxy: ProxyURL)
    ensures SelectMode(rule, tunnel, resolved) == Forward(Rewrite(proxy))
        <==> && MatchRule(rule).Some?
             && MatchRule(rule).value.directive in {"PROXY", "HTTP"}
             && !tunnel && resolved == Ok(80)
             && proxy == ProxyURL("http", HostOrEmpty(MatchRule(rule).value))
  {
    MatchRuleLeftmostFirst(rule);
  }

  /**
    Tunnel mode is chosen for a PROXY or HTTP directive whenever tunnelling is on, or the
    destination resolves to a port other than 80.
  */
  lemma TunnelWhen(rule: string, tunnel: bool, resolved: Result<int>)
    requires MatchRule(rule).Some? && MatchRule(rule).value.directive in {"PROXY", "HTTP"}
    requires tunnel || (resolved.Ok? && resolved.value != 80)
    ensures SelectMode(rule, tunnel, resolved)
         == Forward(Tunnel(ProxyURL("http", HostOrEmpty(MatchRule(rule).value))))
  {
    MatchRuleLeftmostFirst(rule);
  }

  /** With tunnelling on, the destination is never resolved: the decision is the same whatever the resolver would say. */
  lemma TunnelNeverResolves(rule: string, r1: Result<int>, r2: Result<int>)
    ensures SelectMode(rule, true, r1) == SelectMode(rule, true, r2)
  {
  }

  /** A resolution error surfaces only for a PROXY or HTTP directive with tunnelling off. */
  lemma ResolveErrorIff(rule: string, tunnel: bool, e: string)
    requires MatchRule(rule).Some? && MatchRule(rule).value.directive in {"PROXY", "HTTP"}
    ensures SelectMode(rule, tunnel, Err(e)) == Fail(e) <==> !tunnel
  {
    MatchRuleLeftmostFirst(rule);
  }

  /** The proxy a relay is given holds no `;`, and when the rule named one it ends in `:` and one to five digits. */
  lemma ProxyHostShape(rule: string, tunnel: bool, resolved: Result<int>)
    requires SelectMode(rule, tunnel, resolved).Forward?
    requires !SelectMode(rule, tunnel, resolved).mode.Direct?
    ensures var p := SelectMode(rule, tunnel, resolved).mode.proxy;
            && p.scheme == "http"
            && ';' !in p.host
            && (p.host == "" || exists k :: PortSuffix(p.host, k))
  {
    var m := MatchRule(rule).value;
    if m.host.Some? {
      HostShape(rule, m);
    }
  }

  /** With a rule `PROXY 10.0.0.5:3128`, port 80 without tunnelling is relayed by rewriting; port 443 is tunnelled. */
  lemma ExampleScenarios(rule: string, d: string, h: string, p: string)
    requires d == "PROXY" && h == "10.0.0.5" && p == "3128" && rule == d + " " + h + ":" + p
    ensures SelectMode(rule, false, Ok(80)) == Forward(Rewrite(ProxyURL("http", h + ":" + p)))
    ensures SelectMode(rule, false, Ok(443)) == Forward(Tunnel(ProxyURL("http", h + ":" + p)))
    ensures SelectMode(rule, true, Ok(80)) == Forward(Tunnel(ProxyURL("http", h + ":" + p)))
  {
    assert forall i :: 0 <= i < |d| ==> IsUpper(d[i]);
    assert ';' !in h;
    assert Decimal.AllDigits(p);
    MatchProxyRule(d, h, p, "");
    assert rule + "" == rule;
  }

  /** The status-line check of `forwardTunnel`: only 200 opens the tunnel; anything else is this error. */
  function ConnectStatusError(status: nat): (r: Option<string>)
    ensures r.None? <==> status == 200
    ensures r.Some? ==> r.value == StatusErrorPrefix + Decimal.Format(status)
  {
    if status != 200 then Some(StatusErrorPrefix + Decimal.Format(status)) else None
  }

  const StatusErrorPrefix: string := "proxy returned status: "

  /** The refusal names the status: it can be read back out of the error text. */
  lemma ConnectStatusRecoverable(status: nat)
    requires status != 200
    ensures var e := ConnectStatusError(status).value;
            && |StatusErrorPrefix| < |e|
            && e[..|StatusErrorPrefix|] == StatusErrorPrefix
            && Decimal.AllDigits(e[|StatusErrorPrefix|..])
            && Decimal.Parse(e[|StatusErrorPrefix|..]) == status
  {
    var e := ConnectStatusError(status).value;
    assert e[|StatusErrorPrefix|..] == Decimal.Format(status);
    Decimal.ParseFormat(status);
  }
}
