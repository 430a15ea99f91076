/**
  The rule-string pattern of forwarder.go, `^([A-Z]+)(\s+([^\;]+\:[0-9]{1,5}))?;?`, written as a hand
  parser with Go's leftmost-first submatch semantics: among all ways the pattern can match, the groups
  are those of the way a backtracking engine tries first.

  `[A-Z]+` is greedy and everything after it may match the empty string, so its first choice, the whole
  leading run of capitals, always succeeds: group 1 is that run. The optional group is greedy too, so
  it matches whenever some way through `\s+([^\;]+\:[0-9]{1,5})` exists, and then takes the way
  tried first: most spaces, then the longest `[^;]+` (the rightmost colon), then most digits.
*/
module RuleParser {
  import opened Basics
  import Decimal

  /** `[A-Z]` */
  predicate IsUpper(c: char)
  {
    'A' <= c <= 'Z'
  }

  /** RE2's `\s`, which is `[\t\n\f\r ]`. */
  predicate IsSpace(c: char)
  {
    c == ' ' || c == '\t' || c == '\n' || c == '\U{C}' || c == '\r'
  }

  /** `[^\;]`; Go compiles patterns with the flag that lets a negated class match a newline. */
  predicate NotSemicolon(c: char)
  {
    c != ';'
  }

  /** The end of the run of characters satisfying `p` that starts at `i` (its properties: SpanMaximal). */
  function Span(s: string, i: nat, p: char -> bool): (j: nat)
    requires i <= |s|
    ensures i <= j <= |s|
    decreases |s| - i
  {
    if i < |s| && p(s[i]) then Span(s, i + 1, p) else i
  }

  /** Span ends the longest run: every character before it satisfies `p`, the one at it does not. */
  lemma {:induction false} SpanMaximal(s: string, i: nat, p: char -> bool)
    requires i <= |s|
    ensures forall k :: i <= k < Span(s, i, p) ==> p(s[k])
    ensures Span(s, i, p) == |s| || !p(s[Span(s, i, p)])
    decreases |s| - i
  {
    if i < |s| && p(s[i]) {
      SpanMaximal(s, i + 1, p);
    }
  }

  /** A colon at `c` that `\:[0-9]{1,5}` can match from. */
  predicate PortColonAt(s: string, c: nat)
  {
    c + 1 < |s| && s[c] == ':' && Decimal.IsDigit(s[c + 1])
  }

  /** The rightmost port colon in `[lo, hi)`. */
  function LastPortColon(s: string, lo: nat, hi: nat): (r: Option<nat>)
    requires hi <= |s|
    ensures r.Some? ==> lo <= r.value < hi && PortColonAt(s, r.value)
    ensures r.Some? ==> forall c :: r.value < c < hi ==> !PortColonAt(s, c)
    ensures r.None? ==> forall c :: lo <= c < hi ==> !PortColonAt(s, c)
    decreases hi
  {
    if hi <= lo then None
    else if PortColonAt(s, hi - 1) then Some(hi - 1)
    else LastPortColon(s, lo, hi - 1)
  }

  /**
    One way through `\s+([^\;]+\:[0-9]{1,5})` from position `at`: `spaces` characters for `\s+`, the
    colon at `colon` (so `[^;]+` covers `[at + spaces, colon)`), and `digits` characters for `[0-9]{1,5}`.
  */
  datatype Path = Path(spaces: nat, colon: nat, digits: nat)

  ghost predicate HostPath(s: string, at: nat, p: Path)
  {
    && 1 <= p.spaces && at + p.spaces < p.colon
    && 1 <= p.digits <= 5 && p.colon + 1 + p.digits <= |s|
    && (forall i :: at <= i < at + p.spaces ==> IsSpace(s[i]))
    && (forall i :: at + p.spaces <= i < p.colon ==> s[i] != ';')
    && s[p.colon] == ':'
    && (forall i :: p.colon < i <= p.colon + p.digits ==> Decimal.IsDigit(s[i]))
  }

  /** A backtracking engine tries `p` before `q`: greedy quantifiers try longer runs first, leftmost first. */
  predicate TriedBefore(p: Path, q: Path)
  {
    || p.spaces > q.spaces
    || (p.spaces == q.spaces && p.colon > q.colon)
    || (p.spaces == q.spaces && p.colon == q.colon && p.digits > q.digits)
  }

  /** `p` is the way through the group that leftmost-first matching picks. */
  ghost predicate FirstHostPath(s: string, at: nat, p: Path)
  {
    HostPath(s, at, p) && forall q :: HostPath(s, at, q) && q != p ==> TriedBefore(p, q)
  }

  /** Every way through the group keeps its colon inside the first `;`-free stretch, after two positions. */
  lemma PathColonBounds(s: string, at: nat, q: Path)
    requires at <= |s| && HostPath(s, at, q)
    ensures at + 2 <= q.colon < Span(s, at, NotSemicolon) && PortColonAt(s, q.colon)
    ensures q.spaces <= Span(s, at, IsSpace) - at
  {
    SpanMaximal(s, at, NotSemicolon);
    SpanMaximal(s, at, IsSpace);
  }

  /** The way through `\s+([^\;]+\:[0-9]{1,5})` from `at` that leftmost-first matching picks, if any. */
  function ChooseHostPath(s: string, at: nat): (r: Option<Path>)
    requires at <= |s|
    ensures r.Some? ==> at + r.value.spaces <= r.value.colon + 1 + r.value.digits <= |s|
  {
    var spaces := Span(s, at, IsSpace) - at;
    if spaces == 0 then None
    else
      match LastPortColon(s, at + 2, Span(s, at, NotSemicolon))
      case None => None
      case Some(c) => Some(Path(Min(spaces, c - at - 1), c, Min(5, Span(s, c + 1, Decimal.IsDigit) - (c + 1))))
  }

  /** ChooseHostPath finds the way through the group that a backtracking engine tries first, and finds none only when there is none. */
  lemma ChooseHostPathFirst(s: string, at: nat)
    requires at <= |s|
    ensures ChooseHostPath(s, at).Some? ==> FirstHostPath(s, at, ChooseHostPath(s, at).value)
    ensures ChooseHostPath(s, at).None? ==> forall q :: !HostPath(s, at, q)
  {
    SpanMaximal(s, at, IsSpace);
    SpanMaximal(s, at, NotSemicolon);
    var spaces := Span(s, at, IsSpace) - at;
    var end := Span(s, at, NotSemicolon);
    var r := LastPortColon(s, at + 2, end);
    if spaces == 0 || r.None? {
      forall q | HostPath(s, at, q) ensures false { PathColonBounds(s, at, q); }
    } else {
      var c := r.value;
      SpanMaximal(s, c + 1, Decimal.IsDigit);
      var p := ChooseHostPath(s, at).value;
      assert HostPath(s, at, p);
      forall q | HostPath(s, at, q) && q != p ensures TriedBefore(p, q) {
        PathColonBounds(s, at, q);
      }
    }
  }

  /** What `re.FindStringSubmatch` yields when it matches: group 1 and, if the optional group matched, group 3. */
  datatype RuleMatch = RuleMatch(directive: string, host: Option<string>)

  /** The text that group 3 captures along a path. */
  function Captured(s: string, at: nat, p: Path): string
    requires at + p.spaces <= p.colon + 1 + p.digits <= |s|
  {
    s[at + p.spaces .. p.colon + 1 + p.digits]
  }

  /** `re.FindStringSubmatch(rule)`: None stands for the nil slice returned when the pattern does not match. */
  function MatchRule(rule: string): (r: Option<RuleMatch>)
    ensures r.None? <==> rule == [] || !IsUpper(rule[0])
    ensures r.Some? ==> 1 <= |r.value.directive| <= |rule| && r.value.directive == rule[..|r.value.directive|]
  {
    var n := Span(rule, 0, IsUpper);
    if n == 0 then None
    else
      match ChooseHostPath(rule, n)
      case None => Some(RuleMatch(rule[..n], None))
      case Some(p) => Some(RuleMatch(rule[..n], Some(Captured(rule, n, p))))
  }

  /**
    The match is the leftmost-first one: there is none exactly when the rule does not start with a
    capital letter; otherwise group 1 is the whole leading run of capitals (so never empty), and
    group 3 is present exactly when the optional group can match, and is then the text the first
    way through it in backtracking order captures.
  */
  lemma MatchRuleLeftmostFirst(rule: string)
    ensures MatchRule(rule).None? <==> rule == [] || !IsUpper(rule[0])
    ensures MatchRule(rule).Some? ==>
              var m := MatchRule(rule).value;
              var n := |m.directive|;
              && 1 <= n <= |rule| && m.directive == rule[..n]
              && (forall i :: 0 <= i < n ==> IsUpper(rule[i]))
              && (n == |rule| || !IsUpper(rule[n]))
              && (m.host.None? <==> forall q :: !HostPath(rule, n, q))
              && (m.host.Some? ==> exists p :: FirstHostPath(rule, n, p) && m.host.value == Captured(rule, n, p))
  {
    SpanMaximal(rule, 0, IsUpper);
    var n := Span(rule, 0, IsUpper);
    if n > 0 {
      ChooseHostPathFirst(rule, n);
    }
  }
}

/** What the rule pattern promises about the strings it is given. */
module RuleParserProperties {
  import opened Basics
  import Decimal
  import opened RuleParser

  /** A run that ends where `p` first fails is the one Span finds. */
  lemma {:induction false} SpanIs(s: string, i: nat, j: nat, p: char -> bool)
    requires i <= j <= |s|
    requires forall k :: i <= k < j ==> p(s[k])
    requires j == |s| || !p(s[j])
    ensures Span(s, i, p) == j
    decreases j - i
  {
    if i < j {
      SpanIs(s, i + 1, j, p);
    }
  }

  /** Appending text that `p` stops at does not move the end of a run. */
  lemma {:induction false} SpanIgnoresTail(s: string, u: string, i: nat, p: char -> bool)
    requires i <= |s|
    requires u == [] || !p(u[0])
    ensures Span(s + u, i, p) == Span(s, i, p)
    decreases |s| - i
  {
    if i < |s| && p(s[i]) {
      SpanIgnoresTail(s, u, i + 1, p);
    } else if i == |s| && u != [] {
      assert (s + u)[i] == u[0];
    }
  }

  lemma {:induction false} LastPortColonIgnoresTail(s: string, u: string, lo: nat, hi: nat)
    requires hi <= |s|
    requires u == [] || !Decimal.IsDigit(u[0])
    ensures LastPortColon(s + u, lo, hi) == LastPortColon(s, lo, hi)
    decreases hi
  {
    if lo < hi {
      if hi == |s| && u != [] {
        assert (s + u)[hi] == u[0];
      }
      assert PortColonAt(s + u, hi - 1) == PortColonAt(s, hi - 1);
      LastPortColonIgnoresTail(s, u, lo, hi - 1);
    }
  }

  /**
    Only the first `;`-separated directive is examined: whatever follows the first `;` has no
    influence on the match.
  */
  lemma FirstDirectiveOnly(rule: string, rest: string)
    requires ';' !in rule
    ensures MatchRule(rule + ";" + rest) == MatchRule(rule)
  {
    var u := ";" + rest;
    assert rule + ";" + rest == rule + u;
    SpanIgnoresTail(rule, u, 0, IsUpper);
    var n := Span(rule, 0, IsUpper);
    SpanMaximal(rule, 0, IsUpper);
    if n > 0 {
      ChooseHostPathIgnoresTail(rule, u, n);
      assert (rule + u)[..n] == rule[..n];
      var r := ChooseHostPath(rule, n);
      if r.Some? {
        assert Captured(rule + u, n, r.value) == Captured(rule, n, r.value);
      }
    }
  }

  lemma ChooseHostPathIgnoresTail(rule: string, u: string, n: nat)
    requires n <= |rule| && u != [] && u[0] == ';'
    ensures ChooseHostPath(rule + u, n) == ChooseHostPath(rule, n)
  {
    SpanIgnoresTail(rule, u, n, IsSpace);
    SpanIgnoresTail(rule, u, n, NotSemicolon);
    SpanMaximal(rule, n, NotSemicolon);
    var end := Span(rule, n, NotSemicolon);
    LastPortColonIgnoresTail(rule, u, n + 2, end);
    var r := LastPortColon(rule, n + 2, end);
    if r.Some? {
      SpanIgnoresTail(rule, u, r.value + 1, Decimal.IsDigit);
    }
  }

  /**
    The match of a rule laid out as: capitals up to `at`, one space, a host of at least one
    character that holds no `;` and does not start with whitespace, the colon at `c`, then one to
    five digits up to the end.
  */
  lemma MatchLaidOut(s: string, at: nat, c: nat)
    requires 1 <= at && at + 1 < c && c + 1 < |s| <= c + 6
    requires forall i :: 0 <= i < at ==> IsUpper(s[i])
    requires s[at] == ' ' && !IsSpace(s[at + 1])
    requires forall i :: at < i < c ==> s[i] != ';'
    requires s[c] == ':'
    requires forall i :: c < i < |s| ==> Decimal.IsDigit(s[i])
    ensures MatchRule(s) == Some(RuleMatch(s[..at], Some(s[at + 1..])))
  {
    SpanIs(s, 0, at, IsUpper);
    SpanIs(s, at, at + 1, IsSpace);
    SpanIs(s, at, |s|, NotSemicolon);
    SpanIs(s, c + 1, |s|, Decimal.IsDigit);
    var r := LastPortColon(s, at + 2, |s|);
    assert PortColonAt(s, c);
    assert r == Some(c);
    assert Span(s, at, IsSpace) - at == 1;
    assert Span(s, at, NotSemicolon) == |s|;
    assert Span(s, c + 1, Decimal.IsDigit) == |s|;
    assert Min(1, c - at - 1) == 1;
    assert Min(5, |s| - (c + 1)) == |s| - c - 1;
    var p := Path(1, c, |s| - c - 1);
    assert ChooseHostPath(s, at) == Some(p);
    assert Span(s, 0, IsUpper) == at;
    assert Captured(s, at, p) == s[at + 1..];
  }

  /**
    A rule `DIRECTIVE host:port`, optionally followed by `;` and more directives, yields the directive
    and `host:port`, provided the host is not empty, holds no `;` and does not start with whitespace, and
    the port has one to five digits. The host may itself contain colons: the last one is the port's.
  */
  lemma MatchProxyRule(directive: string, host: string, port: string, rest: string)
    requires |directive| >= 1 && forall i :: 0 <= i < |directive| ==> IsUpper(directive[i])
    requires |host| >= 1 && ';' !in host && !IsSpace(host[0])
    requires 1 <= |port| <= 5 && Decimal.AllDigits(port)
    requires rest == [] || rest[0] == ';'
    ensures MatchRule(directive + " " + host + ":" + port + rest)
         == Some(RuleMatch(directive, Some(host + ":" + port)))
  {
    var s := directive + " " + host + ":" + port;
    LaidOut(directive, host, port);
    MatchLaidOut(s, |directive|, |directive| + 1 + |host|);
    if rest == [] {
      assert s + rest == s;
    } else {
      NoSemicolonLaidOut(s, |directive|, |directive| + 1 + |host|);
      RestIgnored(s, rest);
    }
  }

  lemma NoSemicolonLaidOut(s: string, at: nat, c: nat)
    requires at < c < |s|
    requires forall i :: 0 <= i < at ==> IsUpper(s[i])
    requires s[at] == ' '
    requires forall i :: at < i < c ==> s[i] != ';'
    requires s[c] == ':'
    requires forall i :: c < i < |s| ==> Decimal.IsDigit(s[i])
    ensures ';' !in s
  {
    assert forall i :: 0 <= i < |s| ==> s[i] != ';';
  }

  lemma RestIgnored(s: string, rest: string)
    requires ';' !in s && rest != [] && rest[0] == ';'
    ensures MatchRule(s + rest) == MatchRule(s)
  {
    FirstDirectiveOnly(s, rest[1..]);
    assert s + rest == s + ";" + rest[1..];
  }

  /** Where the pieces of `directive host:port` sit. */
  lemma LaidOut(directive: string, host: string, port: string)
    requires |directive| >= 1 && forall i :: 0 <= i < |directive| ==> IsUpper(directive[i])
    requires |host| >= 1 && ';' !in host && !IsSpace(host[0])
    requires 1 <= |port| <= 5 && Decimal.AllDigits(port)
    ensures var s := directive + " " + host + ":" + port;
            var at, c := |directive|, |directive| + 1 + |host|;
            && 1 <= at && at + 1 < c && c + 1 < |s| <= c + 6
            && (forall i :: 0 <= i < at ==> IsUpper(s[i]))
            && s[at] == ' ' && !IsSpace(s[at + 1])
            && (forall i :: at < i < c ==> s[i] != ';')
            && s[c] == ':'
            && (forall i :: c < i < |s| ==> Decimal.IsDigit(s[i]))
            && s[..at] == directive && s[at + 1..] == host + ":" + port
  {
    var s := directive + " " + host + ":" + port;
    var at, c := |directive|, |directive| + 1 + |host|;
    var tail := host + ":" + port;
    assert s == directive + " " + tail;
    assert s[..at] == directive;
    assert s[at + 1..] == tail;
    assert forall i :: 0 <= i < |host| ==> tail[i] == host[i];
    assert forall i :: at < i < c ==> s[i] == tail[i - at - 1];
    assert forall i :: c < i < |s| ==> s[i] == port[i - c - 1];
  }

  /** `h` ends in `:` and `k` digits, after at least one other character. */
  predicate PortSuffix(h: string, k: nat)
  {
    1 <= k <= 5 && k + 2 <= |h| && h[|h| - k - 1] == ':' && Decimal.AllDigits(h[|h| - k..])
  }

  /** The captured host never holds a `;` and ends in `:` and one to five digits, after at least one character. */
  lemma HostShape(rule: string, m: RuleMatch)
    requires MatchRule(rule) == Some(m) && m.host.Some?
    ensures ';' !in m.host.value
    ensures exists k :: PortSuffix(m.host.value, k)
  {
    MatchRuleLeftmostFirst(rule);
    var at := |m.directive|;
    var p :| FirstHostPath(rule, at, p) && m.host.value == Captured(rule, at, p);
    CapturedShape(rule, at, p);
  }

  lemma CapturedShape(rule: string, at: nat, p: Path)
    requires HostPath(rule, at, p)
    ensures ';' !in Captured(rule, at, p)
    ensures PortSuffix(Captured(rule, at, p), p.digits)
  {
    var h := Captured(rule, at, p);
    assert forall i :: 0 <= i < |h| ==> h[i] == rule[at + p.spaces + i];
    assert h[|h| - p.digits - 1] == ':';
    assert forall i :: |h| - p.digits <= i < |h| ==> h[i] == rule[p.colon + 1 + i - (|h| - p.digits)];
  }

  /**
    A run of capitals followed by nothing, or by a character that is neither a capital nor
    whitespace, matches with that run as the directive and no host.
  */
  lemma MatchBareDirective(directive: string, rest: string)
    requires |directive| >= 1 && forall i :: 0 <= i < |directive| ==> IsUpper(directive[i])
    requires rest == [] || (!IsUpper(rest[0]) && !IsSpace(rest[0]))
    ensures MatchRule(directive + rest) == Some(RuleMatch(directive, None))
  {
    var s := directive + rest;
    var n := |directive|;
    assert forall i :: 0 <= i < n ==> s[i] == directive[i];
    assert n < |s| ==> s[n] == rest[0];
    SpanIs(s, 0, n, IsUpper);
    SpanIs(s, n, n, IsSpace);
    assert s[..n] == directive;
  }

  /** `PROXY 10.0.0.1:8080` yields PROXY and the host `10.0.0.1:8080`. */
  lemma ExampleProxy(rule: string, d: string, h: string, p: string)
    requires d == "PROXY" && h == "10.0.0.1" && p == "8080" && rule == d + " " + h + ":" + p
    ensures MatchRule(rule) == Some(RuleMatch(d, Some(h + ":" + p)))
  {
    assert forall i :: 0 <= i < |d| ==> IsUpper(d[i]);
    assert ';' !in h;
    assert Decimal.AllDigits(p);
    MatchProxyRule(d, h, p, "");
    assert rule + "" == rule;
  }

  /** `PROXY 10.0.0.1:8080;DIRECT` yields PROXY and `10.0.0.1:8080`: the DIRECT fallback is never looked at. */
  lemma ExampleFirstDirective(rule: string, d: string, h: string, p: string, second: string)
    requires d == "PROXY" && h == "10.0.0.1" && p == "8080" && second == "DIRECT"
    requires rule == d + " " + h + ":" + p + (";" + second)
    ensures MatchRule(rule) == Some(RuleMatch(d, Some(h + ":" + p)))
  {
    assert forall i :: 0 <= i < |d| ==> IsUpper(d[i]);
    assert ';' !in h;
    assert Decimal.AllDigits(p);
    MatchProxyRule(d, h, p, ";" + second);
  }

  /**
    `DIRECT` yields DIRECT with no host; `PROXY` alone yields PROXY with no host; `Direct` yields
    the directive `D`, because only the leading capitals belong to it.
  */
  lemma ExampleBareDirectives(direct: string, proxy: string, mixed: string, rest: string)
    requires direct == "DIRECT" && proxy == "PROXY" && mixed == "Direct" && rest == "irect"
    ensures MatchRule(direct) == Some(RuleMatch("DIRECT", None))
    ensures MatchRule(proxy) == Some(RuleMatch("PROXY", None))
    ensures MatchRule(mixed) == Some(RuleMatch("D", None))
  {
    assert forall i :: 0 <= i < |direct| ==> IsUpper(direct[i]);
    MatchBareDirective(direct, []);
    assert direct + [] == direct;
    assert forall i :: 0 <= i < |proxy| ==> IsUpper(proxy[i]);
    MatchBareDirective(proxy, []);
    assert proxy + [] == proxy;
    MatchBareDirective("D", rest);
    assert "D" + rest == mixed;
  }

  /** A rule that does not start with a capital, such as `direct` or the empty rule, does not match at all. */
  lemma ExampleNoMatch(lower: string)
    requires lower == "direct"
    ensures MatchRule(lower) == None && MatchRule("") == None
  {
    MatchRuleLeftmostFirst(lower);
    MatchRuleLeftmostFirst("");
  }

  /**
    When the spaces run into the colon, `\s+` gives one back to `[^;]+`: in `PROXY  :80` (two
    spaces) the host is ` :80`.
  */
  lemma ExampleSpaceGivenBack(rule: string)
    requires rule == "PROXY  :80"
    ensures MatchRule(rule) == Some(RuleMatch("PROXY", Some(" :80")))
  {
    SpanIs(rule, 0, 5, IsUpper);
    SpanIs(rule, 5, 7, IsSpace);
    SpanIs(rule, 5, 10, NotSemicolon);
    SpanIs(rule, 8, 10, Decimal.IsDigit);
    assert PortColonAt(rule, 7);
    assert LastPortColon(rule, 7, 10) == Some(7);
    assert ChooseHostPath(rule, 5) == Some(Path(1, 7, 2));
    assert rule[..5] == "PROXY";
    assert rule[6..10] == " :80";
    assert MatchRule(rule) == Some(RuleMatch(rule[..5], Some(rule[6..10])));
  }
}
