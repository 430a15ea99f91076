/**
  Recovery of a redirected connection's original destination (original-dst.go): the socket
  option SO_ORIGINAL_DST fills a RawSockaddrAny buffer, which is read as a sockaddr_in or a
  sockaddr_in6 depending on the family of the connection's local address. The system call,
  `conn.File()`, `net.SplitHostPort`, `net.ParseIP` and IPv6 text rendering are parameters.
*/
module OriginalDst {
  import opened Basics
  import Decimal

  const IPPROTO_IP: int := 0
  const IPPROTO_IPV6: int := 41
  const SO_ORIGINAL_DST: int := 80

  /** `syscall.SizeofSockaddrAny` on Linux. */
  const SizeofSockaddrAny: nat := 112

  /** The RawSockaddrAny buffer, byte by byte, as the kernel leaves it. */
  type SockaddrAny = s: seq<byte> | |s| == SizeofSockaddrAny witness seq(112, _ => 0)

  /**
    The port field sits at bytes 2 and 3 of both sockaddr_in and sockaddr_in6, in network byte
    order: `int(p[0])<<8 + int(p[1])`.
  */
  function PortOf(rsa: SockaddrAny): (port: nat)
    ensures port < 65536
  {
    (rsa[2] as int) * 256 + (rsa[3] as int)
  }

  /** The two bytes a port is stored as, most significant first. */
  function PortBytes(port: nat): (b: seq<byte>)
    requires port < 65536
    ensures |b| == 2
  {
    [port / 256, port % 256]
  }

  /** Decoding reads back the port that was stored. */
  lemma PortRoundTrip(rsa: SockaddrAny, port: nat)
    requires port < 65536 && rsa[2..4] == PortBytes(port)
    ensures PortOf(rsa) == port
  {
    assert rsa[2] == rsa[2..4][0] && rsa[3] == rsa[2..4][1];
  }

  /** Storing the decoded port gives back the two bytes: the port is exactly bytes 2 and 3. */
  lemma PortBytesOfPort(rsa: SockaddrAny)
    ensures PortBytes(PortOf(rsa)) == rsa[2..4]
  {
    var p := PortOf(rsa);
    assert p / 256 == rsa[2] && p % 256 == rsa[3];
  }

  /** The `.`-separated fields of a string. */
  function Fields(s: string): (r: seq<string>)
    ensures |r| >= 1
  {
    if s == [] then [[]]
    else
      var rest := Fields(s[1..]);
      if s[0] == '.' then [[]] + rest else [[s[0]] + rest[0]] + rest[1..]
  }

  lemma {:induction false} FieldsOfField(x: string)
    requires '.' !in x
    ensures Fields(x) == [x]
  {
    if x != [] {
      FieldsOfField(x[1..]);
      assert [x[0]] + x[1..] == x;
    }
  }

  lemma {:induction false} FieldsOfJoin(x: string, y: string)
    requires '.' !in x
    ensures Fields(x + "." + y) == [x] + Fields(y)
  {
    if x == [] {
      assert (x + "." + y)[1..] == y;
    } else {
      FieldsOfJoin(x[1..], y);
      assert (x + "." + y)[1..] == x[1..] + "." + y;
      assert [x[0]] + x[1..] == x;
    }
  }

  /** A dotted-decimal field: one or more digits with a value below 256. */
  predicate IsOctet(t: string)
  {
    |t| >= 1 && Decimal.AllDigits(t) && Decimal.Parse(t) < 256
  }

  /** The four bytes a dotted-decimal text stands for: the inverse of FormatIPv4. */
  function ParseIPv4(s: string): (r: Option<seq<byte>>)
    ensures r.Some? ==> |r.value| == 4
  {
    var f := Fields(s);
    if |f| == 4 && IsOctet(f[0]) && IsOctet(f[1]) && IsOctet(f[2]) && IsOctet(f[3])
    then Some([Decimal.Parse(f[0]) as byte, Decimal.Parse(f[1]) as byte, Decimal.Parse(f[2]) as byte, Decimal.Parse(f[3]) as byte])
    else None
  }

  lemma NoDotInFormat(n: nat)
    ensures '.' !in Decimal.Format(n)
  {
  }

  /** Four dot-free strings joined by dots split back into those four. */
  lemma FieldsOfFour(a: string, b: string, c: string, d: string)
    requires '.' !in a && '.' !in b && '.' !in c && '.' !in d
    ensures Fields(a + "." + (b + "." + (c + "." + d))) == [a, b, c, d]
  {
    FieldsOfField(d);
    FieldsOfJoin(c, d);
    FieldsOfJoin(b, c + "." + d);
    FieldsOfJoin(a, b + "." + (c + "." + d));
  }

  /** `net.IP.String()` for a 4-byte address: dotted decimal, splitting at its dots into the four decimal numbers. */
  function FormatIPv4(addr: seq<byte>): (s: string)
    requires |addr| == 4
    ensures Fields(s) == [Decimal.Format(addr[0]), Decimal.Format(addr[1]), Decimal.Format(addr[2]), Decimal.Format(addr[3])]
  {
    NoDotInFormat(addr[0]);
    NoDotInFormat(addr[1]);
    NoDotInFormat(addr[2]);
    NoDotInFormat(addr[3]);
    FieldsOfFour(Decimal.Format(addr[0]), Decimal.Format(addr[1]), Decimal.Format(addr[2]), Decimal.Format(addr[3]));
    Decimal.Format(addr[0]) + "." + (Decimal.Format(addr[1]) + "." + (Decimal.Format(addr[2]) + "." + Decimal.Format(addr[3])))
  }

  /** Reading the text back gives the four address bytes. */
  lemma ParseFormatIPv4(addr: seq<byte>)
    requires |addr| == 4
    ensures ParseIPv4(FormatIPv4(addr)) == Some(addr)
  {
    Decimal.ParseFormat(addr[0]);
    Decimal.ParseFormat(addr[1]);
    Decimal.ParseFormat(addr[2]);
    Decimal.ParseFormat(addr[3]);
    var f := Fields(FormatIPv4(addr));
    assert IsOctet(f[0]) && IsOctet(f[1]) && IsOctet(f[2]) && IsOctet(f[3]);
    assert addr == [addr[0], addr[1], addr[2], addr[3]];
  }

  /** Distinct addresses are rendered differently. */
  lemma FormatIPv4Injective(x: seq<byte>, y: seq<byte>)
    requires |x| == 4 && |y| == 4 && FormatIPv4(x) == FormatIPv4(y)
    ensures x == y
  {
    ParseFormatIPv4(x);
    ParseFormatIPv4(y);
  }

  /** Go's `(string, int, error)` result of getDestinationHost. */
  datatype Destination = Destination(host: string, port: int, err: Option<string>)

  /** A failure: `return "", 0, err`. */
  function Failed(err: string): Destination
  {
    Destination("", 0, Some(err))
  }

  /** The IPv4 reading of the buffer: `pp.Addr[0:net.IPv4len]` (bytes 4 to 7) and the port. */
  function DecodeIPv4(rsa: SockaddrAny): (d: Destination)
    ensures d.err.None? && 0 <= d.port < 65536 && d.port == PortOf(rsa)
    ensures Fields(d.host) == [Decimal.Format(rsa[4]), Decimal.Format(rsa[5]), Decimal.Format(rsa[6]), Decimal.Format(rsa[7])]
  {
    Destination(FormatIPv4(rsa[4..8]), PortOf(rsa), None)
  }

  /** The IPv6 reading of the buffer: `pp.Addr[0:net.IPv6len]` (bytes 8 to 23, after Flowinfo) and the port. */
  function DecodeIPv6(rsa: SockaddrAny, render6: seq<byte> -> string): (d: Destination)
    ensures d.err.None? && 0 <= d.port < 65536 && d.port == PortOf(rsa)
    ensures d.host == render6(rsa[8..24])
  {
    Destination(render6(rsa[8..24]), PortOf(rsa), None)
  }

  /** IPv4 decoding uses exactly the port bytes and the four Addr bytes: results agree iff bytes 2 to 7 agree. */
  lemma DecodeIPv4Exact(x: SockaddrAny, y: SockaddrAny)
    ensures DecodeIPv4(x) == DecodeIPv4(y) <==> x[2..8] == y[2..8]
  {
    if DecodeIPv4(x) == DecodeIPv4(y) {
      FormatIPv4Injective(x[4..8], y[4..8]);
      PortBytesOfPort(x);
      PortBytesOfPort(y);
      assert x[2..8] == x[2..4] + x[4..8] && y[2..8] == y[2..4] + y[4..8];
    }
  }

  /** IPv6 decoding looks only at the port bytes and the sixteen Addr bytes. */
  lemma DecodeIPv6Exact(x: SockaddrAny, y: SockaddrAny, render6: seq<byte> -> string)
    requires x[2..4] == y[2..4] && x[8..24] == y[8..24]
    ensures DecodeIPv6(x, render6) == DecodeIPv6(y, render6)
  {
    assert x[2] == y[2] && x[3] == y[3] by {
      assert x[2..4][0] == x[2] && x[2..4][1] == x[3];
      assert y[2..4][0] == y[2] && y[2..4][1] == y[3];
    }
  }

  /** The IPv6 port is exactly the port bytes: two buffers give the same port iff bytes 2 and 3 agree. */
  lemma DecodeIPv6Port(x: SockaddrAny, y: SockaddrAny, render6: seq<byte> -> string)
    ensures DecodeIPv6(x, render6).port == DecodeIPv6(y, render6).port <==> x[2..4] == y[2..4]
  {
    PortBytesOfPort(x);
    PortBytesOfPort(y);
  }

  /** The host text of the IPv4 reading parses back to the four Addr bytes. */
  lemma DecodeIPv4ReadsBack(rsa: SockaddrAny)
    ensures ParseIPv4(DecodeIPv4(rsa).host) == Some(rsa[4..8])
  {
    ParseFormatIPv4(rsa[4..8]);
  }

  /** getDestinationHostIPV4: the IPv4 query, then the IPv4 reading, or the query's error. */
  function QueryIPv4(getsockopt: (int, int) -> Result<SockaddrAny>): (d: Destination)
    ensures d.err.Some? <==> getsockopt(IPPROTO_IP, SO_ORIGINAL_DST).Err?
    ensures d.err.Some? ==> d == Failed(getsockopt(IPPROTO_IP, SO_ORIGINAL_DST).message)
    ensures d.err.None? ==> d.port == PortOf(getsockopt(IPPROTO_IP, SO_ORIGINAL_DST).value)
                            && ParseIPv4(d.host) == Some(getsockopt(IPPROTO_IP, SO_ORIGINAL_DST).value[4..8])
    ensures d.err.None? ==>
              var b := getsockopt(IPPROTO_IP, SO_ORIGINAL_DST).value;
              Fields(d.host) == [Decimal.Format(b[4]), Decimal.Format(b[5]), Decimal.Format(b[6]), Decimal.Format(b[7])]
  {
    match getsockopt(IPPROTO_IP, SO_ORIGINAL_DST)
    case Err(e) => Failed(e)
    case Ok(rsa) => DecodeIPv4ReadsBack(rsa); DecodeIPv4(rsa)
  }

  /** getDestinationHostIPV6: the IPv6 query, then the IPv6 reading, or the query's error. */
  function QueryIPv6(getsockopt: (int, int) -> Result<SockaddrAny>, render6: seq<byte> -> string): (d: Destination)
    ensures d.err.Some? <==> getsockopt(IPPROTO_IPV6, SO_ORIGINAL_DST).Err?
    ensures d.err.Some? ==> d == Failed(getsockopt(IPPROTO_IPV6, SO_ORIGINAL_DST).message)
    ensures d.err.None? ==> d.port == PortOf(getsockopt(IPPROTO_IPV6, SO_ORIGINAL_DST).value)
                            && d.host == render6(getsockopt(IPPROTO_IPV6, SO_ORIGINAL_DST).value[8..24])
  {
    match getsockopt(IPPROTO_IPV6, SO_ORIGINAL_DST)
    case Err(e) => Failed(e)
    case Ok(rsa) => DecodeIPv6(rsa, render6)
  }

  /**
    getDestinationHost. `file` is the outcome of `conn.File()` (its error, if any), `localHost` that
    of `net.SplitHostPort` on the local address, `isIPv4` stands for `net.ParseIP(ip).To4() != nil`,
    `getsockopt` answers a (level, option) query with the buffer or the errno's text, and `render6`
    is `net.IP.String()` on sixteen bytes.
  */
  function GetDestinationHost(file: Option<string>, localHost: Result<string>, isIPv4: string -> bool,
                              getsockopt: (int, int) -> Result<SockaddrAny>, render6: seq<byte> -> string): (d: Destination)
    ensures d.err.Some? ==> d.host == "" && d.port == 0
    ensures d.err.None? ==> 0 <= d.port < 65536
    ensures file.Some? ==> d == Failed(file.value)
    ensures file.None? && localHost.Err? ==> d == Failed(localHost.message)
    ensures file.None? && localHost.Ok? && isIPv4(localHost.value) ==> d == QueryIPv4(getsockopt)
    ensures file.None? && localHost.Ok? && !isIPv4(localHost.value) ==> d == QueryIPv6(getsockopt, render6)
  {
    if file.Some? then Failed(file.value)
    else
      match localHost
      case Err(e) => Failed(e)
      case Ok(ip) => if isIPv4(ip) then QueryIPv4(getsockopt) else QueryIPv6(getsockopt, render6)
  }

  /**
    The family branch: with an IPv4 local address only the answer to the IPv4 query matters, and
    otherwise only the answer to the IPv6 query. Two kernels that agree on the relevant query give
    the same destination.
  */
  lemma FamilyBranch(ip: string, isIPv4: string -> bool, q1: (int, int) -> Result<SockaddrAny>,
                     q2: (int, int) -> Result<SockaddrAny>, render6: seq<byte> -> string)
    requires isIPv4(ip) ==> q1(IPPROTO_IP, SO_ORIGINAL_DST) == q2(IPPROTO_IP, SO_ORIGINAL_DST)
    requires !isIPv4(ip) ==> q1(IPPROTO_IPV6, SO_ORIGINAL_DST) == q2(IPPROTO_IPV6, SO_ORIGINAL_DST)
    ensures GetDestinationHost(None, Ok(ip), isIPv4, q1, render6) == GetDestinationHost(None, Ok(ip), isIPv4, q2, render6)
  {
  }

  /** A failed query is reported as ("", 0, err), whichever family was queried. */
  lemma QueryFailure(ip: string, isIPv4: string -> bool, getsockopt: (int, int) -> Result<SockaddrAny>,
                     render6: seq<byte> -> string, e: string)
    requires getsockopt(if isIPv4(ip) then IPPROTO_IP else IPPROTO_IPV6, SO_ORIGINAL_DST) == Err(e)
    ensures GetDestinationHost(None, Ok(ip), isIPv4, getsockopt, render6) == Failed(e)
  {
  }

  /** An IPv4 buffer with address 203.0.113.9 and port bytes 0x01 0xBB decodes to ("203.0.113.9", 443). */
  lemma ExampleIPv4(rsa: SockaddrAny)
    requires rsa[2] == 0x01 && rsa[3] == 0xBB && rsa[4..8] == [203, 0, 113, 9]
    ensures DecodeIPv4(rsa) == Destination("203.0.113.9", 443, None)
  {
    assert rsa[4..8][0] == rsa[4];
    assert Decimal.Format(203) == "203";
    assert Decimal.Format(0) == "0";
    assert Decimal.Format(113) == "113";
    assert Decimal.Format(9) == "9";
  }

  /**
    End to end: on a connection with an IPv4 local address whose IPv4 query yields that buffer, the
    resolver returns ("203.0.113.9", 443) and no error.
  */
  lemma ExampleResolver(ip: string, isIPv4: string -> bool, getsockopt: (int, int) -> Result<SockaddrAny>,
                        render6: seq<byte> -> string, rsa: SockaddrAny)
    requires isIPv4(ip) && getsockopt(IPPROTO_IP, SO_ORIGINAL_DST) == Ok(rsa)
    requires rsa[2] == 0x01 && rsa[3] == 0xBB && rsa[4..8] == [203, 0, 113, 9]
    ensures GetDestinationHost(None, Ok(ip), isIPv4, getsockopt, render6) == Destination("203.0.113.9", 443, None)
  {
    ExampleIPv4(rsa);
  }
}
