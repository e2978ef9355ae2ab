/**
 * A deliberately simplified model of the parts of Go's `net` package that the
 * middleware calls: ParseIP, ParseCIDR, IPNet.Contains and SplitHostPort.
 * Addresses are IPv4 only; IPv6 text does not parse (ParseIP gives None, as Go
 * gives nil for unparsable text).
 */
module GoNet {
  import opened Wrappers
  import opened GoStrings

  type Octet = x: nat | x < 256

  /** An IPv4 address: its four octets, most significant first (Go keeps them as bytes). */
  datatype IPv4 = IPv4(a: Octet, b: Octet, c: Octet, d: Octet)

  /** A mask length: the number of leading one bits. */
  type PrefixLen = n: nat | n <= 32

  /** net.IPNet for IPv4: a network address and its mask length. */
  datatype IPNet = IPNet(ip: IPv4, ones: PrefixLen)

  /** How many of octet `i`'s eight bits a mask of length `ones` covers. */
  function OctetBits(ones: PrefixLen, i: nat): (k: nat)
    requires i < 4
    ensures k <= 8
  {
    if ones <= 8 * i then 0 else if ones >= 8 * i + 8 then 8 else ones - 8 * i
  }

  /** HostBlock[k] is 2 to the power 8 - k: the size of the block a k-bit octet mask leaves free. */
  const HostBlock: seq<nat> := [256, 128, 64, 32, 16, 8, 4, 2, 1]

  /** One octet ANDed with a mask byte of `k` leading ones. */
  function MaskOctet(o: Octet, k: nat): (r: Octet)
    requires k <= 8
  {
    o - o % HostBlock[k]
  }

  /** IP.Mask(CIDRMask(ones, 32)): keeps the network bits of an address, octet by octet. */
  function Mask(ip: IPv4, ones: PrefixLen): IPv4 {
    IPv4(MaskOctet(ip.a, OctetBits(ones, 0)), MaskOctet(ip.b, OctetBits(ones, 1)),
         MaskOctet(ip.c, OctetBits(ones, 2)), MaskOctet(ip.d, OctetBits(ones, 3)))
  }

  lemma MaskOctetIdempotent(o: Octet, k: nat)
    requires k <= 8
    ensures MaskOctet(MaskOctet(o, k), k) == MaskOctet(o, k)
  {
    BlockFloor(o, HostBlock[k]);
  }

  /** Rounding down to a multiple of `m` leaves a multiple of `m`. */
  lemma BlockFloor(o: nat, m: nat)
    requires m > 0
    ensures (o - o % m) % m == 0
  {
    var q := o / m;
    var x := o - o % m;
    assert x == q * m;
    var d := q - x / m;
    assert x == (x / m) * m + x % m;
    assert d * m == x % m;
    if d >= 1 {
      MulAtLeast(d, m);
    }
  }

  lemma {:induction false} MulAtLeast(d: int, m: nat)
    requires m > 0 && d >= 1
    ensures d * m >= m
    decreases d
  {
    if d > 1 {
      MulAtLeast(d - 1, m);
      assert d * m == (d - 1) * m + m;
    }
  }

  /** Masking twice is masking once. */
  lemma MaskIdempotent(ip: IPv4, ones: PrefixLen)
    ensures Mask(Mask(ip, ones), ones) == Mask(ip, ones)
  {
    MaskOctetIdempotent(ip.a, OctetBits(ones, 0));
    MaskOctetIdempotent(ip.b, OctetBits(ones, 1));
    MaskOctetIdempotent(ip.c, OctetBits(ones, 2));
    MaskOctetIdempotent(ip.d, OctetBits(ones, 3));
  }

  /** IPNet.Contains: whether the address falls in the network. A nil IP is in no network. */
  predicate Contains(n: IPNet, ip: Option<IPv4>) {
    ip.Some? && Mask(ip.value, n.ones) == Mask(n.ip, n.ones)
  }

  predicate IsDigit(c: char) { '0' <= c <= '9' }

  predicate AllDigits(s: string) {
    forall k :: 0 <= k < |s| ==> IsDigit(s[k])
  }

  /** The number a string of decimal digits denotes. */
  function DecimalValue(s: string): nat
    requires AllDigits(s)
  {
    if |s| == 0 then 0
    else DecimalValue(s[..|s| - 1]) * 10 + (s[|s| - 1] as int - '0' as int)
  }

  /** One dotted-decimal field: 1 to 3 digits, no leading zero, at most 255. */
  predicate OctetText(f: string) {
    1 <= |f| <= 3 && AllDigits(f) && (f[0] == '0' ==> |f| == 1) && DecimalValue(f) <= 255
  }

  /**
   * net.ParseIP restricted to IPv4 text: exactly four dot-separated fields,
   * each a decimal octet without leading zeros.
   */
  function ParseIP(s: string): (r: Option<IPv4>)
    ensures r.Some? ==> |Split(s, '.')| == 4
    ensures r.Some? ==> forall k :: 0 <= k < 4 ==> OctetText(Split(s, '.')[k])
  {
    var fs := Split(s, '.');
    if |fs| == 4 && OctetText(fs[0]) && OctetText(fs[1]) && OctetText(fs[2]) && OctetText(fs[3]) then
      Some(IPv4(DecimalValue(fs[0]), DecimalValue(fs[1]), DecimalValue(fs[2]), DecimalValue(fs[3])))
    else None
  }

  /** Decimal text of a number, without leading zeros (strconv.Itoa). */
  function Decimal(n: nat): (s: string)
    ensures |s| >= 1 && AllDigits(s)
    ensures DecimalValue(s) == n
    ensures s[0] == '0' ==> n == 0 && |s| == 1
    ensures n < 1000 ==> |s| <= 3
  {
    if n < 10 then ['0' + n as char]
    else
      var s := Decimal(n / 10) + ['0' + (n % 10) as char];
      assert s[..|s| - 1] == Decimal(n / 10);
      s
  }

  /** IP.String for IPv4: the dotted-decimal form. */
  function FormatIP(ip: IPv4): string {
    Join([Decimal(ip.a), Decimal(ip.b), Decimal(ip.c), Decimal(ip.d)], '.')
  }

  /** The decimal text of an octet is a valid dotted-decimal field. */
  lemma DecimalOctet(n: Octet)
    ensures OctetText(Decimal(n)) && '.' !in Decimal(n) && DecimalValue(Decimal(n)) == n
  {
    var s := Decimal(n);
    assert forall k :: 0 <= k < |s| ==> s[k] != '.';
  }

  /** ParseIP reads back every address that FormatIP writes. */
  lemma ParseFormatIP(ip: IPv4)
    ensures ParseIP(FormatIP(ip)) == Some(ip)
  {
    var parts := [Decimal(ip.a), Decimal(ip.b), Decimal(ip.c), Decimal(ip.d)];
    DecimalOctet(ip.a);
    DecimalOctet(ip.b);
    DecimalOctet(ip.c);
    DecimalOctet(ip.d);
    SplitJoin(parts, '.');
  }

  /**
   * net.ParseCIDR for IPv4: an address, a '/', and a decimal mask length of at
   * most 32 (leading zeros allowed there). The network keeps only the masked bits.
   */
  function ParseCIDR(s: string): (r: Option<IPNet>)
    ensures r.Some? ==> Mask(r.value.ip, r.value.ones) == r.value.ip
  {
    var i := IndexOf(s, '/');
    if i == |s| then None
    else
      var addr, bits := s[..i], s[i + 1..];
      var ip := ParseIP(addr);
      if ip.None? || |bits| == 0 || !AllDigits(bits) || DecimalValue(bits) > 32 then None
      else
        MaskIdempotent(ip.value, DecimalValue(bits));
        Some(IPNet(Mask(ip.value, DecimalValue(bits)), DecimalValue(bits)))
  }

  /** A parsed CIDR contains the address it was written with. */
  lemma ParseCIDRContainsOwnAddress(s: string)
    requires ParseCIDR(s).Some?
    ensures Contains(ParseCIDR(s).value, ParseIP(s[..IndexOf(s, '/')]))
  {
    var n := ParseCIDR(s).value;
    MaskIdempotent(ParseIP(s[..IndexOf(s, '/')]).value, n.ones);
  }

  /** IPNet.String for IPv4: the network address, '/', the mask length. */
  function FormatCIDR(n: IPNet): string {
    FormatIP(n.ip) + "/" + Decimal(n.ones)
  }

  /** ParseCIDR reads back a written network, masking away any host bits. */
  lemma ParseFormatCIDR(ip: IPv4, ones: PrefixLen)
    ensures ParseCIDR(FormatCIDR(IPNet(ip, ones))) == Some(IPNet(Mask(ip, ones), ones))
  {
    var t := FormatIP(ip);
    var s := FormatCIDR(IPNet(ip, ones));
    FormatIPHasNoSlash(ip);
    IndexOfAfterFree(t, '/', Decimal(ones));
    assert s[..|t|] == t;
    assert s[|t| + 1..] == Decimal(ones);
    ParseFormatIP(ip);
  }

  lemma FormatIPHasNoSlash(ip: IPv4)
    ensures '/' !in FormatIP(ip)
  {
    var parts := [Decimal(ip.a), Decimal(ip.b), Decimal(ip.c), Decimal(ip.d)];
    JoinFree(parts, '.', '/');
  }

  /** A network with mask length 0 contains every address. */
  lemma ZeroPrefixContainsAll(n: IPNet, ip: IPv4)
    requires n.ones == 0
    ensures Contains(n, Some(ip))
  {
  }

  /** A network with mask length 32 contains exactly its own address. */
  lemma HostPrefixContainsOnlyItself(n: IPNet, ip: IPv4)
    requires n.ones == 32
    ensures Contains(n, Some(ip)) <==> ip == n.ip
  {
  }

  /** The position of the last `c` in `s`, or -1. */
  function LastIndex(s: string, c: char): (i: int)
    ensures -1 <= i < |s|
    ensures i >= 0 ==> s[i] == c
    ensures forall k :: i < k < |s| ==> s[k] != c
  {
    if |s| == 0 then -1
    else if s[|s| - 1] == c then |s| - 1
    else LastIndex(s[..|s| - 1], c)
  }

  datatype HostPort = HostPort(host: string, port: string)

  /**
   * net.SplitHostPort: the port follows the last ':'; a host holding a ':' must
   * be bracketed ("[::1]:80"), and stray brackets are refused. None is Go's error.
   */
  function SplitHostPort(hostport: string): (r: Option<HostPort>)
    ensures r.Some? ==> ':' !in r.value.port && '[' !in r.value.port && ']' !in r.value.port
    ensures r.Some? && (hostport == [] || hostport[0] != '[') ==> hostport == r.value.host + ":" + r.value.port
  {
    var i := LastIndex(hostport, ':');
    if i < 0 then None
    else if hostport[0] == '[' then
      var end := IndexOf(hostport, ']');
      if end == |hostport| || end + 1 == |hostport| || end + 1 != i then None
      else CheckBrackets(hostport, hostport[1..end], 1, end + 1, i)
    else
      var host := hostport[..i];
      if ':' in host then None
      else
        assert hostport == host + ":" + hostport[i + 1..];
        CheckBrackets(hostport, host, 0, 0, i)
  }

  function CheckBrackets(hostport: string, host: string, j: nat, k: nat, i: nat): (r: Option<HostPort>)
    requires j <= k <= i < |hostport|
    ensures r.Some? ==> r.value == HostPort(host, hostport[i + 1..])
    ensures r.Some? ==> '[' !in hostport[i + 1..] && ']' !in hostport[i + 1..]
  {
    if '[' in hostport[j..] || ']' in hostport[k..] then None
    else
      assert hostport[i + 1..] == hostport[j..][i + 1 - j..];
      assert hostport[i + 1..] == hostport[k..][i + 1 - k..];
      Some(HostPort(host, hostport[i + 1..]))
  }

  /** net.JoinHostPort: brackets a host that holds a ':'. */
  function JoinHostPort(host: string, port: string): string {
    if ':' in host then "[" + host + "]:" + port else host + ":" + port
  }

  /** SplitHostPort undoes JoinHostPort for bracket-free hosts and ports without ':'. */
  lemma SplitJoinHostPort(host: string, port: string)
    requires '[' !in host && ']' !in host
    requires '[' !in port && ']' !in port && ':' !in port
    ensures SplitHostPort(JoinHostPort(host, port)) == Some(HostPort(host, port))
  {
    if ':' in host {
      SplitBracketed(host, port);
    } else {
      SplitPlain(host, port);
    }
  }

  lemma SplitBracketed(host: string, port: string)
    requires ':' in host && '[' !in host && ']' !in host
    requires '[' !in port && ']' !in port && ':' !in port
    ensures SplitHostPort("[" + host + "]:" + port) == Some(HostPort(host, port))
  {
    var hp := "[" + host + "]:" + port;
    var e := |host| + 1;
    BracketedLayout(host, port);
    CheckBracketsOk(hp, host, 1, e + 1, e + 1);
  }

  /** Where SplitHostPort's searches land in "[host]:port". */
  lemma BracketedLayout(host: string, port: string)
    requires '[' !in host && ']' !in host
    requires '[' !in port && ']' !in port && ':' !in port
    ensures var hp := "[" + host + "]:" + port;
            LastIndex(hp, ':') == |host| + 2 && hp[0] == '[' && IndexOf(hp, ']') == |host| + 1
            && hp[1..|host| + 1] == host && hp[|host| + 3..] == port
            && '[' !in hp[1..] && ']' !in hp[|host| + 2..]
  {
    var hp := "[" + host + "]:" + port;
    LastIndexBefore(hp, |host| + 2, ':');
    BracketedClose(host, port);
  }

  lemma BracketedClose(host: string, port: string)
    requires '[' !in host && ']' !in host
    requires '[' !in port && ']' !in port
    ensures var hp := "[" + host + "]:" + port;
            IndexOf(hp, ']') == |host| + 1 && hp[1..|host| + 1] == host && hp[|host| + 3..] == port
            && '[' !in hp[1..] && ']' !in hp[|host| + 2..]
  {
    var open, tail := "[" + host, ":" + port;
    var hp := open + "]" + tail;
    assert hp == "[" + host + "]:" + port;
    assert ']' !in open;
    IndexOfAfterFree(open, ']', tail);
    assert hp[1..|host| + 1] == host;
    assert hp[1..] == host + "]" + tail;
    assert hp[|host| + 2..] == tail;
  }

  lemma CheckBracketsOk(hostport: string, host: string, j: nat, k: nat, i: nat)
    requires j <= k <= i < |hostport|
    requires '[' !in hostport[j..] && ']' !in hostport[k..]
    ensures CheckBrackets(hostport, host, j, k, i) == Some(HostPort(host, hostport[i + 1..]))
  {
  }

  lemma SplitPlain(host: string, port: string)
    requires ':' !in host && '[' !in host && ']' !in host
    requires '[' !in port && ']' !in port && ':' !in port
    ensures SplitHostPort(host + ":" + port) == Some(HostPort(host, port))
  {
    var hp := host + ":" + port;
    LastIndexBefore(hp, |host|, ':');
    assert hp[..|host|] == host;
    assert hp[0..] == hp;
  }

  lemma LastIndexBefore(s: string, i: nat, c: char)
    requires i < |s| && s[i] == c
    requires forall k :: i < k < |s| ==> s[k] != c
    ensures LastIndex(s, c) == i
  {
  }
}
