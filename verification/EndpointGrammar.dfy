/** Which texts are accepted as hosts, ports and endpoints, and as what, written out. */
module EndpointGrammar {
  import opened Decimal
  import opened Endpoint
  import opened Options
  import opened Search
  import opened Utf8

  // ---------------------------------------------------------------------------------------------
  // IPv4

  lemma {:induction false} NoLeadingZero(n: nat)
    ensures Digits(n)[0] == '0' ==> n == 0
  {
    if n >= 10 {
      NoLeadingZero(n / 10);
    }
  }

  lemma OctetIff(s: Text, n: nat)
    ensures IsOctet(s) && Value(s) == n <==> s == Digits(n) && n <= 255
  {
    if IsOctet(s) {
      DigitsOfValue(s);
    }
    if s == Digits(n) && n <= 255 {
      ValueOfDigits(n);
      NoLeadingZero(n);
      assert Pow10(3) == 10 * Pow10(2) && Pow10(2) == 10 * Pow10(1) && Pow10(1) == 10 * Pow10(0);
      DigitsAtMost(n, 3);
    }
  }

  /** An IPv4 address is four numbers up to 255, printed without superfluous zeros. */
  lemma Ipv4Iff(s: Text, x: Ipv4Address)
    ensures ParseIpv4(s) == Some(x) <==>
      && x.a <= 255 && x.b <= 255 && x.c <= 255 && x.d <= 255
      && s == Digits(x.a) + "." + Digits(x.b) + "." + Digits(x.c) + "." + Digits(x.d)
  {
    var p, q := Split(s, '.'), [Digits(x.a), Digits(x.b), Digits(x.c), Digits(x.d)];
    hide Split, IsOctet, Digits;
    if |p| == 4 {
      OctetIff(p[0], x.a);
      OctetIff(p[1], x.b);
      OctetIff(p[2], x.c);
      OctetIff(p[3], x.d);
      JoinFour(p, '.');
    }
    JoinFour(q, '.');
    SplitJoin(q, '.');
  }

  // ---------------------------------------------------------------------------------------------
  // Onion services

  /** `n` is a service of `length` base 32 characters in lower case, and `value` is that in either case, with or
      without a dot behind it. */
  predicate IsOnionText(value: Text, n: Text, length: nat) {
    && |value| <= 253 && |n| == length + 6 && n[length..] == ".onion"
    && (forall k | 0 <= k < length :: 'a' <= n[k] <= 'z' || '2' <= n[k] <= '7')
    && (LowerText(value) == n || LowerText(value) == n + ".")
  }

  lemma OnionAccepted(value: Text, n: Text, length: nat)
    requires IsOnionText(value, n, length) && (length == 16 || length == 56)
    ensures ParseName(value) == Some(if length == 16 then OnionV2(n) else OnionV3(n))
  {
    var name, lower := WithoutDot(value), LowerText(WithoutDot(value));
    LastByte(value, n, length);
    assert forall c | c in value :: IsAscii(c) by {
      LowerAscii(value, n);
    }
    assert lower[..|lower| - 6] == n[..length] && lower[|lower| - 6..] == n[length..];
    assert forall c | c in n[..length] :: IsBase32(c);
    hide LowerText, IsBase32, WithoutDot;
  }

  lemma LastByte(value: Text, n: Text, length: nat)
    requires IsOnionText(value, n, length)
    ensures LowerText(WithoutDot(value)) == n && WithoutDot(value) != [] && |ONION| == 6
  {
    var low := LowerText(value);
    assert n[|n| - 1] == n[length..][5] == 'n';
    assert value[|value| - 1] == '.' <==> low[|value| - 1] == '.';
    if low == n + "." {
      assert LowerText(value[..|n|]) == low[..|n|] == n;
    }
  }

  lemma LowerAscii(value: Text, n: Text)
    requires (LowerText(value) == n || LowerText(value) == n + ".") && forall k | 0 <= k < |n| :: IsAscii(n[k])
    ensures forall c | c in value :: IsAscii(c)
  {
    forall k | 0 <= k < |value| ensures IsAscii(value[k]) {
      assert LowerText(value)[k] == Lower(value[k]);
      assert k < |n| ==> LowerText(value)[k] == n[k];
    }
  }

  lemma AcceptedOnionIs(value: Text)
    requires ParseName(value).Some? && !ParseName(value).value.Name?
    ensures var host := ParseName(value).value;
      IsOnionText(value, host.name, if host.OnionV2? then 16 else 56)
  {
    var name, lower := WithoutDot(value), LowerText(WithoutDot(value));
    assert lower == lower[..|lower| - 6] + ".onion";
    assert forall k | 0 <= k < |lower| - 6 :: lower[k] in lower[..|lower| - 6];
    if value != name {
      assert value == name + ".";
      assert LowerText(value) == lower + ".";
    }
  }

  lemma OnionIff(value: Text, n: Text)
    ensures ParseName(value) == Some(OnionV2(n)) <==> IsOnionText(value, n, 16)
    ensures ParseName(value) == Some(OnionV3(n)) <==> IsOnionText(value, n, 56)
  {
    hide ParseName, IsOnionText;
    if ParseName(value).Some? && !ParseName(value).value.Name? {
      AcceptedOnionIs(value);
    }
    if IsOnionText(value, n, 16) {
      OnionAccepted(value, n, 16);
    }
    if IsOnionText(value, n, 56) {
      OnionAccepted(value, n, 56);
    }
  }

  // ---------------------------------------------------------------------------------------------
  // Ports

  /** Decimal digits, leading zeros or none, perhaps behind a plus sign, that stand for at most 65535. */
  predicate IsPortText(s: Text, d: Text, n: nat) {
    (s == d || s == "+" + d) && d != "" && AllDigits(d) && Value(d) == n <= 65535
  }

  lemma PortIff(s: Text, n: nat)
    ensures ParsePort(s) == Some(n) <==> exists d :: IsPortText(s, d, n)
  {
    hide Value;
    if ParsePort(s) == Some(n) {
      var d := if |s| > 1 && s[0] == '+' then s[1..] else s;
      assert IsPortText(s, d, n);
    }
    if d :| IsPortText(s, d, n) {
      assert d[0] in d;
      assert s == "+" + d ==> s[1..] == d;
    }
  }

  lemma PortIsPlain(s: Text)
    requires ParsePort(s).Some?
    ensures ':' !in s && ']' !in s
  {
    var d := if |s| > 1 && s[0] == '+' then s[1..] else s;
    assert s == d || s == "+" + d;
  }

  // ---------------------------------------------------------------------------------------------
  // Hosts

  predicate IsV6Text(v: Ipv6, s: Text, h: Text) {
    v.parse(s).Some? && h == v.display(v.parse(s).value)
  }

  /** An IPv4 address or a host name, which stay as they are, or an onion service, which gets lower case. */
  ghost predicate IsNameText(s: Text, h: Text) {
    || (h == s && exists x :: ParseIpv4(s) == Some(x))
    || (h == s && exists labels :: Names(s, labels))
    || IsOnionText(s, h, 16) || IsOnionText(s, h, 56)
  }

  /** A host without white space around it, normalised to `h`: an IPv6 address in brackets or bare, or a name. */
  ghost predicate IsHost(v: Ipv6, s: Text, h: Text) {
    && s != "" && Trim(s) == s
    && if s[0] == '[' || s[|s| - 1] == ']' then
         |s| >= 2 && s[0] == '[' && s[|s| - 1] == ']' && IsV6Text(v, s[1..|s| - 1], h)
       else
         IsV6Text(v, s, h) || (v.parse(s).None? && ':' !in s && IsNameText(s, h))
  }

  lemma OnionIsNotIpv4(s: Text, h: Text, length: nat)
    requires IsOnionText(s, h, length)
    ensures ParseIpv4(s).None?
  {
    assert h[|h| - 1] == h[length..][5] == 'n';
    assert LowerText(s)[|h| - 1] == Lower(s[|h| - 1]) == 'n';
    assert s[|h| - 1] in s;
    if ParseIpv4(s).Some? {
      OctetsArePlain(s);
    }
  }

  /** What a host that is no IPv6 address is read as. */
  lemma NameTextIff(s: Text, h: Text)
    ensures IsNameText(s, h) <==>
      (if ParseIpv4(s).Some? then h == PrintIpv4(ParseIpv4(s).value)
       else
         && ParseName(s) in [Some(Name(h)), Some(OnionV2(h)), Some(OnionV3(h))]
         && (ParseName(s) == Some(Name(h)) ==> h == s))
  {
    if ParseIpv4(s).Some? {
      Ipv4IsCanonical(s);
      assert exists x :: ParseIpv4(s) == Some(x);
    }
    NameIff(s);
    OnionIff(s, h);
    hide ParseIpv4, ParseName, IsOnionText, Names;
    if IsOnionText(s, h, 16) {
      OnionIsNotIpv4(s, h, 16);
    }
    if IsOnionText(s, h, 56) {
      OnionIsNotIpv4(s, h, 56);
    }
  }

  /** Exactly these texts are accepted as hosts, and this is what becomes of them. */
  lemma HostIff(v: Ipv6, s: Text, h: Text)
    ensures NormalizeReported(v, s) == Some(h) <==> IsHost(v, s, h)
  {
    BareNameIff(s, h);
    hide Trim, ParseIpv4, ParseName, IsNameText, PrintIpv4;
  }

  lemma BareNameIff(s: Text, h: Text)
    ensures var host := if ParseIpv4(s).Some? then Some(Ipv4(ParseIpv4(s).value)) else ParseName(s);
      && (host.Some? ==> !host.value.V6?)
      && (IsNameText(s, h) <==>
          host.Some? && h == if host.value.Ipv4? then PrintIpv4(host.value.v4) else host.value.name)
  {
    NameTextIff(s, h);
    if ParseName(s).Some? && ParseName(s).value.Name? {
      NameOnlyItself(s);
    }
    hide ParseIpv4, ParseName, IsNameText, PrintIpv4;
  }

  /** An outbound host is the same, but no version 2 onion service. */
  lemma OutboundIff(v: Ipv6, s: Text, h: Text)
    requires Lawful(v)
    ensures NormalizeOutbound(v, s) == Some(h) <==> IsHost(v, s, h) && !(|h| == 22 && h[16..] == ".onion")
  {
    HostIff(v, s, h);
    hide Trim, ParseIpv4, ParseName, IsHost;
    var host := ParseHost(v, s);
    if host.Some? && CanonicalHost(v, host.value) == h {
      OnionByText(v, s);
    }
  }

  lemma OnionByText(v: Ipv6, s: Text)
    requires Lawful(v) && ParseHost(v, s).Some?
    ensures var host := ParseHost(v, s).value; var h := CanonicalHost(v, host);
      host.OnionV2? <==> |h| == 22 && h[16..] == ".onion"
  {
    hide Trim, ParseIpv4, ParseName, PrintIpv4, IsOnionText;
    var host := ParseHost(v, s).value;
    var h := CanonicalHost(v, host);
    match host
    case Ipv4(_) =>
      Ipv4IsCanonical(s);
      OctetsArePlain(s);
      NoNNoOnion(h);
    case V6(_) =>
      assert forall c | c in h :: IsIpv6Char(c);
      NoNNoOnion(h);
    case Name(_) =>
      NameIsNoOnion(s);
    case OnionV2(n) =>
      OnionIff(s, n);
      OnionLength(s, n, 16);
    case OnionV3(n) =>
      OnionIff(s, n);
      OnionLength(s, n, 56);
  }

  lemma NoNNoOnion(h: Text)
    requires 'n' !in h
    ensures !(|h| == 22 && h[16..] == ".onion")
  {
    assert ".onion"[5] == 'n';
    assert |h| == 22 ==> h[16..][5] in h;
  }

  lemma OnionLength(s: Text, n: Text, length: nat)
    requires IsOnionText(s, n, length)
    ensures |n| == length + 6 && n[length..] == ".onion"
  {
  }

  lemma NameIsNoOnion(s: Text)
    requires ParseName(s).Some? && ParseName(s).value.Name?
    ensures ParseName(s).value.name == s && !(|s| == 22 && s[16..] == ".onion")
  {
    LowerEnding(s);
    hide LowerText, WithoutDot;
  }

  lemma LowerEnding(s: Text)
    ensures |s| == 22 && s[16..] == ".onion" ==> EndsWith(LowerText(WithoutDot(s)), ONION)
  {
    if |s| == 22 && s[16..] == ".onion" {
      assert s[21] == s[16..][5] == 'n';
      var low := LowerText(s);
      assert forall k | 16 <= k < 22 :: s[k] == s[16..][k - 16] && low[k] == s[k];
      assert low[16..] == ".onion" && |ONION| == 6;
    }
  }

  // ---------------------------------------------------------------------------------------------
  // Endpoints

  predicate NoBracketColon(s: Text) {
    forall k | 0 < k < |s| :: !(s[k - 1] == ']' && s[k] == ':')
  }

  /** A host, a colon and a port; a host with a colon of its own is in brackets. */
  ghost predicate IsEndpoint(v: Ipv6, value: Text, host: Text, port: Text, p: nat, h: Text) {
    && value == host + ":" + port && ParsePort(port) == Some(p) && p > 0 && NormalizeReported(v, host) == Some(h)
    && host != ""
    && if host[0] == '[' then |host| > 2 && host[|host| - 1] == ']' && NoBracketColon(host[1..|host| - 1])
       else ':' !in host
  }

  lemma {:induction false} BracketColonFirst(s: Text)
    ensures forall k | 0 < k <= IndexOfBracketColon(s) && k < |s| :: !(s[k - 1] == ']' && s[k] == ':')
  {
    if |s| >= 2 && !(s[0] == ']' && s[1] == ':') {
      BracketColonFirst(s[1..]);
      forall k | 0 < k <= IndexOfBracketColon(s) && k < |s| ensures !(s[k - 1] == ']' && s[k] == ':') {
        if k > 1 {
          assert s[k] == s[1..][k - 1] && s[k - 1] == s[1..][k - 2];
        }
      }
    }
  }

  lemma BracketColonIs(inner: Text, port: Text)
    requires NoBracketColon(inner)
    ensures IndexOfBracketColon(inner + "]:" + port) == |inner|
  {
    var s := inner + "]:" + port;
    BracketColonFirst(s);
    var i := IndexOfBracketColon(s);
    assert s[|inner|] == ']' && s[|inner| + 1] == ':';
    assert forall k | 0 <= k < |inner| :: s[k] == inner[k];
  }

  lemma BracketedSplits(inner: Text, port: Text)
    requires inner != "" && NoBracketColon(inner) && ':' !in port && ']' !in port
    ensures SplitEndpoint("[" + inner + "]" + ":" + port) == Some(("[" + inner + "]", port))
  {
    var s, rest := "[" + inner + "]" + ":" + port, inner + "]:" + port;
    BracketColonIs(inner, port);
    hide IndexOfBracketColon;
    assert s[1..] == rest;
    assert rest[..|inner|] == inner && rest[|inner| + 2..] == port;
  }

  lemma BareSplits(host: Text, port: Text)
    requires host != "" && host[0] != '[' && ':' !in host && ':' !in port
    ensures SplitEndpoint(host + ":" + port) == Some((host, port))
  {
    var s := host + ":" + port;
    assert s[|host|] == ':' && forall k | 0 <= k < |host| :: s[k] == host[k] && host[k] in host;
    assert IndexOf(s, ':') == |host|;
    assert s[..|host|] == host && s[|host| + 1..] == port;
  }

  lemma EndpointSplits(v: Ipv6, value: Text, host: Text, port: Text, p: nat, h: Text)
    requires IsEndpoint(v, value, host, port, p, h)
    ensures SplitEndpoint(value) == Some((host, port))
  {
    PortIsPlain(port);
    hide ParsePort, NormalizeReported, SplitEndpoint;
    if host[0] == '[' {
      var inner := host[1..|host| - 1];
      assert host == "[" + inner + "]";
      BracketedSplits(inner, port);
    } else {
      BareSplits(host, port);
    }
  }

  lemma SplitsOnce(value: Text)
    requires SplitEndpoint(value).Some?
    ensures var (host, port) := SplitEndpoint(value).value;
      && value == host + ":" + port && host != ""
      && if host[0] == '[' then |host| > 2 && host[|host| - 1] == ']' && NoBracketColon(host[1..|host| - 1])
         else ':' !in host
  {
    var (host, port) := SplitEndpoint(value).value;
    if value[0] == '[' {
      var rest := value[1..];
      var i := IndexOfBracketColon(rest);
      BracketColonFirst(rest);
      assert rest == rest[..i] + "]:" + rest[i + 2..];
      assert value == "[" + rest;
      assert host[1..|host| - 1] == rest[..i];
    }
  }

  /** An endpoint is accepted exactly when it is a host that is accepted and a port from 1 to 65535, with no
      white space around; it comes out as the normal host, an IPv6 address in brackets, and the port. */
  lemma EndpointIff(v: Ipv6, value: Text, out: Text)
    ensures ParseEndpoint(v, value) == Some(out) <==>
      Trim(value) == value && exists host, port, p: nat, h ::
        IsEndpoint(v, value, host, port, p, h) && out == Printed(v, h, p)
  {
    hide SplitEndpoint, ParsePort, Trim, NormalizeReported, Digits;
    if ParseEndpoint(v, value) == Some(out) {
      var (host, port) := SplitEndpoint(value).value;
      SplitsOnce(value);
      assert IsEndpoint(v, value, host, port, ParsePort(port).value, NormalizeReported(v, host).value);
    }
    if host, port, p: nat, h :| IsEndpoint(v, value, host, port, p, h) && out == Printed(v, h, p) {
      EndpointSplits(v, value, host, port, p, h);
    }
  }

  function Printed(v: Ipv6, h: Text, p: nat): Text {
    (if v.parse(h).Some? then "[" + h + "]" else h) + ":" + Digits(p)
  }

  /** The host of a peer address is trimmed first; a blank one is refused before the port is looked at, and the
      port before the host is. */
  lemma PeerAddressIff(v: Ipv6, host: Text, port: nat)
    requires Lawful(v)
    ensures var r := NewPeerAddress(v, host, port);
      && (r == Err(HostBlank) <==> Trim(host) == "")
      && (r == Err(PortZero) <==> Trim(host) != "" && port == 0)
      && (forall h :: r == Ok((h, port)) <==>
          port != 0 && IsHost(v, Trim(host), h) && !(|h| == 22 && h[16..] == ".onion"))
      && (r.Ok? ==> r.value.1 == port)
  {
    hide NormalizeOutbound, Trim;
    forall h
      ensures NormalizeOutbound(v, Trim(host)) == Some(h) <==>
        IsHost(v, Trim(host), h) && !(|h| == 22 && h[16..] == ".onion")
    {
      OutboundIff(v, Trim(host), h);
    }
    assert forall h :: IsHost(v, Trim(host), h) ==> Trim(host) != "";
    hide IsHost;
  }
}
