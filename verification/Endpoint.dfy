/** Peer endpoints: parsing a reported `host:port`, normalising an outbound host, and printing both in one
    canonical form. Host names follow section 2.1 of RFC 1123 and section 2.3.4 of RFC 1035, bracketed
    addresses section 3.2.2 of RFC 3986. */
module Endpoint {
  import opened Decimal
  import opened Options
  import opened Search
  import opened Utf8

  const MAX_NAME_BYTES: nat := 253
  const MAX_LABEL_BYTES: nat := 63
  const MAX_PORT: nat := 65_535
  const ONION: Text := ".onion"

  // ---------------------------------------------------------------------------------------------
  // White space

  predicate IsWideSpace(a: char, b: char, c: char) {
    var x, y, z := a as int, b as int, c as int;
    || (x == 0xE1 && y == 0x9A && z == 0x80)
    || (x == 0xE2 && y == 0x80 && (0x80 <= z <= 0x8A || z == 0xA8 || z == 0xA9 || z == 0xAF))
    || (x == 0xE2 && y == 0x81 && z == 0x9F)
    || (x == 0xE3 && y == 0x80 && z == 0x80)
  }

  predicate IsNarrowSpace(c: char) { 9 <= c as int <= 13 || c as int == 32 }

  predicate IsLatinSpace(a: char, b: char) { a as int == 0xC2 && (b as int == 0x85 || b as int == 0xA0) }

  /** Bytes of the white space character that a text starts with, 0 if there is none. */
  function LeadingSpace(s: Text): (n: nat)
    ensures n <= |s|
  {
    if |s| >= 1 && IsNarrowSpace(s[0]) then 1
    else if |s| >= 2 && IsLatinSpace(s[0], s[1]) then 2
    else if |s| >= 3 && IsWideSpace(s[0], s[1], s[2]) then 3
    else 0
  }

  function TrailingSpace(s: Text): (n: nat)
    ensures n <= |s|
  {
    if |s| >= 1 && IsNarrowSpace(s[|s| - 1]) then 1
    else if |s| >= 2 && IsLatinSpace(s[|s| - 2], s[|s| - 1]) then 2
    else if |s| >= 3 && IsWideSpace(s[|s| - 3], s[|s| - 2], s[|s| - 1]) then 3
    else 0
  }

  /** `str::trim`. */
  function Trim(s: Text): (r: Text)
    ensures LeadingSpace(s) == 0 && TrailingSpace(s) == 0 ==> r == s
    decreases |s|
  {
    if LeadingSpace(s) > 0 then Trim(s[LeadingSpace(s)..])
    else if TrailingSpace(s) > 0 then Trim(s[..|s| - TrailingSpace(s)])
    else s
  }

  /** Visible ASCII characters only. */
  predicate Graphic(s: Text) { forall c | c in s :: '!' <= c <= '~' }

  lemma GraphicIsNoSpace(c: char)
    requires '!' <= c <= '~'
    ensures !IsNarrowSpace(c)
    ensures forall b :: !IsLatinSpace(c, b)
    ensures forall b, d :: !IsWideSpace(c, b, d)
  {
  }

  lemma GraphicIsTrimmed(s: Text)
    requires Graphic(s)
    ensures Trim(s) == s
  {
    hide Trim, IsNarrowSpace, IsLatinSpace, IsWideSpace;
    assert forall k | 0 <= k < |s| :: s[k] in s;
    if s != [] {
      GraphicIsNoSpace(s[0]);
      GraphicIsNoSpace(s[|s| - 1]);
    }
    if |s| >= 2 {
      GraphicIsNoSpace(s[|s| - 2]);
    }
    if |s| >= 3 {
      GraphicIsNoSpace(s[|s| - 3]);
    }
  }

  // ---------------------------------------------------------------------------------------------
  // Splitting

  /** `str::split` by one character. */
  function Split(s: Text, sep: char): (parts: seq<Text>)
    ensures |parts| > 0 && JoinWith(parts, sep) == s && forall p | p in parts :: sep !in p
    decreases |s|
  {
    var i := IndexOf(s, sep);
    if i == |s| then
      assert s[..i] == s;
      [s]
    else
      assert s == s[..i] + [sep] + s[i + 1..];
      [s[..i]] + Split(s[i + 1..], sep)
  }

  function JoinWith(parts: seq<Text>, sep: char): Text
    requires |parts| > 0
  {
    if |parts| == 1 then parts[0] else parts[0] + [sep] + JoinWith(parts[1..], sep)
  }

  // ---------------------------------------------------------------------------------------------
  // Addresses

  /** Four decimal octets without superfluous zeros. */
  predicate IsOctet(s: Text) {
    1 <= |s| <= 3 && AllDigits(s) && (s[0] == '0' ==> |s| == 1) && Value(s) <= 255
  }

  datatype Ipv4Address = Ipv4Address(a: nat, b: nat, c: nat, d: nat)

  function ParseIpv4(s: Text): Option<Ipv4Address> {
    var p := Split(s, '.');
    if |p| == 4 && IsOctet(p[0]) && IsOctet(p[1]) && IsOctet(p[2]) && IsOctet(p[3]) then
      Some(Ipv4Address(Value(p[0]), Value(p[1]), Value(p[2]), Value(p[3])))
    else None
  }

  function PrintIpv4(x: Ipv4Address): Text {
    Digits(x.a) + "." + Digits(x.b) + "." + Digits(x.c) + "." + Digits(x.d)
  }

  /** An accepted IPv4 text is already in canonical form. */
  lemma Ipv4IsCanonical(s: Text)
    requires ParseIpv4(s).Some?
    ensures PrintIpv4(ParseIpv4(s).value) == s
  {
    var p := Split(s, '.');
    DigitsOfValue(p[0]);
    DigitsOfValue(p[1]);
    DigitsOfValue(p[2]);
    DigitsOfValue(p[3]);
    JoinFour(p, '.');
    assert JoinWith(p, '.') == s;
  }

  lemma JoinFour(p: seq<Text>, sep: char)
    requires |p| == 4
    ensures JoinWith(p, sep) == p[0] + [sep] + p[1] + [sep] + p[2] + [sep] + p[3]
  {
    var q, r := p[1..], p[2..];
    assert q[1..] == r && r[1..] == p[3..];
    assert JoinWith(r, sep) == p[2] + [sep] + p[3];
    assert JoinWith(q, sep) == p[1] + [sep] + JoinWith(r, sep);
  }

  /** The library's IPv6 addresses, numbered in any way. */
  datatype Ipv6 = Ipv6(parse: Text -> Option<nat>, display: nat -> Text)

  predicate IsIpv6Char(c: char) { IsDigit(c) || 'a' <= c <= 'f' || c == ':' || c == '.' }

  /** Printed addresses are accepted again, and consist of hexadecimal digits, colons and dots; accepted
      texts have a colon. */
  ghost predicate Lawful(v: Ipv6) {
    forall s | v.parse(s).Some? ::
      && ':' in s
      && v.parse(v.display(v.parse(s).value)) == v.parse(s)
      && forall c | c in v.display(v.parse(s).value) :: IsIpv6Char(c)
  }

  // ---------------------------------------------------------------------------------------------
  // Hosts

  datatype PeerHost =
    | Ipv4(v4: Ipv4Address) | V6(v6: nat) | Name(name: Text) | OnionV2(name: Text) | OnionV3(name: Text)

  predicate IsAlphanumeric(c: char) { IsDigit(c) || 'a' <= c <= 'z' || 'A' <= c <= 'Z' }

  predicate IsBase32(c: char) { 'a' <= c <= 'z' || '2' <= c <= '7' }

  predicate IsLabel(l: Text) {
    && 0 < |l| <= MAX_LABEL_BYTES && l[0] != '-' && l[|l| - 1] != '-'
    && forall c | c in l :: IsAlphanumeric(c) || c == '-'
  }

  predicate EndsWith(s: Text, t: Text) { |t| <= |s| && s[|s| - |t|..] == t }

  function WithoutDot(s: Text): Text {
    if s != [] && s[|s| - 1] == '.' then s[..|s| - 1] else s
  }

  /** `parse_name`. */
  function ParseName(value: Text): (r: Option<PeerHost>)
    ensures r.Some? ==> r.value.Name? || r.value.OnionV2? || r.value.OnionV3?
  {
    var name := WithoutDot(value);
    var lower := LowerText(name);
    if (exists c | c in value :: !IsAscii(c)) || |value| > MAX_NAME_BYTES || name == [] then None
    else if EndsWith(lower, ONION) then
      var service := lower[..|lower| - |ONION|];
      if exists c | c in service :: !IsBase32(c) then None
      else if |service| == 16 then Some(OnionV2(lower))
      else if |service| == 56 then Some(OnionV3(lower))
      else None
    else if forall c | c in name :: IsDigit(c) || c == '.' then None
    else if exists l | l in Split(name, '.') :: !IsLabel(l) then None
    else Some(Name(value))
  }

  /** `parse_host`. */
  function ParseHost(v: Ipv6, value: Text): Option<PeerHost> {
    if value == [] || value != Trim(value) then None
    else if value[0] == '[' || value[|value| - 1] == ']' then
      if |value| < 2 || value[0] != '[' || value[|value| - 1] != ']' then None
      else
        var address := v.parse(value[1..|value| - 1]);
        if address.Some? then Some(V6(address.value)) else None
    else if v.parse(value).Some? then Some(V6(v.parse(value).value))
    else if ':' in value then None
    else if ParseIpv4(value).Some? then Some(Ipv4(ParseIpv4(value).value))
    else ParseName(value)
  }

  function CanonicalHost(v: Ipv6, host: PeerHost): Text {
    match host
    case Ipv4(address) => PrintIpv4(address)
    case V6(address) => v.display(address)
    case Name(name) => name
    case OnionV2(name) => name
    case OnionV3(name) => name
  }

  /** `normalize_reported_peer_host`. */
  function NormalizeReported(v: Ipv6, value: Text): Option<Text> {
    match ParseHost(v, value)
    case None => None
    case Some(host) => Some(CanonicalHost(v, host))
  }

  /** `normalize_outbound_peer_host`: like a reported host, but no version 2 onion service. */
  function NormalizeOutbound(v: Ipv6, value: Text): Option<Text> {
    match ParseHost(v, value)
    case None => None
    case Some(OnionV2(_)) => None
    case Some(host) => Some(CanonicalHost(v, host))
  }

  // ---------------------------------------------------------------------------------------------
  // Endpoints

  /** `u16::from_str`: digits, perhaps after one plus sign and with leading zeros. */
  function ParsePort(s: Text): Option<nat> {
    var digits := if |s| > 1 && s[0] == '+' then s[1..] else s;
    if digits != [] && AllDigits(digits) && Value(digits) <= MAX_PORT then Some(Value(digits)) else None
  }

  /** `serialize_peer_endpoint`. */
  function Serialize(v: Ipv6, host: Text, port: nat): Text {
    (if v.parse(host).Some? then "[" + host + "]" else host) + ":" + Digits(port)
  }

  /** Where the first `]:` is, or the length. */
  function IndexOfBracketColon(s: Text): (i: nat)
    ensures i <= |s| && (i < |s| ==> i + 1 < |s| && s[i] == ']' && s[i + 1] == ':')
  {
    if |s| < 2 then |s|
    else if s[0] == ']' && s[1] == ':' then 0
    else 1 + IndexOfBracketColon(s[1..])
  }

  /** The host, brackets included, and the port of an endpoint, still as text. */
  function SplitEndpoint(value: Text): Option<(Text, Text)> {
    if value != [] && value[0] == '[' then
      var rest := value[1..];
      var i := IndexOfBracketColon(rest);
      if i == |rest| || i == 0 then None
      else
        var port := rest[i + 2..];
        if ':' in port || ']' in port then None else Some(("[" + rest[..i] + "]", port))
    else
      var i := IndexOf(value, ':');
      if i == |value| || i == 0 || ':' in value[i + 1..] then None else Some((value[..i], value[i + 1..]))
  }

  /** `parse_peer_endpoint`. */
  function ParseEndpoint(v: Ipv6, value: Text): Option<Text> {
    if value != Trim(value) then None
    else
      match SplitEndpoint(value)
      case None => None
      case Some((host, portText)) =>
        var port := ParsePort(portText);
        if port.None? || port.value == 0 then None
        else
          match NormalizeReported(v, host)
          case None => None
          case Some(normal) => Some(Serialize(v, normal, port.value))
  }

  datatype PeerError = HostBlank | PortZero | HostInvalid

  /** `PeerAddress::new`: the host is trimmed before it is normalised. */
  function NewPeerAddress(v: Ipv6, host: Text, port: nat): Result<(Text, nat), PeerError> {
    var trimmed := Trim(host);
    if trimmed == [] then Err(HostBlank)
    else if port == 0 then Err(PortZero)
    else
      match NormalizeOutbound(v, trimmed)
      case None => Err(HostInvalid)
      case Some(normal) => Ok((normal, port))
  }

  // ---------------------------------------------------------------------------------------------
  // Canonical hosts

  /** What is known of every canonical host that is no IPv6 address. */
  predicate IsPlain(s: Text) {
    s != [] && Graphic(s) && ':' !in s && '[' !in s && ']' !in s
  }

  lemma {:induction false} JoinPlain(parts: seq<Text>, sep: char)
    requires |parts| > 0
    ensures forall c | c in JoinWith(parts, sep) :: c == sep || exists p :: p in parts && c in p
  {
    if |parts| > 1 {
      JoinPlain(parts[1..], sep);
      assert forall p | p in parts[1..] :: p in parts;
    }
    assert parts[0] in parts;
  }

  lemma NameIsPlain(value: Text)
    requires ParseName(value).Some? && ParseName(value).value.Name?
    ensures IsPlain(value)
  {
    var name := WithoutDot(value);
    JoinPlain(Split(name, '.'), '.');
    forall c | c in value ensures c == '.' || c == '-' || IsAlphanumeric(c) {
      if c in name {
        assert c == '.' || exists p :: p in Split(name, '.') && c in p;
      }
    }
  }

  /** Bytes of a lower-case onion name. */
  predicate IsOnionByte(c: char) { IsBase32(c) || c == '.' }

  lemma OnionBytes(service: Text)
    requires forall c | c in service :: IsBase32(c)
    ensures |ONION| == 6 && forall c | c in service + ONION :: IsOnionByte(c)
  {
    assert ONION == ['.', 'o', 'n', 'i', 'o', 'n'];
  }

  lemma OnionBytesArePlain(s: Text)
    requires s != [] && forall c | c in s :: IsOnionByte(c)
    ensures IsPlain(s) && forall c | c in s :: IsAscii(c)
  {
    assert forall c | IsOnionByte(c) :: c != ':' && c != '[' && c != ']';
    assert forall k | 0 <= k < |s| :: s[k] in s;
  }

  lemma OnionBytesAreLower(s: Text)
    requires forall c | c in s :: IsOnionByte(c)
    ensures LowerText(s) == s
  {
    forall k | 0 <= k < |s| ensures Lower(s[k]) == s[k] {
      assert s[k] in s;
    }
  }

  lemma OnionEnds(service: Text)
    ensures var s := service + ONION;
      |ONION| == 6 && s[..|s| - 6] == service && s[|s| - 6..] == ONION && s[|s| - 1] == 'n'
  {
  }

  lemma OnionText(service: Text)
    requires forall c | c in service :: IsBase32(c)
    ensures var s := service + ONION;
      && IsPlain(s) && LowerText(s) == s && WithoutDot(s) == s && EndsWith(s, ONION)
      && s[..|s| - |ONION|] == service && forall c | c in s :: IsAscii(c)
  {
    OnionBytes(service);
    OnionEnds(service);
    hide IsOnionByte, IsPlain, LowerText, IsBase32;
    OnionBytesArePlain(service + ONION);
    OnionBytesAreLower(service + ONION);
  }

  /** An onion service by its name: the version follows from its length. */
  function Onion(service: Text): PeerHost {
    if |service| == 16 then OnionV2(service + ONION) else OnionV3(service + ONION)
  }

  lemma AcceptedOnion(value: Text) returns (service: Text)
    requires ParseName(value).Some? && !ParseName(value).value.Name?
    ensures |service| == 16 || |service| == 56
    ensures (forall c | c in service :: IsBase32(c)) && ParseName(value) == Some(Onion(service))
  {
    hide IsBase32, LowerText, WithoutDot;
    var lower := LowerText(WithoutDot(value));
    service := lower[..|lower| - |ONION|];
    assert lower == service + ONION;
  }

  lemma OnionParses(service: Text)
    requires (|service| == 16 || |service| == 56) && forall c | c in service :: IsBase32(c)
    ensures ParseName(service + ONION) == Some(Onion(service))
  {
    OnionText(service);
    hide IsBase32, LowerText, WithoutDot, EndsWith, IsPlain, Split;
  }

  lemma OnionIsStable(value: Text)
    requires ParseName(value).Some? && !ParseName(value).value.Name?
    ensures var host := ParseName(value).value;
      IsPlain(host.name) && ParseName(host.name) == Some(host) && EndsWith(host.name, ONION)
  {
    var service := AcceptedOnion(value);
    hide ParseName;
    OnionText(service);
    OnionParses(service);
  }

  lemma OctetsArePlain(s: Text)
    requires ParseIpv4(s).Some?
    ensures IsPlain(s) && forall c | c in s :: IsDigit(c) || c == '.'
  {
    var p := Split(s, '.');
    JoinPlain(p, '.');
    assert p[0] in p && p[1] in p && p[2] in p && p[3] in p;
    forall c | c in s ensures IsDigit(c) || c == '.' {
      if c != '.' {
        var q :| q in p && c in q;
        assert IsOctet(q);
      }
    }
    assert |s| > 0 by {
      JoinFour(p, '.');
    }
  }

  /** Normalising a host once is enough: the canonical form is accepted as the same host, bare or, for an
      IPv6 address, in brackets; any other canonical host is plain text that is no IPv6 address. */
  lemma CanonicalIsStable(v: Ipv6, value: Text)
    requires Lawful(v) && ParseHost(v, value).Some?
    ensures var host := ParseHost(v, value).value;
      var c := CanonicalHost(v, host);
      && ParseHost(v, c) == Some(host)
      && (host.V6? ==> v.parse(c).Some? && Graphic(c) && '[' !in c && ']' !in c
                       && ParseHost(v, "[" + c + "]") == Some(host))
      && (!host.V6? ==> IsPlain(c) && v.parse(c).None?)
  {
    hide Trim, ParseIpv4, ParseName, IsPlain, Graphic, CanonicalHost;
    var host := ParseHost(v, value).value;
    if host.V6? {
      V6IsStable(v, value, host.v6);
    } else {
      assert v.parse(value).None? && ':' !in value;
      PlainIsStable(v, value, host);
    }
  }

  lemma V6IsStable(v: Ipv6, s: Text, address: nat)
    requires Lawful(v) && ParseHost(v, s) == Some(V6(address))
    ensures var c := CanonicalHost(v, V6(address));
      && v.parse(c).Some? && Graphic(c) && '[' !in c && ']' !in c
      && ParseHost(v, c) == Some(V6(address)) && ParseHost(v, "[" + c + "]") == Some(V6(address))
  {
    hide Trim, ParseIpv4, ParseName;
    var accepted := if s[0] == '[' then s[1..|s| - 1] else s;
    var c := v.display(address);
    assert v.parse(accepted) == Some(address);
    assert v.parse(c) == Some(address);
    assert forall x | x in c :: IsIpv6Char(x);
    assert c[0] in c && c[|c| - 1] in c by { assert ':' in c; }
    GraphicIsTrimmed(c);
    BracketedV6(v, c, address);
  }

  lemma BracketedV6(v: Ipv6, c: Text, address: nat)
    requires v.parse(c) == Some(address) && Graphic(c)
    ensures ParseHost(v, "[" + c + "]") == Some(V6(address))
  {
    hide Trim, ParseIpv4, ParseName;
    var b := "[" + c + "]";
    assert b[0] == '[' && b[|b| - 1] == ']' && b[1..|b| - 1] == c;
    GraphicIsTrimmed(b);
  }

  lemma PlainIsStable(v: Ipv6, value: Text, host: PeerHost)
    requires Lawful(v) && !host.V6? && ':' !in value
    requires host == (if ParseIpv4(value).Some? then Ipv4(ParseIpv4(value).value) else host)
    requires ParseIpv4(value).None? ==> ParseName(value) == Some(host)
    ensures var c := CanonicalHost(v, host);
      IsPlain(c) && v.parse(c).None? && ParseHost(v, c) == Some(host)
  {
    hide Trim, ParseIpv4, ParseName, EndsWith;
    var c := CanonicalHost(v, host);
    if ParseIpv4(value).Some? {
      Ipv4IsCanonical(value);
      OctetsArePlain(value);
    } else if host.Name? {
      NameOnlyItself(value);
      NameIsPlain(value);
    } else {
      OnionIsStable(value);
      OnionIsNoIpv4(c);
    }
    GraphicIsTrimmed(c);
    assert c[0] in c && c[|c| - 1] in c;
  }

  lemma NameOnlyItself(value: Text)
    requires ParseName(value).Some? && ParseName(value).value.Name?
    ensures ParseName(value).value.name == value
  {
  }

  lemma OnionIsNoIpv4(c: Text)
    requires EndsWith(c, ONION)
    ensures ParseIpv4(c).None?
  {
    assert c[|c| - 1] == ONION[5] == 'n' && c[|c| - 1] in c;
    if ParseIpv4(c).Some? {
      OctetsArePlain(c);
    }
  }

  // ---------------------------------------------------------------------------------------------
  // Which names are accepted

  /** Labels that make up a host name: no onion service, and not digits only. */
  predicate IsHostName(labels: seq<Text>) {
    && |labels| > 0 && (forall l | l in labels :: IsLabel(l))
    && !(|labels| > 1 && LowerText(labels[|labels| - 1]) == "onion")
    && exists l | l in labels :: !AllDigits(l)
  }

  lemma SplitHead(head: Text, sep: char, rest: Text)
    requires sep !in head
    ensures Split(head + [sep] + rest, sep) == [head] + Split(rest, sep)
  {
    var s := head + [sep] + rest;
    assert s[|head|] == sep && s[..|head|] == head && s[|head| + 1..] == rest;
    assert forall k | 0 <= k < |head| :: s[k] == head[k] && head[k] in head;
    assert IndexOf(s, sep) == |head|;
  }

  lemma {:induction false} SplitJoin(parts: seq<Text>, sep: char)
    requires |parts| > 0 && forall p | p in parts :: sep !in p
    ensures Split(JoinWith(parts, sep), sep) == parts
  {
    hide Split, IndexOf;
    assert parts[0] in parts;
    if |parts| > 1 {
      assert forall p | p in parts[1..] :: p in parts;
      SplitHead(parts[0], sep, JoinWith(parts[1..], sep));
      SplitJoin(parts[1..], sep);
      assert parts == [parts[0]] + parts[1..];
    } else {
      SplitWhole(parts[0], sep);
      assert parts == [parts[0]];
    }
  }

  lemma SplitWhole(s: Text, sep: char)
    requires sep !in s
    ensures Split(s, sep) == [s]
  {
  }

  lemma {:induction false} JoinLast(parts: seq<Text>, sep: char)
    requires |parts| > 1
    ensures var n := |parts| - 1; JoinWith(parts, sep) == JoinWith(parts[..n], sep) + [sep] + parts[n]
  {
    if |parts| > 2 {
      var n := |parts| - 1;
      JoinLast(parts[1..], sep);
      assert parts[1..][..n - 1] == parts[..n][1..];
    }
  }

  /** A name ends as an onion service exactly if its last label, not its only one, is `onion`. */
  lemma OnionEnding(front: Text, last: Text)
    requires '.' !in last
    ensures EndsWith(LowerText(front + "." + last), ONION) <==> LowerText(last) == "onion"
  {
    var s, l := LowerText(front + "." + last), LowerText(last);
    LowerJoined(front, last);
    LowerHasNoDot(last);
    hide LowerText;
    OnionSuffix(LowerText(front), l);
  }

  lemma LowerJoined(front: Text, last: Text)
    ensures LowerText(front + "." + last) == LowerText(front) + ['.'] + LowerText(last)
  {
  }

  lemma LowerHasNoDot(s: Text)
    requires '.' !in s
    ensures '.' !in LowerText(s)
  {
    forall k | 0 <= k < |s| ensures LowerText(s)[k] != '.' {
      assert s[k] in s;
    }
  }

  lemma OnionSuffix(front: Text, last: Text)
    requires '.' !in last
    ensures EndsWith(front + ['.'] + last, ONION) <==> last == "onion"
  {
    var s := front + ['.'] + last;
    assert ONION == ['.'] + "onion" && |ONION| == 6 && |"onion"| == 5;
    assert s[|front| + 1..] == last && s[|front|..] == ['.'] + last;
    if EndsWith(s, ONION) {
      var d := |s| - 6;
      assert s[d] == s[d..][0] == '.';
      assert forall k | |front| < k < |s| :: s[k] == last[k - |front| - 1] && s[k] in last;
      assert d <= |front|;
      OnionHasOneDot();
      assert forall k | d < k < |s| :: s[k] == s[d..][k - d] == ONION[k - d];
      assert s[|front|] == '.';
      assert last == s[d + 1..] == s[d..][1..] == "onion";
    }
  }

  lemma OnionHasOneDot()
    ensures |ONION| == 6 && forall k | 0 < k < 6 :: ONION[k] != '.'
  {
  }

  lemma NoDotNoOnion(name: Text)
    requires '.' !in name
    ensures !EndsWith(LowerText(name), ONION)
  {
    var s := LowerText(name);
    assert forall k | 0 <= k < |name| :: name[k] in name;
    assert |s| >= |ONION| ==> s[|s| - |ONION|..][0] == s[|s| - |ONION|] != '.';
  }

  lemma LabelsHaveNoDot(labels: seq<Text>)
    requires |labels| > 0 && forall l | l in labels :: IsLabel(l)
    ensures (forall l | l in labels :: '.' !in l)
    ensures var name := JoinWith(labels, '.');
      && name != [] && name[|name| - 1] != '.' && (forall c | c in name :: IsAscii(c))
      && (EndsWith(LowerText(name), ONION) <==> |labels| > 1 && LowerText(labels[|labels| - 1]) == "onion")
  {
    forall l | l in labels ensures '.' !in l {
      assert IsLabel(l);
    }
    JoinPlain(labels, '.');
    var last := labels[|labels| - 1];
    assert last in labels && IsLabel(last) && last[|last| - 1] in last;
    if |labels| > 1 {
      JoinLast(labels, '.');
      OnionEnding(JoinWith(labels[..|labels| - 1], '.'), last);
    } else {
      NoDotNoOnion(last);
    }
    forall c | c in JoinWith(labels, '.') ensures IsAscii(c) {
      if c != '.' {
        var l :| l in labels && c in l;
        assert IsLabel(l);
      }
    }
  }

  lemma {:induction false} DigitsOnly(labels: seq<Text>)
    requires |labels| > 0 && forall l | l in labels :: '.' !in l
    ensures (forall c | c in JoinWith(labels, '.') :: IsDigit(c) || c == '.') <==>
      forall l | l in labels :: AllDigits(l)
  {
    JoinPlain(labels, '.');
    JoinHasParts(labels, '.');
    if forall c | c in JoinWith(labels, '.') :: IsDigit(c) || c == '.' {
      forall l | l in labels ensures AllDigits(l) {
        forall c | c in l ensures IsDigit(c) {
          assert c in JoinWith(labels, '.');
        }
      }
    }
  }

  lemma {:induction false} JoinHasParts(parts: seq<Text>, sep: char)
    requires |parts| > 0
    ensures forall p, c | p in parts && c in p :: c in JoinWith(parts, sep)
  {
    if |parts| > 1 {
      JoinHasParts(parts[1..], sep);
      forall p, c | p in parts && c in p ensures c in JoinWith(parts, sep) {
        assert p == parts[0] || p in parts[1..];
      }
    }
  }

  /** The text is a host name's labels joined by dots, with or without a dot behind them, within 253 bytes. */
  predicate Names(value: Text, labels: seq<Text>) {
    && IsHostName(labels) && |value| <= MAX_NAME_BYTES
    && (value == JoinWith(labels, '.') || value == JoinWith(labels, '.') + ".")
  }

  lemma NamesAreAccepted(value: Text, labels: seq<Text>)
    requires Names(value, labels)
    ensures ParseName(value) == Some(Name(value))
  {
    var name := JoinWith(labels, '.');
    LabelsHaveNoDot(labels);
    hide IsLabel, EndsWith;
    assert WithoutDot(value) == name;
    DigitsOnly(labels);
    SplitJoin(labels, '.');
  }

  lemma AcceptedFacts(value: Text)
    requires ParseName(value) == Some(Name(value))
    ensures var name := WithoutDot(value); var labels := Split(name, '.');
      && (forall l | l in labels :: IsLabel(l)) && |value| <= MAX_NAME_BYTES
      && !EndsWith(LowerText(name), ONION) && !(forall c | c in name :: IsDigit(c) || c == '.')
      && (value == name || value == name + ".")
  {
    hide IsLabel, EndsWith, Split, IsBase32;
  }

  lemma AcceptedIsNamed(value: Text)
    requires ParseName(value) == Some(Name(value))
    ensures Names(value, Split(WithoutDot(value), '.'))
  {
    hide ParseName, IsLabel, EndsWith, Split, WithoutDot;
    AcceptedFacts(value);
    var labels := Split(WithoutDot(value), '.');
    LabelsHaveNoDot(labels);
    DigitsOnly(labels);
  }

  /** A text is accepted as a name exactly if it is written out of a host name's labels. */
  lemma NameIff(value: Text)
    ensures ParseName(value) == Some(Name(value)) <==> exists labels :: Names(value, labels)
  {
    hide ParseName, Names;
    if labels :| Names(value, labels) {
      NamesAreAccepted(value, labels);
    } else if ParseName(value) == Some(Name(value)) {
      AcceptedIsNamed(value);
    }
  }

  // ---------------------------------------------------------------------------------------------
  // Canonical endpoints

  lemma SplitPlain(host: Text, port: Text)
    requires IsPlain(host) && ':' !in port
    ensures SplitEndpoint(host + ":" + port) == Some((host, port))
  {
    var s := host + ":" + port;
    assert s[0] == host[0] && host[0] in host;
    var i := IndexOf(s, ':');
    assert s[|host|] == ':' && forall k | 0 <= k < |host| :: s[k] == host[k] && host[k] in host;
    assert s[..i] == host && s[i + 1..] == port;
  }

  lemma {:induction false} BracketColonAt(c: Text, rest: Text)
    requires ']' !in c
    ensures IndexOfBracketColon(c + "]:" + rest) == |c|
  {
    var s := c + "]:" + rest;
    if c != [] {
      assert s[0] == c[0] && c[0] in c;
      assert s[1..] == c[1..] + "]:" + rest;
      BracketColonAt(c[1..], rest);
    }
  }

  lemma SplitBracketed(c: Text, port: Text)
    requires c != [] && ']' !in c && ':' !in port && ']' !in port
    ensures SplitEndpoint("[" + c + "]" + ":" + port) == Some(("[" + c + "]", port))
  {
    var s := "[" + c + "]" + ":" + port;
    var rest := c + "]:" + port;
    assert s[1..] == rest;
    BracketColonAt(c, port);
    assert rest[..|c|] == c && rest[|c| + 2..] == port;
  }

  lemma PortRoundTrip(port: nat)
    requires port <= MAX_PORT
    ensures ParsePort(Digits(port)) == Some(port)
    ensures ':' !in Digits(port) && ']' !in Digits(port) && Graphic(Digits(port))
  {
    ValueOfDigits(port);
    var d := Digits(port);
    assert d[0] in d;
  }

  /** The canonical endpoint of an accepted host parses to itself. */
  lemma SerializedIsStable(v: Ipv6, value: Text, port: nat)
    requires Lawful(v) && ParseHost(v, value).Some? && 0 < port <= MAX_PORT
    ensures var c := Serialize(v, CanonicalHost(v, ParseHost(v, value).value), port);
      ParseEndpoint(v, c) == Some(c)
  {
    hide ParseHost, CanonicalHost, SplitEndpoint, ParsePort, Trim, Digits;
    var host := ParseHost(v, value).value;
    var c, d := CanonicalHost(v, host), Digits(port);
    CanonicalIsStable(v, value);
    PortRoundTrip(port);
    if host.V6? {
      assert c != [] by { assert ':' in c; }
      SplitBracketed(c, d);
      GraphicIsTrimmed("[" + c + "]" + ":" + d);
    } else {
      SplitPlain(c, d);
      GraphicIsTrimmed(c + ":" + d);
    }
  }

  /** Any accepted endpoint's canonical form parses to itself. */
  lemma EndpointRoundTrip(v: Ipv6, value: Text)
    requires Lawful(v) && ParseEndpoint(v, value).Some?
    ensures ParseEndpoint(v, ParseEndpoint(v, value).value) == ParseEndpoint(v, value)
  {
    hide ParseHost, CanonicalHost, Trim, Digits;
    var (host, portText) := SplitEndpoint(value).value;
    SerializedIsStable(v, host, ParsePort(portText).value);
  }

  /** Any peer address that is accepted prints as an endpoint that parses to itself. */
  lemma PeerAddressRoundTrip(v: Ipv6, host: Text, port: nat)
    requires Lawful(v) && port <= MAX_PORT && NewPeerAddress(v, host, port).Ok?
    ensures var (h, p) := NewPeerAddress(v, host, port).value;
      var c := Serialize(v, h, p);
      ParseEndpoint(v, c) == Some(c)
  {
    hide ParseHost, CanonicalHost, Trim, Digits;
    SerializedIsStable(v, Trim(host), port);
  }

  /** An outbound host is a reported host that is no version 2 onion service, and normalising it again
      changes nothing. */
  lemma NormalizeIdempotent(v: Ipv6, value: Text)
    requires Lawful(v) && NormalizeReported(v, value).Some?
    ensures var n := NormalizeReported(v, value).value;
      && NormalizeReported(v, n) == Some(n)
      && NormalizeOutbound(v, n) == NormalizeOutbound(v, value)
  {
    hide ParseHost, CanonicalHost;
    CanonicalIsStable(v, value);
  }

  /** Host and port can be read off the canonical text: no two pairs print the same. */
  lemma SerializeInjective(v: Ipv6, x: Text, p: nat, y: Text, q: nat)
    requires Lawful(v) && NormalizeReported(v, x).Some? && NormalizeReported(v, y).Some?
    requires p <= MAX_PORT && q <= MAX_PORT
    requires Serialize(v, NormalizeReported(v, x).value, p) == Serialize(v, NormalizeReported(v, y).value, q)
    ensures NormalizeReported(v, x) == NormalizeReported(v, y) && p == q
  {
    hide ParseHost, CanonicalHost, SplitEndpoint, ParsePort, Digits;
    Parts(v, x, p);
    Parts(v, y, q);
  }

  lemma Parts(v: Ipv6, value: Text, port: nat)
    requires Lawful(v) && NormalizeReported(v, value).Some? && port <= MAX_PORT
    ensures var n := NormalizeReported(v, value).value;
      && SplitEndpoint(Serialize(v, n, port)) ==
          Some((if v.parse(n).Some? then "[" + n + "]" else n, Digits(port)))
      && ParsePort(Digits(port)) == Some(port)
      && (v.parse(n).None? ==> '[' !in n)
      && ("[" + n + "]")[1..|n| + 1] == n
  {
    hide ParseHost, CanonicalHost, SplitEndpoint, ParsePort, Digits;
    CanonicalIsStable(v, value);
    PortRoundTrip(port);
    var n := NormalizeReported(v, value).value;
    if v.parse(n).Some? {
      assert n != [] by { assert ':' in n; }
      SplitBracketed(n, Digits(port));
    } else {
      SplitPlain(n, Digits(port));
    }
  }
}
