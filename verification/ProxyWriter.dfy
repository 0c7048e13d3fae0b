/** Writing a PROXY protocol header into a buffer of fixed size, at a moving position. */
module ProxyWriter {
  import opened Common
  import opened HeaderText
  import opened ProxyProtocol

  /** `a` with `s` written over it at `pos`. */
  function Overlay(a: seq<byte>, pos: nat, s: seq<byte>): (r: seq<byte>)
    requires pos + |s| <= |a|
    ensures |r| == |a|
  {
    a[..pos] + s + a[pos + |s|..]
  }

  lemma OverlayTwice(a: seq<byte>, pos: nat, s: seq<byte>, t: seq<byte>)
    requires pos + |s| + |t| <= |a|
    ensures Overlay(Overlay(a, pos, s), pos + |s|, t) == Overlay(a, pos, s + t)
  {
  }

  /** One more byte of the overlay. */
  lemma OverlayOne(a: seq<byte>, pos: nat, s: seq<byte>, i: nat)
    requires pos + |s| <= |a| && i < |s|
    ensures Overlay(a, pos, s[..i])[pos + i := s[i]] == Overlay(a, pos, s[..i + 1])
  {
    OverlayTwice(a, pos, s[..i], [s[i]]);
    assert s[..i] + [s[i]] == s[..i + 1];
  }

  /** `copy_from_slice` into the buffer from `pos` on. */
  method Put(buf: array<byte>, pos: nat, s: seq<byte>)
    requires pos + |s| <= buf.Length
    modifies buf
    ensures buf[..] == Overlay(old(buf[..]), pos, s)
  {
    ghost var was := buf[..];
    assert Overlay(was, pos, s[..0]) == was;
    for i := 0 to |s|
      invariant buf[..] == Overlay(was, pos, s[..i])
    {
      OverlayOne(was, pos, s, i);
      buf[pos + i] := s[i];
    }
    assert s[..|s|] == s;
  }

  /** One more digit at the end. */
  lemma OneMoreDigit(n: nat, d: nat)
    requires n > 0 && d < 10
    ensures Dec(10 * n + d) == Dec(n) + [(48 + d) as byte]
  {
    assert (10 * n + d) / 10 == n && (10 * n + d) % 10 == d;
  }

  lemma TwoDigits(a: nat, b: nat)
    requires 0 < a < 10 && b < 10
    ensures Dec(10 * a + b) == [(48 + a) as byte, (48 + b) as byte]
  {
    OneMoreDigit(a, b);
  }

  lemma ThreeDigits(a: nat, b: nat, c: nat)
    requires 0 < a < 10 && b < 10 && c < 10
    ensures Dec(100 * a + 10 * b + c) == [(48 + a) as byte, (48 + b) as byte, (48 + c) as byte]
  {
    TwoDigits(a, b);
    OneMoreDigit(10 * a + b, c);
  }

  lemma FourDigits(a: nat, b: nat, c: nat, d: nat)
    requires 0 < a < 10 && b < 10 && c < 10 && d < 10
    ensures Dec(1000 * a + 100 * b + 10 * c + d)
         == [(48 + a) as byte, (48 + b) as byte, (48 + c) as byte, (48 + d) as byte]
  {
    ThreeDigits(a, b, c);
    OneMoreDigit(100 * a + 10 * b + c, d);
  }

  lemma FiveDigits(a: nat, b: nat, c: nat, d: nat, e: nat)
    requires 0 < a < 10 && b < 10 && c < 10 && d < 10 && e < 10
    ensures Dec(10000 * a + 1000 * b + 100 * c + 10 * d + e)
         == [(48 + a) as byte, (48 + b) as byte, (48 + c) as byte, (48 + d) as byte, (48 + e) as byte]
  {
    FourDigits(a, b, c, d);
    OneMoreDigit(1000 * a + 100 * b + 10 * c + d, e);
  }

  /** A number and its quotients by powers of ten. */
  lemma Places(v: nat)
    ensures v == 10 * (v / 10) + v % 10
    ensures v / 10 == 10 * (v / 100) + v / 10 % 10
    ensures v / 100 == 10 * (v / 1000) + v / 100 % 10
    ensures v / 1000 == 10 * (v / 10000) + v / 1000 % 10
  {
  }

  lemma FiveDigitsOf(v: nat)
    requires 10000 <= v < 65536
    ensures Dec(v) == [(48 + v / 10000) as byte, (48 + v / 1000 % 10) as byte, (48 + v / 100 % 10) as byte,
                       (48 + v / 10 % 10) as byte, (48 + v % 10) as byte]
  {
    Places(v);
    FiveDigits(v / 10000, v / 1000 % 10, v / 100 % 10, v / 10 % 10, v % 10);
  }

  lemma FourDigitsOf(v: nat)
    requires 1000 <= v < 10000
    ensures Dec(v) == [(48 + v / 1000) as byte, (48 + v / 100 % 10) as byte, (48 + v / 10 % 10) as byte,
                       (48 + v % 10) as byte]
  {
    Places(v);
    FourDigits(v / 1000, v / 100 % 10, v / 10 % 10, v % 10);
  }

  lemma ThreeDigitsOf(v: nat)
    requires 100 <= v < 1000
    ensures Dec(v) == [(48 + v / 100) as byte, (48 + v / 10 % 10) as byte, (48 + v % 10) as byte]
  {
    Places(v);
    ThreeDigits(v / 100, v / 10 % 10, v % 10);
  }

  lemma TwoDigitsOf(v: nat)
    requires 10 <= v < 100
    ensures Dec(v) == [(48 + v / 10) as byte, (48 + v % 10) as byte]
  {
    TwoDigits(v / 10, v % 10);
  }

  method WriteU8(buf: array<byte>, pos: nat, val: byte) returns (n: nat)
    requires pos + |Dec(val)| <= buf.Length
    modifies buf
    ensures n == |Dec(val)|
    ensures buf[..] == Overlay(old(buf[..]), pos, Dec(val))
  {
    if val >= 100 {
      ThreeDigitsOf(val);
      buf[pos] := 48 + val / 100;
      buf[pos + 1] := 48 + (val / 10) % 10;
      buf[pos + 2] := 48 + val % 10;
      n := 3;
    } else if val >= 10 {
      TwoDigitsOf(val);
      buf[pos] := 48 + val / 10;
      buf[pos + 1] := 48 + val % 10;
      n := 2;
    } else {
      buf[pos] := 48 + val;
      n := 1;
    }
  }

  method WriteU16(buf: array<byte>, pos: nat, val: nat) returns (n: nat)
    requires val < 65536 && pos + |Dec(val)| <= buf.Length
    modifies buf
    ensures n == |Dec(val)|
    ensures buf[..] == Overlay(old(buf[..]), pos, Dec(val))
  {
    if val >= 10000 {
      FiveDigitsOf(val);
      Put(buf, pos, [(48 + val / 10000) as byte, (48 + (val / 1000) % 10) as byte, (48 + (val / 100) % 10) as byte,
                     (48 + (val / 10) % 10) as byte, (48 + val % 10) as byte]);
      n := 5;
    } else if val >= 1000 {
      FourDigitsOf(val);
      Put(buf, pos, [(48 + val / 1000) as byte, (48 + (val / 100) % 10) as byte,
                     (48 + (val / 10) % 10) as byte, (48 + val % 10) as byte]);
      n := 4;
    } else if val >= 100 {
      ThreeDigitsOf(val);
      Put(buf, pos, [(48 + val / 100) as byte, (48 + (val / 10) % 10) as byte, (48 + val % 10) as byte]);
      n := 3;
    } else if val >= 10 {
      TwoDigitsOf(val);
      Put(buf, pos, [(48 + val / 10) as byte, (48 + val % 10) as byte]);
      n := 2;
    } else {
      Put(buf, pos, [(48 + val) as byte]);
      n := 1;
    }
  }

  /** A dot before every octet but the first. */
  method WriteOctet(buf: array<byte>, pos: nat, first: bool, octet: byte) returns (n: nat)
    requires pos + |DottedOctet(first, octet)| <= buf.Length
    modifies buf
    ensures n == |DottedOctet(first, octet)|
    ensures buf[..] == Overlay(old(buf[..]), pos, DottedOctet(first, octet))
  {
    if first {
      n := WriteU8(buf, pos, octet);
    } else {
      Put(buf, pos, [DOT]);
      n := WriteU8(buf, pos + 1, octet);
      OverlayTwice(old(buf[..]), pos, [DOT], Dec(octet));
      n := n + 1;
    }
  }

  lemma V4Step(a: seq<byte>, at: nat, octets: seq<byte>, i: nat)
    requires i < |octets| && at + |Dotted(octets)| <= |a|
    ensures |Dotted(octets[..i + 1])| == |Dotted(octets[..i])| + |DottedOctet(i == 0, octets[i])|
    ensures |Dotted(octets[..i + 1])| <= |Dotted(octets)|
    ensures Overlay(Overlay(a, at, Dotted(octets[..i])), at + |Dotted(octets[..i])|, DottedOctet(i == 0, octets[i]))
         == Overlay(a, at, Dotted(octets[..i + 1]))
  {
    DottedStep(octets, i);
    DottedGrows(octets, i + 1);
    OverlayTwice(a, at, Dotted(octets[..i]), DottedOctet(i == 0, octets[i]));
  }

  lemma OverlayNothing(a: seq<byte>, at: nat)
    requires at <= |a|
    ensures Overlay(a, at, []) == a && Dotted([]) == []
  {
  }

  /** One turn of the loop over the octets. */
  method WriteNth(buf: array<byte>, at: nat, pos: nat, octets: seq<byte>, i: nat, ghost was: seq<byte>)
    returns (next: nat)
    requires i < |octets| && |was| == buf.Length && at + |Dotted(octets)| <= buf.Length
    requires pos == |Dotted(octets[..i])| <= |Dotted(octets)| && buf[..] == Overlay(was, at, Dotted(octets[..i]))
    modifies buf
    ensures next == |Dotted(octets[..i + 1])| <= |Dotted(octets)|
    ensures buf[..] == Overlay(was, at, Dotted(octets[..i + 1]))
  {
    V4Step(was, at, octets, i);
    var n := WriteOctet(buf, at + pos, i == 0, octets[i]);
    next := pos + n;
  }

  method WriteV4(buf: array<byte>, at: nat, octets: seq<byte>) returns (pos: nat)
    requires |octets| == 4 && at + |Dotted(octets)| <= buf.Length
    modifies buf
    ensures pos == |Dotted(octets)|
    ensures buf[..] == Overlay(old(buf[..]), at, Dotted(octets))
  {
    ghost var was := buf[..];
    OverlayNothing(was, at);
    assert octets[..0] == [];
    pos := 0;
    for i := 0 to 4
      invariant pos == |Dotted(octets[..i])| <= |Dotted(octets)|
      invariant buf[..] == Overlay(was, at, Dotted(octets[..i]))
    {
      pos := WriteNth(buf, at, pos, octets, i, was);
    }
    assert octets[..4] == octets;
  }

  method WriteIp(v6: V6Text, buf: array<byte>, pos: nat, ip: Ip) returns (n: nat)
    requires ip.Valid() && pos + |IpText(v6, ip)| <= buf.Length
    modifies buf
    ensures n == |IpText(v6, ip)|
    ensures buf[..] == Overlay(old(buf[..]), pos, IpText(v6, ip))
  {
    match ip
    case V4(o) =>
      n := WriteV4(buf, pos, o);
    case V6(o) =>
      var s := v6.show(o);
      Put(buf, pos, s);
      n := |s|;
  }

  /** The buffer holds `s` at its front and zeros after it. */
  predicate Written(c: seq<byte>, s: seq<byte>) {
    |s| <= |c| && c[..|s|] == s && forall i :: |s| <= i < |c| ==> c[i] == 0
  }

  lemma OverlayWritten(c: seq<byte>, done: seq<byte>, s: seq<byte>)
    requires Written(c, done) && |done| + |s| <= |c|
    ensures Written(Overlay(c, |done|, s), done + s)
  {
  }

  /** `s` behind what is `done` already. */
  method Append(buf: array<byte>, at: nat, s: seq<byte>, ghost done: seq<byte>)
    requires Written(buf[..], done) && at == |done| && at + |s| <= buf.Length
    modifies buf
    ensures Written(buf[..], done + s)
  {
    OverlayWritten(buf[..], done, s);
    Put(buf, at, s);
  }

  /** An address and the space after it. */
  method WriteField(v6: V6Text, buf: array<byte>, at: nat, ip: Ip, ghost done: seq<byte>) returns (pos: nat)
    requires ip.Valid() && at == |done| && at + |IpText(v6, ip)| + 1 <= buf.Length
    requires Written(buf[..], done)
    modifies buf
    ensures pos == |done| + |IpText(v6, ip)| + 1
    ensures Written(buf[..], done + (IpText(v6, ip) + [SP]))
  {
    OverlayWritten(buf[..], done, IpText(v6, ip));
    var n := WriteIp(v6, buf, at, ip);
    pos := at + n;
    Append(buf, pos, [SP], done + IpText(v6, ip));
    pos := pos + 1;
    Assoc(done, IpText(v6, ip), [SP]);
  }

  /** A port and what ends its field. */
  method WritePort(buf: array<byte>, at: nat, port: nat, end: seq<byte>, ghost done: seq<byte>) returns (pos: nat)
    requires port < 65536 && at == |done| && at + |Dec(port)| + |end| <= buf.Length
    requires Written(buf[..], done)
    modifies buf
    ensures pos == |done| + |Dec(port)| + |end|
    ensures Written(buf[..], done + (Dec(port) + end))
  {
    OverlayWritten(buf[..], done, Dec(port));
    var n := WriteU16(buf, at, port);
    pos := at + n;
    Append(buf, pos, end, done + Dec(port));
    pos := pos + |end|;
    Assoc(done, Dec(port), end);
  }

  /** The header field by field, each with what ends it. */
  lemma HeaderV1Steps(v6: V6Text, proto: seq<byte>, src: Endpoint, dst: Endpoint)
    requires src.Valid() && dst.Valid()
    ensures PROXY + (Join(SP, Fields(v6, proto, src, dst)) + CRLF) ==
            PROXY + (proto + [SP]) + (IpText(v6, src.ip) + [SP]) + (IpText(v6, dst.ip) + [SP])
            + (Dec(src.port) + [SP]) + (Dec(dst.port) + CRLF)
  {
    JoinFive(SP, proto, IpText(v6, src.ip), IpText(v6, dst.ip), Dec(src.port), Dec(dst.port));
  }

  /** The five fields and the line end, behind `PROXY `. */
  method WriteLine(v6: V6Text, buf: array<byte>, proto: seq<byte>, src: Endpoint, dst: Endpoint) returns (pos: nat)
    requires src.Valid() && dst.Valid() && Written(buf[..], PROXY)
    requires |PROXY + (Join(SP, Fields(v6, proto, src, dst)) + CRLF)| <= buf.Length
    modifies buf
    ensures pos == |PROXY + (Join(SP, Fields(v6, proto, src, dst)) + CRLF)|
    ensures Written(buf[..], PROXY + (Join(SP, Fields(v6, proto, src, dst)) + CRLF))
  {
    HeaderV1Steps(v6, proto, src, dst);
    Append(buf, 6, proto + [SP], PROXY);
    pos := 6 + |proto| + 1;
    ghost var done := PROXY + (proto + [SP]);
    pos := WriteField(v6, buf, pos, src.ip, done);
    done := done + (IpText(v6, src.ip) + [SP]);
    pos := WriteField(v6, buf, pos, dst.ip, done);
    done := done + (IpText(v6, dst.ip) + [SP]);
    pos := WritePort(buf, pos, src.port, [SP], done);
    done := done + (Dec(src.port) + [SP]);
    pos := WritePort(buf, pos, dst.port, CRLF, done);
  }

  /** The header at the front of a zeroed buffer of 108 bytes, which always holds it. */
  method EncodeV1(v6: V6Text, src: Endpoint, dst: Endpoint) returns (buf: array<byte>, pos: nat)
    requires v6.Faithful() && src.Valid() && dst.Valid()
    ensures fresh(buf) && buf.Length == V1_MAX
    ensures pos == |HeaderV1(v6, src, dst)| && Written(buf[..], HeaderV1(v6, src, dst))
  {
    HeaderV1Fits(v6, src, dst);
    buf := new byte[V1_MAX](_ => 0);
    Append(buf, 0, PROXY, []);
    if src.ip.V4? != dst.ip.V4? {
      Append(buf, 6, UNKNOWN + CRLF, PROXY);
      return buf, 15;
    }
    pos := WriteLine(v6, buf, if src.ip.V4? then TCP4 else TCP6, src, dst);
  }

  /** Four pieces, each behind the one before. */
  method AppendFour(buf: array<byte>, at: nat, a: seq<byte>, b: seq<byte>, c: seq<byte>, d: seq<byte>,
                    ghost done: seq<byte>)
    requires Written(buf[..], done) && at == |done| && at + |a| + |b| + |c| + |d| <= buf.Length
    modifies buf
    ensures Written(buf[..], done + (a + b + c + d))
  {
    Append(buf, at, a, done);
    Append(buf, at + |a|, b, done + a);
    Append(buf, at + |a| + |b|, c, done + a + b);
    Append(buf, at + |a| + |b| + |c|, d, done + a + b + c);
    assert done + (a + b + c + d) == done + a + b + c + d;
  }

  /** Addresses and ports at their fixed places, behind the sixteen bytes of the fixed part. */
  method WriteAddresses(buf: array<byte>, src: Endpoint, dst: Endpoint, ghost done: seq<byte>)
    requires src.Valid() && dst.Valid() && SameFamily(src, dst)
    requires |done| == 16 && buf.Length == V2_MAX && Written(buf[..], done)
    modifies buf
    ensures Written(buf[..], done + AddressesV2(src, dst))
  {
    AppendFour(buf, 16, src.ip.octets, dst.ip.octets, BigEndian(src.port), BigEndian(dst.port), done);
  }

  /** The header at the front of a zeroed buffer of 52 bytes. */
  method EncodeV2(src: Endpoint, dst: Endpoint) returns (buf: array<byte>, len: nat)
    requires src.Valid() && dst.Valid()
    ensures fresh(buf) && buf.Length == V2_MAX
    ensures len == |HeaderV2(src, dst)| && Written(buf[..], HeaderV2(src, dst))
  {
    buf := new byte[V2_MAX](_ => 0);
    Append(buf, 0, SIGNATURE, []);
    if src.ip.V4? && dst.ip.V4? {
      Append(buf, 12, [0x21, 0x11, 0, 12], SIGNATURE);
      WriteAddresses(buf, src, dst, SIGNATURE + [0x21, 0x11, 0, 12]);
      Assoc(SIGNATURE, [0x21, 0x11, 0, 12], AddressesV2(src, dst));
      len := 28;
    } else if src.ip.V6? && dst.ip.V6? {
      Append(buf, 12, [0x21, 0x21, 0, 36], SIGNATURE);
      WriteAddresses(buf, src, dst, SIGNATURE + [0x21, 0x21, 0, 36]);
      Assoc(SIGNATURE, [0x21, 0x21, 0, 36], AddressesV2(src, dst));
      len := 52;
    } else {
      Append(buf, 12, [0x20, 0, 0, 0], SIGNATURE);
      len := 16;
    }
  }
}
