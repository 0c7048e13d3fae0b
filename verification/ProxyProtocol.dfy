/**
 * The PROXY protocol header, versions 1 and 2: what a sender writes in front of a connection and
 * how a receiver reads it back (sections 2.1 and 2.2 of the HAProxy PROXY protocol specification).
 */
module ProxyProtocol {
  import opened Common
  import opened HeaderText

  const SIGNATURE: seq<byte> := [0x0D, 0x0A, 0x0D, 0x0A, 0x00, 0x0D, 0x0A, 0x51, 0x55, 0x49, 0x54, 0x0A]
  const V1_MAX: nat := 108
  const V2_MAX: nat := 52

  // "PROXY ", "TCP4", "TCP6", "UNKNOWN"
  const PROXY: seq<byte> := [80, 82, 79, 88, 89, 32]
  const TCP4: seq<byte> := [84, 67, 80, 52]
  const TCP6: seq<byte> := [84, 67, 80, 54]
  const UNKNOWN: seq<byte> := [85, 78, 75, 78, 79, 87, 78]

  datatype Endpoint = Endpoint(ip: Ip, port: nat) {
    predicate Valid() { ip.Valid() && port < 65536 }
  }

  datatype Header = Proxy(src: Endpoint, dst: Endpoint) | Local

  datatype Reason =
    | NotProxy | TooLong | NotUtf8 | FieldCount | SourceIp | TargetIp | SourcePort | TargetPort
    | Version | Command | ShortV4 | ShortV6

  datatype Parsed = Ok(header: Header, consumed: nat) | Incomplete | Invalid(reason: Reason)

  // ---- receiving ----

  predicate IsV1(b: seq<byte>) { PROXY <= b }

  predicate IsV2(b: seq<byte>) { |b| >= 16 && b[..12] == SIGNATURE }

  function Parse(v6: V6Text, b: seq<byte>): (r: Parsed)
    ensures r.Ok? ==> 8 <= r.consumed <= |b|
  {
    if |b| < 8 then Incomplete
    else if IsV2(b) then ParseV2(b)
    else if 12 <= |b| < 16 && b[..12] == SIGNATURE then Incomplete
    else if |b| < 12 && b <= SIGNATURE then Incomplete
    else if IsV1(b) then ParseV1(v6, b)
    else Invalid(NotProxy)
  }

  function ParseV1(v6: V6Text, b: seq<byte>): (r: Parsed)
    requires IsV1(b)
    ensures r.Ok? ==> 8 <= r.consumed <= |b|
  {
    match Find(CRLF, b)
    case None => if |b| < V1_MAX then Incomplete else Invalid(TooLong)
    case Some(end) =>
      assert b[end..end + 2][0] == CR;
      ParseLine(v6, b[6..end], end + 2)
  }

  /** What follows `PROXY ` on the line; the protocol word before the first space is not looked at. */
  function ParseLine(v6: V6Text, line: seq<byte>, consumed: nat): (r: Parsed)
    ensures r.Ok? ==> r.consumed == consumed
    ensures !r.Incomplete? && r != Invalid(TooLong)
  {
    if !Utf8(line) then Invalid(NotUtf8)
    else if UNKNOWN <= line then Ok(Local, consumed)
    else
      var f := SplitN(SP, 5, line);
      if |f| != 5 then Invalid(FieldCount)
      else if ParseIp(v6, f[1]).None? then Invalid(SourceIp)
      else if ParseIp(v6, f[2]).None? then Invalid(TargetIp)
      else if ParseU16(f[3]).None? then Invalid(SourcePort)
      else if ParseU16(f[4]).None? then Invalid(TargetPort)
      else
        Ok(Proxy(Endpoint(ParseIp(v6, f[1]).value, ParseU16(f[3]).value),
                 Endpoint(ParseIp(v6, f[2]).value, ParseU16(f[4]).value)), consumed)
  }

  function ParseV2(b: seq<byte>): (r: Parsed)
    requires |b| >= 16
    ensures r.Ok? ==> 16 <= r.consumed <= |b|
  {
    var addressLength := Be16(b[14], b[15]);
    var total := 16 + addressLength;
    if b[12] / 16 != 2 then Invalid(Version)
    else if |b| < total then Incomplete
    else if b[12] % 16 == 0 then Ok(Local, total)
    else if b[12] % 16 != 1 then Invalid(Command)
    else if b[13] / 16 == 1 then
      if addressLength < 12 then Invalid(ShortV4)
      else Ok(Proxy(Endpoint(V4(b[16..20]), Be16(b[24], b[25])), Endpoint(V4(b[20..24]), Be16(b[26], b[27]))), total)
    else if b[13] / 16 == 2 then
      if addressLength < 36 then Invalid(ShortV6)
      else Ok(Proxy(Endpoint(V6(b[16..32]), Be16(b[48], b[49])), Endpoint(V6(b[32..48]), Be16(b[50], b[51]))), total)
    else Ok(Local, total)
  }

  // ---- sending ----

  predicate SameFamily(src: Endpoint, dst: Endpoint) { src.ip.V4? == dst.ip.V4? }

  /** What a header for these endpoints carries: nothing when their families differ. */
  function Carried(src: Endpoint, dst: Endpoint): Header {
    if SameFamily(src, dst) then Proxy(src, dst) else Local
  }

  function Fields(v6: V6Text, proto: seq<byte>, src: Endpoint, dst: Endpoint): seq<seq<byte>>
    requires src.Valid() && dst.Valid()
  {
    [proto, IpText(v6, src.ip), IpText(v6, dst.ip), Dec(src.port), Dec(dst.port)]
  }

  /** The version 1 header: its five fields between spaces. */
  function HeaderV1(v6: V6Text, src: Endpoint, dst: Endpoint): seq<byte>
    requires src.Valid() && dst.Valid()
  {
    PROXY + (
      (if !SameFamily(src, dst) then UNKNOWN
       else Join(SP, Fields(v6, if src.ip.V4? then TCP4 else TCP6, src, dst))) + CRLF)
  }

  function BigEndian(p: nat): (r: seq<byte>)
    requires p < 65536
    ensures |r| == 2 && Be16(r[0], r[1]) == p
  {
    [(p / 256) as byte, (p % 256) as byte]
  }

  function AddressesV2(src: Endpoint, dst: Endpoint): (r: seq<byte>)
    requires src.Valid() && dst.Valid()
    ensures |r| == |src.ip.octets| + |dst.ip.octets| + 4
  {
    src.ip.octets + dst.ip.octets + BigEndian(src.port) + BigEndian(dst.port)
  }

  /** The version 2 header. */
  function HeaderV2(src: Endpoint, dst: Endpoint): (r: seq<byte>)
    requires src.Valid() && dst.Valid()
    ensures |r| == if !SameFamily(src, dst) then 16 else if src.ip.V4? then 28 else 52
  {
    SIGNATURE +
    if !SameFamily(src, dst) then [0x20, 0, 0, 0]
    else if src.ip.V4? then [0x21, 0x11, 0, 12] + AddressesV2(src, dst)
    else [0x21, 0x21, 0, 36] + AddressesV2(src, dst)
  }

  // ---- round trips ----

  lemma FieldsArePlain(v6: V6Text, proto: seq<byte>, src: Endpoint, dst: Endpoint)
    requires v6.Faithful() && src.Valid() && dst.Valid() && Plain(proto) && SP !in proto
    ensures forall i :: 0 <= i < 5 ==> Plain(Fields(v6, proto, src, dst)[i]) && SP !in Fields(v6, proto, src, dst)[i]
  {
    IpIsPlain(v6, src.ip);
    IpIsPlain(v6, dst.ip);
    DigitsArePlain(Dec(src.port));
    DigitsArePlain(Dec(dst.port));
  }

  lemma SplitFields(v6: V6Text, proto: seq<byte>, src: Endpoint, dst: Endpoint)
    requires v6.Faithful() && src.Valid() && dst.Valid() && Plain(proto) && SP !in proto
    ensures Utf8(Join(SP, Fields(v6, proto, src, dst))) && Plain(Join(SP, Fields(v6, proto, src, dst)))
    ensures SplitN(SP, 5, Join(SP, Fields(v6, proto, src, dst))) == Fields(v6, proto, src, dst)
  {
    var f := Fields(v6, proto, src, dst);
    FieldsArePlain(v6, proto, src, dst);
    SplitOfJoin(SP, 5, f);
    JoinIsPlain(f);
    PlainIsUtf8(Join(SP, f));
  }

  lemma LineOfFields(v6: V6Text, line: seq<byte>, f: seq<seq<byte>>, src: Endpoint, dst: Endpoint, consumed: nat)
    requires Utf8(line) && !(UNKNOWN <= line) && SplitN(SP, 5, line) == f && |f| == 5
    requires ParseIp(v6, f[1]) == Some(src.ip) && ParseIp(v6, f[2]) == Some(dst.ip)
    requires ParseU16(f[3]) == Some(src.port) && ParseU16(f[4]) == Some(dst.port)
    ensures ParseLine(v6, line, consumed) == Ok(Proxy(src, dst), consumed)
  {
  }

  lemma AddressesParse(v6: V6Text, proto: seq<byte>, src: Endpoint, dst: Endpoint)
    requires v6.Faithful() && src.Valid() && dst.Valid()
    ensures var f := Fields(v6, proto, src, dst);
            ParseIp(v6, f[1]) == Some(src.ip) && ParseIp(v6, f[2]) == Some(dst.ip)
  {
    IpParsed(v6, src.ip);
    IpParsed(v6, dst.ip);
  }

  lemma PortsParse(v6: V6Text, proto: seq<byte>, src: Endpoint, dst: Endpoint)
    requires src.Valid() && dst.Valid()
    ensures var f := Fields(v6, proto, src, dst);
            ParseU16(f[3]) == Some(src.port) && ParseU16(f[4]) == Some(dst.port)
  {
    NumbersRoundTrip(src.port);
    NumbersRoundTrip(dst.port);
  }

  /** Any protocol word will do: the receiver takes the endpoints from the other four fields. */
  lemma LineRoundTrip(v6: V6Text, proto: seq<byte>, src: Endpoint, dst: Endpoint, consumed: nat)
    requires v6.Faithful() && src.Valid() && dst.Valid()
    requires Plain(proto) && SP !in proto && !(UNKNOWN <= Join(SP, Fields(v6, proto, src, dst)))
    ensures Plain(Join(SP, Fields(v6, proto, src, dst)))
    ensures ParseLine(v6, Join(SP, Fields(v6, proto, src, dst)), consumed) == Ok(Proxy(src, dst), consumed)
  {
    var f := Fields(v6, proto, src, dst);
    SplitFields(v6, proto, src, dst);
    AddressesParse(v6, proto, src, dst);
    PortsParse(v6, proto, src, dst);
    LineOfFields(v6, Join(SP, f), f, src, dst, consumed);
  }

  /** A printable line is found and taken off the front, whatever follows it. */
  lemma LineIsParsed(v6: V6Text, line: seq<byte>, payload: seq<byte>)
    requires Plain(line)
    ensures Parse(v6, PROXY + (line + CRLF) + payload) == ParseLine(v6, line, |PROXY + (line + CRLF)|)
  {
    var b := PROXY + (line + CRLF) + payload;
    PlainLine(PROXY + line, payload);
    assert b == (PROXY + line) + (CRLF + payload);
    assert b[6..|PROXY + line|] == line;
    assert IsV1(b);
    NoSignature(b);
  }

  lemma {:induction false} JoinIsPlain(f: seq<seq<byte>>)
    requires forall i :: 0 <= i < |f| ==> Plain(f[i])
    ensures Plain(Join(SP, f))
  {
    if |f| > 1 {
      JoinIsPlain(f[1..]);
    }
  }

  lemma NotUnknown(v6: V6Text, proto: seq<byte>, src: Endpoint, dst: Endpoint)
    requires src.Valid() && dst.Valid() && proto != [] && proto[0] != UNKNOWN[0]
    ensures !(UNKNOWN <= Join(SP, Fields(v6, proto, src, dst)))
  {
    assert Join(SP, Fields(v6, proto, src, dst))[0] == proto[0];
  }

  /** The same, from the front of the buffer: the protocol word is printable and not `UNKNOWN`. */
  lemma AnyWordRoundTrip(v6: V6Text, proto: seq<byte>, src: Endpoint, dst: Endpoint, payload: seq<byte>)
    requires v6.Faithful() && src.Valid() && dst.Valid()
    requires Plain(proto) && SP !in proto && !(UNKNOWN <= Join(SP, Fields(v6, proto, src, dst)))
    ensures Parse(v6, PROXY + (Join(SP, Fields(v6, proto, src, dst)) + CRLF) + payload)
            == Ok(Proxy(src, dst), |PROXY + (Join(SP, Fields(v6, proto, src, dst)) + CRLF)|)
  {
    var line := Join(SP, Fields(v6, proto, src, dst));
    LineRoundTrip(v6, proto, src, dst, |PROXY + (line + CRLF)|);
    LineIsParsed(v6, line, payload);
  }

  lemma KnownRoundTrip(v6: V6Text, proto: seq<byte>, src: Endpoint, dst: Endpoint, payload: seq<byte>)
    requires v6.Faithful() && src.Valid() && dst.Valid() && (proto == TCP4 || proto == TCP6)
    ensures Parse(v6, PROXY + (Join(SP, Fields(v6, proto, src, dst)) + CRLF) + payload)
            == Ok(Proxy(src, dst), |PROXY + (Join(SP, Fields(v6, proto, src, dst)) + CRLF)|)
  {
    KnownWord(proto);
    NotUnknown(v6, proto, src, dst);
    AnyWordRoundTrip(v6, proto, src, dst, payload);
  }

  lemma KnownWord(proto: seq<byte>)
    requires proto == TCP4 || proto == TCP6
    ensures Plain(proto) && SP !in proto && proto != [] && proto[0] != UNKNOWN[0]
  {
  }

  lemma UnknownRoundTrip(v6: V6Text, payload: seq<byte>)
    ensures Parse(v6, PROXY + (UNKNOWN + CRLF) + payload) == Ok(Local, |PROXY + (UNKNOWN + CRLF)|)
  {
    PlainIsUtf8(UNKNOWN);
    LineIsParsed(v6, UNKNOWN, payload);
  }

  /** A first version header is read back, whatever follows it, and nothing more is consumed. */
  lemma V1RoundTrip(v6: V6Text, src: Endpoint, dst: Endpoint, payload: seq<byte>)
    requires v6.Faithful() && src.Valid() && dst.Valid()
    ensures Parse(v6, HeaderV1(v6, src, dst) + payload) == Ok(Carried(src, dst), |HeaderV1(v6, src, dst)|)
  {
    if SameFamily(src, dst) {
      KnownRoundTrip(v6, if src.ip.V4? then TCP4 else TCP6, src, dst, payload);
    } else {
      UnknownRoundTrip(v6, payload);
    }
  }

  lemma V2RoundTrip(v6: V6Text, src: Endpoint, dst: Endpoint, payload: seq<byte>)
    requires src.Valid() && dst.Valid()
    ensures Parse(v6, HeaderV2(src, dst) + payload) == Ok(Carried(src, dst), |HeaderV2(src, dst)|)
  {
    var h := HeaderV2(src, dst);
    var b := h + payload;
    assert b[..12] == SIGNATURE;
    if SameFamily(src, dst) {
      var a := AddressesV2(src, dst);
      var n := |src.ip.octets|;
      assert b[16..16 + |a|] == a;
      assert b[16..16 + n] == a[..n] == src.ip.octets;
      assert b[16 + n..16 + 2 * n] == a[n..2 * n] == dst.ip.octets;
      assert [b[16 + 2 * n], b[17 + 2 * n]] == a[2 * n..2 * n + 2] == BigEndian(src.port);
      assert [b[18 + 2 * n], b[19 + 2 * n]] == a[2 * n + 2..] == BigEndian(dst.port);
    }
  }

  /** The four bytes behind the signature of an exactly filled TCP header. */
  lemma FixedPart(b: seq<byte>)
    requires |b| >= 16 && b[12] == 0x21 && b[13] % 16 == 1 && (b[13] / 16 == 1 || b[13] / 16 == 2)
    requires Be16(b[14], b[15]) == if b[13] / 16 == 1 then 12 else 36
    ensures b[12..16] == if b[13] / 16 == 1 then [0x21, 0x11, 0, 12] else [0x21, 0x21, 0, 36]
  {
    assert b[12..16] == [b[12], b[13], b[14], b[15]];
  }

  /** The other way round for version 2: an exactly filled TCP header is the one header for what it carries. */
  lemma V2IsCanonical(v6: V6Text, b: seq<byte>)
    requires IsV2(b) && Parse(v6, b).Ok? && Parse(v6, b).header.Proxy?
    requires b[13] % 16 == 1 && Be16(b[14], b[15]) == if b[13] / 16 == 1 then 12 else 36
    ensures Parse(v6, b).header.src.Valid() && Parse(v6, b).header.dst.Valid()
    ensures HeaderV2(Parse(v6, b).header.src, Parse(v6, b).header.dst) == b[..Parse(v6, b).consumed]
  {
    var r := Parse(v6, b);
    var n := if b[13] / 16 == 1 then 4 else 16;
    var h, a := HeaderV2(r.header.src, r.header.dst), b[16..20 + 2 * n];
    FixedPart(b);
    assert a[..n] == b[16..16 + n] && a[n..2 * n] == b[16 + n..16 + 2 * n];
    assert r.header.src.ip.octets == a[..n] && r.header.dst.ip.octets == a[n..2 * n];
    BigEndianOf(a[2 * n], a[2 * n + 1]);
    BigEndianOf(a[2 * n + 2], a[2 * n + 3]);
    CutInFour(a, n);
    AddressesOfParts(r.header.src, r.header.dst, a[..n], a[n..2 * n], [a[2 * n], a[2 * n + 1]],
                     [a[2 * n + 2], a[2 * n + 3]]);
    assert h == SIGNATURE + b[12..16] + a;
    assert b[..20 + 2 * n] == b[..12] + b[12..16] + a;
  }

  lemma BigEndianOf(hi: byte, lo: byte)
    ensures BigEndian(Be16(hi, lo)) == [hi, lo]
  {
  }

  lemma CutInFour(a: seq<byte>, n: nat)
    requires |a| == 2 * n + 4
    ensures a == a[..n] + a[n..2 * n] + [a[2 * n], a[2 * n + 1]] + [a[2 * n + 2], a[2 * n + 3]]
  {
  }

  lemma AddressesOfParts(src: Endpoint, dst: Endpoint, x: seq<byte>, y: seq<byte>, p: seq<byte>, q: seq<byte>)
    requires src.Valid() && dst.Valid() && src.ip.octets == x && dst.ip.octets == y
    requires BigEndian(src.port) == p && BigEndian(dst.port) == q
    ensures AddressesV2(src, dst) == x + y + p + q
  {
  }

  // ---- arrival in pieces ----

  /** A line that has outgrown the limit and has not ended. */
  predicate Overlong(b: seq<byte>) {
    IsV1(b) && |b| >= V1_MAX && Find(CRLF, b).None?
  }

  lemma SignatureInPrefix(b: seq<byte>, more: seq<byte>)
    ensures |b| >= 12 ==> (b + more)[..12] == b[..12]
    ensures |b| >= 6 ==> (IsV1(b + more) <==> IsV1(b))
    ensures |b| < 12 && |b + more| >= 12 && (b + more)[..12] == SIGNATURE ==> b <= SIGNATURE
    ensures |b| < 12 && b + more <= SIGNATURE ==> b <= SIGNATURE
  {
    var all := b + more;
    if |b| >= 12 {
      assert all[..12] == b[..12];
    } else if |all| >= 12 {
      assert all[..|b|] == all[..12][..|b|] == b;
    } else {
      assert all[..|b|] == b;
    }
    if |b| >= 6 {
      assert all[..6] == b[..6];
    }
  }

  lemma NoSignature(b: seq<byte>)
    requires IsV1(b)
    ensures !IsV2(b) && !(b <= SIGNATURE) && (|b| >= 12 ==> b[..12] != SIGNATURE)
  {
    assert b[0] == PROXY[0];
    if |b| >= 12 {
      assert b[..12][0] == b[0];
    }
  }

  lemma LineStays(v6: V6Text, b: seq<byte>, more: seq<byte>)
    requires IsV1(b) && Find(CRLF, b).Some?
    ensures IsV1(b + more) && ParseV1(v6, b + more) == ParseV1(v6, b)
  {
    SignatureInPrefix(b, more);
    FindInPrefix(CRLF, b, more);
    var end := Find(CRLF, b).value;
    assert b[end..end + 2][0] == CR;
    assert (b + more)[6..end] == b[6..end];
  }

  lemma BinaryStays(b: seq<byte>, more: seq<byte>)
    requires |b| >= 16 && !ParseV2(b).Incomplete?
    ensures ParseV2(b + more) == ParseV2(b)
  {
    var all := b + more;
    var n := 16 + Be16(b[14], b[15]);
    if |b| >= n {
      assert all[..n] == b[..n];
      if n >= 28 {
        assert all[16..20] == b[16..20] && all[20..24] == b[20..24];
      }
      if n >= 52 {
        assert all[16..32] == b[16..32] && all[32..48] == b[32..48];
      }
    }
  }

  /** A header once read, and every refusal but one, is not taken back when more bytes arrive. */
  lemma DecisionStays(v6: V6Text, b: seq<byte>, more: seq<byte>)
    requires !Parse(v6, b).Incomplete? && !Overlong(b)
    ensures Parse(v6, b + more) == Parse(v6, b)
  {
    SignatureInPrefix(b, more);
    if IsV1(b) {
      NoSignature(b);
      LineStays(v6, b, more);
      NoSignature(b + more);
    } else if IsV2(b) {
      BinaryStays(b, more);
    }
  }

  /** No header takes longer to decide than the longest version 2 header. */
  lemma Decides(v6: V6Text, b: seq<byte>)
    requires |b| >= 16 + 65535
    ensures !Parse(v6, b).Incomplete?
  {
  }

  /**
   * The answer to a buffer is final exactly when it is an answer and not the refusal of an
   * unfinished line for its length: that one turns into another answer when the line ends.
   */
  lemma FinalAnswers(v6: V6Text, b: seq<byte>)
    ensures (forall more: seq<byte> :: Parse(v6, b + more) == Parse(v6, b))
            <==> !Parse(v6, b).Incomplete? && !Overlong(b)
  {
    if Parse(v6, b).Incomplete? {
      var more := seq(16 + 65535, _ => 0 as byte);
      Decides(v6, b + more);
      assert Parse(v6, b + more) != Parse(v6, b);
    } else if Overlong(b) {
      assert At(CRLF, b + CRLF, |b|);
      SignatureInPrefix(b, CRLF);
      NoSignature(b);
      NoSignature(b + CRLF);
      assert Parse(v6, b + CRLF) != Parse(v6, b);
    } else {
      forall more: seq<byte>
        ensures Parse(v6, b + more) == Parse(v6, b)
      {
        DecisionStays(v6, b, more);
      }
    }
  }

  /** The answer rests on the consumed bytes alone. */
  lemma ConsumedSuffices(v6: V6Text, b: seq<byte>)
    requires Parse(v6, b).Ok?
    ensures Parse(v6, b[..Parse(v6, b).consumed]) == Parse(v6, b)
  {
    var n := Parse(v6, b).consumed;
    var head, tail := b[..n], b[n..];
    assert b == head + tail;
    SignatureInPrefix(head, tail);
    if IsV1(b) {
      NoSignature(b);
      assert IsV1(head);
      NoSignature(head);
      FindInPrefix(CRLF, head, tail);
      LineStays(v6, head, tail);
    } else {
      assert ParseV2(b).Ok?;
      BinaryStays(head, tail);
    }
  }

  /** What a receiver sees before the whole header has arrived. */
  lemma BeforeTheEnd(v6: V6Text, b: seq<byte>, m: nat)
    requires Parse(v6, b).Ok? && m < Parse(v6, b).consumed
    ensures Parse(v6, b[..m]) == if IsV1(b) && m >= V1_MAX then Invalid(TooLong) else Incomplete
  {
    var head, tail := b[..m], b[m..];
    assert b == head + tail;
    SignatureInPrefix(head, tail);
    if |head| >= 8 {
      if IsV1(b) {
        NoSignature(b);
        assert IsV1(head);
        NoSignature(head);
        FindInPrefix(CRLF, head, tail);
      } else if |head| >= 12 {
        assert head[..12] == SIGNATURE;
      } else {
        assert head <= SIGNATURE;
      }
    }
  }

  /**
   * A receiver that parses after every read gets the header however the bytes are cut, exactly
   * when the header is binary or its line ends within the limit; a longer line is accepted
   * only by a receiver that happens to see its end first.
   */
  lemma CutIndependence(v6: V6Text, b: seq<byte>)
    requires Parse(v6, b).Ok?
    ensures (forall m: nat | m < Parse(v6, b).consumed :: Parse(v6, b[..m]).Incomplete?)
            <==> !IsV1(b) || Parse(v6, b).consumed <= V1_MAX
  {
    var n := Parse(v6, b).consumed;
    forall m: nat | m < n
      ensures Parse(v6, b[..m]).Incomplete? <==> !(IsV1(b) && m >= V1_MAX)
    {
      BeforeTheEnd(v6, b, m);
    }
    if IsV1(b) && n > V1_MAX {
      assert !Parse(v6, b[..V1_MAX]).Incomplete?;
    }
  }

  lemma HeaderV1Fits(v6: V6Text, src: Endpoint, dst: Endpoint)
    requires v6.Faithful() && src.Valid() && dst.Valid()
    ensures |HeaderV1(v6, src, dst)| <= 104
  {
    if SameFamily(src, dst) {
      var f := Fields(v6, if src.ip.V4? then TCP4 else TCP6, src, dst);
      IpRoundTrip(v6, src.ip);
      IpRoundTrip(v6, dst.ip);
      DecLength(src.port);
      DecLength(dst.port);
      JoinFive(SP, f[0], f[1], f[2], f[3], f[4]);
      assert f == [f[0], f[1], f[2], f[3], f[4]];
    }
  }

  lemma JoinFive(sep: byte, a: seq<byte>, b: seq<byte>, c: seq<byte>, d: seq<byte>, e: seq<byte>)
    ensures Join(sep, [a, b, c, d, e]) == a + ([sep] + (b + ([sep] + (c + ([sep] + (d + ([sep] + e)))))))
  {
    assert [a, b, c, d, e][1..] == [b, c, d, e];
    JoinFour(sep, b, c, d, e);
  }

  /** Every strict prefix of what the sender writes asks for more, and none is refused. */
  lemma StrictPrefixesWait(v6: V6Text, src: Endpoint, dst: Endpoint, m: nat)
    requires v6.Faithful() && src.Valid() && dst.Valid()
    ensures m < |HeaderV1(v6, src, dst)| ==> Parse(v6, HeaderV1(v6, src, dst)[..m]) == Incomplete
    ensures m < |HeaderV2(src, dst)| ==> Parse(v6, HeaderV2(src, dst)[..m]) == Incomplete
  {
    var h1, h2 := HeaderV1(v6, src, dst), HeaderV2(src, dst);
    V1RoundTrip(v6, src, dst, []);
    V2RoundTrip(v6, src, dst, []);
    HeaderV1Fits(v6, src, dst);
    assert h1 + [] == h1;
    assert h2 + [] == h2;
    if m < |h1| {
      BeforeTheEnd(v6, h1, m);
    }
    if m < |h2| {
      BeforeTheEnd(v6, h2, m);
    }
  }

  // ---- the headers byte by byte ----

  /** "PROXY TCP4 " or "PROXY TCP6 ", two addresses, two ports, CRLF; "PROXY UNKNOWN" and CRLF for mixed families. */
  lemma HeaderV1Exactly(v6: V6Text, src: Endpoint, dst: Endpoint)
    requires src.Valid() && dst.Valid()
    ensures var sp: seq<byte> := [32];
            HeaderV1(v6, src, dst) ==
            if src.ip.V4? != dst.ip.V4? then [80, 82, 79, 88, 89, 32, 85, 78, 75, 78, 79, 87, 78, 13, 10]
            else [80, 82, 79, 88, 89, 32, 84, 67, 80, if src.ip.V4? then 52 else 54] + sp
                 + IpText(v6, src.ip) + sp + IpText(v6, dst.ip) + sp + Dec(src.port) + sp + Dec(dst.port) + [13, 10]
  {
    if SameFamily(src, dst) {
      var proto := if src.ip.V4? then TCP4 else TCP6;
      var a, b, c, d := IpText(v6, src.ip), IpText(v6, dst.ip), Dec(src.port), Dec(dst.port);
      JoinFive(SP, proto, a, b, c, d);
      Flat([SP], PROXY, proto, a, b, c, d, CRLF);
      assert PROXY + proto == [80, 82, 79, 88, 89, 32, 84, 67, 80, if src.ip.V4? then 52 else 54];
    } else {
      assert PROXY + (UNKNOWN + CRLF) == [80, 82, 79, 88, 89, 32, 85, 78, 75, 78, 79, 87, 78, 13, 10];
    }
  }

  lemma Flat(s: seq<byte>, x: seq<byte>, y: seq<byte>, a: seq<byte>, b: seq<byte>, c: seq<byte>, d: seq<byte>,
             z: seq<byte>)
    ensures x + (y + (s + (a + (s + (b + (s + (c + (s + d))))))) + z) == x + y + s + a + s + b + s + c + s + d + z
  {
    var inner := b + (s + (c + (s + d)));
    assert inner + z == b + s + c + s + d + z;
    assert y + (s + (a + (s + inner))) + z == y + s + a + s + (inner + z);
  }

  /** Signature, version and command, family and protocol, length, addresses, ports. */
  lemma HeaderV2Exactly(src: Endpoint, dst: Endpoint)
    requires src.Valid() && dst.Valid()
    ensures var h := HeaderV2(src, dst);
            && h[..12] == [0x0D, 0x0A, 0x0D, 0x0A, 0x00, 0x0D, 0x0A, 0x51, 0x55, 0x49, 0x54, 0x0A]
            && (src.ip.V4? != dst.ip.V4? ==> h[12..] == [0x20, 0x00, 0x00, 0x00])
            && (src.ip.V4? && dst.ip.V4? ==>
                  && |h| == 28 && h[12..16] == [0x21, 0x11, 0x00, 12]
                  && h[16..20] == src.ip.octets && h[20..24] == dst.ip.octets
                  && Be16(h[24], h[25]) == src.port && Be16(h[26], h[27]) == dst.port)
            && (src.ip.V6? && dst.ip.V6? ==>
                  && |h| == 52 && h[12..16] == [0x21, 0x21, 0x00, 36]
                  && h[16..32] == src.ip.octets && h[32..48] == dst.ip.octets
                  && Be16(h[48], h[49]) == src.port && Be16(h[50], h[51]) == dst.port)
  {
    if SameFamily(src, dst) {
      AddressesExactly(src, dst);
      var h, a := HeaderV2(src, dst), AddressesV2(src, dst);
      assert h[16..] == a;
      assert forall i, j :: 0 <= i <= j <= |a| ==> h[16 + i..16 + j] == a[i..j];
    }
  }

  lemma AddressesExactly(src: Endpoint, dst: Endpoint)
    requires src.Valid() && dst.Valid() && SameFamily(src, dst)
    ensures var a, n := AddressesV2(src, dst), |src.ip.octets|;
            && a[..n] == src.ip.octets && a[n..2 * n] == dst.ip.octets
            && Be16(a[2 * n], a[2 * n + 1]) == src.port && Be16(a[2 * n + 2], a[2 * n + 3]) == dst.port
  {
    var a, n := AddressesV2(src, dst), |src.ip.octets|;
    assert a[2 * n..2 * n + 2] == BigEndian(src.port) && a[2 * n + 2..] == BigEndian(dst.port);
    assert a[2 * n] == BigEndian(src.port)[0] && a[2 * n + 1] == BigEndian(src.port)[1];
    assert a[2 * n + 2] == BigEndian(dst.port)[0] && a[2 * n + 3] == BigEndian(dst.port)[1];
  }

  // ---- what is accepted ----

  /** A binary header: complete, version 2; LOCAL, or PROXY with a known family and room for its addresses. */
  lemma V2AcceptsExactly(v6: V6Text, b: seq<byte>)
    requires |b| >= 16 && b[..12] == [0x0D, 0x0A, 0x0D, 0x0A, 0x00, 0x0D, 0x0A, 0x51, 0x55, 0x49, 0x54, 0x0A]
    ensures var len := b[14] as int * 256 + b[15] as int;
            var version, command, family := b[12] as int / 16, b[12] as int % 16, b[13] as int / 16;
            && (Parse(v6, b) == Incomplete <==> version == 2 && |b| < 16 + len)
            && (Parse(v6, b).Ok? <==>
                  && version == 2 && |b| >= 16 + len
                  && (command == 0
                      || (command == 1 && (family == 1 ==> len >= 12) && (family == 2 ==> len >= 36))))
            && (Parse(v6, b).Ok? ==> Parse(v6, b).consumed == 16 + len)
            && (Parse(v6, b).Ok? ==> (Parse(v6, b).header.Local? <==> command == 0 || (family != 1 && family != 2)))
  {
  }

  /** The five fields of a line and what is read from them. */
  ghost predicate ReadsAs(v6: V6Text, line: seq<byte>, src: Endpoint, dst: Endpoint, f: seq<seq<byte>>) {
    && |f| == 5 && (forall i :: 0 <= i < 4 ==> SP !in f[i]) && line == Join(SP, f) && !(UNKNOWN <= line)
    && ParseIp(v6, f[1]) == Some(src.ip) && ParseIp(v6, f[2]) == Some(dst.ip)
    && ParseU16(f[3]) == Some(src.port) && ParseU16(f[4]) == Some(dst.port)
  }

  lemma LineSound(v6: V6Text, line: seq<byte>, consumed: nat)
    requires ParseLine(v6, line, consumed).Ok? && ParseLine(v6, line, consumed).header.Proxy?
    ensures var h := ParseLine(v6, line, consumed).header; ReadsAs(v6, line, h.src, h.dst, SplitN(SP, 5, line))
  {
    JoinOfSplit(SP, 5, line);
    forall i | 0 <= i < 4
      ensures SP !in SplitN(SP, 5, line)[i]
    {
      SplitHasNone(SP, 5, line, i);
    }
  }

  lemma FrontOfLine(b: seq<byte>)
    requires IsV1(b) && Find(CRLF, b).Some?
    ensures var end := Find(CRLF, b).value; 6 <= end && b[..end + 2] == PROXY + (b[6..end] + CRLF)
  {
    var end := Find(CRLF, b).value;
    assert b[end..end + 2][0] == CR;
    assert b[..6] == PROXY && b[end..end + 2] == CRLF;
    assert b[..end + 2] == b[..6] + (b[6..end] + b[end..end + 2]);
  }

  /** A text header that names endpoints is `PROXY ` and exactly the five fields they are read from. */
  lemma V1Sound(v6: V6Text, b: seq<byte>)
    requires IsV1(b) && Parse(v6, b).Ok? && Parse(v6, b).header.Proxy?
    ensures var r := Parse(v6, b);
            exists line, f :: && b[..r.consumed] == PROXY + (line + CRLF)
                              && ReadsAs(v6, line, r.header.src, r.header.dst, f)
  {
    NoSignature(b);
    FrontOfLine(b);
    var end := Find(CRLF, b).value;
    LineSound(v6, b[6..end], end + 2);
  }

  /** Eight bytes or more that begin neither way are refused. */
  lemma NeitherVersion(v6: V6Text, b: seq<byte>)
    requires |b| >= 8 && !([80, 82, 79, 88, 89, 32] <= b)
    requires var sig: seq<byte> := [0x0D, 0x0A, 0x0D, 0x0A, 0x00, 0x0D, 0x0A, 0x51, 0x55, 0x49, 0x54, 0x0A];
             !(sig <= b) && !(b <= sig)
    ensures Parse(v6, b) == Invalid(NotProxy)
  {
  }

  /** An unfinished text line waits until it has 108 bytes. */
  lemma UnfinishedLine(v6: V6Text, b: seq<byte>)
    requires |b| >= 8 && [80, 82, 79, 88, 89, 32] <= b && forall i: nat :: !At([13, 10], b, i)
    ensures Parse(v6, b) == if |b| < 108 then Incomplete else Invalid(TooLong)
  {
    NoSignature(b);
  }

  /** A line that says UNKNOWN carries nothing, whatever else it says in printable characters. */
  lemma UnknownLine(v6: V6Text, more: seq<byte>, payload: seq<byte>)
    requires Plain(more)
    ensures Parse(v6, PROXY + (UNKNOWN + more + CRLF) + payload) == Ok(Local, |PROXY + (UNKNOWN + more + CRLF)|)
  {
    var line := UNKNOWN + more;
    PlainIsUtf8(line);
    LineIsParsed(v6, line, payload);
  }

  /** A line that is not UTF-8 is refused. */
  lemma NotTextIsRefused(v6: V6Text, b: seq<byte>, i: nat)
    requires IsV1(b) && Find(CRLF, b).Some? && 6 <= i < Find(CRLF, b).value && b[i] >= 0xF5
    ensures Parse(v6, b) == Invalid(NotUtf8)
  {
    NoSignature(b);
    FrontOfLine(b);
    var line := b[6..Find(CRLF, b).value];
    assert line[i - 6] == b[i];
    if Utf8(line) {
      Utf8Excludes(line, i - 6);
    }
  }
}
