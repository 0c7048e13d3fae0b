/** The cache's own base64 (src/middleware/proxy_cache.rs). */
module Base64 {
  import opened Common

  const PAD: byte := 61

  /** Entry `i` of the alphabet of section 4 of RFC 4648. */
  function Letter(i: nat): (c: byte)
    requires i < 64
    ensures c != PAD
  {
    if i < 26 then 65 + i else if i < 52 then 71 + i else if i < 62 then i - 4 else if i == 62 then 43 else 47
  }

  /** `decode_char(..).unwrap_or(0)`: padding and foreign characters count as zero. */
  function Value(c: byte): (i: nat)
    ensures i < 64
  {
    if 65 <= c <= 90 then c as int - 65
    else if 97 <= c <= 122 then c as int - 71
    else if 48 <= c <= 57 then c as int + 4
    else if c == 43 then 62
    else if c == 47 then 63
    else 0
  }

  lemma ValueOfLetter(i: nat)
    requires i < 64
    ensures Value(Letter(i)) == i
  {
  }

  /** One to three bytes to four characters; shifts and masks are written as division and remainder. */
  function EncodeGroup(g: seq<byte>): (r: seq<byte>)
    requires 1 <= |g| <= 3
    ensures |r| == 4
  {
    var b0 := g[0] as int;
    var b1 := if |g| > 1 then g[1] as int else 0;
    var b2 := if |g| > 2 then g[2] as int else 0;
    [Letter(b0 / 4),
     Letter(b0 % 4 * 16 + b1 / 16),
     if |g| > 1 then Letter(b1 % 16 * 4 + b2 / 64) else PAD,
     if |g| > 2 then Letter(b2 % 64) else PAD]
  }

  /** Four characters to one to three bytes; a `u8` shift to the left keeps only the bits that fit. */
  function DecodeGroup(c: seq<byte>): seq<byte>
    requires |c| == 4
  {
    var v0, v1, v2, v3 := Value(c[0]), Value(c[1]), Value(c[2]), Value(c[3]);
    [v0 * 4 + v1 / 16]
    + (if c[2] != PAD then [v1 % 16 * 16 + v2 / 4] else [])
    + (if c[3] != PAD then [v2 % 4 * 64 + v3] else [])
  }

  function Encode(data: seq<byte>): seq<byte> {
    if data == [] then []
    else
      var n := if |data| <= 3 then |data| else 3;
      EncodeGroup(data[..n]) + Encode(data[n..])
  }

  /** An incomplete last group is dropped. */
  function Decode(s: seq<byte>): seq<byte> {
    if |s| < 4 then [] else DecodeGroup(s[..4]) + Decode(s[4..])
  }

  /** `base64_encode`. */
  method EncodeBytes(data: seq<byte>) returns (out: seq<byte>)
    ensures out == Encode(data)
  {
    out := [];
    var rest := data;
    while rest != []
      invariant out + Encode(rest) == Encode(data)
      decreases |rest|
    {
      var n := if |rest| <= 3 then |rest| else 3;
      var chunk := rest[..n];
      Assoc(out, EncodeGroup(chunk), Encode(rest[n..]));
      out := out + EncodeGroup(chunk);
      rest := rest[n..];
    }
  }

  /** `base64_decode`. */
  method DecodeText(s: seq<byte>) returns (out: seq<byte>)
    ensures out == Decode(s)
  {
    out := [];
    var rest := s;
    while |rest| >= 4
      invariant out + Decode(rest) == Decode(s)
      decreases |rest|
    {
      Assoc(out, DecodeGroup(rest[..4]), Decode(rest[4..]));
      out := out + DecodeGroup(rest[..4]);
      rest := rest[4..];
    }
  }

  lemma GroupRoundTrip(g: seq<byte>)
    requires 1 <= |g| <= 3
    ensures DecodeGroup(EncodeGroup(g)) == g
  {
    var b0 := g[0] as int;
    var b1 := if |g| > 1 then g[1] as int else 0;
    var b2 := if |g| > 2 then g[2] as int else 0;
    ValueOfLetter(b0 / 4);
    ValueOfLetter(b0 % 4 * 16 + b1 / 16);
    FirstByte(b0, b1);
    if |g| > 1 {
      ValueOfLetter(b1 % 16 * 4 + b2 / 64);
      SecondByte(b0, b1, b2);
    }
    if |g| > 2 {
      ValueOfLetter(b2 % 64);
      ThirdByte(b1, b2);
    }
  }

  lemma FirstByte(b0: nat, b1: nat)
    requires b0 < 256 && b1 < 256
    ensures b0 / 4 * 4 + (b0 % 4 * 16 + b1 / 16) / 16 == b0
  {
    assert (b0 % 4 * 16 + b1 / 16) / 16 == b0 % 4;
  }

  lemma SecondByte(b0: nat, b1: nat, b2: nat)
    requires b0 < 256 && b1 < 256 && b2 < 256
    ensures (b0 % 4 * 16 + b1 / 16) % 16 * 16 + (b1 % 16 * 4 + b2 / 64) / 4 == b1
  {
    assert (b1 % 16 * 4 + b2 / 64) / 4 == b1 % 16;
    assert (b0 % 4 * 16 + b1 / 16) % 16 == b1 / 16;
  }

  lemma ThirdByte(b1: nat, b2: nat)
    requires b1 < 256 && b2 < 256
    ensures (b1 % 16 * 4 + b2 / 64) % 4 * 64 + b2 % 64 == b2
  {
    assert (b1 % 16 * 4 + b2 / 64) % 4 == b2 / 64;
  }

  lemma DecodeSplits(e: seq<byte>, rest: seq<byte>)
    requires |e| == 4
    ensures Decode(e + rest) == DecodeGroup(e) + Decode(rest)
  {
    assert (e + rest)[..4] == e && (e + rest)[4..] == rest;
  }

  lemma GroupThenRest(g: seq<byte>, rest: seq<byte>)
    requires 1 <= |g| <= 3
    ensures Decode(EncodeGroup(g) + rest) == g + Decode(rest)
  {
    DecodeSplits(EncodeGroup(g), rest);
    GroupRoundTrip(g);
  }

  /** Every byte string of every length comes back. */
  lemma {:induction false} RoundTrip(data: seq<byte>)
    ensures Decode(Encode(data)) == data
    decreases |data|
  {
    if data != [] {
      var n := if |data| <= 3 then |data| else 3;
      RoundTrip(data[n..]);
      GroupThenRest(data[..n], Encode(data[n..]));
      assert data == data[..n] + data[n..];
    }
  }

  /** Four characters for every three bytes begun. */
  lemma {:induction false} EncodedLength(data: seq<byte>)
    ensures |Encode(data)| == (|data| + 2) / 3 * 4
    decreases |data|
  {
    if data != [] {
      var n := if |data| <= 3 then |data| else 3;
      EncodedLength(data[n..]);
      assert (|data| + 2) / 3 == 1 + (|data[n..]| + 2) / 3;
    }
  }

  /** The alphabet of section 4 of RFC 4648: upper case, lower case, digits, plus and slash. */
  lemma AlphabetExactly(i: nat)
    requires i < 64
    ensures Letter(i) as int ==
            if i < 26 then 'A' as int + i
            else if i < 52 then 'a' as int + (i - 26)
            else if i < 62 then '0' as int + (i - 52)
            else if i == 62 then '+' as int
            else '/' as int
  {
  }

  /** A group and its four characters are the same 24-bit number; missing bytes count as zero and show as padding. */
  lemma GroupNumber(g: seq<byte>)
    requires 1 <= |g| <= 3
    ensures var c := EncodeGroup(g);
            var b1, b2 := if |g| > 1 then g[1] as int else 0, if |g| > 2 then g[2] as int else 0;
            && g[0] as int * 0x1_0000 + b1 * 0x100 + b2
               == Value(c[0]) * 0x4_0000 + Value(c[1]) * 0x1000 + Value(c[2]) * 0x40 + Value(c[3])
            && (c[2] == '=' as int <==> |g| == 1) && (c[3] == '=' as int <==> |g| <= 2)
  {
    var b0 := g[0] as int;
    var b1, b2 := if |g| > 1 then g[1] as int else 0, if |g| > 2 then g[2] as int else 0;
    ValueOfLetter(b0 / 4);
    ValueOfLetter(b0 % 4 * 16 + b1 / 16);
    ValueOfLetter(b1 % 16 * 4 + b2 / 64);
    ValueOfLetter(b2 % 64);
  }

  /** Whole groups are encoded one by one. */
  lemma {:induction false} EncodeAppends(a: seq<byte>, b: seq<byte>)
    requires |a| % 3 == 0
    ensures Encode(a + b) == Encode(a) + Encode(b)
    decreases |a|
  {
    if a == [] {
      assert a + b == b;
    } else {
      assert (a + b)[..3] == a[..3] && (a + b)[3..] == a[3..] + b;
      EncodeAppends(a[3..], b);
      Assoc(EncodeGroup(a[..3]), Encode(a[3..]), Encode(b));
    }
  }

  /** Characters behind the last whole group are dropped. */
  lemma {:induction false} DecodeDropsRest(e: seq<byte>, rest: seq<byte>)
    requires |e| % 4 == 0 && |rest| < 4
    ensures Decode(e + rest) == Decode(e)
    decreases |e|
  {
    if e == [] {
      assert e + rest == rest;
    } else {
      assert (e + rest)[..4] == e[..4] && (e + rest)[4..] == e[4..] + rest;
      DecodeDropsRest(e[4..], rest);
    }
  }
}
