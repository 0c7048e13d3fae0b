/**
 * The text the PROXY protocol's first version is made of: decimal numbers, separated fields,
 * addresses. The parsing half is what Rust's `splitn`, `from_utf8` and `parse` do.
 */
module HeaderText {
  import opened Common

  const SP: byte := 32
  const DOT: byte := 46
  const PLUS: byte := 43
  const COLON: byte := 58
  const ZERO: byte := 48

  predicate Digit(c: byte) { 48 <= c <= 57 }

  predicate Digits(s: seq<byte>) { forall i :: 0 <= i < |s| ==> Digit(s[i]) }

  // ---- decimal numbers ----

  /** `n` in decimal without leading zeros. */
  function Dec(n: nat): (s: seq<byte>)
    ensures s != [] && Digits(s)
    ensures s[0] == ZERO ==> n == 0 && |s| == 1
  {
    if n < 10 then [(48 + n) as byte] else Dec(n / 10) + [(48 + n % 10) as byte]
  }

  /** The number a string of digits stands for. */
  function Value(s: seq<byte>): (n: nat)
    requires Digits(s)
  {
    if s == [] then 0 else Value(s[..|s| - 1]) * 10 + (s[|s| - 1] as int - 48)
  }

  lemma {:induction false} ValueOfDec(n: nat)
    ensures Value(Dec(n)) == n
  {
    if n >= 10 {
      ValueOfDec(n / 10);
      assert Dec(n)[..|Dec(n)| - 1] == Dec(n / 10);
    }
  }

  lemma {:induction false} DecLength(n: nat)
    ensures |Dec(n)| == 1 <==> n < 10
    ensures |Dec(n)| <= 2 <==> n < 100
    ensures |Dec(n)| <= 3 <==> n < 1000
    ensures |Dec(n)| <= 4 <==> n < 10000
    ensures |Dec(n)| <= 5 <==> n < 100000
  {
    if n >= 10 {
      DecLength(n / 10);
    }
  }

  /** `str::parse::<u16>`: an optional plus sign, at least one digit, leading zeros allowed. */
  function ParseU16(s: seq<byte>): (r: Option<nat>)
    ensures r.Some? ==> r.value < 65536
  {
    var d := if s != [] && s[0] == PLUS then s[1..] else s;
    if d != [] && Digits(d) && Value(d) < 65536 then Some(Value(d)) else None
  }

  /** One field of a dotted address: one to three digits, no leading zero, at most 255. */
  function ParseOctet(s: seq<byte>): (r: Option<byte>) {
    if 1 <= |s| <= 3 && Digits(s) && (s[0] == ZERO ==> |s| == 1) && Value(s) < 256
    then Some(Value(s) as byte) else None
  }

  lemma NumbersRoundTrip(n: nat)
    ensures n < 65536 ==> ParseU16(Dec(n)) == Some(n)
    ensures n < 256 ==> ParseOctet(Dec(n)) == Some(n as byte)
  {
    ValueOfDec(n);
    DecLength(n);
  }

  // ---- fields ----

  /** Where `sep` first occurs, or the length of `s`. */
  function IndexOf(sep: byte, s: seq<byte>): (i: nat)
    ensures i <= |s| && sep !in s[..i]
    ensures i < |s| ==> s[i] == sep
  {
    if s == [] || s[0] == sep then 0 else 1 + IndexOf(sep, s[1..])
  }

  /** `splitn(n, sep)`: at most `n` pieces, the last one keeping any further separators. */
  function SplitN(sep: byte, n: nat, s: seq<byte>): (parts: seq<seq<byte>>)
    requires n >= 1
    ensures 1 <= |parts| <= n
  {
    var i := IndexOf(sep, s);
    if n == 1 || i == |s| then [s] else [s[..i]] + SplitN(sep, n - 1, s[i + 1..])
  }

  /** The fields with a separator between neighbours. */
  function Join(sep: byte, parts: seq<seq<byte>>): seq<byte> {
    if parts == [] then []
    else if |parts| == 1 then parts[0]
    else parts[0] + ([sep] + Join(sep, parts[1..]))
  }

  lemma {:induction false} IndexAfter(sep: byte, a: seq<byte>, rest: seq<byte>)
    requires sep !in a
    ensures IndexOf(sep, a + rest) == |a| + IndexOf(sep, rest)
  {
    if a == [] {
      assert a + rest == rest;
    } else {
      assert (a + rest)[1..] == a[1..] + rest;
      IndexAfter(sep, a[1..], rest);
    }
  }

  lemma SplitStep(sep: byte, n: nat, a: seq<byte>, rest: seq<byte>)
    requires n >= 2 && sep !in a
    ensures SplitN(sep, n, a + ([sep] + rest)) == [a] + SplitN(sep, n - 1, rest)
  {
    var s := a + ([sep] + rest);
    IndexAfter(sep, a, [sep] + rest);
    assert s[..|a|] == a;
    assert s[|a| + 1..] == rest;
  }

  lemma SplitNothing(sep: byte, n: nat, a: seq<byte>)
    requires n >= 1 && (n > 1 ==> sep !in a)
    ensures SplitN(sep, n, a) == [a]
  {
    if n > 1 {
      IndexAfter(sep, a, []);
      assert a + [] == a;
    }
  }

  /** Splitting gives back the fields that were joined, when none but the last holds the separator. */
  lemma {:induction false} SplitOfJoin(sep: byte, n: nat, parts: seq<seq<byte>>)
    requires 1 <= |parts| <= n
    requires forall i :: 0 <= i < |parts| - 1 ==> sep !in parts[i]
    requires |parts| < n ==> sep !in parts[|parts| - 1]
    ensures SplitN(sep, n, Join(sep, parts)) == parts
  {
    if |parts| == 1 {
      SplitNothing(sep, n, parts[0]);
    } else {
      SplitOfJoin(sep, n - 1, parts[1..]);
      SplitStep(sep, n, parts[0], Join(sep, parts[1..]));
    }
  }

  /** No piece but the last holds the separator. */
  lemma {:induction false} SplitHasNone(sep: byte, n: nat, s: seq<byte>, k: nat)
    requires n >= 1 && k + 1 < |SplitN(sep, n, s)|
    ensures sep !in SplitN(sep, n, s)[k]
    decreases k
  {
    var i := IndexOf(sep, s);
    assert SplitN(sep, n, s) == [s[..i]] + SplitN(sep, n - 1, s[i + 1..]);
    if k > 0 {
      SplitHasNone(sep, n - 1, s[i + 1..], k - 1);
    }
  }

  /** And joining gives back the text that was split. */
  lemma {:induction false} JoinOfSplit(sep: byte, n: nat, s: seq<byte>)
    requires n >= 1
    ensures Join(sep, SplitN(sep, n, s)) == s
  {
    var i := IndexOf(sep, s);
    if n > 1 && i < |s| {
      JoinOfSplit(sep, n - 1, s[i + 1..]);
      assert s == s[..i] + ([sep] + s[i + 1..]);
      assert SplitN(sep, n, s)[1..] == SplitN(sep, n - 1, s[i + 1..]);
    }
  }

  // ---- addresses ----

  datatype Ip = V4(octets: seq<byte>) | V6(octets: seq<byte>) {
    predicate Valid() {
      |octets| == if V4? then 4 else 16
    }
  }

  /** Rust's printer and parser of IPv6 addresses. */
  datatype V6Text = V6Text(show: seq<byte> -> seq<byte>, parse: seq<byte> -> Option<seq<byte>>) {
    /** What the standard library promises of them. */
    ghost predicate Faithful() {
      && (forall a: seq<byte> :: |a| == 16 ==>
           && parse(show(a)) == Some(a)
           && |show(a)| <= 39
           && COLON in show(a)
           && AddressText(show(a)))
      && (forall s: seq<byte> :: parse(s).Some? ==> |parse(s).value| == 16)
    }
  }

  /** Hexadecimal digits, dots and colons. */
  predicate AddressText(s: seq<byte>) {
    forall i :: 0 <= i < |s| ==> 46 <= s[i] <= 58 || 97 <= s[i] <= 102
  }

  function Dotted(octets: seq<byte>): (s: seq<byte>) {
    Join(DOT, seq(|octets|, i requires 0 <= i < |octets| => Dec(octets[i])))
  }

  function DottedOctet(first: bool, octet: byte): seq<byte> {
    if first then Dec(octet) else [DOT] + Dec(octet)
  }

  lemma {:induction false} JoinOneMore(sep: byte, parts: seq<seq<byte>>, last: seq<byte>)
    requires parts != []
    ensures Join(sep, parts + [last]) == Join(sep, parts) + ([sep] + last)
  {
    assert (parts + [last])[1..] == parts[1..] + [last];
    if |parts| > 1 {
      JoinOneMore(sep, parts[1..], last);
    }
  }

  /** A dotted address grows octet by octet. */
  lemma DottedStep(o: seq<byte>, k: nat)
    requires k < |o|
    ensures Dotted(o[..k + 1]) == Dotted(o[..k]) + DottedOctet(k == 0, o[k])
  {
    var front, longer := o[..k], o[..k + 1];
    var parts := seq(k, i requires 0 <= i < k => Dec(front[i]));
    assert seq(k + 1, i requires 0 <= i < k + 1 => Dec(longer[i])) == parts + [Dec(o[k])];
    if k > 0 {
      JoinOneMore(DOT, parts, Dec(o[k]));
    }
  }

  lemma {:induction false} DottedGrows(o: seq<byte>, k: nat)
    requires k <= |o|
    ensures |Dotted(o[..k])| <= |Dotted(o)|
    decreases |o| - k
  {
    if k < |o| {
      DottedStep(o, k);
      DottedGrows(o, k + 1);
    } else {
      assert o[..k] == o;
    }
  }

  function IpText(v6: V6Text, ip: Ip): seq<byte>
    requires ip.Valid()
  {
    match ip
    case V4(o) => Dotted(o)
    case V6(o) => v6.show(o)
  }

  /** Four octets between dots. */
  function ParseV4(s: seq<byte>): (r: Option<seq<byte>>)
    ensures r.Some? ==> |r.value| == 4
  {
    var p := SplitN(DOT, 4, s);
    if |p| != 4 then None else
    match (ParseOctet(p[0]), ParseOctet(p[1]), ParseOctet(p[2]), ParseOctet(p[3]))
    case (Some(a), Some(b), Some(c), Some(d)) => Some([a, b, c, d])
    case _ => None
  }

  /** `str::parse::<IpAddr>`: the dotted form first, then IPv6. */
  function ParseIp(v6: V6Text, s: seq<byte>): (r: Option<Ip>) {
    match ParseV4(s)
    case Some(o) => Some(V4(o))
    case None =>
      match v6.parse(s)
      case Some(o) => Some(V6(o))
      case None => None
  }

  lemma DottedParts(o: seq<byte>)
    requires |o| == 4
    ensures Dotted(o) == Join(DOT, [Dec(o[0]), Dec(o[1]), Dec(o[2]), Dec(o[3])])
  {
    assert seq(|o|, i requires 0 <= i < |o| => Dec(o[i])) == [Dec(o[0]), Dec(o[1]), Dec(o[2]), Dec(o[3])];
  }

  lemma JoinFour(sep: byte, a: seq<byte>, b: seq<byte>, c: seq<byte>, d: seq<byte>)
    ensures Join(sep, [a, b, c, d]) == a + ([sep] + (b + ([sep] + (c + ([sep] + d)))))
  {
    assert [c, d][1..] == [d];
    assert Join(sep, [c, d]) == c + ([sep] + d);
    assert [b, c, d][1..] == [c, d];
    assert Join(sep, [b, c, d]) == b + ([sep] + (c + ([sep] + d)));
    assert [a, b, c, d][1..] == [b, c, d];
  }

  lemma DottedLooks(o: seq<byte>)
    requires |o| == 4
    ensures AddressText(Dotted(o)) && 1 <= |Dotted(o)| <= 15
  {
    DottedParts(o);
    JoinFour(DOT, Dec(o[0]), Dec(o[1]), Dec(o[2]), Dec(o[3]));
    DecLength(o[0]);
    DecLength(o[1]);
    DecLength(o[2]);
    DecLength(o[3]);
  }

  lemma DottedRoundTrip(o: seq<byte>)
    requires |o| == 4
    ensures ParseV4(Dotted(o)) == Some(o)
  {
    DottedParts(o);
    SplitOfJoin(DOT, 4, [Dec(o[0]), Dec(o[1]), Dec(o[2]), Dec(o[3])]);
    NumbersRoundTrip(o[0]);
    NumbersRoundTrip(o[1]);
    NumbersRoundTrip(o[2]);
    NumbersRoundTrip(o[3]);
    assert o == [o[0], o[1], o[2], o[3]];
  }

  /** Whatever reads as a dotted address is the text of that address: there is one spelling. */
  lemma DottedIsCanonical(s: seq<byte>)
    requires ParseV4(s).Some?
    ensures Dotted(ParseV4(s).value) == s
  {
    var o := ParseV4(s).value;
    var p := SplitN(DOT, 4, s);
    OctetIsCanonical(p[0]);
    OctetIsCanonical(p[1]);
    OctetIsCanonical(p[2]);
    OctetIsCanonical(p[3]);
    DottedParts(o);
    assert p == [p[0], p[1], p[2], p[3]];
    JoinOfSplit(DOT, 4, s);
  }

  lemma OctetIsCanonical(s: seq<byte>)
    requires ParseOctet(s).Some?
    ensures Dec(ParseOctet(s).value) == s
  {
    DecOfValue(s);
  }

  lemma {:induction false} DecOfValue(s: seq<byte>)
    requires s != [] && Digits(s) && (s[0] == ZERO ==> |s| == 1)
    ensures Dec(Value(s)) == s
    ensures s[0] != ZERO ==> Value(s) > 0
  {
    var front := s[..|s| - 1];
    if front == [] {
      assert Value(front) == 0;
    } else {
      DecOfValue(front);
      assert s == front + [s[|s| - 1]];
    }
  }

  /** An address comes back from its text, whichever family it is of. */
  lemma IpRoundTrip(v6: V6Text, ip: Ip)
    requires v6.Faithful() && ip.Valid()
    ensures ParseIp(v6, IpText(v6, ip)) == Some(ip)
    ensures AddressText(IpText(v6, ip)) && |IpText(v6, ip)| <= 39
  {
    match ip
    case V4(o) =>
      DottedRoundTrip(o);
      DottedLooks(o);
    case V6(o) =>
      var s := v6.show(o);
      if ParseV4(s).Some? {
        DottedIsCanonical(s);
        NoColon(ParseV4(s).value);
      }
  }

  lemma IpParsed(v6: V6Text, ip: Ip)
    requires v6.Faithful() && ip.Valid()
    ensures ParseIp(v6, IpText(v6, ip)) == Some(ip)
  {
    IpRoundTrip(v6, ip);
  }

  lemma NoColon(o: seq<byte>)
    requires |o| == 4
    ensures COLON !in Dotted(o)
  {
    DottedParts(o);
    JoinFour(DOT, Dec(o[0]), Dec(o[1]), Dec(o[2]), Dec(o[3]));
  }

  // ---- UTF-8 ----

  predicate Continuation(s: seq<byte>, i: nat) { i < |s| && 128 <= s[i] < 192 }

  /** How many bytes the character at the front takes, 0 when it is ill-formed (table 3-7 of Unicode 15). */
  function CharLength(s: seq<byte>): (n: nat)
    requires s != []
    ensures n <= |s|
  {
    var b := s[0];
    if b < 128 then 1
    else if !Continuation(s, 1) then 0
    else if 0xC2 <= b <= 0xDF then 2
    else if !Continuation(s, 2) then 0
    else if 0xE0 <= b <= 0xEF && (b == 0xE0 ==> s[1] >= 0xA0) && (b == 0xED ==> s[1] < 0xA0) then 3
    else if !Continuation(s, 3) then 0
    else if 0xF0 <= b <= 0xF4 && (b == 0xF0 ==> s[1] >= 0x90) && (b == 0xF4 ==> s[1] < 0x90) then 4
    else 0
  }

  /** `std::str::from_utf8` succeeds. */
  predicate Utf8(s: seq<byte>) {
    s == [] || (CharLength(s) > 0 && Utf8(s[CharLength(s)..]))
  }

  /** Printable ASCII. */
  predicate Plain(s: seq<byte>) { forall i :: 0 <= i < |s| ==> 32 <= s[i] < 127 }

  lemma DigitsArePlain(s: seq<byte>)
    requires Digits(s)
    ensures Plain(s) && SP !in s
  {
  }

  lemma IpIsPlain(v6: V6Text, ip: Ip)
    requires v6.Faithful() && ip.Valid()
    ensures Plain(IpText(v6, ip)) && SP !in IpText(v6, ip)
  {
    IpRoundTrip(v6, ip);
  }

  lemma {:induction false} PlainIsUtf8(s: seq<byte>)
    requires Plain(s)
    ensures Utf8(s)
  {
    if s != [] {
      PlainIsUtf8(s[1..]);
    }
  }

  lemma PlainLine(s: seq<byte>, rest: seq<byte>)
    requires Plain(s)
    ensures Find(CRLF, s + (CRLF + rest)) == Some(|s|)
  {
    var all := s + (CRLF + rest);
    assert At(CRLF, all, |s|);
    forall j: nat | j < |s|
      ensures !At(CRLF, all, j)
    {
      assert all[j] == s[j] && all[j..j + 2][0] == all[j];
    }
  }

  // ----- decimal numerals, read from their first digit on

  function DecNumeral(acc: nat, digits: seq<byte>): nat
    requires Digits(digits)
    decreases |digits|
  {
    if digits == [] then acc else DecNumeral(acc * 10 + (digits[0] as int - '0' as int), digits[1..])
  }

  lemma {:induction false} DecNumeralAppend(acc: nat, digits: seq<byte>, c: byte)
    requires Digits(digits) && Digit(c)
    ensures Digits(digits + [c])
    ensures DecNumeral(acc, digits + [c]) == DecNumeral(acc, digits) * 10 + (c as int - '0' as int)
    decreases |digits|
  {
    if digits == [] {
      assert digits + [c] == [c] && [c][1..] == [];
    } else {
      assert (digits + [c])[1..] == digits[1..] + [c];
      DecNumeralAppend(acc * 10 + (digits[0] as int - '0' as int), digits[1..], c);
    }
  }

  /** A number is written as its decimal numeral, without leading zeros. */
  lemma {:induction false} DecIsNumeral(n: nat)
    ensures DecNumeral(0, Dec(n)) == n
    ensures Dec(n)[0] == '0' as int ==> n == 0 && |Dec(n)| == 1
  {
    if n < 10 {
      assert Dec(n)[1..] == [];
    } else {
      DecIsNumeral(n / 10);
      DecNumeralAppend(0, Dec(n / 10), (48 + n % 10) as byte);
    }
  }

  lemma {:induction false} ValueIsNumeral(s: seq<byte>)
    requires Digits(s)
    ensures Value(s) == DecNumeral(0, s)
    decreases |s|
  {
    if s != [] {
      var n := |s| - 1;
      ValueIsNumeral(s[..n]);
      DecNumeralAppend(0, s[..n], s[n]);
      assert s == s[..n] + [s[n]];
    }
  }

  /** A port is read from an optional plus sign and at least one digit, if its value is below 65536. */
  lemma PortExactly(s: seq<byte>, n: nat)
    ensures ParseU16(s) == Some(n) <==>
            exists digits :: && (s == digits || s == ['+' as int as byte] + digits)
                             && digits != [] && Digits(digits) && DecNumeral(0, digits) == n && n < 65536
  {
    var d := if s != [] && s[0] == PLUS then s[1..] else s;
    if ParseU16(s) == Some(n) {
      ValueIsNumeral(d);
      assert s == d || s == ['+' as int as byte] + d;
    }
    if digits :| && (s == digits || s == ['+' as int as byte] + digits)
                 && digits != [] && Digits(digits) && DecNumeral(0, digits) == n && n < 65536 {
      assert Digit(digits[0]);
      assert s == ['+' as int as byte] + digits ==> s[1..] == digits;
      assert d == digits;
      ValueIsNumeral(digits);
    }
  }

  /** The text of an IPv4 address: its four numerals with dots between them. */
  lemma DottedExactly(o: seq<byte>)
    requires |o| == 4
    ensures var dot: seq<byte> := ['.' as int as byte];
            Dotted(o) == Dec(o[0]) + dot + Dec(o[1]) + dot + Dec(o[2]) + dot + Dec(o[3])
  {
    DottedParts(o);
    JoinFour(DOT, Dec(o[0]), Dec(o[1]), Dec(o[2]), Dec(o[3]));
  }

  /** UTF-8 text holds none of the bytes that no character has. */
  lemma {:induction false} Utf8Excludes(s: seq<byte>, i: nat)
    requires Utf8(s) && i < |s|
    ensures s[i] != 0xC0 && s[i] != 0xC1 && s[i] < 0xF5
    decreases |s|
  {
    var n := CharLength(s);
    if i >= n {
      Utf8Excludes(s[n..], i - n);
    }
  }
}
