/** Chunked transfer coding: the request encoder and the two response decoders (src/handler/reverse_proxy/conn.rs). */
module Chunked {
  import opened Common
  import opened Buffered

  // ----- numbers in hexadecimal

  function HexDigit(d: nat): byte
    requires d < 16
  {
    if d < 10 then 48 + d else 87 + d
  }

  /** `{:x}`: lower case, no leading zeros. */
  function Hex(n: nat): (s: seq<byte>)
    ensures s != []
  {
    if n < 16 then [HexDigit(n)] else Hex(n / 16) + [HexDigit(n % 16)]
  }

  function DigitValue(c: byte): Option<nat> {
    if 48 <= c <= 57 then Some(c as int - 48)
    else if 97 <= c <= 102 then Some(c as int - 87)
    else if 65 <= c <= 70 then Some(c as int - 55)
    else None
  }

  /** The value of a digit string; None when some character is no digit. */
  function HexValue(s: seq<byte>): Option<nat> {
    if s == [] then Some(0)
    else
      var high := HexValue(s[..|s| - 1]);
      var low := DigitValue(s[|s| - 1]);
      if high.Some? && low.Some? then Some(high.value * 16 + low.value) else None
  }

  const USIZE: nat := 0x1_0000_0000_0000_0000

  /** `usize::from_str_radix(s, 16)`: a leading plus sign is accepted, an empty string or an overflow is not. */
  function FromHex(s: seq<byte>): Option<nat> {
    var digits := if s != [] && s[0] == 43 then s[1..] else s;
    var v := HexValue(digits);
    if digits != [] && v.Some? && v.value < USIZE then v else None
  }

  lemma {:induction false} HexValueOfHex(n: nat)
    ensures HexValue(Hex(n)) == Some(n)
    ensures forall i :: 0 <= i < |Hex(n)| ==> DigitValue(Hex(n)[i]).Some?
  {
    if n < 16 {
      assert [HexDigit(n)][..0] == [];
    } else {
      HexValueOfHex(n / 16);
      var s := Hex(n / 16) + [HexDigit(n % 16)];
      assert s[..|s| - 1] == Hex(n / 16);
    }
  }

  function Pow16(k: nat): nat {
    if k == 0 then 1 else 16 * Pow16(k - 1)
  }

  lemma {:induction false} HexLength(n: nat, k: nat)
    requires k >= 1 && n < Pow16(k)
    ensures |Hex(n)| <= k
    decreases k
  {
    if n >= 16 {
      HexLength(n / 16, k - 1);
    }
  }

  lemma SizeFitsLine(n: nat)
    requires n < USIZE
    ensures |Hex(n)| <= 16
  {
    assert Pow16(4) == 0x1_0000;
    assert Pow16(8) == 0x1_0000 * 0x1_0000;
    assert Pow16(12) == 0x1_0000 * 0x1_0000 * 0x1_0000;
    assert Pow16(16) == USIZE;
    HexLength(n, 16);
  }

  // ----- the size line

  predicate IsSpace(c: byte) {
    c == 32 || 9 <= c <= 13
  }

  function TrimStart(s: seq<byte>): seq<byte> {
    if s != [] && IsSpace(s[0]) then TrimStart(s[1..]) else s
  }

  function TrimEnd(s: seq<byte>): seq<byte> {
    if s != [] && IsSpace(s[|s| - 1]) then TrimEnd(s[..|s| - 1]) else s
  }

  /** `split(';').next()`. */
  function BeforeSemicolon(s: seq<byte>): seq<byte> {
    if s == [] || s[0] == 59 then [] else [s[0]] + BeforeSemicolon(s[1..])
  }

  /** The announced chunk size; anything unreadable counts as zero. */
  function ParseSize(line: seq<byte>): nat {
    var n := FromHex(BeforeSemicolon(TrimEnd(TrimStart(line))));
    if n.Some? then n.value else 0
  }

  predicate IsText(line: seq<byte>) {
    forall c :: c in line ==> c < 128
  }

  lemma {:induction false} NoSemicolon(s: seq<byte>)
    requires forall i :: 0 <= i < |s| ==> s[i] != 59
    ensures BeforeSemicolon(s) == s
  {
    if s != [] {
      NoSemicolon(s[1..]);
    }
  }

  lemma TrimLine(s: seq<byte>)
    requires s != [] && !IsSpace(s[0]) && !IsSpace(s[|s| - 1])
    ensures TrimEnd(TrimStart(s + CRLF)) == s
  {
    var line := s + CRLF;
    assert TrimStart(line) == line;
    assert line[..|line| - 1] == s + [CR];
    assert (s + [CR])[..|s|] == s;
    assert TrimEnd(s + [CR]) == TrimEnd(s) == s;
  }

  /** The decoder reads the size the encoder wrote. */
  lemma SizeRoundTrip(n: nat)
    requires n < USIZE
    ensures ParseSize(Hex(n) + CRLF) == n
    ensures IsText(Hex(n) + CRLF) && |Hex(n) + CRLF| <= 64
  {
    var s := Hex(n);
    HexValueOfHex(n);
    SizeFitsLine(n);
    assert DigitValue(s[0]).Some? && DigitValue(s[|s| - 1]).Some?;
    TrimLine(s);
    NoSemicolon(s);
  }

  // ----- the encoder

  const LAST_CHUNK: seq<byte> := [48] + CRLF + CRLF

  function EncodeChunk(b: seq<byte>): seq<byte> {
    Hex(|b|) + CRLF + (b + CRLF)
  }

  /** Empty pieces are skipped: an empty chunk would end the body. */
  function Encode(pieces: seq<seq<byte>>): seq<byte> {
    if pieces == [] then LAST_CHUNK
    else if pieces[0] == [] then Encode(pieces[1..])
    else EncodeChunk(pieces[0]) + Encode(pieces[1..])
  }

  /** `pipe_request_body` for a body that arrives in the given pieces. */
  method PipeRequestBody(pieces: seq<seq<byte>>, useChunked: bool) returns (out: seq<byte>)
    ensures out == if useChunked then Encode(pieces) else Concat(pieces)
  {
    out := [];
    var i := 0;
    while i < |pieces|
      invariant 0 <= i <= |pieces|
      invariant useChunked ==> out + Encode(pieces[i..]) == Encode(pieces)
      invariant !useChunked ==> out + Concat(pieces[i..]) == Concat(pieces)
    {
      var bytes := pieces[i];
      assert pieces[i..][0] == bytes && pieces[i..][1..] == pieces[i + 1..];
      i := i + 1;
      if bytes == [] {
        continue;
      }
      if useChunked {
        Assoc(out, EncodeChunk(bytes), Encode(pieces[i..]));
        var sizeLine := Hex(|bytes|) + CRLF;
        out := out + (sizeLine + (bytes + CRLF));
      } else {
        Assoc(out, bytes, Concat(pieces[i..]));
        out := out + bytes;
      }
    }
    if useChunked {
      out := out + LAST_CHUNK;
    }
  }

  // ----- the buffered decoder

  const MAX_CHUNK: nat := 64 * 1024 * 1024
  const MAX_BODY: nat := 256 * 1024 * 1024

  function Line(s: seq<byte>): seq<byte> {
    s[..LineLength(s)]
  }

  function AfterLine(s: seq<byte>): seq<byte> {
    s[LineLength(s)..]
  }

  datatype Decoded = Decoded(body: seq<byte>, rest: seq<byte>)

  /** One turn of the decoder: it stops, perhaps with a part of a chunk, or has a chunk; and what is then unread. */
  datatype Turn = Stop(chunk: seq<byte>, rest: seq<byte>) | Go(chunk: seq<byte>, rest: seq<byte>)

  function TurnOf(s: seq<byte>, used: nat): (t: Turn)
    ensures t.Go? ==> |t.rest| < |s|
  {
    var data := AfterLine(s);
    match SizeOf(Line(s))
    case None => Stop([], data)
    case Some(n) =>
      if n == 0 then Stop([], AfterLine(data))
      else if n > MAX_CHUNK || used + n > MAX_BODY then Stop([], data)
      else if |data| < n then Stop(data, [])
      else Go(data[..n], AfterLine(data[n..]))
  }

  /** The size a line announces; None at the end of the stream, on a read error and for a line that is too long. */
  function SizeOf(line: seq<byte>): (r: Option<nat>)
    ensures r.Some? ==> line != []
  {
    if line == [] || !IsText(line) || |line| > 64 then None else Some(ParseSize(line))
  }

  /** `read_chunked_body` without trailers: whatever goes wrong, the body so far is returned. */
  function Decode(s: seq<byte>, body: seq<byte>): Decoded
    decreases |s|
  {
    match TurnOf(s, |body|)
    case Stop(part, rest) => Decoded(body + part, rest)
    case Go(chunk, rest) => Decode(rest, body + chunk)
  }

  /** With single-byte reads up to position `p` nothing is read ahead. */
  ghost predicate NothingAhead(plan: Schedule, p: int, ahead: nat) {
    Calm(plan, p) ==> ahead == 0
  }

  /** The data of a chunk and the line end behind it. */
  method ReadData(buf: BufReader, n: nat) returns (chunk: seq<byte>)
    requires buf.Valid() && |buf.buffer| < CAPACITY && n > 0
    modifies buf
    ensures buf.Valid() && |buf.buffer| < CAPACITY
    ensures |old(buf.Unread())| < n ==> chunk == old(buf.Unread()) && buf.Unread() == []
    ensures |old(buf.Unread())| >= n ==>
              chunk == old(buf.Unread())[..n] && buf.Unread() == AfterLine(old(buf.Unread())[n..])
    ensures buf.Position() == old(buf.Position()) + |old(buf.Unread())| - |buf.Unread()|
    ensures old(buf.buffer) == [] && buf.Unread() != [] ==>
              ReadAhead(buf.plan, buf.Position(), |buf.buffer|, |buf.Unread()|)
  {
    chunk := buf.ReadUpTo(n);
    ghost var p := buf.Position();
    ghost var empty := buf.buffer == [];
    var line := buf.ReadLine();
    if old(buf.buffer) == [] && buf.Unread() != [] && !empty {
      assert !Calm(buf.plan, buf.Position() - 1);
    }
  }

  method ReadTurn(buf: BufReader, used: nat) returns (t: Turn)
    requires buf.Valid() && |buf.buffer| < CAPACITY
    modifies buf
    ensures buf.Valid() && |buf.buffer| < CAPACITY
    ensures t == TurnOf(old(buf.Unread()), used) && buf.Unread() == t.rest
    ensures buf.Position() == old(buf.Position()) + |old(buf.Unread())| - |buf.Unread()|
    ensures old(buf.buffer) == [] && buf.Unread() != [] ==>
              ReadAhead(buf.plan, buf.Position(), |buf.buffer|, |buf.Unread()|)
  {
    var sizeLine := buf.ReadLine();
    var size := SizeOf(sizeLine);
    if size.None? {
      return Stop([], buf.Unread());
    }
    var chunkSize := size.value;
    if chunkSize == 0 {
      var _ := buf.ReadLine();
      return Stop([], buf.Unread());
    }
    if chunkSize > MAX_CHUNK || used + chunkSize > MAX_BODY {
      return Stop([], buf.Unread());
    }
    ghost var p := buf.Position();
    assert old(buf.buffer) == [] && Calm(buf.plan, p) ==> buf.buffer == [];
    var chunk := ReadData(buf, chunkSize);
    assert buf.Unread() != [] && Calm(buf.plan, buf.Position() - 1) ==> Calm(buf.plan, p);
    t := if |chunk| < chunkSize then Stop(chunk, buf.Unread()) else Go(chunk, buf.Unread());
  }

  /** `read_chunked_body`, and how far the reader has read ahead when it stops. */
  method ReadChunkedBody(buf: BufReader) returns (body: seq<byte>)
    requires buf.Valid() && |buf.buffer| < CAPACITY
    modifies buf
    ensures buf.Valid() && |buf.buffer| < CAPACITY
    ensures Decoded(body, buf.Unread()) == Decode(old(buf.Unread()), [])
    ensures buf.Position() == old(buf.Position()) + |old(buf.Unread())| - |buf.Unread()|
    ensures old(buf.buffer) == [] && buf.Unread() != [] ==>
              ReadAhead(buf.plan, buf.Position(), |buf.buffer|, |buf.Unread()|)
  {
    body := [];
    while true
      invariant buf.Valid() && |buf.buffer| < CAPACITY
      invariant Decode(buf.Unread(), body) == Decode(old(buf.Unread()), [])
      invariant buf.Position() == old(buf.Position()) + |old(buf.Unread())| - |buf.Unread()|
      invariant old(buf.buffer) == [] ==> NothingAhead(buf.plan, buf.Position(), |buf.buffer|)
      decreases |buf.Unread()|
    {
      var t := ReadTurn(buf, |body|);
      body := body + t.chunk;
      if t.Stop? {
        return;
      }
    }
  }

  // ----- the streaming decoder

  const STREAM_MAX_CHUNK: nat := 16 * 1024 * 1024

  datatype Streamed = Streamed(chunks: seq<seq<byte>>, ok: bool, rest: seq<byte>)

  /** Two bytes, or what there is of them. */
  function AfterTwo(s: seq<byte>): seq<byte> {
    if |s| >= 2 then s[2..] else []
  }

  /**
   * The task in `send_recv_pooled`: each chunk is sent on as it is complete; `ok` decides whether the connection is
   * kept.
   */
  function Stream(s: seq<byte>): Streamed
    decreases |s|
  {
    var line, data := Line(s), AfterLine(s);
    if line == [] || !IsText(line) || |line| > 64 then Streamed([], false, data)
    else
      var n := ParseSize(line);
      if n > STREAM_MAX_CHUNK then Streamed([], false, data)
      else if n == 0 then Streamed([], true, AfterLine(data))
      else if |data| < n then Streamed([], false, [])
      else
        After([data[..n]], Stream(AfterTwo(data[n..])))
  }

  /** What the client has received in all, once the rest of the stream is done. */
  function After(sent: seq<seq<byte>>, t: Streamed): Streamed {
    Streamed(sent + t.chunks, t.ok, t.rest)
  }

  lemma AfterTwice(a: seq<seq<byte>>, b: seq<seq<byte>>, t: Streamed)
    ensures After(a, After(b, t)) == After(a + b, t)
  {
    Assoc(a, b, t.chunks);
  }

  method StreamChunks(reader: BufReader) returns (sent: seq<seq<byte>>, ok: bool)
    requires reader.Valid()
    modifies reader
    ensures reader.Valid()
    ensures Streamed(sent, ok, reader.Unread()) == Stream(old(reader.Unread()))
  {
    sent := [];
    ok := true;
    while true
      invariant reader.Valid()
      invariant After(sent, Stream(reader.Unread())) == Stream(old(reader.Unread()))
      decreases |reader.Unread()|
    {
      ghost var s := reader.Unread();
      var sizeLine := reader.ReadLine();
      if sizeLine == [] || !IsText(sizeLine) || |sizeLine| > 64 {
        return sent, false;
      }
      var chunkSize := ParseSize(sizeLine);
      if chunkSize > STREAM_MAX_CHUNK {
        return sent, false;
      }
      if chunkSize == 0 {
        var _ := reader.ReadLine();
        return sent, true;
      }
      var chunk := reader.ReadUpTo(chunkSize);
      if |chunk| < chunkSize {
        return sent, false;
      }
      var _ := reader.ReadUpTo(2);
      assert Stream(s) == After([chunk], Stream(reader.Unread()));
      AfterTwice(sent, [chunk], Stream(reader.Unread()));
      sent := sent + [chunk];
    }
  }

  // ----- what decoding an encoded body gives

  lemma {:induction false} LineAt(s: seq<byte>, t: seq<byte>)
    requires forall i :: 0 <= i < |s| ==> s[i] != LF
    ensures LineLength(s + [LF] + t) == |s| + 1
    decreases |s|
  {
    var all := s + [LF] + t;
    if s != [] {
      assert all[1..] == s[1..] + [LF] + t;
      LineAt(s[1..], t);
    }
  }

  lemma LineOfCrlf(s: seq<byte>, t: seq<byte>)
    requires forall i :: 0 <= i < |s| ==> s[i] != LF
    ensures Line(s + CRLF + t) == s + CRLF && AfterLine(s + CRLF + t) == t
  {
    var line := s + [CR];
    LineAt(line, t);
    assert s + CRLF + t == line + [LF] + t;
    assert (s + CRLF + t)[..|s| + 2] == s + CRLF;
  }

  /** Reading the size line of a chunk that follows in the stream. */
  lemma ChunkLine(b: seq<byte>, t: seq<byte>)
    requires |b| < USIZE
    ensures var s := EncodeChunk(b) + t;
            && Line(s) == Hex(|b|) + CRLF && AfterLine(s) == b + (CRLF + t)
            && IsText(Line(s)) && |Line(s)| <= 64 && ParseSize(Line(s)) == |b|
            && |AfterLine(s)| >= |b| && AfterLine(s)[..|b|] == b && AfterLine(s)[|b|..] == CRLF + t
  {
    HexValueOfHex(|b|);
    SizeRoundTrip(|b|);
    Assoc(b, CRLF, t);
    Assoc(Hex(|b|) + CRLF, b + CRLF, t);
    LineOfCrlf(Hex(|b|), b + (CRLF + t));
  }

  lemma CrlfLine(t: seq<byte>)
    ensures AfterLine(CRLF + t) == t && AfterTwo(CRLF + t) == t
  {
    LineOfCrlf([], t);
    assert [] + CRLF + t == CRLF + t;
  }

  lemma LastLine(t: seq<byte>)
    ensures var s := LAST_CHUNK + t;
            Line(s) == [48] + CRLF && AfterLine(AfterLine(s)) == t && IsText(Line(s)) && ParseSize(Line(s)) == 0
  {
    SizeRoundTrip(0);
    assert Hex(0) == [48];
    assert LAST_CHUNK + t == [48] + CRLF + (CRLF + t);
    LineOfCrlf([48], CRLF + t);
    CrlfLine(t);
  }

  /** The buffered decoder on one encoded chunk. */
  lemma DecodeChunk(b: seq<byte>, t: seq<byte>, body: seq<byte>)
    requires 0 < |b| < USIZE
    ensures Decode(EncodeChunk(b) + t, body) ==
            if |b| > MAX_CHUNK || |body| + |b| > MAX_BODY then Decoded(body, b + (CRLF + t)) else Decode(t, body + b)
  {
    ChunkLine(b, t);
    CrlfLine(t);
  }

  /** The streaming decoder on one encoded chunk. */
  lemma StreamChunk(b: seq<byte>, t: seq<byte>)
    requires 0 < |b| < USIZE
    ensures Stream(EncodeChunk(b) + t) ==
            if |b| > STREAM_MAX_CHUNK then Streamed([], false, b + (CRLF + t))
            else After([b], Stream(t))
  {
    ChunkLine(b, t);
    CrlfLine(t);
  }

  lemma DecodeLast(t: seq<byte>, body: seq<byte>)
    ensures Decode(LAST_CHUNK + t, body) == Decoded(body, t)
    ensures Stream(LAST_CHUNK + t) == Streamed([], true, t)
  {
    LastLine(t);
  }

  /** Every piece can be announced by a 64-bit size. */
  ghost predicate Sized(pieces: seq<seq<byte>>) {
    forall p :: p in pieces ==> |p| < USIZE
  }

  /** The pieces are within the decoder's limits, given what it has already collected. */
  predicate Fits(pieces: seq<seq<byte>>, used: nat) {
    pieces == [] ||
    (|pieces[0]| <= 67108864 && used + |pieces[0]| <= 268435456 && Fits(pieces[1..], used + |pieces[0]|))
  }

  /** The body up to the first piece that does not fit. */
  function Fitting(pieces: seq<seq<byte>>, used: nat): seq<byte> {
    if pieces == [] then []
    else if pieces[0] == [] then Fitting(pieces[1..], used)
    else if |pieces[0]| > MAX_CHUNK || used + |pieces[0]| > MAX_BODY then []
    else pieces[0] + Fitting(pieces[1..], used + |pieces[0]|)
  }

  /**
   * The decoder's result on an encoded body, piece by piece: it stops in front of the first piece that does not fit.
   */
  function Outcome(pieces: seq<seq<byte>>, tail: seq<byte>, body: seq<byte>): Decoded
    decreases |pieces|
  {
    if pieces == [] then Decoded(body, tail)
    else if pieces[0] == [] then Outcome(pieces[1..], tail, body)
    else if |pieces[0]| > MAX_CHUNK || |body| + |pieces[0]| > MAX_BODY then
      Decoded(body, pieces[0] + (CRLF + (Encode(pieces[1..]) + tail)))
    else Outcome(pieces[1..], tail, body + pieces[0])
  }

  lemma {:induction false} DecodeEncoded(pieces: seq<seq<byte>>, tail: seq<byte>, body: seq<byte>)
    requires Sized(pieces)
    ensures Decode(Encode(pieces) + tail, body) == Outcome(pieces, tail, body)
    decreases |pieces|
  {
    if pieces == [] {
      DecodeLast(tail, body);
    } else {
      var b, rest := pieces[0], pieces[1..];
      assert b in pieces;
      if b == [] {
        DecodeEncoded(rest, tail, body);
      } else {
        Assoc(EncodeChunk(b), Encode(rest), tail);
        DecodeChunk(b, Encode(rest) + tail, body);
        DecodeEncoded(rest, tail, body + b);
      }
    }
  }

  /** The body returned is the pieces that fit, in order; when all fit, nothing is over- or under-read. */
  lemma {:induction false} OutcomeFits(pieces: seq<seq<byte>>, tail: seq<byte>, body: seq<byte>)
    ensures Outcome(pieces, tail, body).body == body + Fitting(pieces, |body|)
    ensures Fits(pieces, |body|) ==> Outcome(pieces, tail, body).rest == tail
    decreases |pieces|
  {
    if pieces == [] {
      assert body + [] == body;
    } else {
      var b, rest := pieces[0], pieces[1..];
      if b == [] {
        OutcomeFits(rest, tail, body);
      } else if |b| > MAX_CHUNK || |body| + |b| > MAX_BODY {
        assert body + [] == body;
      } else {
        OutcomeFits(rest, tail, body + b);
        Assoc(body, b, Fitting(rest, |body| + |b|));
      }
    }
  }

  lemma {:induction false} FittingIsWhole(pieces: seq<seq<byte>>, used: nat)
    requires used <= MAX_BODY
    ensures Fitting(pieces, used) == Concat(pieces) <==> Fits(pieces, used)
    ensures |Fitting(pieces, used)| <= |Concat(pieces)|
    decreases |pieces|
  {
    if pieces != [] {
      var b := pieces[0];
      FittingIsWhole(pieces[1..], used);
      if b != [] && |b| <= MAX_CHUNK && used + |b| <= MAX_BODY {
        FittingIsWhole(pieces[1..], used + |b|);
        var f, c := Fitting(pieces[1..], used + |b|), Concat(pieces[1..]);
        assert (b + f)[|b|..] == f && (b + c)[|b|..] == c;
      }
    }
  }

  /** Decoding gives the body back, consuming exactly the encoding, if and only if the pieces are within the limits. */
  lemma BufferedRoundTrip(pieces: seq<seq<byte>>, tail: seq<byte>)
    requires Sized(pieces)
    ensures Decode(Encode(pieces) + tail, []) == Decoded(Concat(pieces), tail) <==> Fits(pieces, 0)
  {
    DecodeEncoded(pieces, tail, []);
    OutcomeFits(pieces, tail, []);
    FittingIsWhole(pieces, 0);
    assert [] + Fitting(pieces, 0) == Fitting(pieces, 0);
  }

  // ----- what is left on a connection that goes back to the pool

  /** What the decoder leaves unread of an encoded body: everything from the first piece that does not fit on. */
  function Left(pieces: seq<seq<byte>>, used: nat): seq<byte> {
    if pieces == [] then []
    else if pieces[0] == [] then Left(pieces[1..], used)
    else if |pieces[0]| > MAX_CHUNK || used + |pieces[0]| > MAX_BODY then pieces[0] + (CRLF + Encode(pieces[1..]))
    else Left(pieces[1..], used + |pieces[0]|)
  }

  lemma {:induction false} OutcomeLeaves(pieces: seq<seq<byte>>, tail: seq<byte>, body: seq<byte>)
    requires |body| <= MAX_BODY
    ensures Outcome(pieces, tail, body).rest == Left(pieces, |body|) + tail
    ensures Left(pieces, |body|) == [] <==> Fits(pieces, |body|)
    ensures |Left(pieces, |body|)| <= |Encode(pieces)|
    decreases |pieces|
  {
    if pieces == [] {
      assert [] + tail == tail;
    } else {
      var b, rest := pieces[0], pieces[1..];
      if b == [] {
        OutcomeLeaves(rest, tail, body);
      } else if |b| > MAX_CHUNK || |body| + |b| > MAX_BODY {
        Assoc(CRLF, Encode(rest), tail);
        Assoc(b, CRLF + Encode(rest), tail);
      } else {
        OutcomeLeaves(rest, tail, body + b);
      }
    }
  }

  /** The body the decoder returns for an encoded one, and what it leaves. */
  lemma EncodedResult(pieces: seq<seq<byte>>, tail: seq<byte>)
    requires Sized(pieces)
    ensures Decode(Encode(pieces) + tail, []) == Decoded(Fitting(pieces, 0), Left(pieces, 0) + tail)
  {
    DecodeEncoded(pieces, tail, []);
    OutcomeFits(pieces, tail, []);
    OutcomeLeaves(pieces, tail, []);
    assert [] + Fitting(pieces, 0) == Fitting(pieces, 0);
  }

  lemma LeftIsEncoded(pieces: seq<seq<byte>>)
    ensures |Left(pieces, 0)| <= |Encode(pieces)|
    ensures Left(pieces, 0) == [] <==> Fits(pieces, 0)
  {
    OutcomeLeaves(pieces, [], []);
  }

  /** `read_chunked_body` on an encoded body. */
  method ReadEncoded(buf: BufReader, ghost pieces: seq<seq<byte>>, ghost tail: seq<byte>) returns (body: seq<byte>)
    requires buf.Valid() && |buf.buffer| < CAPACITY && Sized(pieces) && buf.Unread() == Encode(pieces) + tail
    modifies buf
    ensures buf.Valid() && |buf.buffer| < CAPACITY
    ensures body == Fitting(pieces, 0) && buf.Unread() == Left(pieces, 0) + tail
    ensures buf.Position() == old(buf.Position()) + |Encode(pieces)| - |Left(pieces, 0)|
    ensures old(buf.buffer) == [] && buf.Unread() != [] ==>
              ReadAhead(buf.plan, buf.Position(), |buf.buffer|, |buf.Unread()|)
  {
    EncodedResult(pieces, tail);
    body := ReadChunkedBody(buf);
  }

  /** Every read gets a single byte. */
  ghost predicate Bytewise(plan: Schedule) {
    forall i :: plan(i) <= 1
  }

  /** Single bytes up to the one before position `p`, and there as much as the buffer holds. */
  ghost predicate Catches(plan: Schedule, p: int) {
    p > 0 && Calm(plan, p - 1) && plan(p - 1) >= CAPACITY
  }

  lemma BothSchedulesExist(p: nat)
    requires p > 0
    ensures exists plan: Schedule :: Bytewise(plan)
    ensures exists plan: Schedule :: Catches(plan, p)
  {
    assert Bytewise((_: nat) => 1);
    assert Catches((i: nat) => if i == p - 1 then CAPACITY else 1, p);
  }

  /**
   * A reader that handed out everything up to position `p`, with `ahead` bytes read ahead at the start, leaves
   * `unread`; its buffer is lost and the socket keeps a proper end of it: everything when the reads are single bytes,
   * and as little as possible when the read at the last byte handed out fills the buffer.
   */
  ghost predicate Keeps(socket: seq<byte>, unread: seq<byte>, plan: Schedule, ahead: nat, p: int) {
    && |socket| <= |unread| < |socket| + CAPACITY
    && socket == unread[|unread| - |socket|..]
    && (ahead == 0 && Bytewise(plan) ==> socket == unread)
    && (ahead == 0 && Catches(plan, p) ==> |socket| == if |unread| < CAPACITY then 0 else |unread| - (CAPACITY - 1))
  }

  lemma LostAhead(buffer: seq<byte>, socket: seq<byte>, plan: Schedule, ahead: nat, p: int)
    requires |buffer| < CAPACITY
    requires ahead == 0 && buffer + socket != [] ==> ReadAhead(plan, p, |buffer|, |buffer + socket|)
    ensures Keeps(socket, buffer + socket, plan, ahead, p)
  {
    assert socket == (buffer + socket)[|buffer|..];
    if ahead == 0 && buffer + socket != [] {
      assert Bytewise(plan) ==> Calm(plan, p - 1) && plan(p - 1) <= 1;
      assert Bytewise(plan) ==> buffer == [];
    }
  }

  /**
   * A buffered response is decoded and the socket taken back out of its reader, with `ahead` bytes of the body read
   * ahead when the head ended.
   */
  method ReadAndRelease(pieces: seq<seq<byte>>, tail: seq<byte>, plan: Schedule, ahead: nat)
    returns (body: seq<byte>, released: seq<byte>)
    requires Sized(pieces) && ahead < CAPACITY && ahead <= |Encode(pieces) + tail|
    ensures body == Fitting(pieces, 0)
    ensures Keeps(released, Left(pieces, 0) + tail, plan, ahead, |Encode(pieces)| - |Left(pieces, 0)|)
  {
    var s := Encode(pieces) + tail;
    var reader := new BufReader(plan, s[..ahead], s[ahead..]);
    assert reader.Unread() == s;
    body := ReadEncoded(reader, pieces, tail);
    released := reader.socket;
    LostAhead(reader.buffer, released, plan, ahead, reader.Position());
  }

  /**
   * Pieces within the limits leave nothing of the response on the released connection, on any schedule of reads. Other
   * pieces leave something on it on some schedule; they do on every schedule if and only if as much as the buffer's
   * capacity is unread, since with less a reader can have read ahead all of it.
   */
  lemma ReleasedClean(pieces: seq<seq<byte>>, tail: seq<byte>, released: seq<byte>, plan: Schedule, ahead: nat)
    requires Keeps(released, Left(pieces, 0) + tail, plan, ahead, |Encode(pieces)| - |Left(pieces, 0)|)
    ensures Fits(pieces, 0) ==> |released| <= |tail|
    ensures !Fits(pieces, 0) && ahead == 0 && Bytewise(plan) ==> |released| > |tail|
    ensures |Left(pieces, 0)| >= CAPACITY ==> |released| > |tail|
    ensures |Left(pieces, 0)| < CAPACITY && ahead == 0 && Catches(plan, |Encode(pieces)| - |Left(pieces, 0)|) ==>
              |released| <= |tail|
  {
    LeftIsEncoded(pieces);
  }

  /** One chunk over the limit: an empty body, no error, and most of the chunk left on every schedule. */
  lemma TruncationLeavesBody(b: seq<byte>)
    requires |b| == MAX_CHUNK + 1
    ensures Fitting([b], 0) == [] && Left([b], 0) == b + (CRLF + LAST_CHUNK) && |Left([b], 0)| >= CAPACITY
  {
    assert [b][1..] == [];
    assert Encode([]) == LAST_CHUNK;
  }

  /** The total passed by one byte: eight bytes are unread, which stay or are lost as the reads happen to be cut. */
  lemma RemainderMayBeLost(b: seq<byte>, last: seq<byte>)
    requires |b| == MAX_CHUNK && |last| == 1
    ensures var pieces := [b, b, b, b, last];
            && !Fits(pieces, 0) && |Left(pieces, 0)| == 8 < CAPACITY
  {
    var pieces := [b, b, b, b, last];
    assert pieces[1..] == [b, b, b, last] && pieces[2..] == [b, b, last];
    assert pieces[1..][1..] == pieces[2..] && pieces[2..][1..] == [b, last] && [b, last][1..] == [last];
    assert [last][1..] == [] && Encode([]) == LAST_CHUNK;
    assert Left([last], MAX_BODY) == last + (CRLF + LAST_CHUNK);
    assert Left([b, last], 3 * MAX_CHUNK) == Left([last], MAX_BODY);
    assert Left([b, b, last], 2 * MAX_CHUNK) == Left([last], MAX_BODY);
    assert Left([b, b, b, last], MAX_CHUNK) == Left([last], MAX_BODY);
    OutcomeLeaves(pieces, [], []);
  }

  function NonEmpty(pieces: seq<seq<byte>>): seq<seq<byte>> {
    if pieces == [] then []
    else if pieces[0] == [] then NonEmpty(pieces[1..])
    else [pieces[0]] + NonEmpty(pieces[1..])
  }

  /**
   * The streaming decoder sends on exactly the non-empty pieces and keeps the connection, if and only if each piece
   * is within its limit.
   */
  lemma {:induction false} StreamRoundTrip(pieces: seq<seq<byte>>, tail: seq<byte>)
    requires Sized(pieces)
    ensures Stream(Encode(pieces) + tail) == Streamed(NonEmpty(pieces), true, tail)
       <==> forall p :: p in pieces ==> |p| <= 16777216
    ensures Stream(Encode(pieces) + tail).ok <==> forall p :: p in pieces ==> |p| <= 16777216
    decreases |pieces|
  {
    if pieces == [] {
      DecodeLast(tail, []);
    } else {
      var b, rest := pieces[0], pieces[1..];
      assert pieces == [b] + rest;
      StreamRoundTrip(rest, tail);
      if b != [] {
        assert |b| < USIZE;
        Assoc(EncodeChunk(b), Encode(rest), tail);
        StreamChunk(b, Encode(rest) + tail);
      }
    }
  }

  // ----- the two decoders on any stream

  /** Every chunk the streaming decoder sends on is followed by CRLF. */
  predicate Framed(s: seq<byte>)
    decreases |s|
  {
    var line, data := Line(s), AfterLine(s);
    if line == [] || !IsText(line) || |line| > 64 then true
    else
      var n := ParseSize(line);
      n == 0 || n > STREAM_MAX_CHUNK || |data| < n || (CRLF <= data[n..] && Framed(data[n..][2..]))
  }

  lemma CrlfPrefix(s: seq<byte>)
    requires CRLF <= s
    ensures AfterLine(s) == s[2..] && AfterTwo(s) == s[2..]
  {
    assert s == CRLF + s[2..];
    CrlfLine(s[2..]);
  }

  lemma ChunksAgree(s: seq<byte>, used: nat)
    requires Framed(s) && Stream(s).ok
    ensures var n, data := ParseSize(Line(s)), AfterLine(s);
            n != 0 ==>
              && n <= |data| && |AfterTwo(data[n..])| < |s|
              && Framed(AfterTwo(data[n..])) && Stream(s) == After([data[..n]], Stream(AfterTwo(data[n..])))
              && (used + n <= MAX_BODY ==> TurnOf(s, used) == Go(data[..n], AfterTwo(data[n..])))
  {
    if ParseSize(Line(s)) != 0 {
      CrlfPrefix(AfterLine(s)[ParseSize(Line(s))..]);
    }
  }

  /** One turn of both decoders on a framed stream that the streaming one accepts: the end, or the same chunk. */
  lemma TurnsAgree(s: seq<byte>, used: nat) returns (chunk: seq<byte>, next: seq<byte>)
    requires Framed(s) && Stream(s).ok
    ensures chunk == [] ==> Stream(s) == Streamed([], true, next) && TurnOf(s, used) == Stop([], next)
    ensures chunk != [] ==> |next| < |s| && Framed(next) && Stream(s) == After([chunk], Stream(next))
    ensures chunk != [] && used + |chunk| <= MAX_BODY ==> TurnOf(s, used) == Go(chunk, next)
  {
    var data := AfterLine(s);
    var n := ParseSize(Line(s));
    if n == 0 {
      chunk, next := [], AfterLine(data);
    } else {
      ChunksAgree(s, used);
      chunk, next := data[..n], AfterTwo(data[n..]);
    }
  }

  /**
   * On every framed stream that the streaming decoder accepts, the buffered one gives the same body and stops at the
   * same byte.
   */
  lemma {:induction false} DecodersAgree(s: seq<byte>, body: seq<byte>)
    requires Framed(s) && Stream(s).ok
    requires |body| + |Concat(Stream(s).chunks)| <= MAX_BODY
    ensures Decode(s, body) == Decoded(body + Concat(Stream(s).chunks), Stream(s).rest)
    decreases |s|
  {
    var chunk, next := TurnsAgree(s, |body|);
    if chunk != [] {
      var t := Stream(next);
      assert ([chunk] + t.chunks)[1..] == t.chunks;
      Assoc(body, chunk, Concat(t.chunks));
      DecodersAgree(next, body + chunk);
    }
  }

  // ----- the coding as section 4.1 of RFC 7230 writes it

  /** The value of a lower-case hexadecimal digit. */
  function DigitOf(c: byte): int {
    if '0' as int <= c as int <= '9' as int then c as int - '0' as int else c as int - 'a' as int + 10
  }

  predicate IsLowerHex(c: byte) {
    '0' as int <= c as int <= '9' as int || 'a' as int <= c as int <= 'f' as int
  }

  /** A numeral read from its first digit on. */
  function Numeral(acc: int, digits: seq<byte>): int
    decreases |digits|
  {
    if digits == [] then acc else Numeral(acc * 16 + DigitOf(digits[0]), digits[1..])
  }

  lemma {:induction false} NumeralAppend(acc: int, digits: seq<byte>, c: byte)
    ensures Numeral(acc, digits + [c]) == Numeral(acc, digits) * 16 + DigitOf(c)
    decreases |digits|
  {
    if digits == [] {
      assert digits + [c] == [c] && [c][1..] == [];
    } else {
      assert (digits + [c])[1..] == digits[1..] + [c];
      NumeralAppend(acc * 16 + DigitOf(digits[0]), digits[1..], c);
    }
  }

  /** A chunk size is its number in lower-case hexadecimal without leading zeros. */
  lemma {:induction false} HexIsNumeral(n: nat)
    ensures Numeral(0, Hex(n)) == n
    ensures forall i :: 0 <= i < |Hex(n)| ==> IsLowerHex(Hex(n)[i])
    ensures Hex(n)[0] == '0' as int ==> n == 0 && |Hex(n)| == 1
  {
    if n < 16 {
      assert [HexDigit(n)][1..] == [];
    } else {
      HexIsNumeral(n / 16);
      NumeralAppend(0, Hex(n / 16), HexDigit(n % 16));
    }
  }

  /** Size, CRLF, data, CRLF for every piece; then a zero, CRLF and an empty line. */
  function Frames(pieces: seq<seq<byte>>): seq<byte> {
    if pieces == [] then [] else Hex(|pieces[0]|) + [13, 10] + pieces[0] + [13, 10] + Frames(pieces[1..])
  }

  /** What is written is the chunks of the non-empty pieces and the last chunk, and nothing else. */
  lemma {:induction false} EncodeExactly(pieces: seq<seq<byte>>)
    ensures Encode(pieces) == Frames(NonEmpty(pieces)) + ['0' as int as byte, 13, 10, 13, 10]
    decreases |pieces|
  {
    if pieces != [] {
      EncodeExactly(pieces[1..]);
      if pieces[0] != [] {
        var b, rest := pieces[0], NonEmpty(pieces[1..]);
        assert NonEmpty(pieces)[1..] == rest;
        assert EncodeChunk(b) == Hex(|b|) + [13, 10] + b + [13, 10];
        Assoc(EncodeChunk(b), Frames(rest), ['0' as int as byte, 13, 10, 13, 10]);
      }
    }
  }

  // ----- size lines that the encoder does not write

  lemma {:induction false} TrimEndKeeps(p: seq<byte>, t: seq<byte>)
    requires p != [] && !IsSpace(p[|p| - 1])
    ensures p <= TrimEnd(p + t)
    decreases |t|
  {
    if t != [] && IsSpace((p + t)[|p + t| - 1]) {
      assert (p + t)[..|p + t| - 1] == p + t[..|t| - 1];
      TrimEndKeeps(p, t[..|t| - 1]);
    } else if t == [] {
      assert p + t == p;
    }
  }

  lemma {:induction false} StopsAtSemicolon(p: seq<byte>, s: seq<byte>)
    requires p + [59] <= s && forall i :: 0 <= i < |p| ==> p[i] != 59
    ensures BeforeSemicolon(s) == p
    decreases |p|
  {
    if p == [] {
      assert s[0] == (p + [59])[0];
    } else {
      assert s[0] == (p + [59])[0] == p[0];
      assert p[1..] + [59] == (p + [59])[1..];
      assert p[1..] + [59] <= s[1..];
      StopsAtSemicolon(p[1..], s[1..]);
      assert p == [p[0]] + p[1..];
    }
  }

  /** A chunk extension behind a semicolon does not matter. */
  lemma ExtensionIgnored(n: nat, extension: seq<byte>)
    requires n < USIZE
    ensures ParseSize(Hex(n) + [59] + extension) == n
  {
    var p := Hex(n);
    var line := p + [59] + extension;
    HexValueOfHex(n);
    assert DigitValue(p[0]).Some? && line[0] == p[0];
    assert TrimStart(line) == line;
    TrimEndKeeps(p + [59], extension);
    forall i | 0 <= i < |p|
      ensures p[i] != 59
    {
      assert DigitValue(p[i]).Some?;
    }
    StopsAtSemicolon(p, TrimEnd(line));
  }

  /** A size line of more than 64 bytes ends the body, and so does one that is not text. */
  lemma UnreadableLine(s: seq<byte>, body: seq<byte>)
    requires |Line(s)| > 64 || exists i :: 0 <= i < |Line(s)| && Line(s)[i] >= 128
    ensures Decode(s, body) == Decoded(body, AfterLine(s)) && Stream(s) == Streamed([], false, AfterLine(s))
  {
    assert body + [] == body;
    if exists i :: 0 <= i < |Line(s)| && Line(s)[i] >= 128 {
      var i :| 0 <= i < |Line(s)| && Line(s)[i] >= 128;
      assert Line(s)[i] in Line(s);
    }
  }

  /** Digits of both cases are read. */
  lemma DigitExactly(c: byte, v: nat)
    ensures DigitValue(c) == Some(v) <==>
            || (v < 10 && c as int == '0' as int + v)
            || (10 <= v < 16 && (c as int == 'a' as int + v - 10 || c as int == 'A' as int + v - 10))
  {
  }

  /** Blanks, tabs and line ends around a size do not matter. */
  predicate Blank(s: seq<byte>) {
    forall i :: 0 <= i < |s| ==> s[i] in {9, 10, 11, 12, 13, 32}
  }

  lemma {:induction false} TrimStartDrops(pre: seq<byte>, s: seq<byte>)
    requires Blank(pre) && s != [] && !IsSpace(s[0])
    ensures TrimStart(pre + s) == s
    decreases |pre|
  {
    if pre == [] {
      assert pre + s == s;
    } else {
      assert pre[0] in {9, 10, 11, 12, 13, 32};
      assert (pre + s)[1..] == pre[1..] + s;
      TrimStartDrops(pre[1..], s);
    }
  }

  lemma {:induction false} TrimEndDrops(s: seq<byte>, post: seq<byte>)
    requires Blank(post) && s != [] && !IsSpace(s[|s| - 1])
    ensures TrimEnd(s + post) == s
    decreases |post|
  {
    if post == [] {
      assert s + post == s;
    } else {
      assert post[|post| - 1] in {9, 10, 11, 12, 13, 32};
      assert (s + post)[..|s + post| - 1] == s + post[..|post| - 1];
      TrimEndDrops(s, post[..|post| - 1]);
    }
  }

  lemma BlanksIgnored(n: nat, pre: seq<byte>, post: seq<byte>)
    requires n < USIZE && Blank(pre) && Blank(post)
    ensures ParseSize(pre + (Hex(n) + post)) == n
  {
    var s := Hex(n);
    HexValueOfHex(n);
    assert DigitValue(s[0]).Some? && DigitValue(s[|s| - 1]).Some?;
    assert (s + post)[0] == s[0];
    TrimStartDrops(pre, s + post);
    TrimEndDrops(s, post);
    NoSemicolon(s);
  }

  /**
   * A stream that ends inside a chunk: the buffered decoder returns the part that came, the streaming one sends none
   * of it and gives the connection up.
   */
  lemma CutChunk(n: nat, part: seq<byte>, body: seq<byte>)
    requires |part| < n < USIZE
    ensures n <= 67108864 && |body| + n <= 268435456 ==>
              Decode(Hex(n) + [13, 10] + part, body) == Decoded(body + part, [])
    ensures Stream(Hex(n) + [13, 10] + part).chunks == [] && !Stream(Hex(n) + [13, 10] + part).ok
  {
    HexValueOfHex(n);
    SizeRoundTrip(n);
    LineOfCrlf(Hex(n), part);
    assert [13, 10] == CRLF;
  }

  /** A size of 2^64 or more, on a line that is short enough, is taken for the last chunk. */
  lemma OverflowEnds(n: nat, t: seq<byte>, body: seq<byte>)
    requires n >= 0x1_0000_0000_0000_0000 && |Hex(n)| <= 62
    ensures var s := Hex(n) + [13, 10] + t;
            Decode(s, body) == Decoded(body, AfterLine(t)) && Stream(s) == Streamed([], true, AfterLine(t))
  {
    var p := Hex(n);
    HexValueOfHex(n);
    assert DigitValue(p[0]).Some? && DigitValue(p[|p| - 1]).Some?;
    LineOfCrlf(p, t);
    TrimLine(p);
    forall i | 0 <= i < |p|
      ensures p[i] != 59 && p[i] < 128
    {
      assert DigitValue(p[i]).Some?;
    }
    NoSemicolon(p);
    assert ParseSize(p + CRLF) == 0;
  }
}
