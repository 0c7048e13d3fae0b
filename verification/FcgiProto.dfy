/** FastCGI records on the wire, name-value pairs and the header/body separator (src/handler/fastcgi/proto.rs). */
module FcgiProto {
  import opened Common
  import opened Net

  const FCGI_VERSION: byte := 1
  const FCGI_BEGIN_REQUEST: byte := 1
  const FCGI_END_REQUEST: byte := 3
  const FCGI_PARAMS: byte := 4
  const FCGI_STDIN: byte := 5
  const FCGI_STDOUT: byte := 6
  const FCGI_STDERR: byte := 7
  const FCGI_MAX_CONTENT: nat := 65535

  /** A record as the reader sees it. */
  datatype Record = Record(kind: byte, data: seq<byte>)

  /** A record as section 3.3 of the FastCGI 1.0 specification lays it out, padding and reserved byte included. */
  datatype RawWireRecord =
    WireRecord(version: byte, kind: byte, id: nat, data: seq<byte>, padding: seq<byte>, reserved: byte)
  type WireRecord = w: RawWireRecord | w.id < 0x1_0000 && |w.data| < 0x1_0000 && |w.padding| < 0x100
    witness WireRecord(1, 1, 1, [], [], 0)

  function View(w: WireRecord): Record {
    Record(w.kind, w.data)
  }

  function Views(ws: seq<WireRecord>): (rs: seq<Record>)
    ensures |rs| == |ws|
    ensures forall i :: 0 <= i < |ws| ==> rs[i] == View(ws[i])
  {
    seq(|ws|, i requires 0 <= i < |ws| => View(ws[i]))
  }

  lemma ViewsAppend(a: seq<WireRecord>, b: seq<WireRecord>)
    ensures Views(a + b) == Views(a) + Views(b)
  {
  }

  /** The eight header bytes: version, type, id and length big-endian, padding length, reserved. */
  function Header(w: WireRecord): (h: seq<byte>)
    ensures |h| == 8
  {
    [w.version, w.kind, w.id / 256, w.id % 256, |w.data| / 256, |w.data| % 256, |w.padding|, w.reserved]
  }

  function Wire(w: WireRecord): seq<byte> {
    Header(w) + w.data + w.padding
  }

  function WireAll(ws: seq<WireRecord>): seq<byte> {
    if ws == [] then [] else Wire(ws[0]) + WireAll(ws[1..])
  }

  lemma {:induction false} WireAllAppend(a: seq<WireRecord>, b: seq<WireRecord>)
    ensures WireAll(a + b) == WireAll(a) + WireAll(b)
  {
    if a == [] {
      assert a + b == b;
    } else {
      assert (a + b)[1..] == a[1..] + b;
      WireAllAppend(a[1..], b);
    }
  }

  /** The header as section 3.3 of the FastCGI 1.0 specification numbers its bytes. */
  lemma WireLayout(w: WireRecord)
    ensures var h := Wire(w);
            && |h| == 8 + |w.data| + |w.padding|
            && h[0] == w.version && h[1] == w.kind && Be16(h[2], h[3]) == w.id && Be16(h[4], h[5]) == |w.data|
            && h[6] as int == |w.padding| && h[7] == w.reserved && h[8..8 + |w.data|] == w.data
  {
    var h := Wire(w);
    assert h[..8] == Header(w);
    assert h[8..8 + |w.data|] == w.data;
  }

  // ----- reading records

  /** One record and the bytes after it; None when the stream ends inside the record. */
  function TakeRecord(s: seq<byte>): (r: Option<(Record, seq<byte>)>)
    ensures r.Some? ==> |r.value.1| < |s|
  {
    if |s| < 8 then None
    else
      var n := Be16(s[4], s[5]);
      var total := n + s[6] as int;
      if |s| < 8 + total then None
      else Some((Record(s[1], s[8..8 + n]), s[8 + total..]))
  }

  lemma TakeRecordOfWire(w: WireRecord, rest: seq<byte>)
    ensures TakeRecord(Wire(w) + rest) == Some((View(w), rest))
  {
    var s := Wire(w) + rest;
    var n := |w.data|;
    assert s[..8] == Header(w);
    assert Be16(s[4], s[5]) == n;
    assert s[8..8 + n] == w.data;
    assert s[8 + n + |w.padding|..] == rest;
  }

  /** A record that is complete stays the same when more bytes arrive behind it. */
  lemma TakeRecordExtends(s: seq<byte>, more: seq<byte>)
    requires TakeRecord(s).Some?
    ensures TakeRecord(s + more) == Some((TakeRecord(s).value.0, TakeRecord(s).value.1 + more))
  {
    var n := Be16(s[4], s[5]);
    var total := n + s[6] as int;
    assert (s + more)[..8] == s[..8];
    assert (s + more)[8..8 + n] == s[8..8 + n];
    assert (s + more)[8 + total..] == s[8 + total..] + more;
  }

  /** `read_fcgi_conn` and `read_fcgi_from_stream`: two exact reads, padding dropped. */
  method ReadRecord(conn: ByteStream) returns (r: Option<Record>)
    modifies conn
    ensures TakeRecord(old(conn.unread)).None? ==> r.None? && conn.unread == []
    ensures TakeRecord(old(conn.unread)).Some? ==>
              r == Some(TakeRecord(old(conn.unread)).value.0) && conn.unread == TakeRecord(old(conn.unread)).value.1
  {
    ghost var s := conn.unread;
    var hdr := conn.ReadExact(8);
    if hdr.None? {
      return None;
    }
    var h := hdr.value;
    var contentLen := Be16(h[4], h[5]);
    var paddingLen := h[6] as int;
    var total := contentLen + paddingLen;
    var buf: Option<seq<byte>> := Some([]);
    if total > 0 {
      buf := conn.ReadExact(total);
    }
    if buf.None? {
      return None;
    }
    assert buf.value[..contentLen] == s[8..8 + contentLen];
    assert conn.unread == s[8 + total..];
    r := Some(Record(h[1], buf.value[..contentLen]));
  }

  /** Every record of a byte string, or None when it does not end on a record boundary. */
  function Records(s: seq<byte>): Option<seq<Record>>
    decreases |s|
  {
    if s == [] then Some([])
    else
      match TakeRecord(s)
      case None => None
      case Some((r, rest)) =>
        match Records(rest)
        case None => None
        case Some(rs) => Some([r] + rs)
  }

  lemma {:induction false} RecordsOfWire(ws: seq<WireRecord>)
    ensures Records(WireAll(ws)) == Some(Views(ws))
  {
    if ws == [] {
      assert Views(ws) == [];
    } else {
      TakeRecordOfWire(ws[0], WireAll(ws[1..]));
      RecordsOfWire(ws[1..]);
      assert Views(ws) == [View(ws[0])] + Views(ws[1..]);
    }
  }

  // ----- writing records

  function PaddingFor(n: nat): (p: nat)
    ensures p < 8 && (n + p) % 8 == 0
  {
    (8 - n % 8) % 8
  }

  function Zeros(n: nat): (z: seq<byte>)
    ensures |z| == n
  {
    seq(n, i => 0)
  }

  function Fragment(kind: byte, id: nat, chunk: seq<byte>): WireRecord
    requires id < 0x1_0000 && |chunk| <= FCGI_MAX_CONTENT
  {
    WireRecord(FCGI_VERSION, kind, id, chunk, Zeros(PaddingFor(|chunk|)), 0)
  }

  /** `data` cut into records of at most 65535 content bytes; an empty stream is one empty record. */
  function Fragments(kind: byte, id: nat, data: seq<byte>): seq<WireRecord>
    requires id < 0x1_0000
    decreases |data|
  {
    if |data| <= FCGI_MAX_CONTENT then [Fragment(kind, id, data)]
    else [Fragment(kind, id, data[..FCGI_MAX_CONTENT])] + Fragments(kind, id, data[FCGI_MAX_CONTENT..])
  }

  lemma WireAllOne(w: WireRecord)
    ensures WireAll([w]) == Wire(w)
  {
    assert [w][1..] == [];
  }

  /** `write_fcgi_record`: the chunk loop appends exactly the wire form of the fragments. */
  method WriteRecord(buf: seq<byte>, kind: byte, id: nat, data: seq<byte>) returns (out: seq<byte>)
    requires id < 0x1_0000
    ensures out == buf + WireAll(Fragments(kind, id, data))
  {
    if data == [] {
      out := WriteChunk(buf, kind, id, []);
      WireAllOne(Fragment(kind, id, []));
      return;
    }
    out := buf;
    var rest := data;
    while |rest| > FCGI_MAX_CONTENT
      invariant rest != []
      invariant out + WireAll(Fragments(kind, id, rest)) == buf + WireAll(Fragments(kind, id, data))
      decreases |rest|
    {
      ghost var frag := Fragment(kind, id, rest[..FCGI_MAX_CONTENT]);
      WireAllOne(frag);
      WireAllAppend([frag], Fragments(kind, id, rest[FCGI_MAX_CONTENT..]));
      out := WriteChunk(out, kind, id, rest[..FCGI_MAX_CONTENT]);
      rest := rest[FCGI_MAX_CONTENT..];
    }
    WireAllOne(Fragment(kind, id, rest));
    out := WriteChunk(out, kind, id, rest);
  }

  /** One turn of the chunk loop: header, content, zero padding to the next 8-byte boundary. */
  method WriteChunk(buf: seq<byte>, kind: byte, id: nat, chunk: seq<byte>) returns (out: seq<byte>)
    requires id < 0x1_0000 && |chunk| <= FCGI_MAX_CONTENT
    ensures out == buf + Wire(Fragment(kind, id, chunk))
  {
    var padding := PaddingFor(|chunk|);
    out := WriteHeader(buf, kind, id, |chunk|, padding);
    out := out + chunk + Zeros(padding);
  }

  /** `write_fcgi_header`: the length is truncated to 16 bits, as the cast in the source does. */
  method WriteHeader(buf: seq<byte>, kind: byte, id: nat, contentLen: nat, padding: byte) returns (out: seq<byte>)
    requires id < 0x1_0000
    ensures out == buf + [FCGI_VERSION, kind, id / 256, id % 256,
                          contentLen % 0x1_0000 / 256, contentLen % 256, padding, 0]
  {
    var len := contentLen % 0x1_0000;
    out := buf + [FCGI_VERSION, kind, id / 256, id % 256, len / 256, len % 256, padding, 0];
  }

  /** The contents of every record of one kind, joined. */
  function Contents(rs: seq<Record>, kind: byte): seq<byte> {
    if rs == [] then []
    else (if rs[0].kind == kind then rs[0].data else []) + Contents(rs[1..], kind)
  }

  lemma {:induction false} ContentsAppend(a: seq<Record>, b: seq<Record>, kind: byte)
    ensures Contents(a + b, kind) == Contents(a, kind) + Contents(b, kind)
  {
    if a == [] {
      assert a + b == b;
    } else {
      assert (a + b)[1..] == a[1..] + b;
      ContentsAppend(a[1..], b, kind);
    }
  }

  lemma ContentsOne(r: Record, kind: byte)
    ensures Contents([r], kind) == if r.kind == kind then r.data else []
  {
    assert [r][1..] == [];
  }

  /** Fragmentation loses nothing. */
  lemma {:induction false} FragmentsCarryData(kind: byte, id: nat, data: seq<byte>, k: byte)
    requires id < 0x1_0000
    ensures Contents(Views(Fragments(kind, id, data)), k) == if k == kind then data else []
    decreases |data|
  {
    var fs := Fragments(kind, id, data);
    if |data| <= FCGI_MAX_CONTENT {
      assert Views(fs) == [View(fs[0])];
      ContentsOne(View(fs[0]), k);
    } else {
      var rest := data[FCGI_MAX_CONTENT..];
      FragmentsCarryData(kind, id, rest, k);
      assert Views(fs) == [View(fs[0])] + Views(Fragments(kind, id, rest));
      ContentsAppend([View(fs[0])], Views(Fragments(kind, id, rest)), k);
      ContentsOne(View(fs[0]), k);
      assert data == data[..FCGI_MAX_CONTENT] + rest;
    }
  }

  /** How many records a stream takes: as few as the size limit of 65535 bytes allows, and at least one. */
  lemma {:induction false} FragmentCount(kind: byte, id: nat, data: seq<byte>)
    requires id < 0x1_0000
    ensures var n := |Fragments(kind, id, data)|;
            n >= 1 && 65535 * (n - 1) <= |data| <= 65535 * n && (n > 1 ==> 65535 * (n - 1) < |data|)
    decreases |data|
  {
    if |data| > FCGI_MAX_CONTENT {
      FragmentCount(kind, id, data[FCGI_MAX_CONTENT..]);
    }
  }

  lemma {:induction false} FragmentsMarked(kind: byte, id: nat, data: seq<byte>)
    requires id < 0x1_0000
    ensures forall w :: w in Fragments(kind, id, data) ==> w.version == 1 && w.id == id
    decreases |data|
  {
    if |data| > FCGI_MAX_CONTENT {
      FragmentsMarked(kind, id, data[FCGI_MAX_CONTENT..]);
    }
  }

  /** A record this client writes: within the size limit and ending on an 8-byte boundary. */
  predicate Tidy(w: WireRecord) {
    |w.data| <= 65535 && |Wire(w)| % 8 == 0
  }

  lemma FragmentTidy(kind: byte, id: nat, chunk: seq<byte>)
    requires id < 0x1_0000 && |chunk| <= FCGI_MAX_CONTENT
    ensures Tidy(Fragment(kind, id, chunk))
  {
    assert |Wire(Fragment(kind, id, chunk))| == 8 + (|chunk| + PaddingFor(|chunk|));
  }

  lemma {:induction false} FragmentsTidy(kind: byte, id: nat, data: seq<byte>)
    requires id < 0x1_0000
    ensures forall w :: w in Fragments(kind, id, data) ==> w.kind == kind && Tidy(w)
    ensures data != [] ==> forall w :: w in Fragments(kind, id, data) ==> w.data != []
    decreases |data|
  {
    if |data| <= FCGI_MAX_CONTENT {
      FragmentTidy(kind, id, data);
    } else {
      FragmentTidy(kind, id, data[..FCGI_MAX_CONTENT]);
      FragmentsTidy(kind, id, data[FCGI_MAX_CONTENT..]);
    }
  }

  // ----- name-value pairs (section 3.4 of the FastCGI 1.0 specification)

  /** The low 32 bits of a length with the top bit set. */
  function Marked(n: nat): (m: nat)
    ensures 0x8000_0000 <= m < 0x1_0000_0000
  {
    var low := n % 0x1_0000_0000;
    if low < 0x8000_0000 then low + 0x8000_0000 else low
  }

  function BigEndian32(m: nat): (s: seq<byte>)
    requires m < 0x1_0000_0000
    ensures |s| == 4
  {
    [m / 0x100_0000, m / 0x1_0000 % 256, m / 256 % 256, m % 256]
  }

  function EncodeLength(n: nat): seq<byte> {
    if n < 128 then [n] else BigEndian32(Marked(n))
  }

  /** The reader of section 3.4: one byte when its top bit is clear, else four bytes. */
  function DecodeLength(s: seq<byte>): (r: Option<(nat, seq<byte>)>)
    ensures r.Some? ==> |r.value.1| < |s|
  {
    if s == [] then None
    else if s[0] < 128 then Some((s[0], s[1..]))
    else if |s| < 4 then None
    else Some((Be16(s[0] - 128, s[1]) * 0x1_0000 + Be16(s[2], s[3]), s[4..]))
  }

  lemma BigEndian32Value(m: nat)
    requires 0x8000_0000 <= m < 0x1_0000_0000
    ensures var s := BigEndian32(m);
            s[0] >= 128 && Be16(s[0] - 128, s[1]) * 0x1_0000 + Be16(s[2], s[3]) == m - 0x8000_0000
  {
    var a, b, c := m / 0x100_0000, m / 0x1_0000, m / 256;
    assert b / 256 == a && c / 256 == b;
  }

  lemma MarkedValue(n: nat)
    ensures Marked(n) - 0x8000_0000 == n <==> n < 0x8000_0000
  {
    assert n < 0x8000_0000 ==> n % 0x1_0000_0000 == n;
  }

  lemma DecodeMarked(m: nat, rest: seq<byte>)
    requires 0x8000_0000 <= m < 0x1_0000_0000
    ensures DecodeLength(BigEndian32(m) + rest) == Some((m - 0x8000_0000, rest))
  {
    BigEndian32Value(m);
    var s := BigEndian32(m) + rest;
    assert s[..4] == BigEndian32(m) && s[4..] == rest;
    assert s[0] == s[..4][0] && s[1] == s[..4][1] && s[2] == s[..4][2] && s[3] == s[..4][3];
  }

  /** A length survives the encoding exactly when it is below 2^31. */
  lemma LengthRoundTrip(n: nat, rest: seq<byte>)
    ensures DecodeLength(EncodeLength(n) + rest) == Some((n, rest)) <==> n < 0x8000_0000
  {
    if n < 128 {
      assert ([n] + rest)[1..] == rest;
    } else {
      MarkedValue(n);
      DecodeMarked(Marked(n), rest);
    }
  }

  /** One byte below 128; else four bytes, the top bit set, big-endian (section 3.4). */
  lemma LengthLayout(n: nat)
    requires n < 0x8000_0000
    ensures var e := EncodeLength(n);
            if n < 128 then e == [n]
            else |e| == 4 && e[0] >= 128
                 && (e[0] as int - 128) * 0x100_0000 + e[1] as int * 0x1_0000 + e[2] as int * 0x100 + e[3] as int == n
  {
    if n >= 128 {
      MarkedValue(n);
      BigEndian32Value(Marked(n));
    }
  }

  datatype Param = Param(name: seq<byte>, value: seq<byte>)

  function EncodePair(p: Param): seq<byte> {
    EncodeLength(|p.name|) + EncodeLength(|p.value|) + p.name + p.value
  }

  function EncodePairs(ps: seq<Param>): seq<byte> {
    if ps == [] then [] else EncodePair(ps[0]) + EncodePairs(ps[1..])
  }

  function DecodePair(s: seq<byte>): (r: Option<(Param, seq<byte>)>)
    ensures r.Some? ==> |r.value.1| < |s|
  {
    match DecodeLength(s)
    case None => None
    case Some((n, s1)) =>
      match DecodeLength(s1)
      case None => None
      case Some((v, s2)) =>
        if |s2| < n + v then None else Some((Param(s2[..n], s2[n..n + v]), s2[n + v..]))
  }

  function DecodePairs(s: seq<byte>): Option<seq<Param>>
    decreases |s|
  {
    if s == [] then Some([])
    else
      match DecodePair(s)
      case None => None
      case Some((p, rest)) =>
        match DecodePairs(rest)
        case None => None
        case Some(ps) => Some([p] + ps)
  }

  predicate Encodable(p: Param) {
    |p.name| < 0x8000_0000 && |p.value| < 0x8000_0000
  }

  /** Both lengths, then the name, then the value; short lengths are single bytes. */
  lemma PairLayout(p: Param)
    ensures EncodePair(p) == EncodeLength(|p.name|) + (EncodeLength(|p.value|) + (p.name + p.value))
    ensures |p.name| < 128 && |p.value| < 128 ==> EncodePair(p) == [|p.name|, |p.value|] + p.name + p.value
  {
  }

  lemma PairRoundTrip(p: Param, rest: seq<byte>)
    requires Encodable(p)
    ensures DecodePair(EncodePair(p) + rest) == Some((p, rest))
  {
    var n, v := |p.name|, |p.value|;
    var s2 := p.name + p.value + rest;
    var s1 := EncodeLength(v) + s2;
    assert EncodePair(p) + rest == EncodeLength(n) + s1;
    LengthRoundTrip(n, s1);
    LengthRoundTrip(v, s2);
    assert s2[..n] == p.name && s2[n..n + v] == p.value && s2[n + v..] == rest;
  }

  lemma {:induction false} PairsRoundTrip(ps: seq<Param>)
    requires forall p :: p in ps ==> Encodable(p)
    ensures DecodePairs(EncodePairs(ps)) == Some(ps)
  {
    if ps != [] {
      PairRoundTrip(ps[0], EncodePairs(ps[1..]));
      PairsRoundTrip(ps[1..]);
      assert [ps[0]] + ps[1..] == ps;
    }
  }

  /** `encode_nv_pair`, one length after the other, then the two strings. */
  method WritePair(buf: seq<byte>, p: Param) returns (out: seq<byte>)
    ensures out == buf + EncodePair(p)
  {
    out := WriteLength(buf, |p.name|);
    out := WriteLength(out, |p.value|);
    out := out + p.name + p.value;
  }

  method WriteLength(buf: seq<byte>, n: nat) returns (out: seq<byte>)
    ensures out == buf + EncodeLength(n)
  {
    if n < 128 {
      out := buf + [n];
    } else {
      out := buf + BigEndian32(Marked(n));
    }
  }

  // ----- the request packet (src/handler/fastcgi/response.rs, lines 40-56)

  const RID: nat := 1
  const BEGIN_BODY: seq<byte> := [0, 1, 1, 0, 0, 0, 0, 0]

  function Begin(): WireRecord {
    Fragment(FCGI_BEGIN_REQUEST, RID, BEGIN_BODY)
  }

  /** One stream of the request: its data, then the empty record that ends it. */
  function StreamRecords(kind: byte, data: seq<byte>): seq<WireRecord> {
    Fragments(kind, RID, data) + [Fragment(kind, RID, [])]
  }

  function RequestRecords(ps: seq<Param>, stdin: seq<byte>): seq<WireRecord> {
    [Begin()] + (StreamRecords(FCGI_PARAMS, EncodePairs(ps)) + StreamRecords(FCGI_STDIN, stdin))
  }

  method WriteStream(buf: seq<byte>, kind: byte, data: seq<byte>) returns (out: seq<byte>)
    ensures out == buf + WireAll(StreamRecords(kind, data))
  {
    out := WriteRecord(buf, kind, RID, data);
    out := WriteRecord(out, kind, RID, []);
    WireAllAppend(Fragments(kind, RID, data), Fragments(kind, RID, []));
  }

  /** BEGIN_REQUEST: responder role, keep-connection flag, five reserved zeros. */
  method WriteBegin() returns (pkt: seq<byte>)
    ensures pkt == Wire(Begin())
  {
    pkt := WriteHeader([], FCGI_BEGIN_REQUEST, RID, 8, 0);
    pkt := pkt + [0, 1] + [1] + [0, 0, 0, 0, 0];
    assert PaddingFor(8) == 0;
    assert Begin().padding == [];
  }

  method WritePairs(ps: seq<Param>) returns (body: seq<byte>)
    ensures body == EncodePairs(ps)
  {
    body := [];
    var i := 0;
    while i < |ps|
      invariant 0 <= i <= |ps|
      invariant body + EncodePairs(ps[i..]) == EncodePairs(ps)
    {
      assert ps[i..][1..] == ps[i + 1..];
      Assoc(body, EncodePair(ps[i]), EncodePairs(ps[i + 1..]));
      body := WritePair(body, ps[i]);
      i := i + 1;
    }
  }

  lemma RequestWire(ps: seq<Param>, stdin: seq<byte>)
    ensures WireAll(RequestRecords(ps, stdin))
         == Wire(Begin()) + WireAll(StreamRecords(FCGI_PARAMS, EncodePairs(ps)))
            + WireAll(StreamRecords(FCGI_STDIN, stdin))
  {
    var a, b := StreamRecords(FCGI_PARAMS, EncodePairs(ps)), StreamRecords(FCGI_STDIN, stdin);
    WireAllOne(Begin());
    WireAllAppend(a, b);
    WireAllAppend([Begin()], a + b);
    Assoc(Wire(Begin()), WireAll(a), WireAll(b));
  }

  /** The packet `fcgi_send_and_read_headers` sends before it starts to read. */
  method BuildRequest(ps: seq<Param>, stdin: seq<byte>) returns (pkt: seq<byte>)
    ensures pkt == WireAll(RequestRecords(ps, stdin))
  {
    pkt := WriteBegin();
    var body := WritePairs(ps);
    pkt := WriteStream(pkt, FCGI_PARAMS, body);
    pkt := WriteStream(pkt, FCGI_STDIN, stdin);
    RequestWire(ps, stdin);
  }

  lemma StreamContents(kind: byte, data: seq<byte>, k: byte)
    ensures Contents(Views(StreamRecords(kind, data)), k) == if k == kind then data else []
  {
    var end := Fragment(kind, RID, []);
    ViewsAppend(Fragments(kind, RID, data), [end]);
    assert Views([end]) == [View(end)];
    ContentsAppend(Views(Fragments(kind, RID, data)), [View(end)], k);
    ContentsOne(View(end), k);
    FragmentsCarryData(kind, RID, data, k);
  }

  lemma StreamTidy(kind: byte, data: seq<byte>)
    ensures forall w :: w in StreamRecords(kind, data) ==> w.kind == kind && Tidy(w)
  {
    FragmentsTidy(kind, RID, data);
    FragmentTidy(kind, RID, []);
  }

  lemma RequestContents(ps: seq<Param>, stdin: seq<byte>, k: byte)
    requires k != FCGI_BEGIN_REQUEST
    ensures Contents(Views(RequestRecords(ps, stdin)), k)
         == (if k == FCGI_PARAMS then EncodePairs(ps) else []) + (if k == FCGI_STDIN then stdin else [])
  {
    var a, b := StreamRecords(FCGI_PARAMS, EncodePairs(ps)), StreamRecords(FCGI_STDIN, stdin);
    ViewsAppend(a, b);
    ViewsAppend([Begin()], a + b);
    assert Views([Begin()]) == [View(Begin())];
    ContentsOne(View(Begin()), k);
    ContentsAppend([View(Begin())], Views(a) + Views(b), k);
    ContentsAppend(Views(a), Views(b), k);
    StreamContents(FCGI_PARAMS, EncodePairs(ps), k);
    StreamContents(FCGI_STDIN, stdin, k);
  }

  predicate Ordered(rs: seq<Record>) {
    forall i, j :: 0 <= i < j < |rs| ==> rs[i].kind <= rs[j].kind
  }

  lemma OrderedByKind(first: WireRecord, a: seq<WireRecord>, b: seq<WireRecord>, ka: byte, kb: byte)
    requires (forall w :: w in a ==> w.kind == ka) && (forall w :: w in b ==> w.kind == kb)
    requires first.kind <= ka <= kb
    ensures Ordered(Views([first] + (a + b)))
  {
    var ws := [first] + (a + b);
    forall i | 0 <= i < |ws|
      ensures ws[i].kind == if i == 0 then first.kind else if i <= |a| then ka else kb
    {
      if 0 < i <= |a| {
        assert ws[i] == a[i - 1];
      } else if i > |a| {
        assert ws[i] == b[i - 1 - |a|];
      }
    }
  }

  /** BEGIN_REQUEST comes first, then every PARAMS record, then every STDIN record. */
  lemma RequestOrder(ps: seq<Param>, stdin: seq<byte>)
    ensures var rs := Views(RequestRecords(ps, stdin));
            rs[0] == Record(FCGI_BEGIN_REQUEST, BEGIN_BODY) && Ordered(rs)
  {
    var a, b := StreamRecords(FCGI_PARAMS, EncodePairs(ps)), StreamRecords(FCGI_STDIN, stdin);
    StreamTidy(FCGI_PARAMS, EncodePairs(ps));
    StreamTidy(FCGI_STDIN, stdin);
    OrderedByKind(Begin(), a, b, FCGI_PARAMS, FCGI_STDIN);
  }

  /** Every record of the packet is within the size limit and on an 8-byte boundary. */
  lemma RequestTidy(ps: seq<Param>, stdin: seq<byte>)
    ensures forall w :: w in RequestRecords(ps, stdin) ==> Tidy(w) && w.version == 1 && w.id == 1
  {
    FragmentsMarked(FCGI_PARAMS, RID, EncodePairs(ps));
    FragmentsMarked(FCGI_STDIN, RID, stdin);
    FragmentTidy(FCGI_BEGIN_REQUEST, RID, BEGIN_BODY);
    StreamTidy(FCGI_PARAMS, EncodePairs(ps));
    StreamTidy(FCGI_STDIN, stdin);
  }

  /**
   * What an application that reads records and joins each stream gets from a packet: a BEGIN_REQUEST (type 1) for the
   * responder role (0, 1) with the keep-connection flag (1), then PARAMS (type 4), then STDIN (type 5).
   */
  ghost predicate Delivers(pkt: seq<byte>, ps: seq<Param>, stdin: seq<byte>) {
    match Records(pkt)
    case None => false
    case Some(rs) =>
      && rs != [] && rs[0] == Record(1, [0, 1, 1, 0, 0, 0, 0, 0])
      && Ordered(rs)
      && DecodePairs(Contents(rs, 4)) == Some(ps)
      && Contents(rs, 5) == stdin
  }

  /** The packet delivers BEGIN_REQUEST first, then exactly the parameters, then exactly the body. */
  lemma RequestRoundTrip(ps: seq<Param>, stdin: seq<byte>)
    requires forall p :: p in ps ==> Encodable(p)
    ensures Delivers(WireAll(RequestRecords(ps, stdin)), ps, stdin)
  {
    var ws := RequestRecords(ps, stdin);
    RecordsOfWire(ws);
    RequestContents(ps, stdin, FCGI_PARAMS);
    RequestContents(ps, stdin, FCGI_STDIN);
    RequestOrder(ps, stdin);
    PairsRoundTrip(ps);
    assert Contents(Views(ws), FCGI_PARAMS) == EncodePairs(ps);
    assert Contents(Views(ws), FCGI_STDIN) == stdin;
  }

  /** How many records are empty: section 3.3 lets a stream have exactly one, its terminator. */
  function Terminators(ws: seq<WireRecord>): nat {
    if ws == [] then 0 else (if ws[0].data == [] then 1 else 0) + Terminators(ws[1..])
  }

  lemma {:induction false} TerminatorsAtEnd(ws: seq<WireRecord>, w: WireRecord)
    requires forall x :: x in ws ==> x.data != []
    ensures Terminators(ws + [w]) == if w.data == [] then 1 else 0
  {
    if ws == [] {
      assert ws + [w] == [w] && [w][1..] == [];
    } else {
      assert (ws + [w])[1..] == ws[1..] + [w];
      TerminatorsAtEnd(ws[1..], w);
    }
  }

  /** A stream of the packet ends in one terminator exactly when it carries data; an empty one gets two. */
  lemma StreamTerminators(kind: byte, data: seq<byte>)
    ensures Terminators(StreamRecords(kind, data)) == if data != [] then 1 else 2
  {
    var end := Fragment(kind, RID, []);
    if data == [] {
      assert StreamRecords(kind, data) == [end] + [end];
      assert ([end] + [end])[1..] == [end] && [end][1..] == [];
      assert Terminators([end]) == 1;
    } else {
      FragmentsTidy(kind, RID, data);
      TerminatorsAtEnd(Fragments(kind, RID, data), end);
    }
  }

  // ----- where the response header ends

  /** A separator: where the body starts and where the header text ends. */
  datatype Separator = Separator(bodyStart: nat, textEnd: nat)

  /** CRLFCRLF anywhere in the buffer wins over LFLF. */
  function HeaderEnd(buf: seq<byte>): (r: Option<Separator>)
    ensures r.Some? ==> r.value.textEnd <= r.value.bodyStart <= |buf|
  {
    match Find(CRLFCRLF, buf)
    case Some(i) => Some(Separator(i + 4, i))
    case None =>
      match Find(LFLF, buf)
      case Some(i) => Some(Separator(i + 2, i))
      case None => None
  }

  /** `find_header_end`: the two scans of the source. */
  method FindHeaderEnd(buf: seq<byte>) returns (r: Option<Separator>)
    ensures r == HeaderEnd(buf)
  {
    var i := 0;
    while i < |buf| - 3
      invariant 0 <= i
      invariant forall j: nat :: j < i ==> !At(CRLFCRLF, buf, j)
    {
      if buf[i] == CR && buf[i + 1] == LF && buf[i + 2] == CR && buf[i + 3] == LF {
        assert At(CRLFCRLF, buf, i);
        return Some(Separator(i + 4, i));
      }
      assert buf[i..i + 4] == [buf[i], buf[i + 1], buf[i + 2], buf[i + 3]];
      i := i + 1;
    }
    assert forall j: nat :: !At(CRLFCRLF, buf, j);
    i := 0;
    while i < |buf| - 1
      invariant 0 <= i
      invariant forall j: nat :: j < i ==> !At(LFLF, buf, j)
    {
      if buf[i] == LF && buf[i + 1] == LF {
        assert At(LFLF, buf, i);
        return Some(Separator(i + 2, i));
      }
      assert buf[i..i + 2] == [buf[i], buf[i + 1]];
      i := i + 1;
    }
    r := None;
  }

  /**
   * The output falls into header text and body at the first CRLFCRLF, or, when there is none, at the first LFLF. Bytes
   * are written out: 13 is the carriage return, 10 the line feed.
   */
  ghost predicate Splits(out: seq<byte>, text: seq<byte>, body: seq<byte>) {
    || (out == text + ([13, 10, 13, 10] + body) && forall i: nat :: At([13, 10, 13, 10], out, i) ==> |text| <= i)
    || (&& out == text + ([10, 10] + body)
        && (forall i: nat :: !At([13, 10, 13, 10], out, i))
        && (forall i: nat :: At([10, 10], out, i) ==> |text| <= i))
  }

  lemma SplitAt(out: seq<byte>, sep: seq<byte>, i: nat)
    requires At(sep, out, i)
    ensures out == out[..i] + (sep + out[i + |sep|..])
  {
    assert out == out[..i] + out[i..];
    assert out[i..] == out[i..i + |sep|] + out[i + |sep|..];
  }

  lemma AtOfSplit(text: seq<byte>, sep: seq<byte>, body: seq<byte>)
    ensures At(sep, text + (sep + body), |text|)
  {
    var out := text + (sep + body);
    assert out[|text|..|text| + |sep|] == sep;
  }

  /** The separator found splits the output; without one there is neither CRLFCRLF nor LFLF. */
  lemma HeaderEndSplits(out: seq<byte>)
    ensures var r := HeaderEnd(out);
            r.Some? ==> Splits(out, out[..r.value.textEnd], out[r.value.bodyStart..])
    ensures HeaderEnd(out).None? ==> forall i: nat :: !At([13, 10, 13, 10], out, i) && !At([10, 10], out, i)
  {
    var a, b := Find(CRLFCRLF, out), Find(LFLF, out);
    if a.Some? {
      SplitAt(out, CRLFCRLF, a.value);
    } else if b.Some? {
      SplitAt(out, LFLF, b.value);
    }
  }

  /** There is one such split, and the separator found is it. */
  lemma SplitIsHeaderEnd(out: seq<byte>, text: seq<byte>, body: seq<byte>)
    requires Splits(out, text, body)
    ensures HeaderEnd(out) == Some(Separator(|out| - |body|, |text|))
    ensures out[..|text|] == text && out[|out| - |body|..] == body
  {
    if out == text + ([13, 10, 13, 10] + body) && forall i: nat :: At([13, 10, 13, 10], out, i) ==> |text| <= i {
      AtOfSplit(text, [13, 10, 13, 10], body);
      assert Find(CRLFCRLF, out) == Some(|text|);
    } else {
      AtOfSplit(text, [10, 10], body);
      assert Find(CRLFCRLF, out).None? && Find(LFLF, out) == Some(|text|);
    }
  }

  /**
   * An LFLF pair is complete before the first CRLFCRLF is: the two scans can then disagree about where the header
   * ends.
   */
  predicate Ambiguous(out: seq<byte>) {
    && Find(CRLFCRLF, out).Some? && Find(LFLF, out).Some?
    && Find(LFLF, out).value + 2 < Find(CRLFCRLF, out).value + 4
  }

  lemma PrefixOfUnambiguous(s: seq<byte>, t: seq<byte>)
    requires HeaderEnd(s + t).Some? && !Ambiguous(s + t)
    ensures HeaderEnd(s).None? || HeaderEnd(s) == HeaderEnd(s + t)
    ensures HeaderEnd(s + t).value.bodyStart <= |s| ==> HeaderEnd(s) == HeaderEnd(s + t)
  {
    FindInPrefix(CRLFCRLF, s, t);
    FindInPrefix(LFLF, s, t);
  }

  /**
   * Growing the buffer never changes a separator once found, for every place the stream may be cut, exactly when the
   * output is unambiguous.
   */
  lemma CutIndependence(out: seq<byte>)
    requires HeaderEnd(out).Some?
    ensures (forall n: nat :: n <= |out| && HeaderEnd(out[..n]).Some? ==> HeaderEnd(out[..n]) == HeaderEnd(out))
       <==> !Ambiguous(out)
  {
    if Ambiguous(out) {
      var n := Find(LFLF, out).value + 2;
      assert out[..n] + out[n..] == out;
      FindInPrefix(CRLFCRLF, out[..n], out[n..]);
      FindInPrefix(LFLF, out[..n], out[n..]);
      assert HeaderEnd(out[..n]).Some? && HeaderEnd(out[..n]) != HeaderEnd(out);
    } else {
      forall n: nat | n <= |out| && HeaderEnd(out[..n]).Some?
        ensures HeaderEnd(out[..n]) == HeaderEnd(out)
      {
        assert out[..n] + out[n..] == out;
        PrefixOfUnambiguous(out[..n], out[n..]);
      }
    }
  }
}
