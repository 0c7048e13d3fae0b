/**
 * The WebSocket relay: upstream handshake, then both directions driven by one poll
 * (src/handler/reverse_proxy/ws_proxy.rs).
 */
module WsRelay {
  import opened Common
  import opened Net

  // ----- the handshake

  const HEAD_LIMIT: nat := 4096

  datatype Handshake = Failed | Ready(head: seq<byte>, prefetched: Option<seq<byte>>)

  function Bytes(o: Option<seq<byte>>): seq<byte> {
    if o.Some? then o.value else []
  }

  /** Where the response head ends, if it does within the 4096-byte buffer. */
  function HeadLength(s: seq<byte>): Option<nat> {
    match Find(CRLFCRLF, s)
    case Some(p) => if p + 4 <= HEAD_LIMIT then Some(p + 4) else None
    case None => None
  }

  /**
   * `read_upstream_headers`. However the reads are cut, the handshake succeeds exactly when the head fits the buffer,
   * the head is what precedes the first CRLFCRLF, and no byte behind it is lost.
   */
  method ReadUpstreamHeaders(io: ByteStream) returns (r: Handshake)
    modifies io
    ensures r.Ready? <==> exists p: nat :: At([13, 10, 13, 10], old(io.unread), p) && p + 4 <= 4096
    ensures r.Ready? ==> |r.head| >= 4 && At([13, 10, 13, 10], r.head, |r.head| - 4)
    ensures r.Ready? ==> forall p: nat :: At([13, 10, 13, 10], old(io.unread), p) ==> |r.head| <= p + 4
    ensures r.Ready? <==> HeadLength(old(io.unread)).Some?
    ensures r.Ready? ==> r.head == old(io.unread)[..HeadLength(old(io.unread)).value]
    ensures r.Ready? ==> r.head + Bytes(r.prefetched) + io.unread == old(io.unread)
    ensures r.Ready? && r.prefetched.Some? ==> r.prefetched.value != []
  {
    ghost var s := io.unread;
    var buf: seq<byte> := [];
    while true
      invariant |buf| <= HEAD_LIMIT
      invariant buf + io.unread == s
      invariant Find(CRLFCRLF, buf).None?
      decreases HEAD_LIMIT - |buf|
    {
      if |buf| >= HEAD_LIMIT {
        NoHead(buf, io.unread);
        NoneWithin(s);
        return Failed;
      }
      var got := io.Read(HEAD_LIMIT - |buf|);
      if got == [] {
        NoHead(buf, io.unread);
        NoneWithin(s);
        return Failed;
      }
      Assoc(buf, got, io.unread);
      buf := buf + got;
      if Find(CRLFCRLF, buf).Some? {
        break;
      }
    }
    HeadFound(buf, io.unread);
    HeadIsFirst(s, HeadLength(s).value);
    var headEnd := Find(CRLFCRLF, buf).value + 4;
    var prefetched := if headEnd < |buf| then Some(buf[headEnd..]) else None;
    assert Bytes(prefetched) == buf[headEnd..];
    r := Ready(buf[..headEnd], prefetched);
  }

  /** No head so far, and the buffer is full or the stream over: there is none within the limit. */
  lemma NoHead(buf: seq<byte>, rest: seq<byte>)
    requires Find(CRLFCRLF, buf).None? && (|buf| >= HEAD_LIMIT || rest == [])
    ensures HeadLength(buf + rest).None?
  {
    FindInPrefix(CRLFCRLF, buf, rest);
    if rest == [] {
      assert buf + rest == buf;
    }
  }

  lemma NoneWithin(s: seq<byte>)
    requires HeadLength(s).None?
    ensures forall p: nat :: At([13, 10, 13, 10], s, p) ==> p + 4 > 4096
  {
    forall p: nat | At([13, 10, 13, 10], s, p)
      ensures p + 4 > 4096
    {
      assert At(CRLFCRLF, s, p);
    }
  }

  lemma HeadIsFirst(s: seq<byte>, n: nat)
    requires HeadLength(s) == Some(n)
    ensures 4 <= n <= |s| && n <= 4096 && At([13, 10, 13, 10], s, n - 4) && At([13, 10, 13, 10], s[..n], n - 4)
    ensures forall p: nat :: At([13, 10, 13, 10], s, p) ==> n <= p + 4
  {
    assert s[..n][n - 4..n] == s[n - 4..n];
  }

  /** A head within the buffer is the head of the whole stream. */
  lemma HeadFound(buf: seq<byte>, rest: seq<byte>)
    requires Find(CRLFCRLF, buf).Some? && |buf| <= HEAD_LIMIT
    ensures var n := Find(CRLFCRLF, buf).value + 4;
            && n <= |buf| && HeadLength(buf + rest) == Some(n)
            && (buf + rest)[..n] == buf[..n] && buf[..n] + buf[n..] + rest == buf + rest
  {
    FindInPrefix(CRLFCRLF, buf, rest);
    var n := Find(CRLFCRLF, buf).value + 4;
    assert buf[..n] + buf[n..] == buf;
  }

  // ----- one poll

  datatype WriteOutcome = Wrote(n: nat) | WriteError | WritePending
  datatype ClientOutcome = Data(bytes: seq<byte>) | ClientError | ClientEof | ClientPending
  /** An empty piece is the end of the upstream's stream. */
  datatype ReadOutcome = Piece(bytes: seq<byte>) | ReadError | ReadPending

  /** What the four calls inside one poll return, if they are made at all. */
  datatype Outcomes = Outcomes(flush: WriteOutcome, client: ClientOutcome, write: WriteOutcome, read: ReadOutcome)

  datatype Item = Chunk(bytes: seq<byte>) | End | NotReady

  /** The relay's own state. */
  datatype Relay = Relay(pending: Option<seq<byte>>, clientDone: bool, prefetched: Option<seq<byte>>)

  /** What has crossed each side so far, and whether a write to the upstream has failed. */
  datatype Log = Log(taken: seq<byte>, written: seq<byte>, received: seq<byte>, emitted: seq<byte>, writeFailed: bool)

  datatype State = State(relay: Relay, log: Log)

  /** A write call never reports more bytes than it was given. */
  predicate Legal(w: WriteOutcome, data: seq<byte>) {
    w.Wrote? ==> w.n <= |data|
  }

  /** `poll_write(data)`: accepted bytes are gone, the others stay pending; an error ends the client's side. */
  function Push(s: State, data: seq<byte>, w: WriteOutcome): State
    requires Legal(w, data)
  {
    match w
    case Wrote(n) =>
      State(s.relay.(pending := if n == |data| then None else Some(data[n..])),
            s.log.(written := s.log.written + data[..n]))
    case WriteError => State(s.relay.(clientDone := true, pending := None), s.log.(writeFailed := true))
    case WritePending => State(s.relay.(pending := Some(data)), s.log)
  }

  predicate LegalFlush(s: State, o: Outcomes) {
    s.relay.pending.Some? ==> Legal(o.flush, s.relay.pending.value)
  }

  predicate LegalPull(o: Outcomes) {
    o.client.Data? ==> Legal(o.write, o.client.bytes)
  }

  function Flush(s: State, o: Outcomes): State
    requires LegalFlush(s, o)
  {
    if s.relay.pending.Some? then Push(s, s.relay.pending.value, o.flush) else s
  }

  /** The client's body is polled only when nothing is pending. */
  function Pull(s: State, o: Outcomes): State
    requires LegalPull(o)
  {
    if s.relay.clientDone || s.relay.pending.Some? then s
    else
      match o.client
      case Data(b) => Push(s.(log := s.log.(taken := s.log.taken + b)), b, o.write)
      case ClientError => s.(relay := s.relay.(clientDone := true))
      case ClientEof => s.(relay := s.relay.(clientDone := true))
      case ClientPending => s
  }

  /** Prefetched bytes go out first; afterwards each piece read goes out as it came. */
  function Emit(s: State, o: Outcomes): (State, Item) {
    if s.relay.prefetched.Some? then
      var chunk := s.relay.prefetched.value;
      (State(s.relay.(prefetched := None), s.log.(emitted := s.log.emitted + chunk)), Chunk(chunk))
    else
      match o.read
      case Piece(b) =>
        if b == [] then (s, End)
        else (s.(log := s.log.(received := s.log.received + b, emitted := s.log.emitted + b)), Chunk(b))
      case ReadError => (s, End)
      case ReadPending => (s, NotReady)
  }

  predicate LegalPoll(s: State, o: Outcomes) {
    LegalFlush(s, o) && LegalPull(o)
  }

  /** `BiDirStream::poll_next`. */
  function Poll(s: State, o: Outcomes): (State, Item)
    requires LegalPoll(s, o)
  {
    Emit(Pull(Flush(s, o), o), o)
  }

  // ----- nothing is lost, duplicated or reordered

  /**
   * Client to upstream: written then pending is taken, until a write fails; afterwards written is a prefix of taken
   * for good.
   */
  predicate ClientSide(s: State) {
    if s.log.writeFailed then s.log.written <= s.log.taken && s.relay.clientDone && s.relay.pending.None?
    else s.log.written + Bytes(s.relay.pending) == s.log.taken
  }

  /** Upstream to client: emitted then prefetched is received. */
  predicate UpstreamSide(s: State) {
    s.log.emitted + Bytes(s.relay.prefetched) == s.log.received
  }

  predicate Conserved(s: State) {
    ClientSide(s) && UpstreamSide(s)
  }

  lemma PushConserves(s: State, data: seq<byte>, w: WriteOutcome)
    requires Legal(w, data) && !s.log.writeFailed && s.log.written + data == s.log.taken
    ensures ClientSide(Push(s, data, w))
  {
    if w.Wrote? {
      assert data[..w.n] + data[w.n..] == data;
      Assoc(s.log.written, data[..w.n], data[w.n..]);
      assert w.n == |data| ==> data[w.n..] == [];
    }
  }

  /** A failed write freezes the client's side. */
  predicate Frozen(s: State, t: State) {
    s.log.writeFailed ==> t.log.writeFailed && t.log.written == s.log.written && t.log.taken == s.log.taken
  }

  lemma FlushConserves(s: State, o: Outcomes)
    requires LegalFlush(s, o) && Conserved(s)
    ensures Conserved(Flush(s, o)) && Frozen(s, Flush(s, o))
  {
    if s.relay.pending.Some? {
      PushConserves(s, s.relay.pending.value, o.flush);
    }
  }

  lemma PullConserves(s: State, o: Outcomes)
    requires LegalPull(o) && Conserved(s)
    ensures Conserved(Pull(s, o)) && Frozen(s, Pull(s, o))
  {
    if !s.relay.clientDone && s.relay.pending.None? && o.client.Data? {
      var b := o.client.bytes;
      assert s.log.written == s.log.taken;
      PushConserves(s.(log := s.log.(taken := s.log.taken + b)), b, o.write);
    }
  }

  lemma EmitConserves(s: State, o: Outcomes)
    requires Conserved(s)
    ensures Conserved(Emit(s, o).0) && Frozen(s, Emit(s, o).0)
  {
    var t := Emit(s, o).0;
    assert t.log.written == s.log.written && t.log.taken == s.log.taken && t.relay.pending == s.relay.pending;
    if s.relay.prefetched.None? {
      assert s.log.emitted + [] == s.log.emitted && t.log.emitted + [] == t.log.emitted;
    } else {
      assert t.log.emitted + [] == s.log.received;
    }
  }

  lemma PollConserves(s: State, o: Outcomes)
    requires LegalPoll(s, o) && Conserved(s)
    ensures Conserved(Poll(s, o).0) && Frozen(s, Poll(s, o).0)
  {
    FlushConserves(s, o);
    PullConserves(Flush(s, o), o);
    EmitConserves(Pull(Flush(s, o), o), o);
  }

  ghost predicate LegalRun(s: State, os: seq<Outcomes>)
    decreases |os|
  {
    os == [] || (LegalPoll(s, os[0]) && LegalRun(Poll(s, os[0]).0, os[1..]))
  }

  function Run(s: State, os: seq<Outcomes>): State
    requires LegalRun(s, os)
    decreases |os|
  {
    if os == [] then s else Run(Poll(s, os[0]).0, os[1..])
  }

  function Items(s: State, os: seq<Outcomes>): seq<Item>
    requires LegalRun(s, os)
    decreases |os|
  {
    if os == [] then [] else [Poll(s, os[0]).1] + Items(Poll(s, os[0]).0, os[1..])
  }

  /** The state a finished handshake starts the relay in. */
  function Start(prefetched: Option<seq<byte>>): State {
    State(Relay(None, false, prefetched), Log([], [], Bytes(prefetched), [], false))
  }

  /** For every sequence of poll outcomes, both directions conserve their bytes. */
  lemma {:induction false} RunConserves(s: State, os: seq<Outcomes>)
    requires LegalRun(s, os) && Conserved(s)
    ensures Conserved(Run(s, os))
    ensures Frozen(s, Run(s, os))
    decreases |os|
  {
    if os != [] {
      PollConserves(s, os[0]);
      RunConserves(Poll(s, os[0]).0, os[1..]);
    }
  }

  function Chunks(items: seq<Item>): seq<byte> {
    if items == [] then []
    else Shown(items[0]) + Chunks(items[1..])
  }

  function Shown(item: Item): seq<byte> {
    if item.Chunk? then item.bytes else []
  }

  /** What one poll reads from the upstream. */
  function ReadBy(s: State, o: Outcomes): seq<byte> {
    if s.relay.prefetched.None? && o.read.Piece? then o.read.bytes else []
  }

  lemma PollShows(s: State, o: Outcomes)
    requires LegalPoll(s, o)
    ensures Poll(s, o).0.relay.prefetched.None?
    ensures Shown(Poll(s, o).1) == Bytes(s.relay.prefetched) + ReadBy(s, o)
  {
    assert Pull(Flush(s, o), o).relay.prefetched == s.relay.prefetched;
  }

  /** The upstream bytes a run reads, in order. */
  function Reads(s: State, os: seq<Outcomes>): seq<byte>
    requires LegalRun(s, os)
    decreases |os|
  {
    if os == [] then []
    else ReadBy(s, os[0]) + Reads(Poll(s, os[0]).0, os[1..])
  }

  /**
   * What the client is handed, chunk by chunk, is the prefetched bytes and then everything read, once one poll has
   * been made.
   */
  lemma {:induction false} ClientSeesReads(s: State, os: seq<Outcomes>)
    requires LegalRun(s, os)
    ensures Chunks(Items(s, os)) + Bytes(Run(s, os).relay.prefetched) == Bytes(s.relay.prefetched) + Reads(s, os)
    ensures os != [] ==> Run(s, os).relay.prefetched.None?
    decreases |os|
  {
    if os == [] {
      assert Chunks(Items(s, os)) == [] && Reads(s, os) == [];
    } else {
      var (next, item) := Poll(s, os[0]);
      PollShows(s, os[0]);
      ClientSeesReads(next, os[1..]);
      assert Items(s, os)[1..] == Items(next, os[1..]);
      assert [] + Reads(next, os[1..]) == Reads(next, os[1..]);
      Assoc(Shown(item), Chunks(Items(next, os[1..])), Bytes(Run(s, os).relay.prefetched));
      Assoc(Bytes(s.relay.prefetched), ReadBy(s, os[0]), Reads(next, os[1..]));
    }
  }

  /** The client's bytes, poll by poll, up to its end or the first error on its side. */
  function Offered(os: seq<Outcomes>): seq<byte> {
    if os == [] then []
    else
      match os[0].client
      case Data(b) => b + Offered(os[1..])
      case ClientPending => Offered(os[1..])
      case ClientError => []
      case ClientEof => []
  }

  /** The upstream takes whatever it is given at once. */
  ghost predicate Eager(os: seq<Outcomes>) {
    forall i :: 0 <= i < |os| && os[i].client.Data? ==> os[i].write == Wrote(|os[i].client.bytes|)
  }

  lemma EagerStep(s: State, o: Outcomes)
    requires s.relay.pending.None? && (o.client.Data? ==> o.write == Wrote(|o.client.bytes|))
    ensures LegalPoll(s, o)
    ensures var t := Poll(s, o).0;
            && t.relay.pending.None?
            && t.relay.clientDone == (s.relay.clientDone || o.client.ClientError? || o.client.ClientEof?)
            && t.log.written == s.log.written + if !s.relay.clientDone && o.client.Data? then o.client.bytes else []
  {
    if o.client.Data? {
      assert o.client.bytes[..|o.client.bytes|] == o.client.bytes;
    }
  }

  /** With an upstream that never pushes back, everything the client offers is written, in order, and nothing else. */
  lemma {:induction false} EagerRelay(s: State, os: seq<Outcomes>)
    requires s.relay.pending.None? && Eager(os)
    ensures LegalRun(s, os)
    ensures Run(s, os).log.written == s.log.written + if s.relay.clientDone then [] else Offered(os)
    decreases |os|
  {
    if os == [] {
      assert s.log.written + [] == s.log.written;
    } else {
      EagerStep(s, os[0]);
      var t := Poll(s, os[0]).0;
      EagerRelay(t, os[1..]);
      if !s.relay.clientDone && os[0].client.Data? {
        Assoc(s.log.written, os[0].client.bytes, Offered(os[1..]));
      }
    }
  }

  // ----- what one poll does, from the outcomes alone

  /** What the client is handed: prefetched bytes, else a piece; nothing yet exactly while the upstream has nothing. */
  lemma ItemExactly(s: State, o: Outcomes)
    requires LegalPoll(s, o)
    ensures var item := Poll(s, o).1;
            && (s.relay.prefetched.Some? ==> item == Chunk(s.relay.prefetched.value))
            && (s.relay.prefetched.None? ==>
                  && (item == NotReady <==> o.read == ReadPending)
                  && (item == End <==> o.read == ReadError || o.read == Piece([]))
                  && (o.read.Piece? && o.read.bytes != [] ==> item == Chunk(o.read.bytes)))
  {
    assert Pull(Flush(s, o), o).relay.prefetched == s.relay.prefetched;
  }

  /** Over a run: the stream ends exactly at reads that fail or are empty, and is not ready exactly at waiting ones. */
  lemma {:induction false} EndsExactly(s: State, os: seq<Outcomes>, k: nat)
    requires LegalRun(s, os) && k < |os|
    ensures |Items(s, os)| == |os|
    ensures var asked := k > 0 || s.relay.prefetched.None?;
            && (Items(s, os)[k] == End <==> asked && (os[k].read == ReadError || os[k].read == Piece([])))
            && (Items(s, os)[k] == NotReady <==> asked && os[k].read == ReadPending)
    decreases |os|
  {
    ItemExactly(s, os[0]);
    var next := Poll(s, os[0]).0;
    PollShows(s, os[0]);
    if k > 0 {
      EndsExactly(next, os[1..], k - 1);
      assert Items(s, os)[k] == Items(next, os[1..])[k - 1];
    } else if |os| > 1 {
      EndsExactly(next, os[1..], 0);
    }
  }

  /** What was pending has gone out: there was nothing, or the flush took all of it. */
  predicate Cleared(s: State, o: Outcomes) {
    s.relay.pending.None? || o.flush == Wrote(|s.relay.pending.value|)
  }

  /** The poll takes a piece from the client: its side is open and nothing is pending. */
  predicate Takes(s: State, o: Outcomes) {
    !s.relay.clientDone && Cleared(s, o) && o.client.Data?
  }

  /** The client's direction in one poll: what is taken, what is written, what stays pending, and when its side ends. */
  lemma ClientExactly(s: State, o: Outcomes)
    requires LegalPoll(s, o)
    ensures var t := Poll(s, o).0;
            var taken := if Takes(s, o) then o.client.bytes else [];
            var flushed := if s.relay.pending.Some? && o.flush.Wrote? then s.relay.pending.value[..o.flush.n] else [];
            var sent := if Takes(s, o) && o.write.Wrote? then taken[..o.write.n] else [];
            && t.log.taken == s.log.taken + taken
            && t.log.written == s.log.written + flushed + sent
            && (t.log.writeFailed <==> || s.log.writeFailed
                                       || (s.relay.pending.Some? && o.flush == WriteError)
                                       || (Takes(s, o) && o.write == WriteError))
  {
    assert s.log.written + [] == s.log.written && s.log.taken + [] == s.log.taken;
  }

  /** What a flush that does not clear leaves pending. */
  lemma StillPending(s: State, o: Outcomes)
    requires LegalPoll(s, o) && s.relay.pending.Some? && !Cleared(s, o)
    ensures Poll(s, o).0.relay.pending ==
            match o.flush
            case Wrote(n) => Some(s.relay.pending.value[n..])
            case WriteError => None
            case WritePending => s.relay.pending
  {
  }

  /** And what a new piece leaves pending. */
  lemma NewlyPending(s: State, o: Outcomes)
    requires LegalPoll(s, o) && Cleared(s, o)
    ensures Poll(s, o).0.relay.pending ==
            if !Takes(s, o) then None
            else
              match o.write
              case Wrote(n) => if n == |o.client.bytes| then None else Some(o.client.bytes[n..])
              case WriteError => None
              case WritePending => Some(o.client.bytes)
  {
    assert Flush(s, o).relay.pending == None && Flush(s, o).relay.clientDone == s.relay.clientDone;
  }

  /** The client's side is over after a failed write, an error or its end, and only then. */
  lemma DoneExactly(s: State, o: Outcomes)
    requires LegalPoll(s, o)
    ensures Poll(s, o).0.relay.clientDone <==>
            || s.relay.clientDone
            || (s.relay.pending.Some? && o.flush == WriteError)
            || (Takes(s, o) && o.write == WriteError)
            || (Cleared(s, o) && (o.client == ClientError || o.client == ClientEof))
  {
    var t := Flush(s, o);
    assert t.relay.clientDone <==> s.relay.clientDone || (s.relay.pending.Some? && o.flush == WriteError);
    assert t.relay.pending.None? <==> Cleared(s, o) || o.flush == WriteError;
  }

  // ----- the stream object

  datatype Readiness = CanRead | Broken | Blocked

  /** The read made: pending while the upstream is blocked, an error when it is broken, else what it gives up. */
  predicate ReadIs(read: ReadOutcome, readiness: Readiness, before: seq<byte>, after: seq<byte>) {
    match readiness
    case Blocked => read == ReadPending && after == before
    case Broken => read == ReadError && after == before
    case CanRead =>
      && read.Piece? && before == read.bytes + after && |read.bytes| <= 65536
      && (read.bytes == [] <==> before == [])
  }

  /** The relay on a live upstream connection. */
  class BiDirStream {
    const upstream: ByteStream
    var relay: Relay
    ghost var log: Log

    ghost function View(): State
      reads this
    {
      State(relay, log)
    }

    constructor (upstream: ByteStream, prefetched: Option<seq<byte>>)
      ensures this.upstream == upstream && View() == Start(prefetched) && Conserved(View())
    {
      this.upstream := upstream;
      relay := Relay(None, false, prefetched);
      log := Log([], [], Bytes(prefetched), [], false);
    }

    /** First half of the client's direction: retry what is pending. */
    method FlushPending(o: Outcomes)
      requires LegalFlush(View(), o)
      modifies this
      ensures View() == Flush(old(View()), o)
    {
      if relay.pending.Some? {
        var data := relay.pending.value;
        match o.flush
        case Wrote(n) =>
          log := log.(written := log.written + data[..n]);
          relay := relay.(pending := if n == |data| then None else Some(data[n..]));
        case WriteError =>
          log := log.(writeFailed := true);
          relay := relay.(clientDone := true, pending := None);
        case WritePending =>
      }
    }

    /** Second half: take from the client and write at once. */
    method PullClient(o: Outcomes)
      requires LegalPull(o)
      modifies this
      ensures View() == Pull(old(View()), o)
    {
      if !relay.clientDone && relay.pending.None? {
        match o.client
        case Data(b) =>
          log := log.(taken := log.taken + b);
          match o.write {
            case Wrote(n) =>
              log := log.(written := log.written + b[..n]);
              if n != |b| {
                relay := relay.(pending := Some(b[n..]));
              }
            case WriteError =>
              log := log.(writeFailed := true);
              relay := relay.(clientDone := true);
            case WritePending =>
              relay := relay.(pending := Some(b));
          }
        case ClientError => relay := relay.(clientDone := true);
        case ClientEof => relay := relay.(clientDone := true);
        case ClientPending =>
      }
    }

    /** The upstream's direction: a piece of any size up to 65536 bytes when the upstream can be read. */
    method EmitNext(readiness: Readiness) returns (item: Item, ghost read: ReadOutcome)
      modifies this, upstream
      ensures forall o: Outcomes :: o.read == read ==> (View(), item) == Emit(old(View()), o)
      ensures old(relay.prefetched).None? ==> ReadIs(read, readiness, old(upstream.unread), upstream.unread)
      ensures log.received + upstream.unread == old(log.received + upstream.unread)
    {
      read := ReadPending;
      if relay.prefetched.Some? {
        item := Chunk(relay.prefetched.value);
        log := log.(emitted := log.emitted + relay.prefetched.value);
        relay := relay.(prefetched := None);
      } else if readiness.CanRead? {
        var chunk := upstream.Read(65536);
        read := Piece(chunk);
        Assoc(log.received, chunk, upstream.unread);
        if chunk == [] {
          item := End;
        } else {
          item := Chunk(chunk);
          log := log.(received := log.received + chunk, emitted := log.emitted + chunk);
        }
      } else if readiness.Broken? {
        read := ReadError;
        item := End;
      } else {
        item := NotReady;
      }
    }

    method PollNext(flush: WriteOutcome, client: ClientOutcome, write: WriteOutcome, readiness: Readiness)
      returns (item: Item, ghost read: ReadOutcome)
      requires LegalPoll(View(), Outcomes(flush, client, write, ReadPending))
      requires Conserved(View())
      modifies this, upstream
      ensures Conserved(View())
      ensures log.received + upstream.unread == old(log.received + upstream.unread)
      ensures (View(), item) == Poll(old(View()), Outcomes(flush, client, write, read))
      ensures old(relay.prefetched).None? ==> ReadIs(read, readiness, old(upstream.unread), upstream.unread)
      ensures old(relay.prefetched).None? ==> (item == NotReady <==> readiness.Blocked?)
      ensures old(relay.prefetched).None? ==>
                (item == End <==> readiness.Broken? || (readiness.CanRead? && old(upstream.unread) == []))
    {
      var o := Outcomes(flush, client, write, ReadPending);
      ghost var before := View();
      FlushPending(o);
      PullClient(o);
      item, read := EmitNext(readiness);
      ghost var seen := o.(read := read);
      assert Pull(Flush(before, seen), seen) == Pull(Flush(before, o), o);
      PollConserves(before, seen);
    }
  }

  /**
   * Handshake and relay together: at every moment, head, emitted, prefetched and unread bytes are the upstream's
   * whole stream.
   */
  method Connect(io: ByteStream) returns (stream: BiDirStream?, head: seq<byte>)
    modifies io
    ensures stream != null <==> HeadLength(old(io.unread)).Some?
    ensures stream != null ==> fresh(stream) && stream.upstream == io && Conserved(stream.View())
    ensures stream != null ==> head + (stream.log.received + io.unread) == old(io.unread)
    ensures stream != null ==> stream.log.received + io.unread == old(io.unread)[HeadLength(old(io.unread)).value..]
  {
    var r := ReadUpstreamHeaders(io);
    if r.Failed? {
      return null, [];
    }
    head := r.head;
    Assoc(r.head, Bytes(r.prefetched), io.unread);
    stream := new BiDirStream(io, r.prefetched);
  }
}
