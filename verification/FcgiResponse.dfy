/** Reading a FastCGI response off a reused connection (src/handler/fastcgi/response.rs). */
module FcgiResponse {
  import opened Common
  import opened Net
  import opened FcgiProto

  const STREAM_THRESHOLD: nat := 4 * 1024 * 1024

  // ----- the header loop

  /**
   * What the header loop leaves: the header text, body bytes already read, whether the body ended, the unread bytes.
   */
  datatype Head =
    | HeadError
    | Head(text: seq<byte>, prefix: seq<byte>, bodyDone: bool, rest: seq<byte>)

  /** Records are consumed until STDOUT shows a separator; every other kind of record is dropped. */
  function ReadHead(s: seq<byte>, buf: seq<byte>): Head
    decreases |s|
  {
    match TakeRecord(s)
    case None => HeadError
    case Some((rec, rest)) =>
      if rec.kind != FCGI_STDOUT then ReadHead(rest, buf)
      else if rec.data == [] then Head(buf, [], true, rest)
      else
        var grown := buf + rec.data;
        match HeaderEnd(grown)
        case None => ReadHead(rest, grown)
        case Some(sep) => Head(grown[..sep.textEnd], grown[sep.bodyStart..], false, rest)
  }

  /** `read_headers_from_stream`. */
  method ReadHeaders(conn: ByteStream) returns (head: Head)
    modifies conn
    ensures head == ReadHead(old(conn.unread), [])
    ensures head.Head? ==> conn.unread == head.rest
  {
    var headerBuf: seq<byte> := [];
    while true
      invariant ReadHead(conn.unread, headerBuf) == ReadHead(old(conn.unread), [])
      decreases |conn.unread|
    {
      var rec := ReadRecord(conn);
      if rec.None? {
        return HeadError;
      }
      if rec.value.kind == FCGI_STDOUT {
        if rec.value.data == [] {
          return Head(headerBuf, [], true, conn.unread);
        }
        headerBuf := headerBuf + rec.value.data;
        var sep := FindHeaderEnd(headerBuf);
        if sep.Some? {
          return Head(headerBuf[..sep.value.textEnd], headerBuf[sep.value.bodyStart..], false, conn.unread);
        }
      }
    }
  }

  // ----- the buffered body loop

  /** The body so far, whether the rest is to be streamed, and the unread bytes. */
  datatype Body = Body(bytes: seq<byte>, stream: bool, rest: seq<byte>)

  /** A read error ends the loop like an end of body does. */
  function ReadBody(s: seq<byte>, body: seq<byte>): Body
    decreases |s|
  {
    match TakeRecord(s)
    case None => Body(body, false, [])
    case Some((rec, rest)) =>
      if rec.kind == FCGI_STDOUT then
        if rec.data == [] then Body(body, false, rest)
        else if |body + rec.data| > STREAM_THRESHOLD then Body(body + rec.data, true, rest)
        else ReadBody(rest, body + rec.data)
      else if rec.kind == FCGI_STDERR then ReadBody(rest, body)
      else Body(body, false, rest)
  }

  /** The loop of `build_streaming_response`. */
  method BufferBody(conn: ByteStream, prefix: seq<byte>) returns (r: Body)
    modifies conn
    ensures r == ReadBody(old(conn.unread), prefix)
    ensures conn.unread == r.rest
  {
    var body := prefix;
    while true
      invariant ReadBody(conn.unread, body) == ReadBody(old(conn.unread), prefix)
      decreases |conn.unread|
    {
      var rec := ReadRecord(conn);
      if rec.None? {
        return Body(body, false, conn.unread);
      }
      if rec.value.kind == FCGI_STDOUT {
        if rec.value.data == [] {
          return Body(body, false, conn.unread);
        }
        body := body + rec.value.data;
        if |body| > STREAM_THRESHOLD {
          return Body(body, true, conn.unread);
        }
      } else if rec.value.kind != FCGI_STDERR {
        return Body(body, false, conn.unread);
      }
    }
  }

  // ----- the streaming tail

  /** The chunks sent to the client and, unless a read failed, the unread bytes of the released connection. */
  datatype Tail = Tail(chunks: seq<seq<byte>>, rest: Option<seq<byte>>)

  /** `listens` is how many more sends the client's channel accepts; one that is refused drops the connection. */
  function ReadTail(s: seq<byte>, listens: nat): Tail
    decreases |s|
  {
    match TakeRecord(s)
    case None => Tail([], None)
    case Some((rec, rest)) =>
      if rec.kind == FCGI_STDOUT then
        if rec.data == [] then Tail([], Some(rest))
        else if listens == 0 then Tail([], None)
        else
          var t := ReadTail(rest, listens - 1);
          Tail([rec.data] + t.chunks, t.rest)
      else if rec.kind == FCGI_STDERR then ReadTail(rest, listens)
      else Tail([], Some(rest))
  }

  /** The loop of the task spawned by `stream_remaining`. */
  method StreamRemaining(conn: ByteStream, listens: nat) returns (t: Tail)
    modifies conn
    ensures t == ReadTail(old(conn.unread), listens)
    ensures t.rest.Some? ==> conn.unread == t.rest.value
  {
    var sent: seq<seq<byte>> := [];
    var left := listens;
    while true
      invariant ReadTail(old(conn.unread), listens) ==
                Tail(sent + ReadTail(conn.unread, left).chunks, ReadTail(conn.unread, left).rest)
      decreases |conn.unread|
    {
      var rec := ReadRecord(conn);
      if rec.None? {
        return Tail(sent, None);
      }
      if rec.value.kind == FCGI_STDOUT {
        if rec.value.data == [] {
          return Tail(sent, Some(conn.unread));
        }
        if left == 0 {
          return Tail(sent, None);
        }
        sent := sent + [rec.value.data];
        left := left - 1;
      } else if rec.value.kind != FCGI_STDERR {
        return Tail(sent, Some(conn.unread));
      }
    }
  }

  // ----- one request on one connection

  datatype Reply = Reply(text: seq<byte>, body: seq<byte>)

  /** The client's reply, if any, and the unread bytes of the connection when it goes back to the pool. */
  datatype Served = Served(reply: Option<Reply>, released: Option<seq<byte>>)

  /**
   * Header loop, buffered loop and, above the threshold, the streaming tail. `carriesBody` stands for the status-code
   * test on the header text. `listens` is how many sends the streaming channel accepts before its receiver is gone; a
   * response without a body drops the receiver at once, but the task may still have got some sends through.
   */
  function Serve(s: seq<byte>, carriesBody: seq<byte> -> bool, listens: nat): Served {
    match ReadHead(s, [])
    case HeadError => Served(None, None)
    case Head(text, prefix, bodyDone, rest) =>
      if bodyDone then Served(Some(Visible(text, prefix, carriesBody)), Some(rest))
      else
        var v := ServeBody(rest, prefix, listens);
        Served(Some(Visible(text, v.body, carriesBody)), v.released)
  }

  /** The body sent on, and the unread bytes of the connection when it is released. */
  datatype ServedBody = ServedBody(body: seq<byte>, released: Option<seq<byte>>)

  function ServeBody(s: seq<byte>, prefix: seq<byte>, listens: nat): ServedBody {
    var b := ReadBody(s, prefix);
    Finished(b, ReadTail(b.rest, if listens == 0 then 0 else listens - 1), listens)
  }

  /** The first send carries what was buffered, the others the tail. */
  function Finished(b: Body, t: Tail, listens: nat): ServedBody {
    if !b.stream then ServedBody(b.bytes, Some(b.rest))
    else if listens == 0 then ServedBody([], None)
    else ServedBody(b.bytes + Concat(t.chunks), t.rest)
  }

  function Visible(text: seq<byte>, body: seq<byte>, carriesBody: seq<byte> -> bool): Reply {
    Reply(text, if carriesBody(text) then body else [])
  }

  /** The two body loops of `build_streaming_response`. */
  method ServeBodyOn(conn: ByteStream, prefix: seq<byte>, listens: nat) returns (v: ServedBody)
    modifies conn
    ensures v == ServeBody(old(conn.unread), prefix, listens)
    ensures v.released.Some? ==> conn.unread == v.released.value
  {
    var b := BufferBody(conn, prefix);
    if !b.stream {
      return ServedBody(b.bytes, Some(conn.unread));
    }
    if listens == 0 {
      return ServedBody([], None);
    }
    var t := StreamRemaining(conn, listens - 1);
    v := ServedBody(b.bytes + Concat(t.chunks), t.rest);
  }

  /** `build_streaming_response` after `read_headers_from_stream`. */
  method ServeOn(conn: ByteStream, carriesBody: seq<byte> -> bool, listens: nat) returns (r: Served)
    modifies conn
    ensures r == Serve(old(conn.unread), carriesBody, listens)
    ensures r.released.Some? ==> conn.unread == r.released.value
  {
    var head := ReadHeaders(conn);
    if head.HeadError? {
      return Served(None, None);
    }
    if head.bodyDone {
      return Served(Some(Visible(head.text, head.prefix, carriesBody)), Some(conn.unread));
    }
    var v := ServeBodyOn(conn, head.prefix, listens);
    r := Served(Some(Visible(head.text, v.body, carriesBody)), v.released);
  }

  // ----- conforming responses

  /** What an application sends for one request: output records, perhaps an end-of-STDOUT marker, END_REQUEST. */
  datatype Response = Response(output: seq<WireRecord>, closing: seq<WireRecord>, end: WireRecord)

  /** A record of STDERR (type 7), or one of STDOUT (type 6) that is not its end. */
  predicate IsOutput(w: WireRecord) {
    w.kind == 7 || (w.kind == 6 && w.data != [])
  }

  predicate IsClosing(ws: seq<WireRecord>) {
    ws == [] ||
    (ws[0].kind == 6 && ws[0].data == [] && forall w :: w in ws[1..] ==> w.kind == 7)
  }

  /** The contents of the STDOUT records, joined. */
  function Stdout(ws: seq<WireRecord>): seq<byte> {
    if ws == [] then []
    else if ws[0].kind == 6 then ws[0].data + Stdout(ws[1..])
    else Stdout(ws[1..])
  }

  /** The shape of a response, whatever its output says. */
  ghost predicate Shaped(r: Response) {
    (forall w :: w in r.output ==> IsOutput(w)) && IsClosing(r.closing) && r.end.kind == 3
  }

  ghost predicate Conforming(r: Response) {
    && Shaped(r)
    && HeaderEnd(Stdout(r.output)).Some?
    && !Ambiguous(Stdout(r.output))
  }

  function ResponseBytes(r: Response): seq<byte> {
    WireAll(r.output) + WireAll(r.closing + [r.end])
  }

  /** The header text and body that the STDOUT bytes of the response spell, split at the separator of the whole. */
  function Meaning(r: Response, carriesBody: seq<byte> -> bool): Reply
  {
    var out := Stdout(r.output);
    match HeaderEnd(out)
    case None => Visible(out, [], carriesBody)
    case Some(sep) => Visible(out[..sep.textEnd], out[sep.bodyStart..], carriesBody)
  }

  lemma WireStep(ws: seq<WireRecord>, tail: seq<byte>)
    requires ws != []
    ensures TakeRecord(WireAll(ws) + tail) == Some((View(ws[0]), WireAll(ws[1..]) + tail))
  {
    TakeRecordOfWire(ws[0], WireAll(ws[1..]) + tail);
    Assoc(Wire(ws[0]), WireAll(ws[1..]), tail);
  }

  /** The header loop on output records, and then on what follows them. */
  function HeadOver(ws: seq<WireRecord>, tail: seq<byte>, buf: seq<byte>): Head
    decreases |ws|
  {
    if ws == [] then ReadHead(tail, buf)
    else if ws[0].kind == FCGI_STDERR then HeadOver(ws[1..], tail, buf)
    else
      var grown := buf + ws[0].data;
      match HeaderEnd(grown)
      case None => HeadOver(ws[1..], tail, grown)
      case Some(sep) => Head(grown[..sep.textEnd], grown[sep.bodyStart..], false, WireAll(ws[1..]) + tail)
  }

  lemma {:induction false} HeadIsOver(ws: seq<WireRecord>, buf: seq<byte>, tail: seq<byte>)
    requires forall w :: w in ws ==> IsOutput(w)
    ensures ReadHead(WireAll(ws) + tail, buf) == HeadOver(ws, tail, buf)
    decreases |ws|
  {
    if ws == [] {
      assert WireAll(ws) + tail == tail;
    } else {
      WireStep(ws, tail);
      assert IsOutput(ws[0]);
      HeadIsOver(ws[1..], if ws[0].kind == FCGI_STDERR then buf else buf + ws[0].data, tail);
    }
  }

  /** A separator that the buffer shows is that of the whole output. */
  lemma HeadHere(grown: seq<byte>, more: seq<byte>)
    requires HeaderEnd(grown).Some? && HeaderEnd(grown) == HeaderEnd(grown + more)
    ensures var sep := HeaderEnd(grown + more).value;
            && grown[..sep.textEnd] == (grown + more)[..sep.textEnd]
            && grown[sep.bodyStart..] + more == (grown + more)[sep.bodyStart..]
  {
  }

  /** However the output is cut into records, the header loop stops at the separator of the whole and keeps the rest. */
  lemma {:induction false} HeadOfOutput(ws: seq<WireRecord>, buf: seq<byte>, tail: seq<byte>)
    returns (k: nat, prefix: seq<byte>)
    requires forall w :: w in ws ==> IsOutput(w)
    requires HeaderEnd(buf).None?
    requires HeaderEnd(buf + Stdout(ws)).Some? && !Ambiguous(buf + Stdout(ws))
    ensures k <= |ws|
    ensures var out := buf + Stdout(ws);
            var sep := HeaderEnd(out).value;
            && HeadOver(ws, tail, buf) == Head(out[..sep.textEnd], prefix, false, WireAll(ws[k..]) + tail)
            && prefix + Stdout(ws[k..]) == out[sep.bodyStart..]
    decreases |ws|
  {
    var out := buf + Stdout(ws);
    assert ws == [] ==> out == buf;
    assert ws != [] && IsOutput(ws[0]);
    if ws[0].kind == FCGI_STDERR {
      k, prefix := HeadOfOutput(ws[1..], buf, tail);
      k := k + 1;
      assert ws[1..][k - 1..] == ws[k..];
    } else {
      var grown := buf + ws[0].data;
      Assoc(buf, ws[0].data, Stdout(ws[1..]));
      PrefixOfUnambiguous(grown, Stdout(ws[1..]));
      if HeaderEnd(grown).None? {
        k, prefix := HeadOfOutput(ws[1..], grown, tail);
        k := k + 1;
        assert ws[1..][k - 1..] == ws[k..];
      } else {
        HeadHere(grown, Stdout(ws[1..]));
        k, prefix := 1, grown[HeaderEnd(grown).value.bodyStart..];
      }
    }
  }

  /** The buffered loop takes every output record, or stops past the threshold with the remaining ones unread. */
  lemma {:induction false} BodyOfOutput(ws: seq<WireRecord>, body: seq<byte>, tail: seq<byte>) returns (k: nat)
    requires forall w :: w in ws ==> IsOutput(w)
    ensures k <= |ws|
    ensures var b := ReadBody(WireAll(ws) + tail, body);
            || b == ReadBody(tail, body + Stdout(ws))
            || (b.stream && b.rest == WireAll(ws[k..]) + tail && b.bytes + Stdout(ws[k..]) == body + Stdout(ws))
    decreases |ws|
  {
    k := 0;
    if ws == [] {
      assert WireAll(ws) + tail == tail && body + Stdout(ws) == body;
    } else {
      WireStep(ws, tail);
      assert IsOutput(ws[0]);
      if ws[0].kind == FCGI_STDERR {
        k := BodyOfOutput(ws[1..], body, tail);
        k := k + 1;
      } else {
        var grown := body + ws[0].data;
        Assoc(body, ws[0].data, Stdout(ws[1..]));
        if |grown| <= STREAM_THRESHOLD {
          k := BodyOfOutput(ws[1..], grown, tail);
        }
        k := k + 1;
      }
    }
  }

  function StdoutCount(ws: seq<WireRecord>): (n: nat)
    ensures n <= |ws|
  {
    if ws == [] then 0 else (if ws[0].kind == FCGI_STDOUT then 1 else 0) + StdoutCount(ws[1..])
  }

  function After(data: seq<byte>, t: Tail): (r: Tail)
    ensures Concat(r.chunks) == data + Concat(t.chunks)
  {
    assert ([data] + t.chunks)[1..] == t.chunks;
    Tail([data] + t.chunks, t.rest)
  }

  /** The streaming loop on output records, and then on what follows them. */
  function TailOver(ws: seq<WireRecord>, tail: seq<byte>, listens: nat): Tail
    decreases |ws|
  {
    if ws == [] then ReadTail(tail, listens)
    else if ws[0].kind == FCGI_STDERR then TailOver(ws[1..], tail, listens)
    else if listens == 0 then Tail([], None)
    else After(ws[0].data, TailOver(ws[1..], tail, listens - 1))
  }

  lemma {:induction false} TailOfOutput(ws: seq<WireRecord>, tail: seq<byte>, listens: nat)
    requires forall w :: w in ws ==> IsOutput(w)
    ensures ReadTail(WireAll(ws) + tail, listens) == TailOver(ws, tail, listens)
    decreases |ws|
  {
    if ws == [] {
      assert WireAll(ws) + tail == tail;
    } else {
      WireStep(ws, tail);
      assert IsOutput(ws[0]);
      TailOfOutput(ws[1..], tail, if ws[0].kind == FCGI_STDOUT && listens > 0 then listens - 1 else listens);
    }
  }

  /** A client that listens long enough is sent all the output. */
  lemma {:induction false} TailHeard(ws: seq<WireRecord>, tail: seq<byte>, spare: nat)
    requires forall w :: w in ws ==> IsOutput(w)
    ensures var t, u := TailOver(ws, tail, StdoutCount(ws) + spare), ReadTail(tail, spare);
            Concat(t.chunks) == Stdout(ws) + Concat(u.chunks) && t.rest == u.rest
    decreases |ws|
  {
    if ws != [] {
      assert IsOutput(ws[0]);
      TailHeard(ws[1..], tail, spare);
      if ws[0].kind == FCGI_STDOUT {
        Assoc(ws[0].data, Stdout(ws[1..]), Concat(ReadTail(tail, spare).chunks));
      }
    }
  }

  /** Any other is sent a prefix of it, and the connection is dropped. */
  lemma {:induction false} TailCut(ws: seq<WireRecord>, tail: seq<byte>, listens: nat)
    requires forall w :: w in ws ==> IsOutput(w)
    requires listens < StdoutCount(ws)
    ensures var t := TailOver(ws, tail, listens); Concat(t.chunks) <= Stdout(ws) && t.rest.None?
    decreases |ws|
  {
    assert IsOutput(ws[0]);
    if ws[0].kind == FCGI_STDERR {
      TailCut(ws[1..], tail, listens);
    } else if listens > 0 {
      TailCut(ws[1..], tail, listens - 1);
    }
  }

  // ----- what a released connection still holds

  /** Only whole records are unread, and none of them is STDOUT. */
  predicate Clean(s: seq<byte>)
    decreases |s|
  {
    s == [] ||
    (var r := TakeRecord(s);
     r.Some? && r.value.0.kind != FCGI_STDOUT && Clean(r.value.1))
  }

  lemma {:induction false} CleanRecords(ws: seq<WireRecord>)
    requires forall w :: w in ws ==> w.kind != FCGI_STDOUT
    ensures Clean(WireAll(ws))
  {
    if ws != [] {
      WireStep(ws, []);
      assert WireAll(ws) + [] == WireAll(ws) && WireAll(ws[1..]) + [] == WireAll(ws[1..]);
      CleanRecords(ws[1..]);
    }
  }

  /** The header loop absorbs whatever a clean connection was released with. */
  lemma {:induction false} HeadSkipsClean(left: seq<byte>, s: seq<byte>, buf: seq<byte>)
    requires Clean(left)
    ensures ReadHead(left + s, buf) == ReadHead(s, buf)
    decreases |left|
  {
    if left == [] {
      assert left + s == s;
    } else {
      TakeRecordExtends(left, s);
      HeadSkipsClean(TakeRecord(left).value.1, s, buf);
    }
  }

  /** What follows the output: both body loops stop there, keep the body and leave a clean connection. */
  ghost predicate IsEnd(s: seq<byte>) {
    && (forall body :: AtEnd(ReadBody(s, body), body))
    && (forall listens :: Ended(ReadTail(s, listens)))
  }

  predicate AtEnd(b: Body, body: seq<byte>) {
    b.bytes == body && !b.stream && Clean(b.rest)
  }

  predicate Ended(t: Tail) {
    t.chunks == [] && t.rest.Some? && Clean(t.rest.value)
  }

  lemma BodyAtEnd(r: Response)
    requires Conforming(r)
    ensures IsEnd(WireAll(r.closing + [r.end]))
  {
    var ws := r.closing + [r.end];
    WireStep(ws, []);
    assert WireAll(ws) + [] == WireAll(ws) && WireAll(ws[1..]) + [] == WireAll(ws[1..]);
    forall w | w in ws[1..]
      ensures w.kind != FCGI_STDOUT
    {
      if r.closing != [] {
        assert ws[1..] == r.closing[1..] + [r.end];
      }
    }
    CleanRecords(ws[1..]);
  }

  /** The reply a client gets: exact if it listens to the end, else with a prefix of the body. */
  predicate Received(reply: Option<Reply>, r: Response, carriesBody: seq<byte> -> bool, listens: nat) {
    var m := Meaning(r, carriesBody);
    && reply.Some? && reply.value.text == m.text && reply.value.body <= m.body
    && (listens > |r.output| ==> reply == Some(m))
  }

  /** The body is right and so is what is released, for `count` output records. */
  predicate RightBody(v: ServedBody, full: seq<byte>, listens: nat, count: nat) {
    && v.body <= full
    && (v.released.Some? ==> Clean(v.released.value) && v.body == full)
    && (listens > count ==> v.released.Some?)
  }

  /** Some bytes already taken, the rest streamed. */
  lemma StreamConforming(ws: seq<WireRecord>, tail: seq<byte>, bytes: seq<byte>, listens: nat)
    requires IsEnd(tail) && (forall w :: w in ws ==> IsOutput(w))
    ensures var t := TailOver(ws, tail, listens);
            RightBody(ServedBody(bytes + Concat(t.chunks), t.rest), bytes + Stdout(ws), listens + 1, |ws|)
  {
    if listens >= StdoutCount(ws) {
      var spare := listens - StdoutCount(ws);
      TailHeard(ws, tail, spare);
      assert Ended(ReadTail(tail, spare));
      assert Stdout(ws) + [] == Stdout(ws);
    } else {
      TailCut(ws, tail, listens);
    }
  }

  /** The body was buffered whole, or the rest of it is streamed. */
  lemma FinishConforming(b: Body, t: Tail, full: seq<byte>, listens: nat, count: nat)
    requires b.stream || AtEnd(b, full)
    requires b.stream && listens > 0 ==> RightBody(ServedBody(b.bytes + Concat(t.chunks), t.rest), full, listens, count)
    ensures RightBody(Finished(b, t, listens), full, listens, count)
  {
  }

  /** Both body loops on what is left of the output after the header. */
  lemma BodyConforming(ws: seq<WireRecord>, tail: seq<byte>, prefix: seq<byte>, listens: nat)
    requires IsEnd(tail) && (forall w :: w in ws ==> IsOutput(w))
    ensures RightBody(ServeBody(WireAll(ws) + tail, prefix, listens), prefix + Stdout(ws), listens, |ws|)
  {
    var full := prefix + Stdout(ws);
    var j := BodyOfOutput(ws, prefix, tail);
    var b := ReadBody(WireAll(ws) + tail, prefix);
    assert AtEnd(ReadBody(tail, full), full);
    var n := if listens == 0 then 0 else listens - 1;
    if b.stream && listens > 0 {
      TailOfOutput(ws[j..], tail, n);
      StreamConforming(ws[j..], tail, b.bytes, n);
    }
    FinishConforming(b, ReadTail(b.rest, n), full, listens, |ws|);
  }

  /** One conforming response on a clean connection: a right reply, and what is released is clean again. */
  lemma ServeConforming(left: seq<byte>, r: Response, carriesBody: seq<byte> -> bool, listens: nat)
    requires Clean(left) && Conforming(r)
    ensures var v := Serve(left + ResponseBytes(r), carriesBody, listens);
            && Received(v.reply, r, carriesBody, listens) && Answers(v.reply, r, carriesBody, listens)
            && (v.released.Some? ==> Clean(v.released.value) && v.reply == Some(Meaning(r, carriesBody)))
            && (listens > |r.output| ==> v.released.Some?)
  {
    var tail := WireAll(r.closing + [r.end]);
    var ws := r.output;
    HeadSkipsClean(left, ResponseBytes(r), []);
    assert [] + Stdout(ws) == Stdout(ws);
    HeadIsOver(ws, [], tail);
    var k, prefix := HeadOfOutput(ws, [], tail);
    BodyAtEnd(r);
    BodyConforming(ws[k..], tail, prefix, listens);
    ReceivedAnswers(Serve(left + ResponseBytes(r), carriesBody, listens).reply, r, carriesBody, listens);
  }

  // ----- responses without a header separator, and streams that end early

  lemma NoSeparatorInPrefix(s: seq<byte>, t: seq<byte>)
    requires HeaderEnd(s + t).None?
    ensures HeaderEnd(s).None?
  {
    FindInPrefix(CRLFCRLF, s, t);
    FindInPrefix(LFLF, s, t);
  }

  /** Output without a separator is collected and the header loop reads on. */
  lemma {:induction false} HeadReadsOn(ws: seq<WireRecord>, buf: seq<byte>, tail: seq<byte>)
    requires forall w :: w in ws ==> IsOutput(w)
    requires HeaderEnd(buf + Stdout(ws)).None?
    ensures HeadOver(ws, tail, buf) == ReadHead(tail, buf + Stdout(ws))
    decreases |ws|
  {
    if ws == [] {
      assert buf + [] == buf;
    } else {
      assert IsOutput(ws[0]);
      if ws[0].kind == FCGI_STDERR {
        HeadReadsOn(ws[1..], buf, tail);
      } else {
        Assoc(buf, ws[0].data, Stdout(ws[1..]));
        NoSeparatorInPrefix(buf + ws[0].data, Stdout(ws[1..]));
        HeadReadsOn(ws[1..], buf + ws[0].data, tail);
      }
    }
  }

  /** Output with a separator, ambiguous or not, ends the header loop. */
  lemma {:induction false} HeadStops(ws: seq<WireRecord>, buf: seq<byte>, tail: seq<byte>)
    requires forall w :: w in ws ==> IsOutput(w)
    requires HeaderEnd(buf).None? && HeaderEnd(buf + Stdout(ws)).Some?
    ensures HeadOver(ws, tail, buf).Head?
    decreases |ws|
  {
    assert ws == [] ==> buf + Stdout(ws) == buf;
    assert ws != [] && IsOutput(ws[0]);
    if ws[0].kind == FCGI_STDERR {
      HeadStops(ws[1..], buf, tail);
    } else {
      Assoc(buf, ws[0].data, Stdout(ws[1..]));
      if HeaderEnd(buf + ws[0].data).None? {
        HeadStops(ws[1..], buf + ws[0].data, tail);
      }
    }
  }

  /** Behind output without a separator: an end-of-STDOUT marker ends the header loop, END_REQUEST does not. */
  lemma HeadAtEnd(r: Response, buf: seq<byte>, next: seq<byte>)
    requires Shaped(r)
    ensures var h := ReadHead(WireAll(r.closing + [r.end]) + next, buf);
            if r.closing != [] then h.Head? && h.text == buf && h.bodyDone else h == ReadHead(next, buf)
  {
    var ws := r.closing + [r.end];
    WireStep(ws, next);
    if r.closing == [] {
      assert ws[1..] == [] && WireAll([]) + next == next;
    }
  }

  /** A response is answered if and only if its output has a separator or it marks the end of STDOUT. */
  lemma RepliesExactly(left: seq<byte>, r: Response, carriesBody: seq<byte> -> bool, listens: nat)
    requires Clean(left) && Shaped(r)
    ensures Serve(left + ResponseBytes(r), carriesBody, listens).reply.Some?
       <==> HeaderEnd(Stdout(r.output)).Some? || r.closing != []
  {
    var tail := WireAll(r.closing + [r.end]);
    HeadSkipsClean(left, ResponseBytes(r), []);
    assert [] + Stdout(r.output) == Stdout(r.output);
    HeadIsOver(r.output, [], tail);
    if HeaderEnd(Stdout(r.output)).Some? {
      HeadStops(r.output, [], tail);
    } else {
      HeadReadsOn(r.output, [], tail);
      HeadAtEnd(r, Stdout(r.output), []);
      assert tail + [] == tail;
    }
  }

  /** Output that ends without a separator is all header text, with no body, and the connection is left clean. */
  lemma NoSeparatorReply(left: seq<byte>, r: Response, carriesBody: seq<byte> -> bool, listens: nat)
    requires Clean(left) && Shaped(r) && HeaderEnd(Stdout(r.output)).None? && r.closing != []
    ensures var v := Serve(left + ResponseBytes(r), carriesBody, listens);
            v.reply == Some(Reply(Stdout(r.output), [])) && v.released.Some? && Clean(v.released.value)
  {
    var ws := r.closing + [r.end];
    var tail := WireAll(ws);
    HeadSkipsClean(left, ResponseBytes(r), []);
    HeadIsOver(r.output, [], tail);
    assert [] + Stdout(r.output) == Stdout(r.output);
    HeadReadsOn(r.output, [], tail);
    WireStep(ws, []);
    assert tail + [] == tail && WireAll(ws[1..]) + [] == WireAll(ws[1..]);
    assert ws[1..] == r.closing[1..] + [r.end];
    CleanRecords(ws[1..]);
  }

  /** Any other response is swallowed: its output becomes the front of the next response's header. */
  lemma SwallowedByNext(left: seq<byte>, r: Response, next: seq<byte>)
    requires Clean(left) && Shaped(r) && HeaderEnd(Stdout(r.output)).None? && r.closing == []
    ensures ReadHead(left + (ResponseBytes(r) + next), []) == ReadHead(next, Stdout(r.output))
  {
    var tail := WireAll(r.closing + [r.end]);
    HeadSkipsClean(left, ResponseBytes(r) + next, []);
    Assoc(WireAll(r.output), tail, next);
    assert [] + Stdout(r.output) == Stdout(r.output);
    HeadIsOver(r.output, [], tail + next);
    HeadReadsOn(r.output, [], tail + next);
    HeadAtEnd(r, Stdout(r.output), next);
  }

  lemma {:induction false} StreamsAbove(s: seq<byte>, body: seq<byte>)
    ensures ReadBody(s, body).stream ==> |ReadBody(s, body).bytes| > STREAM_THRESHOLD
    decreases |s|
  {
    var t := TakeRecord(s);
    if t.Some? {
      StreamsAbove(t.value.1, if t.value.0.kind == FCGI_STDOUT then body + t.value.0.data else body);
    }
  }

  /**
   * A stream that ends inside the body: what came is the whole reply, no error shows, and the connection, which will
   * never answer again, goes back to the pool.
   */
  lemma TruncatedBody(ws: seq<WireRecord>, cut: seq<byte>, prefix: seq<byte>, listens: nat)
    requires (forall w :: w in ws ==> IsOutput(w)) && TakeRecord(cut).None?
    requires |prefix + Stdout(ws)| <= 4194304
    ensures ServeBody(WireAll(ws) + cut, prefix, listens) == ServedBody(prefix + Stdout(ws), Some([]))
  {
    var j := BodyOfOutput(ws, prefix, cut);
    StreamsAbove(WireAll(ws) + cut, prefix);
  }

  /** Above 4 MiB the rest is streamed, and a stream that ends early drops the connection. */
  lemma {:induction false} TruncatedStream(ws: seq<WireRecord>, cut: seq<byte>, prefix: seq<byte>, listens: nat)
    requires (forall w :: w in ws ==> IsOutput(w)) && TakeRecord(cut).None?
    requires |prefix| <= 4194304 < |prefix + Stdout(ws)|
    ensures ServeBody(WireAll(ws) + cut, prefix, listens).released.None?
    decreases |ws|
  {
    assert ws != [] && IsOutput(ws[0]);
    WireStep(ws, cut);
    if ws[0].kind == FCGI_STDERR {
      TruncatedStream(ws[1..], cut, prefix, listens);
    } else {
      Assoc(prefix, ws[0].data, Stdout(ws[1..]));
      if |prefix + ws[0].data| <= 4194304 {
        TruncatedStream(ws[1..], cut, prefix + ws[0].data, listens);
      } else if listens > 0 {
        CutTail(ws[1..], cut, listens - 1);
      }
    }
  }

  lemma {:induction false} CutTail(ws: seq<WireRecord>, cut: seq<byte>, listens: nat)
    requires (forall w :: w in ws ==> IsOutput(w)) && TakeRecord(cut).None?
    ensures ReadTail(WireAll(ws) + cut, listens).rest.None?
    decreases |ws|
  {
    if ws == [] {
      assert WireAll(ws) + cut == cut;
    } else {
      assert IsOutput(ws[0]);
      WireStep(ws, cut);
      CutTail(ws[1..], cut, if ws[0].kind == FCGI_STDOUT && listens > 0 then listens - 1 else listens);
    }
  }

  // ----- the reply without the program's own notion of a header end

  /**
   * The reply to a response: its STDOUT bytes are the header text, a separator and the body, split at the first
   * separator, and the client gets the text and, if the status carries one, the body: all of it when it listens to the
   * end, else a beginning of it.
   */
  ghost predicate Answers(reply: Option<Reply>, r: Response, carriesBody: seq<byte> -> bool, listens: nat) {
    reply.Some? &&
    var v := reply.value;
    exists body :: && Splits(Stdout(r.output), v.text, body)
                   && (if carriesBody(v.text) then v.body <= body && (listens > |r.output| ==> v.body == body)
                       else v.body == [])
  }

  lemma ReceivedAnswers(reply: Option<Reply>, r: Response, carriesBody: seq<byte> -> bool, listens: nat)
    requires Received(reply, r, carriesBody, listens) && HeaderEnd(Stdout(r.output)).Some?
    ensures Answers(reply, r, carriesBody, listens)
  {
    var out := Stdout(r.output);
    HeaderEndSplits(out);
    var sep := HeaderEnd(out).value;
    assert Splits(out, reply.value.text, out[sep.bodyStart..]);
  }

  // ----- any number of requests on one connection

  /** A response and how long its client listens. */
  datatype Turn = Turn(response: Response, listens: nat)

  /** What request `k` finds unread on the connection; a dropped connection is replaced by a new one. */
  function LeftBefore(left: seq<byte>, ts: seq<Turn>, carriesBody: seq<byte> -> bool, k: nat): seq<byte>
    requires k <= |ts|
  {
    if k == 0 then left
    else LeftAfter(LeftBefore(left, ts, carriesBody, k - 1), ts[k - 1], carriesBody)
  }

  function LeftAfter(left: seq<byte>, t: Turn, carriesBody: seq<byte> -> bool): seq<byte> {
    var released := ServeNth(left, t, carriesBody).released;
    if released.Some? then released.value else []
  }

  /** Whatever clean connection the turn finds, it leaves a clean one. */
  ghost predicate KeepsClean(t: Turn, carriesBody: seq<byte> -> bool) {
    forall left :: Clean(left) ==> Clean(LeftAfter(left, t, carriesBody))
  }

  lemma ConformingKeepsClean(t: Turn, carriesBody: seq<byte> -> bool)
    requires Conforming(t.response)
    ensures KeepsClean(t, carriesBody)
  {
    forall left | Clean(left)
      ensures Clean(LeftAfter(left, t, carriesBody))
    {
      ServeConforming(left, t.response, carriesBody, t.listens);
    }
  }

  /** The response arrives behind whatever the previous request left. */
  function ServeNth(left: seq<byte>, t: Turn, carriesBody: seq<byte> -> bool): Served {
    Serve(left + ResponseBytes(t.response), carriesBody, t.listens)
  }

  lemma {:induction false} LeftIsClean(left: seq<byte>, ts: seq<Turn>, carriesBody: seq<byte> -> bool, k: nat)
    requires Clean(left) && k <= |ts|
    requires forall i :: 0 <= i < |ts| ==> KeepsClean(ts[i], carriesBody)
    ensures Clean(LeftBefore(left, ts, carriesBody, k))
  {
    if k > 0 {
      LeftIsClean(left, ts, carriesBody, k - 1);
      assert KeepsClean(ts[k - 1], carriesBody);
    }
  }

  /**
   * Request k gets response k, whatever the earlier responses left unread on the connection and however soon the
   * earlier clients went away.
   */
  lemma ReusedConnection(left: seq<byte>, ts: seq<Turn>, carriesBody: seq<byte> -> bool, k: nat)
    requires Clean(left) && k < |ts|
    requires forall t :: t in ts ==> Conforming(t.response)
    ensures var reply := ServeNth(LeftBefore(left, ts, carriesBody, k), ts[k], carriesBody).reply;
            Answers(reply, ts[k].response, carriesBody, ts[k].listens)
  {
    forall i | 0 <= i < |ts|
      ensures KeepsClean(ts[i], carriesBody)
    {
      assert ts[i] in ts;
      ConformingKeepsClean(ts[i], carriesBody);
    }
    LeftIsClean(left, ts, carriesBody, k);
    assert ts[k] in ts;
    ServeConforming(LeftBefore(left, ts, carriesBody, k), ts[k].response, carriesBody, ts[k].listens);
  }
}
