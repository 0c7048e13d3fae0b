/** Idle FastCGI connections by address, and whole runs of requests through them (src/handler/fastcgi_pool.rs). */
module FcgiPool {
  import opened Common
  import opened Net
  import opened FcgiResponse

  /** One request on one connection: the response arrives behind what was left, and what is released is clean again. */
  method Exchange(conn: ByteStream, r: Response, carriesBody: seq<byte> -> bool, listens: nat) returns (served: Served)
    requires Clean(conn.unread) && Conforming(r)
    modifies conn
    ensures Answers(served.reply, r, carriesBody, listens)
    ensures served.released.Some? ==> Clean(conn.unread)
    ensures listens > |r.output| ==> served.released.Some?
  {
    ServeConforming(conn.unread, r, carriesBody, listens);
    conn.unread := conn.unread + ResponseBytes(r);
    served := ServeOn(conn, carriesBody, listens);
  }

  type Queues = map<string, seq<ByteStream>>

  /** The queues after a release. */
  function Returned(idle: Queues, addr: string, conn: ByteStream, maxIdle: nat): Queues {
    var queue := if addr in idle then idle[addr] else [];
    idle[addr := if |queue| < maxIdle then queue + [conn] else queue]
  }

  class Pool {
    var idle: Queues
    const maxIdle: nat
    /** Every connection in the queues, and none that is in use. */
    ghost var conns: set<ByteStream>

    /** Queues within their limit, and no connection idle twice. */
    ghost predicate Tidy()
      reads this
    {
      && (forall a :: a in idle ==> |idle[a]| <= maxIdle)
      && (forall a, i, j :: a in idle && 0 <= i < j < |idle[a]| ==> idle[a][i] != idle[a][j])
      && (forall a, b, c :: a in idle && b in idle && c in idle[a] && c in idle[b] ==> a == b)
      && (forall a, c :: a in idle && c in idle[a] ==> c in conns)
    }

    /** And every idle connection is free of unread STDOUT. */
    ghost predicate Valid()
      reads this, conns
    {
      Tidy() && forall c :: c in conns ==> Clean(c.unread)
    }

    constructor (maxIdle: nat)
      ensures Valid() && idle == map[] && this.maxIdle == maxIdle && conns == {}
    {
      idle := map[];
      this.maxIdle := maxIdle;
      conns := {};
    }

    /** The longest-idle connection of the address, or a new one; null when the upstream cannot be reached. */
    method Acquire(addr: string, up: bool) returns (conn: ByteStream?)
      requires Valid()
      modifies this
      ensures Valid()
      ensures conn != null ==> conn !in conns && Clean(conn.unread)
      ensures var queue := if addr in old(idle) then old(idle)[addr] else [];
              && (queue != [] ==> conn == queue[0] && conn in old(conns))
              && (queue != [] ==> idle == old(idle)[addr := queue[1..]] && conns == old(conns) - {conn})
              && (queue == [] ==> idle == old(idle) && conns == old(conns) && (conn != null <==> up))
              && (queue == [] && up ==> fresh(conn) && conn.unread == [])
    {
      if addr in idle && idle[addr] != [] {
        var queue := idle[addr];
        conn := queue[0];
        assert queue[0] in idle[addr];
        idle := idle[addr := queue[1..]];
        conns := conns - {queue[0]};
      } else if up {
        conn := new ByteStream([]);
      } else {
        conn := null;
      }
    }

    /** Back to the end of the queue, or dropped when the queue is full. */
    method Release(addr: string, conn: ByteStream)
      requires Valid()
      requires conn !in conns && Clean(conn.unread)
      modifies this
      ensures Valid()
      ensures idle == Returned(old(idle), addr, conn, maxIdle)
      ensures conns <= old(conns) + {conn}
    {
      var queue := if addr in idle then idle[addr] else [];
      if |queue| < maxIdle {
        idle := idle[addr := queue + [conn]];
        conns := conns + {conn};
      } else {
        idle := idle[addr := queue];
      }
    }

    /** Every idle connection of the address is dropped; the other addresses keep theirs. */
    method Evict(addr: string)
      requires Valid()
      modifies this
      ensures Valid()
      ensures idle == old(idle) - {addr}
      ensures conns == old(conns) - if addr in old(idle) then set c | c in old(idle)[addr] else {}
    {
      ghost var out := if addr in idle then set c | c in idle[addr] else {};
      conns := conns - out;
      idle := idle - {addr};
    }
  }

  /** A request starts, taking or making a connection; later its response arrives, for a client that listens so long. */
  datatype Event =
    | Start(id: nat, addr: string, up: bool)
    | Complete(id: nat, response: Response, listens: nat)

  datatype Lease = Lease(addr: string, conn: ByteStream)

  /** The connections in use are clean, are nobody else's and are not idle. */
  ghost predicate Exclusive(pool: Pool, busy: map<nat, Lease>)
    reads pool, set id | id in busy :: busy[id].conn
  {
    && (forall id :: id in busy ==> busy[id].conn !in pool.conns && Clean(busy[id].conn.unread))
    && (forall i, j :: i in busy && j in busy && busy[i].conn == busy[j].conn ==> i == j)
  }

  /** Each request starts once and completes once. */
  ghost predicate Once(es: seq<Event>) {
    forall i, j :: 0 <= i < j < |es| && es[i].id == es[j].id ==> es[i].Start? && es[j].Complete?
  }

  method Begin(pool: Pool, busy: map<nat, Lease>, e: Event) returns (next: map<nat, Lease>)
    requires pool.Valid() && Exclusive(pool, busy) && e.Start? && e.id !in busy
    modifies pool
    ensures pool.Valid() && Exclusive(pool, next)
    ensures pool.conns <= old(pool.conns)
    ensures next.Keys <= busy.Keys + {e.id} && (forall id :: id in busy ==> id in next && next[id] == busy[id])
    ensures e.up ==> e.id in next
    ensures e.id in next ==> next[e.id].conn in old(pool.conns) || fresh(next[e.id].conn)
  {
    var conn := pool.Acquire(e.addr, e.up);
    next := if conn == null then busy else busy[e.id := Lease(e.addr, conn)];
  }

  /** The response of a request that holds a connection; the connection goes back, or is dropped. */
  method End(pool: Pool, busy: map<nat, Lease>, e: Event, carriesBody: seq<byte> -> bool)
    returns (reply: Option<Reply>, ghost released: bool)
    requires pool.Valid() && Exclusive(pool, busy) && e.Complete? && e.id in busy && Conforming(e.response)
    modifies pool, busy[e.id].conn
    ensures pool.Valid() && Exclusive(pool, busy - {e.id})
    ensures pool.conns <= old(pool.conns) + {busy[e.id].conn}
    ensures pool.idle == if released then Returned(old(pool.idle), busy[e.id].addr, busy[e.id].conn, pool.maxIdle)
                         else old(pool.idle)
    ensures e.listens > |e.response.output| ==> released
    ensures Answers(reply, e.response, carriesBody, e.listens)
  {
    var conn := busy[e.id].conn;
    var served := Exchange(conn, e.response, carriesBody, e.listens);
    if served.released.Some? {
      pool.Release(busy[e.id].addr, conn);
    }
    reply := served.reply;
    released := served.released.Some?;
  }

  /** Whether a reply is right for the request that the event at a position completes. */
  type Judge = (nat, Option<Reply>) -> bool

  ghost function RightFor(es: seq<Event>, carriesBody: seq<byte> -> bool): Judge {
    (i: nat, reply: Option<Reply>) =>
      i < |es| && es[i].Complete? && Answers(reply, es[i].response, carriesBody, es[i].listens)
  }

  /** After the first `n` events: who is being served, and who has got what. */
  ghost predicate Booked(es: seq<Event>, n: nat, busy: set<nat>, replies: map<nat, Option<Reply>>,
                         right: Judge)
    requires n <= |es|
  {
    && (forall id :: id in busy ==> exists i :: 0 <= i < n && es[i].id == id)
    && (forall id :: id in replies ==> exists i :: 0 <= i < n && es[i].id == id && es[i].Complete?)
    && (forall i :: 0 <= i < n && es[i].Start? && es[i].up ==> es[i].id in busy || es[i].id in replies)
    && (forall i :: 0 <= i < n && es[i].Complete? ==> es[i].id !in busy)
    && (forall i :: 0 <= i < n && es[i].Complete? && es[i].id in replies ==> right(i, replies[es[i].id]))
  }

  lemma BookStart(es: seq<Event>, n: nat, busy: set<nat>, next: set<nat>, replies: map<nat, Option<Reply>>,
                  right: Judge)
    requires Once(es) && n < |es| && es[n].Start? && Booked(es, n, busy, replies, right)
    requires busy <= next <= busy + {es[n].id} && (es[n].up ==> es[n].id in next)
    ensures es[n].id !in busy
    ensures Booked(es, n + 1, next, replies, right)
  {
  }

  lemma NotStarted(es: seq<Event>, n: nat, busy: set<nat>, replies: map<nat, Option<Reply>>,
                   right: Judge)
    requires Once(es) && n < |es| && Booked(es, n, busy, replies, right)
    ensures es[n].Start? ==> es[n].id !in busy
  {
  }

  lemma BookComplete(es: seq<Event>, n: nat, busy: set<nat>, replies: map<nat, Option<Reply>>, reply: Option<Reply>,
                     right: Judge)
    requires Once(es) && n < |es| && es[n].Complete? && Booked(es, n, busy, replies, right)
    requires right(n, reply)
    ensures Booked(es, n + 1, busy - {es[n].id}, replies[es[n].id := reply], right)
  {
    forall i | 0 <= i < n && es[i].Complete?
      ensures es[i].id != es[n].id
    {
    }
  }

  lemma BookNothing(es: seq<Event>, n: nat, busy: set<nat>, replies: map<nat, Option<Reply>>,
                    right: Judge)
    requires Once(es) && n < |es| && es[n].Complete? && es[n].id !in busy && Booked(es, n, busy, replies, right)
    ensures Booked(es, n + 1, busy, replies, right)
  {
    assert es[n].id !in replies;
  }

  /** The response of a request that is being served. */
  method Finish(pool: Pool, busy: map<nat, Lease>, replies: map<nat, Option<Reply>>, e: Event,
                carriesBody: seq<byte> -> bool, ghost es: seq<Event>, ghost n: nat)
    returns (nextBusy: map<nat, Lease>, nextReplies: map<nat, Option<Reply>>)
    requires pool.Valid() && Exclusive(pool, busy) && Once(es) && n < |es| && e == es[n]
    requires Booked(es, n, busy.Keys, replies, RightFor(es, carriesBody))
    requires e.Complete? && e.id in busy && Conforming(e.response)
    modifies pool, busy[e.id].conn
    ensures pool.Valid() && Exclusive(pool, nextBusy) && nextBusy == busy - {e.id}
    ensures Booked(es, n + 1, nextBusy.Keys, nextReplies, RightFor(es, carriesBody))
    ensures pool.conns <= old(pool.conns) + {busy[e.id].conn}
  {
    var reply, _ := End(pool, busy, e, carriesBody);
    BookComplete(es, n, busy.Keys, replies, reply, RightFor(es, carriesBody));
    nextBusy := busy - {e.id};
    assert nextBusy.Keys == busy.Keys - {e.id};
    nextReplies := replies[e.id := reply];
  }

  /** One event of the run. */
  method Handle(pool: Pool, busy: map<nat, Lease>, replies: map<nat, Option<Reply>>, e: Event,
                carriesBody: seq<byte> -> bool, ghost es: seq<Event>, ghost n: nat)
    returns (nextBusy: map<nat, Lease>, nextReplies: map<nat, Option<Reply>>)
    requires pool.Valid() && Exclusive(pool, busy) && Once(es) && n < |es| && e == es[n]
    requires Booked(es, n, busy.Keys, replies, RightFor(es, carriesBody))
    requires e.Complete? ==> Conforming(e.response)
    modifies pool, set id | id in busy :: busy[id].conn
    ensures pool.Valid() && Exclusive(pool, nextBusy)
    ensures Booked(es, n + 1, nextBusy.Keys, nextReplies, RightFor(es, carriesBody))
    ensures forall c :: c in pool.conns ==> c in old(pool.conns) || exists id :: id in busy && busy[id].conn == c
    ensures forall id :: id in nextBusy ==>
                           || (id in busy && nextBusy[id].conn == busy[id].conn)
                           || nextBusy[id].conn in old(pool.conns) || fresh(nextBusy[id].conn)
  {
    ghost var right := RightFor(es, carriesBody);
    nextBusy, nextReplies := busy, replies;
    if e.Start? {
      NotStarted(es, n, busy.Keys, replies, right);
      nextBusy := Begin(pool, busy, e);
      BookStart(es, n, busy.Keys, nextBusy.Keys, replies, right);
    } else if e.id in busy {
      nextBusy, nextReplies := Finish(pool, busy, replies, e, carriesBody, es, n);
    } else {
      BookNothing(es, n, busy.Keys, replies, right);
    }
  }

  /**
   * Any number of overlapping requests over any addresses, connections reused in between: every request that got a
   * connection gets its own response, exactly if its client listens to the end.
   */
  method HandleAll(pool: Pool, es: seq<Event>, carriesBody: seq<byte> -> bool)
    returns (replies: map<nat, Option<Reply>>)
    requires pool.Valid() && Once(es)
    requires forall i :: 0 <= i < |es| && es[i].Complete? ==> Conforming(es[i].response)
    modifies pool, pool.conns
    ensures pool.Valid()
    ensures forall k :: 0 <= k < |es| && es[k].Complete? && es[k].id in replies ==>
                          Answers(replies[es[k].id], es[k].response, carriesBody, es[k].listens)
    ensures forall i, k :: 0 <= i < k < |es| && es[i].Start? && es[i].up && es[k].Complete? && es[i].id == es[k].id ==>
                             es[k].id in replies
  {
    replies := map[];
    var busy: map<nat, Lease> := map[];
    for n := 0 to |es|
      invariant pool.Valid() && Exclusive(pool, busy)
      invariant forall c :: c in pool.conns ==> c in old(pool.conns) || fresh(c)
      invariant forall id :: id in busy ==> busy[id].conn in old(pool.conns) || fresh(busy[id].conn)
      invariant Booked(es, n, busy.Keys, replies, RightFor(es, carriesBody))
    {
      busy, replies := Handle(pool, busy, replies, es[n], carriesBody, es, n);
    }
    ReadOff(es, busy.Keys, replies, carriesBody);
  }

  lemma ReadOff(es: seq<Event>, busy: set<nat>, replies: map<nat, Option<Reply>>, carriesBody: seq<byte> -> bool)
    requires Booked(es, |es|, busy, replies, RightFor(es, carriesBody))
    ensures forall k :: 0 <= k < |es| && es[k].Complete? && es[k].id in replies ==>
                          Answers(replies[es[k].id], es[k].response, carriesBody, es[k].listens)
    ensures forall i, k :: 0 <= i < k < |es| && es[i].Start? && es[i].up && es[k].Complete? && es[i].id == es[k].id ==>
                             es[k].id in replies
  {
    forall k | 0 <= k < |es| && es[k].Complete? && es[k].id in replies
      ensures Answers(replies[es[k].id], es[k].response, carriesBody, es[k].listens)
    {
      assert RightFor(es, carriesBody)(k, replies[es[k].id]);
    }
  }
}
