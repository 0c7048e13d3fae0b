# Sweety: a verified model of its protocol and state machines

Sweety is a web server and reverse proxy. This project models the parts of it whose correctness spans many calls:
codecs, connection reuse, an incremental routing index, limiters, a relay, a breaker shared between threads, a load
balancer, a cache and two first-match engines. Each is proved against an independent statement of what it is for.
`dafny verify dfyconfig.toml` checks everything.

State that the program updates in place is a class, loops are loops, and each method is proved equal to a function on
values; the theorems are about those functions, over every input, every run or every interleaving.

| files | subject |
|---|---|
| `Common.dfy`, `Net.dfy`, `Buffered.dfy` | bytes, substring search, a socket with arbitrary short reads, a buffered reader |
| `FcgiProto.dfy`, `FcgiResponse.dfy`, `FcgiPool.dfy` | FastCGI records, request packets, responses, reused connections |
| `VHost.dfy`, `HotReload.dfy` | the virtual-host registry and the configuration diff |
| `RateLimit.dfy`, `IpLimiter.dfy` | the token bucket; shards and cleanup |
| `WsRelay.dfy` | WebSocket handshake and relay |
| `CircuitBreaker.dfy`, `BreakerThreads.dfy`, `LoadBalancer.dfy` | the breaker, alone and under threads; picking a node |
| `Chunked.dfy`, `ConnPool.dfy` | chunked coding; keep-alive pool and request attempts |
| `HeaderText.dfy`, `ProxyProtocol.dfy`, `ProxyWriter.dfy` | PROXY protocol versions 1 and 2 |
| `StableSort.dfy`, `Location.dfy`, `AccessControl.dfy` | stable sort, location matching, access rules |
| `Base64.dfy`, `ProxyCache.dfy` | base64 and the memory tier of the response cache |

## What the proofs show about the code

These are places where the program does less than its comments or an obvious reading promise; each has an exact
condition or a concrete input among the lemmas below.

- The FastCGI header splitter prefers CRLFCRLF anywhere over LFLF, so where it splits depends on record boundaries
  exactly when an LFLF is complete before the first CRLFCRLF (`FcgiProto.CutIndependence`).
- A FastCGI response without a separator and without an end-of-STDOUT marker, such as a lone END_REQUEST, is swallowed
  and prepended to the next one on the connection (`FcgiResponse.SwallowedByNext`); a stream that ends inside the body
  is reported as a complete reply (`FcgiResponse.TruncatedBody`).
- An empty PARAMS or STDIN stream is terminated twice (`FcgiProto.StreamTerminators`), and a name or value of 2^31 bytes
  or more is not encodable (`FcgiProto.LengthRoundTrip`). The comment at src/handler/fastcgi/proto.rs:41 names RFC 3875;
  the format is that of section 3.4 of FastCGI 1.0.
- A hot reload compares the TOML texts of a site's two versions as optional values, so two versions that both fail to
  serialise count as unchanged (src/config/hot_reload.rs:293); `error_pages` has numeric keys, which
  src/config/model/site.rs:14 says TOML does not allow. Such a site keeps its old hosts (`HotReload.UnserialisableStays`);
  `HotReload.WellFormedAgree` says exactly when that shows.
- A hot reload never clears the fallback flag of a site that stays configured (`HotReload.FallbackIsStale`,
  `HotReload.DroppedFlagStays`).
- When two sites list the same host, a reload can give it to the wrong one or leave it unserved
  (`HotReload.SharedHostTaken`, `HotReload.SharedHostLost`); `HotReload.TablesAgree` is the exact condition. Nothing in
  `validate_config` (src/config/loader.rs:87) rules out shared hosts, repeated names or several fallback sites.
- Cleaning up idle buckets is invisible exactly when they have had the time to refill (`IpLimiter.CleanupInvisible`);
  with rate zero no waiting helps (`RateLimit.WaitingWorks`).
- The failure window of the breaker is fixed, not sliding: a burst that straddles its end need not trip
  (`CircuitBreaker.BurstTrips`, `CircuitBreaker.WindowIsFixed`), and a half-open breaker waits for an outcome for ever
  (`CircuitBreaker.HalfOpenWaits`).
- Under threads a probe can be admitted at the moment the breaker has just reopened, when the prober loaded an older
  opening time (`BreakerThreads.EarlyProbe`); `BreakerThreads.ProbeIsTimely` says when it cannot.
- The counting scan of `pick` spends every due probe, and the node returned is never the probed one, so `pick` can come
  back empty while nodes count as available (`LoadBalancer.NothingPicked`, `LoadBalancer.ProbeIsNeverSent`), and a node
  whose breaker has tripped is not used again while any node counts as available (`LoadBalancer.TrippedForGood`).
- A connection can be handed out past its keep-alive lifetime (`ConnPool.LifetimeExceeded`), by less than the idle
  timeout (`ConnPool.LifetimeBound`).
- A weighted pick whose available weights sum to 2^32 or more aborts the program, because overflow checks are on in the
  release profile (Cargo.toml:186) and the sum is a checked 32-bit one (`LoadBalancer.Upstreams.Pick`).
- The two chunked decoders have different limits: 64 MiB a chunk and 256 MiB in all when buffered, 16 MiB a chunk when
  streamed. The buffered one returns a truncated body without an error when a limit is passed, and the
  connection goes back to the pool. What its reader had read ahead is lost, the rest of the response stays on it:
  always when at least 8192 bytes are unread, else as the reads happened to be cut (`Chunked.ReleasedClean`).
- A second attempt of `forward_request` is sent with an empty body (`ConnPool.Forward`).
- A PROXY version 1 line longer than 108 bytes is accepted or refused depending on how its bytes arrive
  (`ProxyProtocol.CutIndependence`); its protocol word is not looked at (`ProxyProtocol.AnyWordRoundTrip`).
- A location whose pattern does not compile becomes a plain prefix and keeps the sort priority of a regex; the order of
  precedence is right all the same (`Location.MatchIsPrecedence`).

## Model

| member | source | states |
|---|---|---|
| `FcgiProto.TakeRecordOfWire` | src/handler/fastcgi/proto.rs:66-91 | any record laid out as in section 3.3 of FastCGI 1.0, with any padding, is read back and exactly its bytes are consumed |
| `FcgiProto.TakeRecordExtends` | src/handler/fastcgi/proto.rs:66-91 | a complete record reads the same when more bytes arrive behind it |
| `FcgiProto.ReadRecord` | src/handler/fastcgi/proto.rs:66-91 | under every schedule of short reads, one record is taken off the stream with its padding, or the stream is exhausted and the read fails |
| `FcgiProto.RecordsOfWire` | src/handler/fastcgi/proto.rs:66-91 | a sequence of laid-out records is read back record by record with no byte left |
| `FcgiProto.WriteRecord` | src/handler/fastcgi/proto.rs:28-39 | the chunk loop appends exactly the wire form of the fragments of the data, one empty record for empty data |
| `FcgiProto.FragmentsCarryData` | src/handler/fastcgi/proto.rs:28-39 | the contents of the fragments, joined, are the data, whatever its size |
| `FcgiProto.FragmentsTidy` | src/handler/fastcgi/proto.rs:28-39 | every fragment has at most 65535 content bytes, ends on an 8-byte boundary, and is non-empty unless the data is empty |
| `FcgiProto.WireLayout` | src/handler/fastcgi/proto.rs:21-39 | the eight header bytes one by one: version, type, id, content length, padding length, reserved, and the content behind them |
| `FcgiProto.FragmentCount` | src/handler/fastcgi/proto.rs:28-39 | a stream takes as few records as 65535 bytes each allow, and at least one |
| `FcgiProto.LengthRoundTrip` | src/handler/fastcgi/proto.rs:42-54 | an encoded length is read back by the rule of section 3.4 of FastCGI 1.0 if and only if it is below 2^31 |
| `FcgiProto.LengthLayout` | src/handler/fastcgi/proto.rs:42-54 | one byte below 128; else four bytes with the top bit set whose value is the length |
| `FcgiProto.PairRoundTrip` | src/handler/fastcgi/proto.rs:42-54 | a name-value pair is read back and exactly its bytes are consumed |
| `FcgiProto.PairsRoundTrip` | src/handler/fastcgi/proto.rs:42-54 | a whole list of pairs is read back in order |
| `FcgiProto.WritePairs` | src/handler/fastcgi/response.rs:40-56 | the parameter loop produces the encoding of the list |
| `FcgiProto.BuildRequest` | src/handler/fastcgi/response.rs:40-56 | the packet sent is the wire form of BEGIN_REQUEST, the PARAMS stream and the STDIN stream |
| `FcgiProto.RequestOrder` | src/handler/fastcgi/response.rs:40-56 | BEGIN_REQUEST with its body comes first, then every PARAMS record, then every STDIN record |
| `FcgiProto.RequestTidy` | src/handler/fastcgi/response.rs:40-56 | every record of the packet has version 1 and request id 1, is within the size limit and aligned |
| `FcgiProto.RequestRoundTrip` | src/handler/fastcgi/response.rs:40-56 | an application reading the packet finds the record types 1, 4 and 5, the body 0 1 1 0 0 0 0 0 (responder, keep connection), exactly the parameter list and exactly the request body, for every list of encodable pairs and every body |
| `FcgiProto.StreamTerminators` | src/handler/fastcgi/response.rs:40-56 | a stream of the packet has the single terminator of section 3.3 if and only if it carries data; an empty one gets two |
| `FcgiProto.FindHeaderEnd` | src/handler/fastcgi/proto.rs:98-110 | the two scans refine the search that the next two rows pin down by the bytes alone |
| `FcgiProto.HeaderEndSplits` | src/handler/fastcgi/proto.rs:98-110 | the separator found cuts the output into text, CRLFCRLF and body with no earlier CRLFCRLF, or, when there is none anywhere, into text, LFLF and body with no earlier LFLF; no result means that neither occurs |
| `FcgiProto.SplitIsHeaderEnd` | src/handler/fastcgi/proto.rs:98-110 | conversely, such a cut of the output is unique and is the one found |
| `FcgiProto.PrefixOfUnambiguous` | src/handler/fastcgi/proto.rs:98-110 | a prefix of unambiguous output shows no separator or the final one, and shows it once it is complete |
| `FcgiProto.CutIndependence` | src/handler/fastcgi/proto.rs:98-110 | the separator found does not depend on where the output is cut if and only if no LFLF is complete before the first CRLFCRLF |
| `FcgiResponse.ReadHeaders` | src/handler/fastcgi/response.rs:83-117 | the header loop refines the recursive reading of the stream: other records are dropped, STDOUT grows the buffer until a separator shows |
| `FcgiResponse.BufferBody` | src/handler/fastcgi/response.rs:155-183 | the buffered loop refines its recursive reading, including the end on error and the switch to streaming above 4 MiB |
| `FcgiResponse.StreamRemaining` | src/handler/fastcgi/response.rs:200-233 | the streaming task refines its recursive reading: chunks in order while the client's channel accepts them, a dropped connection when it does not, and the bytes left when the connection is released |
| `FcgiResponse.ServeOn` | src/handler/fastcgi/response.rs:141-233 | header loop, buffered loop and streaming tail together equal the one function that the reuse theorem is about, however many sends the client takes |
| `FcgiResponse.HeadIsOver` | src/handler/fastcgi/response.rs:83-117 | on output records the byte-level header loop is the record-level one |
| `FcgiResponse.HeadOfOutput` | src/handler/fastcgi/response.rs:83-117 | however the output is cut into STDOUT and STDERR records, the header loop stops at the separator of the whole output and keeps every byte behind it |
| `FcgiResponse.BodyOfOutput` | src/handler/fastcgi/response.rs:155-183 | the buffered loop takes the whole output, or stops above the threshold with the remainder intact |
| `FcgiResponse.TailOfOutput` | src/handler/fastcgi/response.rs:200-233 | on output records the byte-level streaming loop is the record-level one |
| `FcgiResponse.TailHeard` | src/handler/fastcgi/response.rs:200-233 | a client that listens long enough is sent exactly the STDOUT bytes that were left |
| `FcgiResponse.TailCut` | src/handler/fastcgi/response.rs:200-233 | any other client is sent a prefix of them, and the connection is dropped |
| `FcgiResponse.BodyAtEnd` | src/handler/fastcgi/response.rs:155-183 | at the end of the output both body loops stop, and nothing left unread is a STDOUT record |
| `FcgiResponse.BodyConforming` | src/handler/fastcgi/response.rs:155-233 | buffered or streamed, the body is right, the connection is released only when all of it was sent, and then clean |
| `FcgiResponse.HeadSkipsClean` | src/handler/fastcgi/response.rs:83-117 | the header loop absorbs whatever non-STDOUT records the previous request left unread |
| `FcgiResponse.ServeConforming` | src/handler/fastcgi/response.rs:83-233 | one conforming response on a clean connection: its STDOUT bytes are the reply's header text, the separator and a body; the client gets the text and, if the status carries one, all of that body when it listens to the end, else a prefix; the connection is released clean or dropped |
| `FcgiResponse.RepliesExactly` | src/handler/fastcgi/response.rs:83-233 | a response is answered if and only if its output has a separator or it marks the end of STDOUT |
| `FcgiResponse.NoSeparatorReply` | src/handler/fastcgi/response.rs:83-117 | output that ends without a separator is all header text, with an empty body, and the connection is released clean |
| `FcgiResponse.SwallowedByNext` | src/handler/fastcgi/response.rs:83-117 | any other response, END_REQUEST alone included, is swallowed: its output becomes the front of the next response's header |
| `FcgiResponse.TruncatedBody` | src/handler/fastcgi/response.rs:158-183 | a stream that ends inside a buffered body gives the part that came as the whole reply, no error, and a dead connection in the pool |
| `FcgiResponse.TruncatedStream` | src/handler/fastcgi/response.rs:200-233 | a stream that ends early after more than 4194304 body bytes drops the connection |
| `FcgiResponse.ReusedConnection` | src/handler/fastcgi/response.rs:83-233 | over any sequence of conforming responses on one connection, request k gets the text before, and the body behind, the separator of response k's STDOUT bytes, whatever earlier requests left unread and however soon earlier clients went away |
| `FcgiPool.Pool.Acquire` | src/handler/fastcgi_pool.rs:49-62 | the longest-idle connection of the address leaves the queue, else a new one is made, else the acquire fails; what is handed out is clean and no longer idle |
| `FcgiPool.Pool.Release` | src/handler/fastcgi_pool.rs:64-71 | the connection joins the end of its queue, or is dropped when the queue is full; no connection becomes idle twice |
| `FcgiPool.Pool.Evict` | src/handler/fastcgi_pool.rs:73-75 | every idle connection of the address goes, and only those |
| `FcgiPool.Begin` | src/handler/fastcgi_pool.rs:49-62 | a request that starts among others takes a connection nobody else holds |
| `FcgiPool.End` | src/handler/fastcgi_pool.rs:64-71 | a response that arrives among others gives its own reply; its connection joins the end of its own queue if there is room, always when the client listened to the end |
| `FcgiPool.HandleAll` | src/handler/fastcgi_pool.rs:49-71 | any overlapping requests over any addresses: every request that got a connection gets the header text and body of its own response's STDOUT bytes, all of it if its client listens to the end; every request whose upstream is up is answered |
| `VHost.UpsertEntry` | src/dispatcher/vhost.rs:190-212 | what one upsert does to the entry of every pattern: claimed, dropped, or untouched |
| `VHost.RemoveEntry` | src/dispatcher/vhost.rs:260-273 | what one removal does to the entry of every pattern |
| `VHost.Registry.UpsertSite` | src/dispatcher/vhost.rs:190-212 | the update in place refines the upsert on snapshots |
| `VHost.Registry.RemoveSite` | src/dispatcher/vhost.rs:260-273 | the update in place refines the removal on snapshots |
| `VHost.Registry.Load` | src/dispatcher/vhost.rs:180-188 | loading a configuration is one upsert per site in order |
| `VHost.FreshEntry` | src/dispatcher/vhost.rs:180-212 | a fresh start serves every pattern from its last lister, unless a later site of the same name has dropped it |
| `VHost.FreshFallback` | src/dispatcher/vhost.rs:180-212 | the fallback of a fresh start is the last site with the flag |
| `VHost.FreshLookup` | src/dispatcher/vhost.rs:302-320 | a lookup after a fresh start, through the owners of the patterns; the next rows say it on the configured names |
| `VHost.RoutedToHost` | src/dispatcher/vhost.rs:302-320 | a host goes to the last site with a server name that differs from it in ASCII case at most, unless a later site of that site's name does not list it |
| `VHost.RoutedToParent` | src/dispatcher/vhost.rs:302-320 | a host that no site lists goes to the last site that lists `*.` and the domain behind the host's first dot, in whatever case |
| `VHost.WildcardTakes` | src/dispatcher/vhost.rs:201-203 | a server name `*.` + domain takes label + `.` + domain for every label without a dot |
| `VHost.RoutedToFallback` | src/dispatcher/vhost.rs:302-320 | any other host goes to the last site with the fallback flag, and nowhere when there is none |
| `HotReload.ByName` | src/config/hot_reload.rs:219-225 | the name map holds every site name, each mapped to the last site of that name |
| `HotReload.ApplyDiff` | src/config/hot_reload.rs:219-257 | for every pair of configurations, the registry after the three loops is the diff in some order of the three name sets, and nothing is assumed of the configurations |
| `HotReload.DiffResult` | src/config/hot_reload.rs:228-257 | on any registry and in any order: every entry, and the fallback, is that of the last upsert that claims it, else what removals and upserts of its own site leave |
| `HotReload.TablesAgree` | src/config/hot_reload.rs:219-257 | every order leads to the tables of a fresh start if and only if, for every pattern, all changed sites that list it are the fresh owner, or there are none and all added ones are, or there are none and what the old owner leaves is right already |
| `HotReload.FallbackAgreement` | src/config/hot_reload.rs:219-257 | the same exact condition for the fallback, with any number of flagged sites |
| `HotReload.ReloadIsFresh` | src/config/hot_reload.rs:219-257 | every order makes the whole registry that of a fresh start if and only if both conditions hold |
| `HotReload.WellFormedAgree` | src/config/hot_reload.rs:291-294 | with distinct names and no host listed twice, the tables agree if and only if every site left alone claims only what its old version had as the same site, and leaves nothing that no new site lists |
| `HotReload.NoticedAgree` | src/config/hot_reload.rs:219-257 | with distinct names, no host listed twice and every difference noticed, every pattern agrees, whatever hosts move between sites |
| `HotReload.SerialisedIsNoticed` | src/config/hot_reload.rs:291-294 | every difference is noticed when no new site fails to serialise |
| `HotReload.FallbackIsStale` | src/config/hot_reload.rs:219-257 | with one flagged site at most and every difference noticed, the fallback agrees if and only if some new site claims the flag, or the old holder is gone, or there was none |
| `HotReload.ReloadAll` | src/config/hot_reload.rs:180-257 | after any sequence of agreeing reloads the tables are those of a fresh start on the last configuration; the fallback is the flagged site of the last configuration that has one, as long as its name has stayed configured |
| `HotReload.DroppedFlagStays` | src/dispatcher/vhost.rs:208-210 | a concrete pair of configurations after which, in every order and under every serialiser, a fallback remains that a fresh start does not have |
| `HotReload.UnserialisableStays` | src/config/hot_reload.rs:291-294 | a site that moves to another host while neither version serialises: the new host is not served, in any order |
| `HotReload.SharedHostTaken` | src/dispatcher/vhost.rs:190-212 | two sites share a host and the first changes: the pattern does not agree |
| `HotReload.SharedHostLost` | src/dispatcher/vhost.rs:190-212 | two sites share a host and the second drops it: nobody serves it after any order of the diff |
| `RateLimit.TokenBucket.Refill` | src/middleware/rate_limit.rs:148-153 | the update in place refines refilling: elapsed time times rate, capped at the capacity |
| `RateLimit.TokenBucket.TryAcquire` | src/middleware/rate_limit.rs:125-145 | the attempt refines the step on values: one token taken, or a denial with the wait |
| `RateLimit.AttemptExactly` | src/middleware/rate_limit.rs:125-153 | an attempt finds the tokens of before plus rate * elapsed, at most the capacity; it is admitted if and only if that is one or more, and then takes one |
| `RateLimit.StepPays` | src/middleware/rate_limit.rs:125-153 | an admission costs one token of credit, and nothing adds credit |
| `RateLimit.PaidFor` | src/middleware/rate_limit.rs:125-153 | from any point of a run, admissions until t never exceed the tokens held plus those earned by t |
| `RateLimit.BurstBound` | src/middleware/rate_limit.rs:107-153 | over every run at non-decreasing times, at most capacity + rate * (t - s) attempts are admitted in [s, t] |
| `RateLimit.BurstBoundPlain` | src/middleware/rate_limit.rs:107-153 | the same bound with its product written out |
| `RateLimit.WaitingWorks` | src/middleware/rate_limit.rs:125-145 | a denied caller that waits the returned time, or the header's whole seconds, undisturbed, is admitted if and only if the rate is positive |
| `RateLimit.WaitIsLeast` | src/middleware/rate_limit.rs:125-145 | the wait returned with a denial is the least one: undisturbed, the caller is admitted after it and not before |
| `RateLimit.RetryIsOneSecond` | src/middleware/rate_limit.rs:217-223 | with a whole-number rate every denial advertises one second |
| `IpLimiter.Limiter.CheckIp` | src/middleware/rate_limit.rs:39-52 | one check in its shard answers as the unsharded map does and keeps the shards equivalent to it |
| `IpLimiter.Limiter.SweepShard` | src/middleware/rate_limit.rs:53-59 | sweeping one shard equals sweeping its addresses in the unsharded map |
| `IpLimiter.SweepExactly` | src/middleware/rate_limit.rs:53-59 | a sweep of shard k drops exactly the buckets of addresses with low byte k that have been idle for idle_secs or more |
| `IpLimiter.NewAddress` | src/middleware/rate_limit.rs:39-52 | a new address is admitted exactly burst times at once, or rate times when no burst is set |
| `IpLimiter.Limiter.CleanUp` | src/middleware/rate_limit.rs:53-59 | the loop over the shards, each with its own reading of the clock, equals sweeping the unsharded map shard by shard |
| `IpLimiter.RunSharded` | src/middleware/rate_limit.rs:39-59 | any interleaving of checks and sweeps of single shards answers as one map with the same sweeps |
| `IpLimiter.IdleIsFull` | src/middleware/rate_limit.rs:284-289 | a bucket idle long enough to fill up cannot be told from a new one at any later time |
| `IpLimiter.CleanupInvisibleFrom` | src/middleware/rate_limit.rs:284-289 | from equivalent tables, every run with cleanups answers as the run without |
| `IpLimiter.BurstLast` | src/middleware/rate_limit.rs:125-145 | a bucket showing k whole tokens admits exactly the first k requests of a burst |
| `IpLimiter.CleanupInvisible` | src/middleware/rate_limit.rs:284-289 | cleanups change no answer on any run if and only if idle_secs * rate is at least the capacity |
| `WsRelay.ReadUpstreamHeaders` | src/handler/reverse_proxy/ws_proxy.rs:410-463 | under every read schedule the handshake succeeds if and only if CRLFCRLF ends within 4096 bytes; the head ends with the first one; head, prefetched and unread bytes are the whole stream |
| `WsRelay.PushConserves` | src/handler/reverse_proxy/ws_proxy.rs:122-160 | a full, partial, failed or pending write loses and duplicates nothing |
| `WsRelay.PollConserves` | src/handler/reverse_proxy/ws_proxy.rs:122-174 | every poll keeps both directions' conservation, and a failed write freezes the client's side |
| `WsRelay.RunConserves` | src/handler/reverse_proxy/ws_proxy.rs:122-174 | for every sequence of poll outcomes, written plus pending is taken until a write fails, a prefix afterwards, and emitted plus prefetched is received |
| `WsRelay.ClientSeesReads` | src/handler/reverse_proxy/ws_proxy.rs:122-174 | the chunks handed to the client are the prefetched bytes followed by everything read, in order |
| `WsRelay.EagerRelay` | src/handler/reverse_proxy/ws_proxy.rs:122-160 | with an upstream that never pushes back, everything the client offers until its end is written, in order, and nothing else |
| `WsRelay.BiDirStream.PollNext` | src/handler/reverse_proxy/ws_proxy.rs:122-174 | the poll on the live object: with nothing prefetched, pending exactly while the upstream is blocked, ended exactly when it is broken or exhausted, else a piece of it; it is the step of the model, keeps conservation, and accounts for every upstream byte |
| `WsRelay.ItemExactly` | src/handler/reverse_proxy/ws_proxy.rs:152-174 | what one poll hands out: prefetched bytes first; else not ready if and only if the read is pending, the end if and only if it failed or was empty, else the piece read |
| `WsRelay.EndsExactly` | src/handler/reverse_proxy/ws_proxy.rs:152-174 | over every run the end shows at a position if and only if the read made there failed or was empty, and not ready if and only if it was pending |
| `WsRelay.ClientExactly` | src/handler/reverse_proxy/ws_proxy.rs:122-160 | what one poll takes from the client and writes upstream, and when a write has failed |
| `WsRelay.StillPending` | src/handler/reverse_proxy/ws_proxy.rs:122-160 | what a flush that does not clear the pending bytes leaves pending |
| `WsRelay.NewlyPending` | src/handler/reverse_proxy/ws_proxy.rs:122-160 | what a new piece leaves pending after a full, partial, failed or blocked write |
| `WsRelay.DoneExactly` | src/handler/reverse_proxy/ws_proxy.rs:122-160 | the client's side is over exactly after a failed write, a client error or the client's end |
| `WsRelay.Connect` | src/handler/reverse_proxy/ws_proxy.rs:337-463 | handshake and relay together: what the client can still be sent is exactly what follows the first CRLFCRLF |
| `CircuitBreaker.SharedBreaker.Allow` | src/handler/reverse_proxy/circuit_breaker.rs:50-69 | the answer and the new state, including the move from open to half-open that asking causes |
| `CircuitBreaker.SharedBreaker.RecordSuccess` | src/handler/reverse_proxy/circuit_breaker.rs:72-87 | the new state in each of the three phases |
| `CircuitBreaker.SharedBreaker.RecordFailure` | src/handler/reverse_proxy/circuit_breaker.rs:90-112 | the new state in each of the three phases, the trip included |
| `CircuitBreaker.CountIsExact` | src/handler/reverse_proxy/circuit_breaker.rs:90-126 | after every run the failure count is exactly the number of failures recorded while closed since the event that started the current window |
| `CircuitBreaker.WindowIsExact` | src/handler/reverse_proxy/circuit_breaker.rs:120-126 | after every run the window starts at the time of the last event that restarted it, and when the breaker was made if none did |
| `CircuitBreaker.TripsExactly` | src/handler/reverse_proxy/circuit_breaker.rs:90-112 | after every run, a failure recorded while closed opens the breaker if and only if it brings the failures of its window to the limit |
| `CircuitBreaker.ClosedIsBelow` | src/handler/reverse_proxy/circuit_breaker.rs:90-112 | after every run, closed means fewer failures than the limit |
| `CircuitBreaker.TripIsBacked` | src/handler/reverse_proxy/circuit_breaker.rs:90-126 | every trip is backed by at least max_failures failures recorded while closed within the last window |
| `CircuitBreaker.BurstTrips` | src/handler/reverse_proxy/circuit_breaker.rs:90-126 | max_failures failures within window_secs trip a closed breaker if and only if none of them falls into the running window, or those that do make the limit with the ones counted before |
| `CircuitBreaker.RefusesUntilTimeout` | src/handler/reverse_proxy/circuit_breaker.rs:50-69 | after every run that ends open, requests are refused exactly until fail_timeout has passed since the last transition into Open |
| `CircuitBreaker.AllowExactly` | src/handler/reverse_proxy/circuit_breaker.rs:50-69 | after every run a request is admitted if and only if the breaker is closed, or open for fail_timeout or longer |
| `CircuitBreaker.PhaseExactly` | src/handler/reverse_proxy/circuit_breaker.rs:50-112 | after every run and one more event: closed opens on the failure that makes the limit of its window, open becomes half-open on the first request after the timeout, half-open closes on a success and opens on a failure, and nothing else moves it |
| `CircuitBreaker.OpenHolds` | src/handler/reverse_proxy/circuit_breaker.rs:50-69 | an open breaker stays as it is and refuses until fail_timeout has passed, and admits at any time from then on |
| `CircuitBreaker.HalfOpenWaits` | src/handler/reverse_proxy/circuit_breaker.rs:50-69 | a half-open breaker refuses for ever while no outcome is recorded |
| `CircuitBreaker.WindowIsFixed` | src/handler/reverse_proxy/circuit_breaker.rs:120-126 | the window is fixed, not sliding: with a limit of two in ten seconds, failures at 9 and 10 do not trip, failures at 8 and 9 do |
| `BreakerThreads.MoveIsSafe` | src/handler/reverse_proxy/circuit_breaker.rs:50-112 | every single atomic access of any thread keeps one opening per probe |
| `BreakerThreads.EveryInterleavingIsSafe` | src/handler/reverse_proxy/circuit_breaker.rs:50-112 | under every interleaving by any number of threads, every probe has an opening of its own before it |
| `BreakerThreads.OpeningBetweenProbes` | src/handler/reverse_proxy/circuit_breaker.rs:50-69 | between any two probes there is a transition into Open |
| `BreakerThreads.ProbesNeverOutnumberOpenings` | src/handler/reverse_proxy/circuit_breaker.rs:50-112 | in every reachable state probe admissions are at most the transitions into Open |
| `BreakerThreads.EveryExchangeWaited` | src/handler/reverse_proxy/circuit_breaker.rs:50-69 | under every interleaving, a thread about to exchange has found the timeout over since the opening time it loaded |
| `BreakerThreads.ProbeIsTimely` | src/handler/reverse_proxy/circuit_breaker.rs:50-69 | a probe comes at least fail_timeout after the recorded opening time, unless some thread stored another one between the prober's load and its exchange |
| `BreakerThreads.EarlyProbe` | src/handler/reverse_proxy/circuit_breaker.rs:50-112 | a run in which such a store lets a second probe through at the very moment of the reopening |
| `BreakerThreads.AloneIsSequential` | src/handler/reverse_proxy/circuit_breaker.rs:50-126 | the atomic accesses of a call that nobody interrupts add up to the sequential step |
| `LoadBalancer.SelectShare` | src/handler/reverse_proxy/lb.rs:215-228 | the running sum selects an index exactly for the counter values in its share |
| `LoadBalancer.Rounds` | src/handler/reverse_proxy/lb.rs:215-228 | k full rounds of the counter from any start select each index exactly k times its weight |
| `LoadBalancer.LeastIsLeast` | src/handler/reverse_proxy/lb.rs:229-232 | least-connections returns the ready node with the fewest active connections, the earliest among equals |
| `LoadBalancer.Upstreams.CountAvailable` | src/handler/reverse_proxy/lb.rs:193-193 | the counting scan counts the available nodes and leaves every due breaker half-open |
| `LoadBalancer.Upstreams.Record` | src/handler/reverse_proxy/lb.rs:114-139 | the node after a recorded outcome: failure count, health after three failures or a success, and breaker |
| `LoadBalancer.HealthExactly` | src/handler/reverse_proxy/lb.rs:114-139 | over any run of picks, outcomes and health verdicts, a node that began healthy is healthy if and only if, since its last success or good verdict, it has had fewer than three failures and no bad verdict; picks and other nodes do not matter |
| `LoadBalancer.BreakerExactly` | src/handler/reverse_proxy/lb.rs:86-139 | over any such run a node's breaker is what one breaker becomes on that node's own outcomes and one question per pick while the node is healthy, so the laws of breaker runs hold for it |
| `LoadBalancer.Upstreams.Pick` | src/handler/reverse_proxy/lb.rs:192-239 | the scans, counters and loops of pick refine one function of nodes, counter, hash and time, with the counter's 64-bit wrap and its 32-bit truncation; the next rows say for each strategy which node that is; the program aborts exactly when a weighted pick finds a total weight of 2^32 or more |
| `LoadBalancer.HashPick` | src/handler/reverse_proxy/lb.rs:233-237 | under the address hash node i is returned if and only if it is healthy with no breaker or a closed one and exactly hash % available such nodes come before it; the counter does not matter |
| `LoadBalancer.RoundRobinPick` | src/handler/reverse_proxy/lb.rs:211-214 | the same under round robin with the counter in place of the hash |
| `LoadBalancer.WeightedPick` | src/handler/reverse_proxy/lb.rs:215-228 | weighted: node i if and only if its share of the running sum of weights holds the counter's low 32 bits modulo the total; the first such node when all weights are zero |
| `LoadBalancer.LeastConnPick` | src/handler/reverse_proxy/lb.rs:229-232 | least connections: node i if and only if no such node has fewer active connections and none before it as few |
| `LoadBalancer.DegradedPick` | src/handler/reverse_proxy/lb.rs:194-208 | with nothing available: the healthy nodes in turn, without any all nodes in turn, without any nothing |
| `LoadBalancer.AfterPickExactly` | src/handler/reverse_proxy/lb.rs:192-239 | what a pick leaves behind: exactly the due breakers half-open, and the counter moved by one modulo 2^64 exactly where a rotation used it |
| `LoadBalancer.HashFairness` | src/handler/reverse_proxy/lb.rs:233-237 | any k rounds of consecutive hash values return each usable node exactly k times, for every counter and time |
| `LoadBalancer.AskingSettles` | src/handler/reverse_proxy/lb.rs:88-96 | after one scan at a given time no further scan changes or discovers anything |
| `LoadBalancer.SteadyRun` | src/handler/reverse_proxy/lb.rs:192-228 | with stable availability the i-th pick goes to the share that holds the i-th counter value |
| `LoadBalancer.Fairness` | src/handler/reverse_proxy/lb.rs:192-228 | any k rounds of consecutive picks return each node exactly k times its weight, or k times under round robin |
| `LoadBalancer.NothingPicked` | src/handler/reverse_proxy/lb.rs:192-239 | the exact condition for a None result of a pick that does not abort, per strategy, in terms of available and ready nodes before the pick |
| `LoadBalancer.ProbeIsNeverSent` | src/handler/reverse_proxy/lb.rs:192-239 | while any node counts as available the node returned had a closed breaker, though every due breaker has been moved to half-open |
| `LoadBalancer.NotReadyReturned` | src/handler/reverse_proxy/lb.rs:192-239 | a node that is not ready is returned if and only if nothing counts as available and the fallback rotation selects it |
| `LoadBalancer.TrippedForGood` | src/handler/reverse_proxy/lb.rs:192-239 | over any run of picks, outcomes of returned nodes and health verdicts in which some node counts as available at every pick, a node whose breaker has tripped is never returned again, and once due at a pick its breaker is half-open for good |
| `Chunked.SizeRoundTrip` | src/handler/reverse_proxy/conn.rs:131-178 | the size line written is read back, is ASCII and within 64 bytes |
| `Chunked.HexIsNumeral` | src/handler/reverse_proxy/conn.rs:131-178 | the size is written as its lower-case hexadecimal numeral without leading zeros |
| `Chunked.EncodeExactly` | src/handler/reverse_proxy/conn.rs:131-178 | what is written is the chunks of the non-empty pieces, then the last chunk `0` CRLF CRLF |
| `Chunked.PipeRequestBody` | src/handler/reverse_proxy/conn.rs:131-178 | the piping loop writes the chunked encoding of the pieces, or the pieces themselves |
| `Chunked.ReadChunkedBody` | src/handler/reverse_proxy/conn.rs:776-850 | on every schedule of reads through the buffered reader, the decoder refines its recursive reading, limits and truncation included, and how far it has read ahead at the end is determined |
| `Chunked.StreamChunks` | src/handler/reverse_proxy/conn.rs:552-603 | on every schedule of reads through the buffered reader, the streaming decoder refines its recursive reading |
| `Chunked.DigitExactly` | src/handler/reverse_proxy/conn.rs:785-795 | hexadecimal digits of both cases are read, and no other character |
| `Chunked.ExtensionIgnored` | src/handler/reverse_proxy/conn.rs:785-795 | a chunk extension behind a semicolon does not change the size |
| `Chunked.BlanksIgnored` | src/handler/reverse_proxy/conn.rs:785-795 | nor do blanks around it |
| `Chunked.UnreadableLine` | src/handler/reverse_proxy/conn.rs:785-795 | a size line over 64 bytes, or one that is not ASCII, ends the body in both decoders |
| `Chunked.CutChunk` | src/handler/reverse_proxy/conn.rs:833-846 | a stream that ends inside a chunk: the buffered decoder returns the part that came without an error, the streaming one sends none of it and gives the connection up |
| `Chunked.OverflowEnds` | src/handler/reverse_proxy/conn.rs:785-820 | a size of 2^64 or more on a short enough line is taken for the last chunk by both decoders |
| `Chunked.DecodeEncoded` | src/handler/reverse_proxy/conn.rs:776-850 | the exact result of decoding any encoded body, fitting or not |
| `Chunked.BufferedRoundTrip` | src/handler/reverse_proxy/conn.rs:776-850 | decoding gives back the concatenated body and consumes exactly the encoding if and only if every piece and the running total are within the limits |
| `Chunked.EncodedResult` | src/handler/reverse_proxy/conn.rs:776-850 | the body returned for an encoded one is the pieces up to the first that does not fit, and what is unread is the rest of the encoding |
| `Chunked.ReadAndRelease` | src/handler/reverse_proxy/conn.rs:664-689 | decoding and taking the socket back out of the reader: the socket keeps all of the unread bytes but the fewer than 8192 read ahead; all of them under single-byte reads, and as few as possible when the read at the last byte handed out fills the buffer |
| `Chunked.ReleasedClean` | src/handler/reverse_proxy/conn.rs:664-689 | pieces within the limits leave nothing of the response on the released connection on any schedule; others leave something on some schedule, and on every schedule if and only if at least 8192 bytes of the response are unread |
| `Chunked.BothSchedulesExist` | src/handler/reverse_proxy/conn.rs:664-689 | the two extreme schedules exist |
| `Chunked.TruncationLeavesBody` | src/handler/reverse_proxy/conn.rs:823-831 | one chunk over the limit: an empty body, no error, and more unread than the reader can hold |
| `Chunked.RemainderMayBeLost` | src/handler/reverse_proxy/conn.rs:823-831 | 256 MiB and one byte: eight bytes are unread, which the schedule of reads leaves on the connection or not |
| `Chunked.StreamRoundTrip` | src/handler/reverse_proxy/conn.rs:552-603 | the streaming decoder sends on exactly the non-empty pieces and keeps the connection if and only if every piece is at most 16 MiB |
| `Chunked.DecodersAgree` | src/handler/reverse_proxy/conn.rs:552-603 | on every framed stream the streaming decoder accepts, within the buffered decoder's total, both give the same body and stop at the same byte |
| `ConnPool.Pool.Acquire` | src/handler/reverse_proxy/pool.rs:52-70 | the sweep loop and the pop loop refine their definitions on the queue |
| `ConnPool.Pool.Release` | src/handler/reverse_proxy/pool.rs:73-106 | the queue after a release, under all three reasons for dropping a connection |
| `ConnPool.PopExactly` | src/handler/reverse_proxy/pool.rs:52-70 | a request gets the first connection returned less than idle_timeout ago; those before it are dropped and those behind it stay |
| `ConnPool.FinishedIsIdle` | src/handler/reverse_proxy/pool.rs:73-106 | a finished connection joins the end of the queue if and only if it has served fewer than keepalive_requests and is younger than keepalive_time, where set, and the queue is below its limit; otherwise the queue is unchanged |
| `ConnPool.SweepChangesNothing` | src/handler/reverse_proxy/pool.rs:52-70 | on a queue in order of return, the eager sweep changes neither the connection chosen nor the rest |
| `ConnPool.StepKeeps` | src/handler/reverse_proxy/pool.rs:52-106 | every event of overlapping request cycles keeps the pool's invariant |
| `ConnPool.RunIsSound` | src/handler/reverse_proxy/pool.rs:52-106 | over any run: queue within its limit and in order, no connection idle twice or idle while in use, none used more often than keepalive_requests |
| `ConnPool.QueueWithinLimit` | src/handler/reverse_proxy/pool.rs:73-106 | over any run the queue is within the upstream's own limit if it has one, else the pool's |
| `ConnPool.HandedOutFresh` | src/handler/reverse_proxy/pool.rs:52-70 | in any reachable state a request gets the longest-returned fresh connection, or a new one if and only if none is fresh |
| `ConnPool.LifetimeBound` | src/handler/reverse_proxy/pool.rs:52-106 | over any run, a connection handed out is younger than keepalive_time plus idle_timeout |
| `ConnPool.LifetimeExceeded` | src/handler/reverse_proxy/pool.rs:52-70 | a run in which a connection is handed out past keepalive_time |
| `ConnPool.CycleQueue` | src/handler/reverse_proxy/conn.rs:77-113 | the queue after one request: at most the connection that completed a response comes back, with its count and age |
| `ConnPool.CycleKeeps` | src/handler/reverse_proxy/conn.rs:77-113 | one request in the middle of any run keeps what every run keeps |
| `ConnPool.Forward` | src/handler/reverse_proxy/conn.rs:77-123 | the attempt loop is one cycle of the run on the queue; the body goes to the first attempt alone; exact success condition |
| `HeaderText.ValueOfDec` | src/handler/reverse_proxy/proxy_protocol.rs:383-428 | a number is read back from its decimal digits |
| `HeaderText.DecIsNumeral` | src/handler/reverse_proxy/proxy_protocol.rs:383-428 | a number is written as its decimal numeral without leading zeros |
| `HeaderText.PortExactly` | src/handler/reverse_proxy/proxy_protocol.rs:260-263 | a port reads as n if and only if it is an optional plus sign and at least one digit, of value n below 65536 |
| `HeaderText.SplitOfJoin` | src/handler/reverse_proxy/proxy_protocol.rs:250-253 | splitting gives back the fields that were joined |
| `HeaderText.DottedIsCanonical` | src/handler/reverse_proxy/proxy_protocol.rs:256-259 | whatever reads as a dotted address is the one text of that address |
| `HeaderText.DottedExactly` | src/handler/reverse_proxy/proxy_protocol.rs:357-379 | an IPv4 address is written as its four numerals with dots between them |
| `HeaderText.IpRoundTrip` | src/handler/reverse_proxy/proxy_protocol.rs:357-379 | an address of either family is read back from the text written, which is at most 39 characters |
| `ProxyWriter.WriteU8` | src/handler/reverse_proxy/proxy_protocol.rs:383-397 | the digits of the number are written at the position and nothing else changes |
| `ProxyWriter.WriteU16` | src/handler/reverse_proxy/proxy_protocol.rs:401-428 | the digits of the number are written at the position and nothing else changes |
| `ProxyWriter.WriteIp` | src/handler/reverse_proxy/proxy_protocol.rs:357-379 | the text of the address is written at the position and nothing else changes |
| `ProxyWriter.EncodeV1` | src/handler/reverse_proxy/proxy_protocol.rs:76-119 | the 108-byte buffer always suffices and holds exactly the header followed by zeros |
| `ProxyWriter.EncodeV2` | src/handler/reverse_proxy/proxy_protocol.rs:126-170 | the 52-byte buffer holds exactly the header followed by zeros |
| `ProxyProtocol.AnyWordRoundTrip` | src/handler/reverse_proxy/proxy_protocol.rs:231-272 | the protocol word is ignored: any printable one but UNKNOWN gives the endpoints of the other four fields, mixed families included |
| `ProxyProtocol.HeaderV1Exactly` | src/handler/reverse_proxy/proxy_protocol.rs:76-119 | the text header byte by byte: PROXY TCP4 or TCP6, two addresses, two ports and CRLF, or PROXY UNKNOWN for mixed families |
| `ProxyProtocol.HeaderV2Exactly` | src/handler/reverse_proxy/proxy_protocol.rs:126-170 | the binary header byte by byte: signature, version and command, family, length, addresses and big-endian ports |
| `ProxyProtocol.V1Sound` | src/handler/reverse_proxy/proxy_protocol.rs:231-272 | an accepted text header that names endpoints is PROXY and exactly the five space-separated fields they are read from, then CRLF |
| `ProxyProtocol.UnknownLine` | src/handler/reverse_proxy/proxy_protocol.rs:246-249 | a line that begins with UNKNOWN carries no endpoints, whatever printable text follows |
| `ProxyProtocol.UnfinishedLine` | src/handler/reverse_proxy/proxy_protocol.rs:231-240 | a text line without CRLF is Incomplete below 108 bytes and refused from then on |
| `ProxyProtocol.NotTextIsRefused` | src/handler/reverse_proxy/proxy_protocol.rs:242-243 | a line with a byte that no UTF-8 text has is refused |
| `ProxyProtocol.NeitherVersion` | src/handler/reverse_proxy/proxy_protocol.rs:204-228 | eight bytes or more that begin neither header are refused |
| `ProxyProtocol.V2AcceptsExactly` | src/handler/reverse_proxy/proxy_protocol.rs:275-349 | a binary header is Incomplete, accepted or refused by its version, command, family and length bytes alone, consumes 16 + length, and is Local exactly for the LOCAL command or an unknown family |
| `ProxyProtocol.V1RoundTrip` | src/handler/reverse_proxy/proxy_protocol.rs:76-119 | parsing a version 1 header before any payload gives back both endpoints, or Local for mixed families, and consumes exactly the header |
| `ProxyProtocol.V2RoundTrip` | src/handler/reverse_proxy/proxy_protocol.rs:126-170 | the same for version 2 |
| `ProxyProtocol.V2IsCanonical` | src/handler/reverse_proxy/proxy_protocol.rs:275-349 | an exactly filled version 2 TCP header is the encoding of what it carries |
| `ProxyProtocol.ConsumedSuffices` | src/handler/reverse_proxy/proxy_protocol.rs:204-349 | any accepted result rests on the consumed bytes alone |
| `ProxyProtocol.BeforeTheEnd` | src/handler/reverse_proxy/proxy_protocol.rs:204-349 | what every strict prefix of an accepted header gives: Incomplete, or TooLong for a text line cut at 108 bytes or later |
| `ProxyProtocol.CutIndependence` | src/handler/reverse_proxy/proxy_protocol.rs:204-349 | an accepted header is found however the bytes arrive if and only if it is binary or its line ends within 108 bytes |
| `ProxyProtocol.FinalAnswers` | src/handler/reverse_proxy/proxy_protocol.rs:204-349 | the answer to a buffer survives every extension if and only if it is not Incomplete and not the refusal of an unfinished long line |
| `ProxyProtocol.DecisionStays` | src/handler/reverse_proxy/proxy_protocol.rs:204-349 | an Ok result, and every refusal but that one, is unchanged by appended bytes |
| `ProxyProtocol.StrictPrefixesWait` | src/handler/reverse_proxy/proxy_protocol.rs:76-170 | every strict prefix of an encoding of either version is Incomplete |
| `StableSort.SortIsStable` | src/dispatcher/vhost.rs:96-99 | sorting keeps the elements of each key in their order |
| `StableSort.StableSortIsUnique` | src/dispatcher/vhost.rs:96-99 | any sorted list with the same elements per key in the same order is this one, whatever the algorithm |
| `StableSort.FirstOfSortedWins` | src/dispatcher/vhost.rs:96-99 | the first match of the sorted list is the one with the least key and then the earliest position in the original |
| `Location.KindAndPriority` | src/dispatcher/location.rs:68-90 | kind and sort priority agree; a plain prefix has priority 4, or priority 3 exactly when its pattern does not compile |
| `Location.CompiledTakes` | src/dispatcher/location.rs:77-80 | a compiled location is an exact match for q if and only if its path is `= ` + q, and a priority prefix if and only if its path is `^~ ` + p for a prefix p of q |
| `Location.CompiledRegex` | src/dispatcher/location.rs:69-76 | a regex match if and only if its path is `~ ` + r with r compiling and matching q, or `~* ` + r with `(?i)` + r doing so |
| `Location.CompiledPlain` | src/dispatcher/location.rs:69-83 | a plain prefix if and only if its path has none of those forms, or has a pattern that does not compile, and is itself a prefix of q |
| `Location.MatchLocation` | src/dispatcher/location.rs:93-129 | the three loops refine first match, first regex match and longest prefix |
| `Location.LongestIsNamed` | src/dispatcher/location.rs:115-128 | among prefixes of one path the longest is the first of its name, so the order of other names cannot matter |
| `Location.MatchIsPrecedence` | src/dispatcher/location.rs:68-129 | on the priority-sorted list the matcher returns the location that takes precedence among the configured paths: the first `= ` + path, else the first `^~ ` + prefix, else the first `~ ` or `~* ` pattern that compiles and matches, else the longest plain prefix |
| `Location.SomethingPrecedes` | src/dispatcher/vhost.rs:364-374 | some configured location takes precedence unless none takes the path in any way |
| `Location.NoMatch` | src/dispatcher/location.rs:93-129 | nothing is returned if and only if no configured path takes the request in any of the four ways |
| `ProxyCache.Cache.Get` | src/middleware/proxy_cache.rs:160-170 | the answer and the table after a lookup, with an expired entry dropped |
| `ProxyCache.Cache.Evict` | src/middleware/proxy_cache.rs:255-273 | whatever order the table is walked in, exactly a tenth (at least one) is dropped, and no live entry while an expired one stays |
| `ProxyCache.Cache.Set` | src/middleware/proxy_cache.rs:193-208 | the table after a write, with a legal eviction first when it is full |
| `ProxyCache.Cache.PurgeAll` | src/middleware/proxy_cache.rs:241-252 | the table is empty afterwards |
| `ProxyCache.HitIsLatest` | src/middleware/proxy_cache.rs:160-208 | over any run with any evictions, a hit is exactly the latest write of its key since the last purge and no older than ttl |
| `ProxyCache.NeverOverfull` | src/middleware/proxy_cache.rs:193-208 | over any run the entry count never exceeds max(1, max_entries) |
| `ProxyCache.LookupExactly` | src/middleware/proxy_cache.rs:160-208 | in every timed run a lookup finds the latest write of its key since the last purge if and only if it is not expired and no later write dropped the key |
| `ProxyCache.FoundWhileFresh` | src/middleware/proxy_cache.rs:160-208 | the same with the age written out: found if and only if now - created_at is at most ttl and no later write dropped the key |
| `ProxyCache.ExpiredIsDropped` | src/middleware/proxy_cache.rs:160-170 | after every run a lookup drops its key if and only if it does not find it, and changes no other key |
| `ProxyCache.EvictionSize` | src/middleware/proxy_cache.rs:255-273 | a write to a full table drops max(1, max_entries / 10) entries, or all when there are fewer, and a write to any other table drops none |
| `ProxyCache.RoomForAll` | src/middleware/proxy_cache.rs:193-208 | while fewer different keys than max_entries are written, no key is ever evicted |
| `Base64.EncodeBytes` | src/middleware/proxy_cache.rs:312-327 | the encoding loop refines the group-by-group definition |
| `Base64.DecodeText` | src/middleware/proxy_cache.rs:330-357 | the decoding loop refines the group-by-group definition |
| `Base64.RoundTrip` | src/middleware/proxy_cache.rs:312-357 | decoding the encoding gives back every byte string, of every length |
| `Base64.EncodedLength` | src/middleware/proxy_cache.rs:312-327 | four characters for every three bytes begun, padding included |
| `Base64.AlphabetExactly` | src/middleware/proxy_cache.rs:314-314 | the alphabet is that of section 4 of RFC 4648 |
| `Base64.GroupNumber` | src/middleware/proxy_cache.rs:316-325 | a group and its four characters are the same 24-bit number, with padding exactly for missing bytes |
| `AccessControl.MaskTestIsPrefix` | src/middleware/access_control.rs:89-108 | the mask test is equality of the leading prefix_len bits, for both families and every prefix length |
| `AccessControl.MatchesExactly` | src/middleware/access_control.rs:78-108 | a rule takes everything, one address, or the addresses of its own family that share its leading prefix_len bits |
| `AccessControl.CompileRules` | src/middleware/access_control.rs:111-126 | the valid rules, stably sorted by priority |
| `AccessControl.CheckAccess` | src/middleware/access_control.rs:129-137 | the early-exit loop is the action of the first matching rule, else allow |
| `AccessControl.AccessIsDecidedBy` | src/middleware/access_control.rs:111-137 | the decision is the action of the valid matching rule with the least priority and, among those, the earliest position |
| `AccessControl.AccessDefaultsToAllow` | src/middleware/access_control.rs:111-137 | there is such a rule, or no valid rule matches and access is allowed |

## Left out

- Sockets, TLS, QUIC, HTTP/2, ACME and DNS: clients and wrappers of other libraries; reads are arbitrary pieces of a byte stream.
- Timeouts, cancellation and wake-ups: a run is error-free, or ends at the first error where the property says so.
- `parse_fcgi_headers` and status codes: the header text is the result, and whether its status carries a body is a parameter.
- The retry loop around the FastCGI handler.
- TLS resolvers, per-site resources injected after an upsert, and log-level changes during a hot reload.
- TOML serialisation is a parameter: any function from sites to an optional text; only `HotReload.SerialisedIsNoticed` asks it to be injective where it succeeds.
- Lower-casing of non-ASCII host names, and `strip_port`.
- `ip_to_u32`: the limiter is keyed by the 32-bit number; two addresses with one number share a bucket, as in the program.
- Rounding of f64 tokens: token counts and times are real numbers.
- Path, header and user keys of the limiter: the same bucket in one map, without shards.
- Memory orderings weaker than sequential consistency in the breaker; wrap-around of its 32-bit failure counter.
- LoadBalancer.Upstreams.Pick: all scans of one pick read the same clock value, because a clock that ticks between the scans makes availability unstable within the pick; a breaker that becomes due between two scans can then be the node returned.
- The health-check task: its verdicts are events of a run.
- Chunked.ReadChunkedBody: trailers are not collected, and a size line that is not ASCII counts as a read error, because UTF-8 text outside ASCII cannot be a size and the text itself is not kept.
- Chunked.StreamChunks: a client that stops receiving, which ends the task and drops the connection, is left out; size lines as above.
- ConnPool.Forward: a connection released later by the task that streams the response is a later event of the run, not part of this call; both attempts read the same clock value.
- HeaderText.IpRoundTrip: printing and parsing of IPv6 text are parameters, assumed to be inverse, within 39 characters, and made of hexadecimal digits, dots and colons with at least one colon.
- Flow label and scope of IPv6 socket addresses: the PROXY protocol does not carry them.
- Source text of access rules and regular expressions: parameters.
- Disk tier of the response cache, whose entries restart their clock when read; cacheability rules and cache keys.
- Metrics, logs, error pages, command line, admin routes, presets, MIME tables and static files: formatting and plumbing with easy properties.
