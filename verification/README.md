# A verified model of the caching HTTP proxy

The proxy is built from four hand-written stateful structures: a response cache, a thread pool
with its task queue, a pool of upstream connections, and a request parser with a receive loop.
Each part is modelled in the form the C code has, and then related to a simple meaning.

* **Cache.** `Cache.dfy` is the heap: nodes in 1024 hash chains and, threaded through the same
  nodes, a doubly linked recency list. The recency list with add, lookup and sweep is the machine
  of `CacheSpec.dfy`, and every cache object carries the log of its operations: `Valid()` says the
  linked structure represents the run of that log. `cache_add` never looks for an older entry with
  the same URL, so duplicates coexist. `CacheSpec.dfy` proves that lookups are right all the same,
  because chain order, recency order and timestamp order agree for one URL. `CacheRecency.dfy`
  has eviction order, the absence of early eviction and the invisibility of sweeps;
  `CacheStack.dfy` the stack-distance theorem; `CacheHash.dfy` the hash.
* **Thread pool.** `TaskQueue.dfy` is the linked FIFO queue. `ThreadPool.dfy` is the protocol: any
  number of workers, the accept loop, condition variable with spurious wakeups, semaphore,
  shutdown, join, drain and the freeing of the other modules, one atomic step per critical section
  or blocking call. Socket numbers may be reused by the system once closed.
* **Connection pool.** `ConnectionPool.dfy` is the slot array, against the functions of
  `PoolSpec.dfy`, whose meaning slot by slot is in `PoolSlots.dfy`. `Leases.dfy` adds the callers that hold sockets, give them back or abandon them,
  and interleaves their steps; `Reuse.dfy` says when a reused socket leads where it should.
* **Parsing and receiving.** `CText.dfy` has the C string functions, `HttpParser.dfy` the request
  line, the header scan and host:port, `ProxyUrl.dfy` the two ways a target is split, `Receive.dfy`
  the receive loop.
* **One request.** `ProxyServer.dfy` puts the parts together: `HandleClientRequest` validates and
  parses, looks in the cache object, takes a socket from the connection pool object, runs the receive
  loop, answers the client, adds to the cache and gives the socket back, and is proved against
  functions that say what a request amounts to for the client, the log, the slots and the sockets.
  `ProxySockets.dfy` follows the server socket of a request and shows that requests are lease runs.
  `RequestText.dfy` and `RequestHandling.dfy` lead from the bytes of a request to what is forwarded and
  answered; `Pages.dfy` has runs of requests and whose page each client is sent, and `ProxySession.dfy`
  ties the objects to these runs.
* `Wrappers.dfy` holds the optional value and the search for a first position.

The environment supplies clock readings that never go back, results of `recv` and `connect`, and
whether an allocation succeeds; these are parameters.

Where comments or documents and code differ, the code is followed:

* `cache_get` says an expired entry "will be removed"; it stays until it is evicted or swept.
* The cache key is called the full URL; it is the request target cut to 511 bytes.
* The semaphore is described as limiting connections; with at most 200 workers it never blocks
  (`ThreadPool.SemaphoreNeverBlocks`).

Six properties one might expect are false. Each has an exact condition and a failing input:

* A reused socket is not always one for the host asked for. The error exits of a request close their
  server socket without telling the pool. Along a run, and after whatever well-behaved callers do from
  any of its states on, reuse is safe if and only if the run never abandons a socket that stands in a
  slot (`Reuse.ReuseSafeExactly`). For any two different peers, the first with a name that fits a slot,
  `Reuse.AbandonedNumberMisleads` is a run that abandons a socket to the first and then hands out a socket to the second in its place;
  `ProxySockets.DroppedNumberReturns` is the same in terms of requests. What one failing request does to
  the slots is `ProxySockets.DroppedSocketStays`.
* Even when no socket in a slot is abandoned, reuse leads to the host and port asked for if and only if the name
  asked for does not have exactly 255 characters (`Reuse.ReuseHostExact`): slots cut longer names to that
  length, and `Reuse.LongHostIsMixedUp` gives, for each longer name, the run that mixes it up. Both are
  about the functions of the connection pool. In the proxy `char host[256]`
  (src/components/proxy_server.c:237) is the first to be too small: extract_host_port overruns it before
  a longer name can reach the pool.
* The cache key is the path and leaves out the host (and the method). For any set of sites, clients are
  always sent pages of the server they ask for if and only if no two sites with the same path, as far as
  511 bytes tell, are on different servers (`Pages.PagesKeepToServers`, failing run in
  `Pages.OtherServersPage`). What a client is sent in every case is `Pages.PageOfPath`.
* The server socket of an answered request ends up idle in the pool or closed if and only if it is not
  socket 0 (`ProxySockets.AnsweredSocketSettles`); `ProxySockets.SocketZeroIsLost` is the failing input.
* The inline path extraction agrees with `parse_request_url`, up to the cut, exactly as
  `ProxyUrl.FormsAgree` says: always for absolute-form targets; for targets without `http://` if the
  first slash, if any, begins or ends the target; and for targets with `http://` inside if no slash
  stands in the first seven bytes, or if what is found behind them repeats the target from its first
  slash on up to the cut, which needs more than 255 bytes. They differ on `/http://`
  (`ProxyUrl.OriginFormDiffers`).
* A failed add leaves the entries alone if and only if the cache is not full
  (`CacheRecency.FailedAddExact`), because eviction precedes the allocations.
  `CacheRecency.FailedAddLoses` is, for every capacity, a run that loses an answer this way.

## Model

| member | source | states |
|---|---|---|
| CacheHash.CacheHash | src/components/cache.c:9-18 | The wrapping 32-bit shift-and-add loop returns the exact polynomial 5381*33^n + sum of c_i*33^(n-1-i) modulo 1024, for every string and either sign of char |
| CacheHash.WeightedSumSnoc | src/components/cache.c:13-15 | The weighted sum with explicit powers of 33 obeys the one-character step of the loop |
| CacheHash.WrapStepIsExactModuloWord | src/components/cache.c:14 | One step with every wrap-around written out equals the exact step modulo 2^32 |
| CacheHash.BucketIgnoresWrap | src/components/cache.c:17 | Reducing modulo 2^32 before modulo 1024 changes nothing |
| CacheHash.HashFromTheLeft | src/components/cache.c:9-18 | The hash is 5381 for no character and 33 times what there is plus the next character, modulo 1024 |
| CacheSpec.RunWellFormed | src/components/cache.c:58-293 | After every run the capacity holds, and recency, birth and timestamp order agree for entries with one URL |
| CacheSpec.RunShadowed | src/components/cache.c:58-293 | After every run, each live entry stands beside the latest add for its URL: no eviction or sweep exposes an older duplicate |
| CacheSpec.HitIsLatestAdd | src/components/cache.c:58-93 | Over every run a hit is the most recent successful add for that URL, read off the log alone, and is unexpired |
| CacheSpec.StepKeeps | src/components/cache.c:58-293 | Every single operation keeps the order and capacity invariants |
| CacheRecency.RunSorted | src/components/cache.c:68-92 | After every run the recency list is strictly sorted by last touch |
| CacheRecency.EvictsLongestUntouched | src/components/cache.c:102-105 | An add evicts an entry if and only if the cache is full and every other entry was touched since |
| CacheRecency.FailedAddExact | src/components/cache.c:102-138 | After every run an add that runs out of memory leaves the entries alone if and only if the cache is not full |
| CacheRecency.FailedAddLoses | src/components/cache.c:102-138 | For every capacity a run that fills the cache, after which a failed add of any URL loses the oldest answer |
| CacheRecency.SweepExact | src/components/cache.c:234-293 | A sweep keeps exactly the entries younger than 300 seconds, in order |
| CacheRecency.SweepChangesNoAnswer | src/components/cache.c:234-293 | A sweep changes no lookup answer at its time or later, for any URL |
| CacheRecency.NoEarlyEviction | src/components/cache.c:58-161 | Over every run, an unexpired latest add is found as long as fewer than the capacity of other entries were touched or attempted since its last touch |
| CacheRecency.LatestBirthUnique | src/components/cache.c:95-161 | Two URLs never share an add |
| CacheStack.DriveIsStack | src/components/proxy_server.c:256-374 | Get-then-add within a window, with any time between lookup and add, keeps exactly the capacity most recently requested distinct URLs, in order |
| CacheStack.StackDistance | src/components/proxy_server.c:256-374 | A request hits if and only if its URL was requested before and fewer than the capacity of distinct other URLs were requested since, whatever time passes between lookup and add |
| CacheStack.LargerCacheHitsToo | src/components/cache.c:58-161 | Every hit of a cache is a hit of a larger one, whose contents extend it |
| CacheStack.RecencyIndex | src/components/cache.c:163-188 | The position of a URL in the move-to-front stack is the number of distinct URLs requested since |
| Cache.Cache.constructor | src/components/cache.c:35-44 | An empty cache of any positive capacity satisfies the two-structure invariant |
| Cache.Cache.Create | src/components/cache.c:20-56 | The cache of the proxy starts empty and valid with 1024 places |
| Cache.Cache.MoveToFront | src/components/cache.c:163-188 | The list becomes the node followed by the others in order; links stay mutually inverse, ends true |
| Cache.Cache.Detach | src/components/cache.c:168-176 | Taking out a node that is not the head |
| Cache.Cache.AttachFront | src/components/cache.c:178-187 | Linking a node in front of the list |
| Cache.Cache.DetachLast | src/components/cache.c:195-204 | Taking out the tail |
| Cache.Cache.Splice | src/components/cache.c:213-217 | Bypassing a node in its chain leaves that chain without it and every other bucket alone |
| Cache.Cache.Unchain | src/components/cache.c:207-222 | The chain search finds the evicted node and splices out exactly it |
| Cache.Cache.RemoveLru | src/components/cache.c:190-232 | The tail leaves list, chain and count; the two-structure invariant holds again |
| Cache.Cache.Insert | src/components/cache.c:140-156 | A new node goes in front of its chain and of the list, and is counted |
| Cache.Cache.AddLocked | src/components/cache.c:95-161 | The linked structure does what the machine's add does, including eviction before a failed allocation, and the return code |
| Cache.Cache.Add | src/components/cache.c:95-161 | The object represents its log with the add appended |
| Cache.Cache.Search | src/components/cache.c:65-88 | The first chain node for a URL is its first node in the recency list, or there is none in either |
| Cache.Cache.GetLocked | src/components/cache.c:58-93 | The linked structure does what the machine's lookup does; only a hit moves a node and counts an access |
| Cache.Cache.Get | src/components/cache.c:58-93 | The answer is the machine's lookup, and a hit is the latest add in the object's log |
| Cache.Cache.DetachExpired | src/components/cache.c:259-270 | Taking out a node anywhere in the list |
| Cache.Cache.RemoveExpiredNode | src/components/cache.c:249-280 | One removal of the sweep keeps the two-structure invariant and finds where to go on |
| Cache.Cache.SweepBucket | src/components/cache.c:244-285 | The inner loop filters one chain by age and drops the same nodes from the list |
| Cache.Cache.SweepAll | src/components/cache.c:243-286 | Both loops together leave every chain and the list with exactly their fresh nodes in order |
| Cache.Cache.RemoveExpired | src/components/cache.c:234-293 | The sweep filters every chain and the list, the count follows, and the object represents its log with the sweep appended |
| Cache.Cache.FreeChain | src/components/cache.c:304-311 | The inner loop frees exactly the nodes of one bucket, none twice |
| Cache.Cache.Destroy | src/components/cache.c:295-312 | Every node of the cache is freed, and none twice |
| Cache.ChainFirstIsFind | src/components/cache.c:69-88 | Chain order and recency order agree on which node of a URL comes first |
| Cache.IndexedRemove | src/components/cache.c:212-219 | Removing a node from its chain leaves the chains holding exactly the remaining nodes |
| Cache.BypassedIsThreaded | src/components/cache.c:169-176 | When the neighbours point past a node, the rest is a doubly linked list with the right ends |
| Cache.FreshNodesRemove | src/components/cache.c:248-285 | Dropping an expired node changes nothing about the fresh ones |
| TaskQueue.TaskQueue.constructor | src/components/thread_pool.c:75-77 | The empty queue is valid |
| TaskQueue.TaskQueue.AddTask | src/components/thread_pool.c:118-151 | A positive socket with memory is appended at the end; otherwise -1 and no change |
| TaskQueue.TaskQueue.Take | src/components/thread_pool.c:33-41 | The first socket is taken, or null exactly when the queue is empty |
| TaskQueue.TaskQueue.Drain | src/components/thread_pool.c:170-177 | The walk closes what is left in order; everything taken followed by everything closed is everything added |
| ThreadPool.ReachedInv | src/components/thread_pool.c:14-188 | All protocol invariants hold after every interleaving, for any number of workers, and at most 200 are in the handler |
| ThreadPool.InitInv | src/components/proxy_server.c:66-71 | The system starts with every worker about to look, nothing accepted and the accept loop waiting; the invariants hold |
| ThreadPool.WakeupStep | src/components/thread_pool.c:20-43 | Every step keeps: a sleeper means the queue is no longer than the workers about to look at it |
| ThreadPool.NoLostWakeup | src/components/thread_pool.c:133-148 | For any number of workers and spurious wakeups, a sleeping worker in a reachable state means no shutdown and a worker about to look for each queued task |
| ThreadPool.SocketStep | src/components/thread_pool.c:33-59 | Every step keeps: accepted = closed + in flight for each number, and nothing is in flight twice |
| ThreadPool.OneOwner | src/components/thread_pool.c:33-59 | In a reachable state a socket is with at most one of: one worker, one queue entry, the accept loop |
| ThreadPool.SemaphoreStep | src/components/thread_pool.c:50-56 | Permits plus workers in the handler stay at MAX_CLIENTS |
| ThreadPool.SemaphoreNeverBlocks | src/components/thread_pool.c:50 | With at most MAX_CLIENTS workers a claimed task can always enter |
| ThreadPool.FifoStep | src/components/thread_pool.c:133-142 | Every step keeps: added = taken + drained + waiting, in order |
| ThreadPool.PhaseStep | src/components/thread_pool.c:153-178 | Every step keeps which workers have exited in which phase of the teardown |
| ThreadPool.WorkFalls | src/components/thread_pool.c:19-61 | Every worker step lowers the work measure |
| ThreadPool.WorkersEmptyTheQueue | src/components/thread_pool.c:19-61 | Without new arrivals the workers stop within the measure, with nothing queued and every accepted socket closed |
| ThreadPool.ShutdownNotStuck | src/components/thread_pool.c:153-178 | After the flag is set some thread can move until everything is freed |
| ThreadPool.ShutdownTerminates | src/components/thread_pool.c:153-188 | Every run after the flag is bounded, and where it ends all workers are gone, closes match accepts number by number, and served then drained is the queue order |
| ThreadPool.FreedAfterExit | src/components/proxy_server.c:91-108 | Cache and connection pool are freed only when every worker has exited and every socket is closed |
| ThreadPool.NothingElseBlocks | src/components/proxy_server.c:67-91 | After any run the waiting accept loop can take every number whose accepts are all closed, the teardown can begin, a sleeper can wake on its own, and an accepted socket can be refused and closed |
| ThreadPool.SocketCanBeQueued | src/components/thread_pool.c:118-151 | An accepted socket with a positive number can always be queued, behind what is queued, waking one sleeper if there is one |
| ThreadPool.WaitingIsServed | src/components/thread_pool.c:19-53 | From any state before shutdown the workers alone can bring a queued or taken socket into the handler |
| ThreadPool.AcceptedCanBeServed | src/components/thread_pool.c:19-151 | After any run of 1 to 200 workers, an accepted socket can be queued and then reach a worker's handler |
| PoolSpec.FdsAround | src/components/connection_pool.c:83-109 | Overwriting a slot changes the collected sockets at that slot only |
| PoolSpec.LiveUpdate | src/components/connection_pool.c:104-106 | How overwriting a slot changes the number of live slots |
| PoolSpec.OperationsKeepDistinct | src/components/connection_pool.c:73-214 | No operation puts a socket into two slots, for any socket number, with or without keep-alive, however often it is returned |
| PoolSlots.LookupSlots | src/components/connection_pool.c:83-109 | Slot by slot: the first idle connection for host and port younger than 30 seconds is handed out and stamped, each older one before it is closed in order and its slot emptied, every other slot is unchanged, nothing else is closed |
| PoolSlots.GiveBackSlots | src/components/connection_pool.c:124-178 | Slot by slot: no socket, no keep-alive, the socket's own slot, the first vacant slot with the host cut to 255 characters, or a full pool |
| PoolSlots.CleanSlots | src/components/connection_pool.c:192-207 | Exactly the idle connections not used for 30 seconds are closed, in order, and their slots emptied |
| PoolSlots.LiveSlots | src/components/connection_pool.c:224-228 | The sockets destroy closes are those of the live slots, in slot order, and the live count is their number |
| ConnectionPool.ConnectionPool.constructor | src/components/connection_pool.c:14-40 | 20 empty slots, count zero |
| ConnectionPool.ConnectionPool.CloseSlot | src/components/connection_pool.c:101-106 | Closing a slot logs its socket, empties it and keeps the count right |
| ConnectionPool.ConnectionPool.Get | src/components/connection_pool.c:73-121 | The scan hands out the first fresh idle match, closes exactly the stale idle matches before it in order, changes no other slot, else connects; live sockets stay pairwise distinct |
| ConnectionPool.ConnectionPool.Return | src/components/connection_pool.c:123-182 | The socket's own slot is marked idle, else the first vacant slot is filled, else the socket is closed; it is never in two slots |
| ConnectionPool.ConnectionPool.Cleanup | src/components/connection_pool.c:184-214 | Exactly the idle timed-out slots are emptied and their sockets closed |
| ConnectionPool.ConnectionPool.Destroy | src/components/connection_pool.c:216-239 | Every live socket is closed once, in slot order |
| Leases.ScanKeeps | src/components/connection_pool.c:83-109 | Closing idle slots keeps ownership and the socket balance |
| Leases.GiveUpKeeps | src/components/connection_pool.c:138-181 | Returning a leased socket keeps them, in all three cases |
| Leases.AbandonKeeps | src/components/proxy_server.c:303-338 | Closing a leased socket without telling the pool keeps them, leaving its slot dead and in use |
| Leases.RunInv | src/components/connection_pool.c:73-214 | Ownership and balance hold after every interleaving of callers, those that abandon sockets included |
| Reuse.ReuseIsSafe | src/components/connection_pool.c:86-98 | In every run a reused socket is leased to nobody, open, and was given back less than the timeout ago; if no socket in a slot was abandoned it is connected to this port and to this host as far as a slot stores it |
| Reuse.NoReuseMissed | src/components/connection_pool.c:83-109 | When no socket in a slot was abandoned and the scan hands out nothing, no open socket is idle, fresh and connected to that port and host |
| Reuse.TidyConserves | src/components/connection_pool.c:73-214 | If no socket in a slot was abandoned: open means exactly leased or in a slot, and a slot is in use exactly when its socket is leased |
| Reuse.ReuseSafeExactly | src/components/proxy_server.c:268-379 | For every run: reuse is safe throughout it, and after any further steps of callers that give sockets back, if and only if it abandons no socket that stands in a slot |
| Reuse.DeadSlotMisleads | src/components/connection_pool.c:142-151 | From any state with a dead slot there is a run that makes reuse unsafe |
| Reuse.AbandonedNumberMisleads | src/components/proxy_server.c:303-338 | For any two peers, the first with a name that fits a slot, a run of six steps after which a caller asking for the first is handed the socket connected to the second |
| Leases.CleanUpExact | src/components/connection_pool.c:184-214 | A cleanup keeps open exactly the leased sockets and those given back less than the timeout ago |
| Leases.GiveUpExact | src/components/connection_pool.c:138-178 | A returned socket is idle from then on, and is closed instead if and only if every slot holds another socket |
| Reuse.ReuseHostOnce | src/components/connection_pool.c:161-162 | When no socket in a slot was abandoned, one reuse leads to the host and port asked for if and only if the name the socket was connected under has at most 255 characters |
| Reuse.ReuseHostExact | src/components/connection_pool.c:86-162 | Reuse leads to the host and port asked for, in every run that abandons no socket in a slot, if and only if the name asked for does not have exactly 255 characters |
| Reuse.LongHostIsMixedUp | src/components/connection_pool.c:161-162 | For every longer name and any port, a run that hands its socket to a caller asking for the cut name |
| Leases.SocketsConserved | src/components/connection_pool.c:73-214 | Number by number, in every run: connects = closes + open; open means leased or in a slot; a slot is idle exactly when its socket is open and unleased; no socket is in two slots |
| Leases.DestroyBalances | src/components/connection_pool.c:216-229 | With nothing leased, destroying the pool closes every open socket exactly once, and nothing else if and only if no slot holds a closed socket |
| CText.AtoiDecimal | src/components/http_parser.c:207 | Reading a printed decimal gives the number back, whatever non-digit follows |
| CText.AtoiSigned | src/components/http_parser.c:207 | A sign in front of a printed number is read as a sign |
| CText.AtoiWhite | src/components/http_parser.c:207 | White space in front of a number makes no difference |
| CText.AtoiNothing | src/components/http_parser.c:207 | Text that starts with no number reads as 0 |
| CText.StrStrIs | src/components/http_parser.c:51 | strstr finds the first match that no NUL precedes |
| HttpParser.RequestLineRoundTrip | src/components/http_parser.c:50-88 | For every accepted buffer: the printed line ends at its first CRLF, reads back as the same words with the defaults, and printing that changes nothing |
| HttpParser.ReadThreeWords | src/components/http_parser.c:66-68 | Three strtok calls on three joined words return them |
| RequestText.ReadNoWord | src/components/http_parser.c:66-68 | A first line of spaces has no words |
| RequestText.ReadOneWord | src/components/http_parser.c:66-68 | A first line of one word has a method and nothing else |
| RequestText.ReadTwoWords | src/components/http_parser.c:66-68 | A first line of two words has a method, a path and no version |
| RequestText.PrintedWords | src/components/http_parser.c:154-157 | What is printed for three words, and GET / HTTP/1.1 for none |
| RequestText.PrintedFits | src/components/http_parser.c:154 | A buffer takes the text up to one byte less than its room |
| HttpParser.LinesReadBack | src/components/http_parser.c:95-135 | Lines without CRLF and NUL, none empty, printed and followed by an empty line are exactly what the scan finds |
| HttpParser.LinesAreThere | src/components/http_parser.c:95-135 | What the scan finds, printed again, stands in the buffer at that place, and no further line follows it: there an empty line starts or no CRLF comes before the next NUL |
| HttpParser.FirstHostMeaning | src/components/http_parser.c:124-130 | The host is the value of the first line naming Host, and missing if and only if no line does |
| RequestText.HeaderLineMeans | src/components/http_parser.c:112-126 | A line with any name, any number of spaces and any value gives that value exactly when the name is Host, letter by letter in either case |
| RequestText.EveryHeaderLine | src/components/http_parser.c:112-119 | Every line with a colon is such a line |
| RequestText.HostOfHeaders | src/components/http_parser.c:95-131 | The host is the value of the first Host line, spaces dropped |
| RequestText.NoHostInHeaders | src/components/http_parser.c:95-139 | Without a Host line there is no host |
| RequestText.RequestReads | src/components/http_parser.c:50-135 | The printed text of a whole request is read as the first line and the header lines it was printed from |
| HttpParser.ParsedRequest.constructor | src/components/http_parser.c:14-16 | All fields missing |
| HttpParser.ParsedRequest.ReadHeader | src/components/http_parser.c:112-126 | One header line gives its value with leading spaces dropped exactly when its name is Host ignoring case |
| HttpParser.ParsedRequest.ScanHeaders | src/components/http_parser.c:90-135 | The cursor loop computes the first Host among the header lines |
| HttpParser.ParsedRequest.Parse | src/components/http_parser.c:32-148 | Fails exactly on an empty buffer or one without a CRLF before any NUL; else the fields are the words, the first Host and port 80 |
| HttpParser.ParsedRequest.Unparse | src/components/http_parser.c:150-160 | Prints the request line with defaults, cut to the room |
| HttpParser.ParsePrintParse | src/components/http_parser.c:32-160 | Parse, print with room and parse again on the objects: same words, defaults filled in |
| HttpParser.ExtractHostPort | src/components/http_parser.c:190-217 | Host before the first colon, port in 1..65535 or 80 |
| HttpParser.HostPortRoundTrip | src/components/http_parser.c:190-217 | host:port printed and split gives both back; a bare host gets port 80 |
| HttpParser.OnlyPortsCount | src/components/http_parser.c:195-214 | Behind the colon only a number from 1 to 65535 counts, whatever follows it; nothing, no number, a negative one or one out of range give 80 |
| ProxyUrl.ParseRequestUrl | src/components/proxy_server.c:384-428 | The branches compute the declarative split of a target |
| ProxyUrl.TargetRoundTrip | src/components/proxy_server.c:384-428 | Printing host, port and path, with or without scheme, and splitting gives them back |
| ProxyUrl.PortlessRoundTrip | src/components/proxy_server.c:416-421 | Without a port the target splits at its path, port 80 |
| ProxyUrl.SlashlessTargets | src/components/proxy_server.c:398-428 | A target without a slash: host, the port printed behind a colon or 80, path /, with and without scheme |
| ProxyUrl.ColonInPath | src/components/proxy_server.c:402-421 | A colon behind the first slash starts no port |
| ProxyUrl.CutKeeps | src/components/proxy_server.c:280-289 | The inline path keeps 255 bytes |
| ProxyUrl.AbsoluteFormsAgree | src/components/proxy_server.c:279-290 | For absolute-form targets the inline extraction is the split path cut to 255 bytes |
| ProxyUrl.FormsAgree | src/components/proxy_server.c:280-290 | For every target the two agree, up to the cut, if and only if FormsMeet holds of it: absolute form, or no scheme inside and the first slash begins or ends it, or the scheme inside with no slash in the first seven bytes or a repetition longer than the cut |
| ProxyUrl.SchemeInside | src/components/proxy_server.c:281-286 | For targets with the scheme inside but not in front that fit the buffer they agree if and only if no slash stands in the first seven bytes |
| ProxyUrl.OriginFormsAgree | src/components/proxy_server.c:281-290 | For every origin-form target they agree if and only if the target does not contain the scheme or what is found behind its seventh byte repeats the target up to the cut; the latter never happens to targets that fit |
| ProxyUrl.OriginFormDiffers | src/components/proxy_server.c:281-290 | On /http:// the two give different paths |
| Receive.NulStops | src/components/proxy_server.c:344-345 | Stale bytes behind the terminator never influence the test |
| Receive.HeaderEndFound | src/components/proxy_server.c:343-346 | The test on the raw buffer tells whether the received bytes contain the terminator |
| Receive.CompleteMeans | src/components/proxy_server.c:343-346 | A response is complete once CR LF CR LF stands in it before any NUL |
| Receive.ReceiveResponse | src/components/proxy_server.c:310-361 | The loop stays in the buffer, terminates and returns the gathered bytes; finding the terminator always ends it because the size tests overlap |
| Receive.GatherMeaning | src/components/proxy_server.c:325-358 | Gathering stops at the first receive that completes the terminator, else when full or silent, and keeps every byte in order |
| Receive.GatherArrivals | src/components/proxy_server.c:325-358 | While everything fits, the response is what arrives up to the first receive that completes it or brings nothing |
| Receive.GatherCut | src/components/proxy_server.c:325-328 | A longer response is cut after 1048575 bytes |
| ProxyServer.CodesInjective | src/components/proxy_server.c:257-258 | A key is its characters' codes, so different keys stay different |
| ProxyServer.KeysMeet | src/components/proxy_server.c:257-260 | Two paths share a cache key if and only if they agree on their first 511 bytes |
| ProxyServer.Open | src/components/proxy_server.c:268-277 | A socket comes from the pool, or is connected by it, or by a second connect after a failure |
| ProxyServer.Exchange | src/components/proxy_server.c:303-361 | After a failed send or when nothing is received the socket is closed without the pool; else the buffer holds the gathered bytes |
| ProxyServer.Fetch | src/components/proxy_server.c:268-381 | After a miss: what the client is sent, the cache log gains, the slots become and which sockets are closed, for every failure of connect, send and receive |
| ProxyServer.Forward | src/components/proxy_server.c:231-382 | The same for the whole of forward_request_to_server, on the cache and connection pool objects |
| ProxyServer.AnswerMeaning | src/components/proxy_server.c:205-381 | After every run of the cache: the client gets exactly one thing before the close, an answer if and only if forwarding succeeds, and that is exactly the bytes the server sent or the latest add for the path up to 511 bytes, less than 300 seconds old; other paths share that key only if they agree that far |
| ProxyServer.ForwardIsServe | src/components/proxy_server.c:256-376 | With memory for the add, the log of one answered request, hit or miss, is one step of the driver in the stack-distance theorem, whatever time passes between lookup and add |
| ProxySockets.AnsweredSocketSettles | src/components/proxy_server.c:268-379 | The server socket of an answered miss ends up idle in the pool, or else closed by it, if and only if it is not socket 0 |
| ProxySockets.SocketZeroIsLost | src/components/proxy_server.c:268-379 | With socket 0 as its first connection an answered request leaves it neither in the pool nor closed |
| ProxySockets.DroppedSocketStays | src/components/proxy_server.c:303-338 | A socket closed by a failing request stays in a slot, in use, if and only if it came from a slot or an earlier failure had left its number in one |
| ProxySockets.DroppedSocketInSlot | src/components/proxy_server.c:303-307 | A pool with one idle socket for the host, and a failing send, that leave a closed socket in use |
| ProxySockets.DroppedNumberReturns | src/components/proxy_server.c:303-379 | After that a request to any host gets the same number: if it fails the slot keeps it, if it is answered the first host's next request is handed its socket |
| ProxySockets.MissIsLeaseRun | src/components/proxy_server.c:268-379 | What a request that misses the cache does to slots and sockets is a run of lease steps that leaves no lease behind |
| ProxyServer.HandleClientRequest | src/components/proxy_server.c:163-213 | Validation, parsing, forwarding and reply on the cache and pool objects: a refused request changes neither, an accepted one does what forwarding does, and the client socket is closed exactly once, last, after the right error if any |
| RequestHandling.MethodsLetThrough | src/components/http_parser.c:172-188 | Whatever follows, a first word is let through if and only if it is GET, POST, PUT, DELETE or HEAD |
| RequestHandling.OneWordIsRefused | src/components/http_parser.c:172-188 | A request without a space is refused |
| RequestHandling.AcceptedMeans | src/components/proxy_server.c:170-202 | Accepted: such a method, memory, and a line end before any NUL |
| RequestHandling.RefusalMeans | src/components/proxy_server.c:170-202 | A refused client is told nothing, 400 or 500 according to the reason, and closed |
| RequestHandling.PrintedIsHandled | src/components/proxy_server.c:187-205 | The printed text of a request is accepted, with the first Host of its headers and the second word of its first line |
| RequestHandling.ForwardedAs | src/components/proxy_server.c:205-260 | From the bytes of a request to what is forwarded: host and port of its first Host line, port 80 by default, and the path whole up to 511 bytes, whatever the method, the version and the other headers |
| RequestHandling.NoHostIsRefused | src/components/proxy_server.c:248-252 | Without a Host line nothing is looked up, sent or added and the client gets 502 |
| RequestHandling.MissSucceeds | src/components/proxy_server.c:268-381 | A miss is answered, and added to the cache, if and only if the pool has a socket or one of two connects succeeds, the send works and a byte arrives |
| RequestHandling.MissSocket | src/components/proxy_server.c:268-379 | Which socket a miss uses, and that it goes back to the pool on success and is dropped on failure |
| RequestHandling.HitStaysInside | src/components/proxy_server.c:260-266 | A hit sends the entry and leaves the pool and all sockets alone |
| RequestHandling.MissGoesOut | src/components/proxy_server.c:260-270 | A miss is looked up first and then does what the server's answer makes of it |
| Pages.PageOfPath | src/components/proxy_server.c:256-376 | Over every run of requests a client is sent its own server's bytes, or the last kept answer to a request whose path agrees on 511 bytes, kept less than 300 seconds ago |
| Pages.PagesKeepToServers | src/components/proxy_server.c:256-266 | For any set of sites, pages always come from the server asked for if and only if no two sites with the same path, as far as 511 bytes tell, are on different servers |
| Pages.OtherServersPage | src/components/proxy_server.c:256-266 | For any two sites on different servers that share a path, a run that sends one client the other's page |
| ProxySession.Start | src/components/proxy_server.c:33-45 | A fresh cache of 1024 places and a fresh pool of 20 slots stand where no request has left them |
| ProxySession.ServeNext | src/components/proxy_server.c:231-382 | Objects that stand where a run of requests has left them stand, after one more request, where the longer run leaves them, and the client is told what that run says |

## Left out

- Cache.Cache.Get: a hit stands for the node under the lock; its use after the unlock is not modelled, because another thread could free it by then.
- CText.AtoiDecimal: atoi is modelled on unbounded integers; its behaviour on numbers that do not fit an int is undefined in C.
- CacheStack.StackDistance: assumes memory and a non-empty answer on every miss, as the driver without failures; runs with failures and sweeps are covered by CacheRecency.NoEarlyEviction, whose converse does not hold once sweeps free room.
- HttpParser.ParsedRequest.Parse: allocation is assumed to succeed.
- Leases.RunInv: covers callers that return each socket at most once and for what they asked for, and numbers above 0; abandoning stands for the error exits (src/components/proxy_server.c:303-307 and 334-338) and for a return without keep-alive. Client sockets, which share the numbers, are not in these runs.
- ProxySockets.MissIsLeaseRun: leaves out socket 0, which ProxySockets.SocketZeroIsLost covers.
- ThreadPool.ShutdownTerminates: is about thread_pool_destroy begun between two turns of the accept loop. The source calls it from a signal handler, which may interrupt thread_pool_add_task while it holds the queue mutex; the theorem does not cover that. The failure path of thread_pool_create, which broadcasts without the mutex, is left out too.
- Guards against NULL arguments: pointers are never null in the model.
- Reclaiming memory: except in cache_destroy, nodes that leave a structure are simply no longer part of it.
- Sockets, DNS, connect, send, timeouts, logging and src/components/platform.c: foreign calls, present only as parameters.
- Host and path buffers of fixed size in extract_host_port and parse_request_url: the copies are unbounded in the model.
- ProxyServer.HandleClientRequest: an accepted request with a Host has a path; without one forward_request_to_server reads a null pointer.
- ProxyServer.Exchange: the text of the forwarded request, and what snprintf cuts from it beyond 4096 bytes, is not modelled; nor is the result of sending to the client, which the code only logs.
- ProxyServer.Forward: one request runs alone; other workers between its critical sections are in Leases and ThreadPool.
- Pages.PageOfPath: requests run one after the other; logs of interleaved workers are covered by CacheSpec.HitIsLatestAdd, which holds of every log.
- The signal handler, main and create_server_socket: process plumbing.
- ParsedHeader_set, ParsedHeader_get and the text of error pages: constants and formatting.
