/**
 * The response cache of src/components/cache.c on its heap: a chained hash table and a doubly
 * linked recency list threaded through the same nodes.  Every operation is proved to do to the
 * linked structure what CacheSpec.Step does to the recency list, so a cache object always
 * represents the run of its own history.
 */
module Cache {
  import opened CacheHash
  import opened CacheSpec
  import opened Wrappers

  type Bucket = b: nat | b < HASH_TABLE_SIZE

  class Node {
    const url: Url
    const data: seq<int>
    const stamp: int
    ghost const born: nat
    ghost const home: Bucket  // where the node belongs

    var accessCount: nat
    var next: Node?
    var lruPrev: Node?
    var lruNext: Node?

    constructor (url: Url, data: seq<int>, stamp: int, ghost born: nat)
      ensures this.url == url && this.data == data && this.stamp == stamp && this.born == born
      ensures Homed() && accessCount == 1
    {
      this.url, this.data, this.stamp, this.born, home := url, data, stamp, born, Hash(url);
      accessCount := 1;
    }

    ghost predicate Homed() {
      home == Hash(url)
    }

    ghost function AsEntry(): Entry {
      Entry(url, data, stamp, born)
    }
  }

  ghost function Entries(nodes: seq<Node>): (entries: seq<Entry>)
    ensures |entries| == |nodes|
    ensures forall i :: 0 <= i < |nodes| ==> entries[i] == nodes[i].AsEntry()
  {
    seq(|nodes|, i requires 0 <= i < |nodes| => nodes[i].AsEntry())
  }

  // The node at position i, null outside the sequence.
  ghost function At(nodes: seq<Node>, i: int): Node? {
    if 0 <= i < |nodes| then nodes[i] else null
  }

  ghost predicate Differ(nodes: seq<Node>, i: int, j: int) {
    0 <= i < |nodes| && 0 <= j < |nodes| && i != j ==> nodes[i] != nodes[j]
  }

  // The trigger keeps the solver from comparing every two positions it has heard of.
  ghost predicate NoRepeats(nodes: seq<Node>) {
    forall i, j {:trigger Differ(nodes, i, j)} :: Differ(nodes, i, j)
  }

  lemma RemoveAtNoRepeats(nodes: seq<Node>, k: nat)
    requires k < |nodes| && NoRepeats(nodes)
    ensures NoRepeats(RemoveAt(nodes, k))
    ensures forall n :: n in RemoveAt(nodes, k) <==> n in nodes && n != nodes[k]
  {
    var t := RemoveAt(nodes, k);
    assert forall i :: 0 <= i < |t| ==> t[i] == nodes[if i < k then i else i + 1];
    forall i, j
      ensures Differ(t, i, j)
    {
      assert Differ(nodes, if i < k then i else i + 1, if j < k then j else j + 1);
    }
    forall n
      ensures n in t <==> n in nodes && n != nodes[k]
    {
      if n in nodes && n != nodes[k] {
        var i :| 0 <= i < |nodes| && nodes[i] == n;
        assert n == t[if i < k then i else i - 1];
      }
      if n in t {
        var i :| 0 <= i < |t| && t[i] == n;
        assert Differ(nodes, if i < k then i else i + 1, k);
      }
    }
  }

  // prev and next are mutual inverses along `nodes`, and head and tail are its true ends.
  ghost predicate Threaded(nodes: seq<Node>, head: Node?, tail: Node?)
    reads nodes`lruPrev, nodes`lruNext
  {
    && NoRepeats(nodes)
    && head == At(nodes, 0)
    && tail == At(nodes, |nodes| - 1)
    && (forall i {:trigger nodes[i].lruPrev} :: 0 <= i < |nodes| ==> nodes[i].lruPrev == At(nodes, i - 1))
    && (forall i {:trigger nodes[i].lruNext} :: 0 <= i < |nodes| ==> nodes[i].lruNext == At(nodes, i + 1))
  }

  // The links of `nodes` once the neighbours of position k point past it.
  ghost predicate Bypassed(nodes: seq<Node>, k: nat)
    reads nodes`lruPrev, nodes`lruNext
  {
    && (forall i {:trigger nodes[i].lruPrev} :: 0 <= i < |nodes| && i != k ==>
          nodes[i].lruPrev == At(nodes, if i == k + 1 then k - 1 else i - 1))
    && (forall i {:trigger nodes[i].lruNext} :: 0 <= i < |nodes| && i != k ==>
          nodes[i].lruNext == At(nodes, if i == k - 1 then k + 1 else i + 1))
  }

  lemma BypassedIsThreaded(nodes: seq<Node>, k: nat, head: Node?, tail: Node?)
    requires k < |nodes| && NoRepeats(nodes) && Bypassed(nodes, k)
    requires head == At(nodes, if k == 0 then 1 else 0)
    requires tail == At(nodes, if k == |nodes| - 1 then k - 1 else |nodes| - 1)
    ensures Threaded(RemoveAt(nodes, k), head, tail)
  {
    RemoveAtNoRepeats(nodes, k);
    var t := RemoveAt(nodes, k);
    forall i | 0 <= i < |t|
      ensures t[i].lruPrev == At(t, i - 1) && t[i].lruNext == At(t, i + 1)
    {
      var j := if i < k then i else i + 1;
      assert t[i] == nodes[j];
      assert nodes[j].lruPrev == At(nodes, if j == k + 1 then k - 1 else j - 1);
      assert nodes[j].lruNext == At(nodes, if j == k - 1 then k + 1 else j + 1);
    }
  }

  ghost function Members(nodes: seq<Node>): set<Node> {
    set n | n in nodes
  }

  // `next` runs along `chain`, whose nodes are among `members`.
  ghost predicate Chained(chain: seq<Node>, head: Node?, members: set<Node>)
    requires forall i :: 0 <= i < |chain| ==> chain[i] in members
    reads members`next
  {
    && head == At(chain, 0)
    && forall i {:trigger chain[i].next} :: 0 <= i < |chain| ==> chain[i].next == At(chain, i + 1)
  }

  // Newest first, hence no node twice.
  ghost predicate BirthsFall(chain: seq<Node>) {
    forall i, j {:trigger chain[i].born, chain[j].born} ::
      0 <= i < j < |chain| ==> chain[i].born > chain[j].born
  }

  // Every node belongs to the bucket of its URL.
  ghost predicate AllHomed(nodes: seq<Node>) {
    forall n {:trigger n.Homed()} :: n in nodes ==> n.Homed()
  }

  // The chains hold exactly the members, each in its own bucket.
  ghost predicate Indexed(chains: seq<seq<Node>>, members: set<Node>) {
    && |chains| == HASH_TABLE_SIZE
    && (forall b, i {:trigger chains[b][i]} ::
          0 <= b < HASH_TABLE_SIZE && 0 <= i < |chains[b]| ==> chains[b][i] in members && chains[b][i].home == b)
    && (forall n {:trigger n in chains[n.home]} ::
          n in members ==> n in chains[n.home])
    && (forall b {:trigger BirthsFall(chains[b])} :: 0 <= b < HASH_TABLE_SIZE ==> BirthsFall(chains[b]))
  }

  lemma RemoveAtSubset(nodes: seq<Node>, k: nat)
    requires k < |nodes| && NoRepeats(nodes)
    ensures Members(RemoveAt(nodes, k)) == Members(nodes) - {nodes[k]}
    ensures AllHomed(nodes) ==> AllHomed(RemoveAt(nodes, k))
  {
    RemoveAtNoRepeats(nodes, k);
  }

  lemma BirthsFallNoRepeats(chain: seq<Node>)
    requires BirthsFall(chain)
    ensures NoRepeats(chain)
  {
    forall i, j
      ensures Differ(chain, i, j)
    {
      if 0 <= i < |chain| && 0 <= j < |chain| && i != j {
        assert chain[i].born != chain[j].born;
      }
    }
  }

  lemma BirthsFallRemoveAt(chain: seq<Node>, q: nat)
    requires BirthsFall(chain) && q < |chain|
    ensures BirthsFall(RemoveAt(chain, q))
  {
    var t := RemoveAt(chain, q);
    assert forall i :: 0 <= i < |t| ==> t[i] == chain[if i < q then i else i + 1];
  }

  lemma IndexedRemove(chains: seq<seq<Node>>, members: set<Node>, node: Node, q: nat)
    requires Indexed(chains, members)
    requires q < |chains[node.home]| && chains[node.home][q] == node
    ensures Indexed(chains[node.home := RemoveAt(chains[node.home], q)], members - {node})
  {
    var h := node.home;
    assert BirthsFall(chains[h]);
    var shorter := RemoveAt(chains[h], q);
    BirthsFallRemoveAt(chains[h], q);
    BirthsFallNoRepeats(chains[h]);
    RemoveAtNoRepeats(chains[h], q);
    var chains' := chains[h := shorter];
    forall b, i | 0 <= b < HASH_TABLE_SIZE && 0 <= i < |chains'[b]|
      ensures chains'[b][i] in members - {node} && chains'[b][i].home == b
    {
      if b == h {
        assert shorter[i] in shorter;
        assert shorter[i] == chains[h][if i < q then i else i + 1];
      } else {
        assert chains'[b][i] == chains[b][i];
      }
    }
    forall n | n in members - {node}
      ensures n in chains'[n.home]
    {
      assert n in chains[n.home];
    }
    forall b | 0 <= b < HASH_TABLE_SIZE
      ensures BirthsFall(chains'[b])
    {
      assert b != h ==> BirthsFall(chains[b]);
    }
  }

  lemma IndexedPush(chains: seq<seq<Node>>, members: set<Node>, node: Node)
    requires Indexed(chains, members)
    requires forall n :: n in members ==> n.born < node.born
    ensures Indexed(chains[node.home := [node] + chains[node.home]], members + {node})
  {
    var h := node.home;
    var longer := [node] + chains[h];
    assert BirthsFall(chains[h]);
    assert forall i :: 0 < i < |longer| ==> longer[i] == chains[h][i - 1];
    var chains' := chains[h := longer];
    forall n | n in members + {node}
      ensures n in chains'[n.home]
    {
      assert n != node ==> n in chains[n.home];
    }
    forall b | 0 <= b < HASH_TABLE_SIZE
      ensures BirthsFall(chains'[b])
    {
      assert b != h ==> BirthsFall(chains[b]);
    }
  }

  lemma EntriesRemoveAt(nodes: seq<Node>, k: nat)
    requires k < |nodes|
    ensures Entries(RemoveAt(nodes, k)) == RemoveAt(Entries(nodes), k)
    ensures Entries(ToFront(nodes, k)) == ToFront(Entries(nodes), k)
  {
  }

  lemma EntriesRoom(nodes: seq<Node>, s: State)
    requires Entries(nodes) == s.lru && 0 < s.capacity
    ensures Entries(if |nodes| >= s.capacity then nodes[..|nodes| - 1] else nodes) == MakeRoom(s)
  {
  }

  lemma BirthsBelow(nodes: seq<Node>, s: State)
    requires Entries(nodes) == MakeRoom(s) && Bounded(s.lru, s.attempts, s.clock)
    ensures forall n :: n in nodes ==> n.born < s.attempts
  {
    forall n | n in nodes
      ensures n.born < s.attempts
    {
      var i :| 0 <= i < |nodes| && nodes[i] == n;
      assert MakeRoom(s)[i] == n.AsEntry() && s.lru[i] == n.AsEntry();
    }
  }

  lemma ToFrontSameMembers(nodes: seq<Node>, k: nat)
    requires k < |nodes|
    ensures Members(ToFront(nodes, k)) == Members(nodes)
    ensures AllHomed(nodes) ==> AllHomed(ToFront(nodes, k))
  {
    ToFrontMembers(nodes, k);
  }

  // ---------------------------------------------------------------- filtering by age

  ghost predicate FreshNode(n: Node, now: int) {
    now - n.stamp < CACHE_EXPIRY_TIME
  }

  ghost function FreshNodes(nodes: seq<Node>, now: int): seq<Node> {
    if nodes == [] then []
    else
      var n := |nodes| - 1;
      FreshNodes(nodes[..n], now) + if FreshNode(nodes[n], now) then [nodes[n]] else []
  }

  ghost predicate FreshUpTo(nodes: seq<Node>, q: nat, now: int) {
    q <= |nodes| && forall i :: 0 <= i < q ==> FreshNode(nodes[i], now)
  }

  ghost predicate AllFresh(nodes: seq<Node>, now: int) {
    FreshUpTo(nodes, |nodes|, now)
  }

  lemma FreshUpToNext(nodes: seq<Node>, q: nat, now: int)
    requires q < |nodes| && FreshUpTo(nodes, q, now) && FreshNode(nodes[q], now)
    ensures FreshUpTo(nodes, q + 1, now)
  {
  }

  lemma FreshUpToRemove(nodes: seq<Node>, q: nat, now: int)
    requires q < |nodes| && FreshUpTo(nodes, q, now)
    ensures FreshUpTo(RemoveAt(nodes, q), q, now)
  {
    assert forall i :: 0 <= i < q ==> RemoveAt(nodes, q)[i] == nodes[i];
  }

  lemma {:induction false} FreshNodesConcat(a: seq<Node>, b: seq<Node>, now: int)
    ensures FreshNodes(a + b, now) == FreshNodes(a, now) + FreshNodes(b, now)
  {
    if b == [] {
      assert a + b == a;
    } else {
      var n := |b| - 1;
      FreshNodesConcat(a, b[..n], now);
      assert (a + b)[..|a| + n] == a + b[..n];
    }
  }

  lemma FreshNodesRemove(nodes: seq<Node>, k: nat, now: int)
    requires k < |nodes| && !FreshNode(nodes[k], now)
    ensures FreshNodes(RemoveAt(nodes, k), now) == FreshNodes(nodes, now)
  {
    var a, b := nodes[..k], nodes[k + 1..];
    assert nodes == (a + [nodes[k]]) + b;
    FreshNodesConcat(a + [nodes[k]], b, now);
    FreshNodesConcat(a, b, now);
    assert (a + [nodes[k]])[..k] == a;
  }

  lemma {:induction false} FreshNodesAll(nodes: seq<Node>, now: int)
    requires AllFresh(nodes, now)
    ensures FreshNodes(nodes, now) == nodes
  {
    if nodes != [] {
      FreshNodesAll(nodes[..|nodes| - 1], now);
    }
  }

  lemma {:induction false} FreshNodesEntries(nodes: seq<Node>, now: int)
    ensures Entries(FreshNodes(nodes, now)) == FreshOnly(Entries(nodes), now)
  {
    if nodes != [] {
      var n := |nodes| - 1;
      FreshNodesEntries(nodes[..n], now);
      assert Entries(nodes)[..n] == Entries(nodes[..n]);
    }
  }

  lemma {:induction false} FreshNodesAreFresh(nodes: seq<Node>, now: int)
    ensures AllFresh(FreshNodes(nodes, now), now)
  {
    if nodes != [] {
      FreshNodesAreFresh(nodes[..|nodes| - 1], now);
    }
  }

  lemma AllChainsFresh(chains: seq<seq<Node>>, nodes: seq<Node>, was: seq<seq<Node>>, now: int)
    requires Indexed(chains, Members(nodes)) && |was| == |chains|
    requires forall b :: 0 <= b < HASH_TABLE_SIZE ==> chains[b] == FreshNodes(was[b], now)
    ensures AllFresh(nodes, now)
  {
    forall i | 0 <= i < |nodes|
      ensures FreshNode(nodes[i], now)
    {
      var n := nodes[i];
      assert n in Members(nodes);
      assert n in chains[n.home];
      FreshNodesAreFresh(was[n.home], now);
    }
  }

  lemma ApartNoRepeats(a: seq<Node>, b: seq<Node>, bucket: nat)
    requires NoRepeats(a) && NoRepeats(b)
    requires forall n :: n in a ==> n.home < bucket
    requires forall i :: 0 <= i < |b| ==> b[i].home == bucket
    ensures NoRepeats(a + b)
  {
    var t := a + b;
    forall i, j
      ensures Differ(t, i, j)
    {
      assert Differ(a, i, j) && Differ(b, i - |a|, j - |a|);
      assert 0 <= i < |a| ==> t[i] in a;
      assert 0 <= j < |a| ==> t[j] in a;
    }
  }

  // The first chain node for a URL is its first node in recency order: the two orders agree.
  lemma ChainFirstIsFind(chain: seq<Node>, nodes: seq<Node>, url: Url, p: nat)
    requires NewestFirst(Entries(nodes)) && DistinctBirths(Entries(nodes)) && BirthsFall(chain)
    requires forall n :: n in nodes && n.url == url ==> n in chain
    requires p < |chain| && chain[p] in nodes && chain[p].url == url
    requires forall i :: 0 <= i < p ==> chain[i].url != url
    ensures Find(Entries(nodes), url) < |nodes|
    ensures nodes[Find(Entries(nodes), url)] == chain[p]
  {
    var entries := Entries(nodes);
    var j :| 0 <= j < |nodes| && nodes[j] == chain[p];
    assert entries[j].url == url;
    var k := Find(entries, url);
    assert entries[k].url == url;
    assert nodes[k] in chain;
    var q :| 0 <= q < |chain| && chain[q] == nodes[k];
    assert p <= q;
    assert entries[k].born <= entries[j].born;
  }

  lemma NotInChainIsAbsent(chain: seq<Node>, nodes: seq<Node>, url: Url)
    requires forall n :: n in nodes && n.url == url ==> n in chain
    requires forall i :: 0 <= i < |chain| ==> chain[i].url != url
    ensures Find(Entries(nodes), url) == |nodes|
  {
    forall k | 0 <= k < |nodes|
      ensures Entries(nodes)[k].url != url
    {
      assert nodes[k] in nodes;
    }
  }

  lemma ChainHoldsUrl(chains: seq<seq<Node>>, nodes: seq<Node>, url: Url)
    requires Indexed(chains, Members(nodes)) && AllHomed(nodes)
    ensures forall n :: n in nodes && n.url == url ==> n in chains[Hash(url)]
  {
    forall n | n in nodes && n.url == url
      ensures n in chains[Hash(url)]
    {
      assert n.Homed() && n in Members(nodes);
      assert n in chains[n.home];
    }
  }

  class Cache {
    const table: array<Node?>
    const maxSize: nat
    var lruHead: Node?
    var lruTail: Node?
    var currentSize: int

    ghost const start: int
    ghost var history: seq<Op>
    ghost var lru: seq<Node>
    ghost var chains: seq<seq<Node>>

    // Every bucket heads the chain of its nodes.
    ghost predicate Buckets(members: set<Node>)
      reads this`chains, table, members`next
    {
      && table.Length == HASH_TABLE_SIZE
      && Indexed(chains, members)
      && forall b {:trigger chains[b]} :: 0 <= b < HASH_TABLE_SIZE ==> Chained(chains[b], table[b], members)
    }

    // The two-structure heap invariant.
    ghost predicate Linked()
      reads this`lruHead, this`lruTail, this`currentSize, this`lru, this`chains, table, Members(lru)
    {
      && AllHomed(lru)
      && Buckets(Members(lru))
      && Threaded(lru, lruHead, lruTail)
      && currentSize == |lru|
    }

    // The state the log of operations leads to.
    ghost function View(): State
      reads this`history
    {
      Run(maxSize, start, history)
    }

    ghost predicate Valid()
      reads this, table, lru
    {
      && 0 < maxSize
      && Linked()
      && Timely(start, history)
      && Entries(lru) == View().lru
    }

    constructor (capacity: nat, ghost start: int)
      requires 0 < capacity
      ensures Valid() && fresh(table)
      ensures maxSize == capacity && this.start == start && history == []
    {
      table := new Node?[HASH_TABLE_SIZE](_ => null);
      maxSize := capacity;
      lruHead, lruTail, currentSize := null, null, 0;
      this.start, history, lru := start, [], [];
      chains := seq(HASH_TABLE_SIZE, _ => []);
    }

    // The first half of cache_move_to_front; the caller has ruled out the head.
    method Detach(node: Node, ghost k: nat)
      requires Threaded(lru, lruHead, lruTail)
      requires 0 < k < |lru| && lru[k] == node
      modifies this`lruTail, this`lru, lru`lruPrev, lru`lruNext
      ensures lru == RemoveAt(old(lru), k)
      ensures Threaded(lru, lruHead, lruTail)
    {
      assert node.lruPrev == At(lru, k - 1) && node.lruNext == At(lru, k + 1);
      assert Differ(lru, k, k - 1) && Differ(lru, k, k + 1);
      if node.lruPrev != null {
        node.lruPrev.lruNext := node.lruNext;
      }
      if node.lruNext != null {
        node.lruNext.lruPrev := node.lruPrev;
      } else {
        lruTail := node.lruPrev;
      }
      assert Bypassed(lru, k) by {
        forall i | 0 <= i < |lru| && i != k
          ensures lru[i].lruPrev == At(lru, if i == k + 1 then k - 1 else i - 1)
          ensures lru[i].lruNext == At(lru, if i == k - 1 then k + 1 else i + 1)
        {
          assert Differ(lru, i, k - 1) && Differ(lru, i, k + 1);
          assert old(lru[i].lruPrev) == At(lru, i - 1) && old(lru[i].lruNext) == At(lru, i + 1);
        }
      }
      BypassedIsThreaded(lru, k, lruHead, lruTail);
      lru := RemoveAt(lru, k);
    }

    // Links a node in front, as both cache_add and cache_move_to_front do.
    method AttachFront(node: Node)
      requires Threaded(lru, lruHead, lruTail) && node !in lru
      modifies this`lruHead, this`lruTail, this`lru, lru`lruPrev, node`lruPrev, node`lruNext
      ensures lru == [node] + old(lru)
      ensures Threaded(lru, lruHead, lruTail)
    {
      node.lruPrev := null;
      node.lruNext := lruHead;
      if lruHead != null {
        lruHead.lruPrev := node;
      } else {
        lruTail := node;
      }
      lruHead := node;
      ghost var t := [node] + lru;
      forall i, j
        ensures Differ(t, i, j)
      {
        assert Differ(lru, i - 1, j - 1);
      }
      forall i | 0 <= i < |t|
        ensures t[i].lruPrev == At(t, i - 1) && t[i].lruNext == At(t, i + 1)
      {
        if i > 0 {
          assert t[i] == lru[i - 1] && Differ(lru, 0, i - 1);
          assert old(lru[i - 1].lruPrev) == At(lru, i - 2) && old(lru[i - 1].lruNext) == At(lru, i);
        }
      }
      lru := t;
    }

    // cache_create.
    static method Create(ghost start: int) returns (cache: Cache)
      ensures cache.Valid() && fresh(cache) && fresh(cache.table)
      ensures cache.maxSize == 1024 && cache.start == start && cache.history == []
    {
      cache := new Cache(CACHE_SIZE, start);
    }

    method MoveToFront(node: Node, ghost k: nat)
      requires Threaded(lru, lruHead, lruTail)
      requires k < |lru| && lru[k] == node
      modifies this`lruHead, this`lruTail, this`lru, lru`lruPrev, lru`lruNext
      ensures lru == ToFront(old(lru), k)
      ensures Threaded(lru, lruHead, lruTail)
    {
      if node == lruHead {
        assert Differ(lru, 0, k);
        assert ToFront(lru, 0) == lru;
        return;
      }
      RemoveAtNoRepeats(lru, k);
      Detach(node, k);
      AttachFront(node);
    }

    // Splices `node`, at position q of its chain, out of that chain.
    method Splice(bucket: nat, prev: Node?, node: Node, ghost q: nat, ghost members: set<Node>)
      requires bucket < table.Length && bucket < |chains| && NoRepeats(chains[bucket])
      requires q < |chains[bucket]| && chains[bucket][q] == node
      requires prev == At(chains[bucket], q - 1)
      requires forall i :: 0 <= i < |chains[bucket]| ==> chains[bucket][i] in members
      requires Chained(chains[bucket], table[bucket], members)
      modifies table, members`next
      ensures forall n :: n in members && n != prev ==> n.next == old(n.next)
      ensures forall i :: 0 <= i < |chains[bucket]| - 1 ==> RemoveAt(chains[bucket], q)[i] in members
      ensures Chained(RemoveAt(chains[bucket], q), table[bucket], members)
      ensures forall b :: 0 <= b < table.Length && b != bucket ==> table[b] == old(table[b])
    {
      ghost var chain := chains[bucket];
      ghost var rest := RemoveAt(chain, q);
      assert node.next == At(chain, q + 1);
      if prev != null {
        prev.next := node.next;
      } else {
        table[bucket] := node.next;
      }
      forall i | 0 <= i < |rest|
        ensures rest[i] in members && rest[i].next == At(rest, i + 1)
      {
        var j := if i < q then i else i + 1;
        assert rest[i] == chain[j] && Differ(chain, j, q - 1);
        assert old(chain[j].next) == At(chain, j + 1);
      }
    }

    method Unlink(bucket: nat, prev: Node?, node: Node, ghost q: nat, ghost members: set<Node>)
      requires Buckets(members)
      requires bucket < HASH_TABLE_SIZE && q < |chains[bucket]| && chains[bucket][q] == node
      requires prev == At(chains[bucket], q - 1)
      modifies table, this`chains, members`next
      ensures Buckets(members - {node})
      ensures chains == old(chains)[bucket := RemoveAt(old(chains)[bucket], q)]
    {
      IndexedRemove(chains, members, node, q);
      assert BirthsFall(chains[bucket]);
      BirthsFallNoRepeats(chains[bucket]);
      Splice(bucket, prev, node, q, members);
      ghost var was := chains;
      chains := chains[bucket := RemoveAt(chains[bucket], q)];
      forall b | 0 <= b < HASH_TABLE_SIZE
        ensures Chained(chains[b], table[b], members - {node})
      {
        if b != bucket {
          assert old(Chained(was[b], table[b], members));
          forall i | 0 <= i < |was[b]|
            ensures was[b][i].next == At(was[b], i + 1)
          {
            assert old(was[b][i].next) == At(was[b], i + 1);
          }
        }
      }
    }

    // The list half of cache_remove_lru.
    method DetachLast()
      requires Threaded(lru, lruHead, lruTail) && lru != []
      modifies this`lruHead, this`lruTail, this`lru, lru`lruNext
      ensures lru == RemoveAt(old(lru), |old(lru)| - 1)
      ensures Threaded(lru, lruHead, lruTail)
    {
      var lruNode := lruTail;
      assert lruNode.lruPrev == At(lru, |lru| - 2);
      if lruNode.lruPrev != null {
        lruNode.lruPrev.lruNext := null;
        lruTail := lruNode.lruPrev;
      } else {
        lruHead := null;
        lruTail := null;
      }
      ghost var k := |lru| - 1;
      assert Bypassed(lru, k) by {
        forall i | 0 <= i < k
          ensures lru[i].lruPrev == At(lru, i - 1) && lru[i].lruNext == At(lru, if i == k - 1 then k + 1 else i + 1)
        {
          assert Differ(lru, i, k - 1) && Differ(lru, i, k + 1);
          assert old(lru[i].lruPrev) == At(lru, i - 1) && old(lru[i].lruNext) == At(lru, i + 1);
        }
      }
      BypassedIsThreaded(lru, k, lruHead, lruTail);
      lru := RemoveAt(lru, |lru| - 1);
    }

    method BucketOf(node: Node) returns (bucket: nat)
      requires node.Homed()
      ensures bucket == node.home
    {
      bucket := CacheHash.CacheHash(node.url);
    }

    // The table half of cache_remove_lru: search the chain for the node, then splice it out.
    method Unchain(node: Node, ghost members: set<Node>)
      requires Buckets(members) && node in members && node.Homed()
      modifies table, this`chains, members`next
      ensures Buckets(members - {node})
    {
      var bucket := BucketOf(node);
      var current := table[bucket];
      var prev: Node? := null;
      ghost var q := 0;
      ghost var chain := chains[bucket];
      assert node in chains[node.home];
      while current != null
        invariant q <= |chain| && current == At(chain, q) && prev == At(chain, q - 1)
        invariant forall i :: 0 <= i < q ==> chain[i] != node
        invariant Buckets(members) && chains == old(chains)
        decreases |chain| - q
      {
        if current == node {
          Unlink(bucket, prev, current, q, members);
          return;
        }
        assert Chained(chains[bucket], table[bucket], members);
        assert chain[q].next == At(chain, q + 1);
        prev := current;
        current := current.next;
        q := q + 1;
      }
      assert false;
    }

    // cache_remove_lru: the tail leaves both structures.
    method RemoveLru()
      requires Linked() && lru != []
      modifies this`lruHead, this`lruTail, this`currentSize, this`lru, this`chains, table
      modifies lru`lruNext, lru`next
      ensures Linked()
      ensures lru == RemoveAt(old(lru), |old(lru)| - 1)
    {
      var lruNode := lruTail;
      ghost var members := Members(lru);
      RemoveAtSubset(lru, |lru| - 1);
      assert lruNode in lru && lruNode.Homed();
      DetachLast();
      assert Buckets(members);
      Unchain(lruNode, members);
      assert Threaded(lru, lruHead, lruTail);
      currentSize := currentSize - 1;
    }

    // Puts a new node in front of the chain of its URL.
    method AttachToChain(node: Node, ghost members: set<Node>)
      requires Buckets(members) && node !in members && node.Homed()
      requires forall n :: n in members ==> n.born < node.born
      modifies this`chains, table, node`next
      ensures Buckets(members + {node})
    {
      var bucket := BucketOf(node);
      IndexedPush(chains, members, node);
      ghost var was := chains;
      ghost var chain := [node] + was[bucket];
      node.next := table[bucket];
      table[bucket] := node;
      chains := chains[bucket := chain];
      forall b | 0 <= b < HASH_TABLE_SIZE
        ensures Chained(chains[b], table[b], members + {node})
      {
        assert old(Chained(was[b], table[b], members));
        forall i | 0 <= i < |was[b]|
          ensures was[b][i].next == At(was[b], i + 1)
        {
          assert old(was[b][i].next) == At(was[b], i + 1);
        }
        if b == bucket {
          assert forall i :: 0 < i < |chain| ==> chain[i] == was[b][i - 1];
        }
      }
    }

    // Puts a new node in front of its chain and in front of the list.
    method Insert(node: Node)
      requires Linked() && node !in lru && node.Homed()
      requires forall n :: n in lru ==> n.born < node.born
      modifies this`lruHead, this`lruTail, this`currentSize, this`lru, this`chains, table
      modifies lru`lruPrev, node`lruPrev, node`lruNext, node`next
      ensures Linked()
      ensures lru == [node] + old(lru)
    {
      ghost var members := Members(lru) + {node};
      AttachToChain(node, Members(lru));
      assert Threaded(lru, lruHead, lruTail);
      AttachFront(node);
      assert Buckets(members);
      assert Members(lru) == members;
      currentSize := currentSize + 1;
    }

    lemma ViewWellFormed()
      requires Valid()
      ensures WellFormed(View()) && View().capacity == maxSize && View().attempts == Attempts(history)
    {
      RunWellFormed(maxSize, start, history);
    }

    // The room cache_add makes before it allocates.
    method Evict()
      requires Linked() && 0 < maxSize
      modifies this`lruHead, this`lruTail, this`currentSize, this`lru, this`chains, table
      modifies lru`lruNext, lru`next
      ensures Linked()
      ensures lru == if |old(lru)| >= maxSize then old(lru)[..|old(lru)| - 1] else old(lru)
    {
      if currentSize >= maxSize {
        RemoveLru();
      }
    }

    // The node cache_add fills and links once its allocations have succeeded.
    method Link(url: Url, data: seq<int>, now: int, ghost born: nat)
      requires Linked()
      requires forall n :: n in lru ==> n.born < born
      modifies this`lruHead, this`lruTail, this`currentSize, this`lru, this`chains, table, lru`lruPrev
      ensures Linked()
      ensures Entries(lru) == [Entry(url, data, now, born)] + Entries(old(lru))
      ensures fresh(lru[0]) && lru == [lru[0]] + old(lru) && lru[0].accessCount == 1
    {
      var node := new Node(url, data, now, born);
      Insert(node);
    }

    // The body of cache_add.  Eviction comes before the allocations, so a failed add may
    // still evict.
    method AddLocked(url: Url, data: seq<int>, now: int, allocOk: bool, ghost s: State) returns (code: int)
      requires Linked() && Entries(lru) == s.lru
      requires s.capacity == maxSize && 0 < maxSize && Bounded(s.lru, s.attempts, s.clock)
      modifies this`lruHead, this`lruTail, this`currentSize, this`lru, this`chains, table, Members(lru)
      ensures Linked() && fresh(Members(lru) - old(Members(lru)))
      ensures Entries(lru) == Step(s, Op.Add(url, data, now, allocOk)).lru
      ensures code == if data != [] && allocOk then 0 else -1
      ensures code == 0 ==> lru[0].accessCount == 1
    {
      if data == [] {
        return -1;
      }
      EntriesRoom(lru, s);
      Evict();
      if !allocOk {
        return -1;
      }
      BirthsBelow(lru, s);
      Link(url, data, now, s.attempts);
      code := 0;
    }

    // Puts the operation on the log once the structure has followed it.
    ghost method Record(op: Op)
      requires 0 < maxSize && Linked() && Timely(start, history + [op])
      requires Entries(lru) == Step(View(), op).lru
      modifies this`history
      ensures Valid() && history == old(history) + [op]
    {
      RunSnoc(maxSize, start, history, op);
      history := history + [op];
      assert Linked();
    }

    method Add(url: Url, data: seq<int>, now: int, allocOk: bool) returns (code: int)
      requires Valid() && Timely(start, history + [Op.Add(url, data, now, allocOk)])
      modifies this, table, Members(lru)
      ensures Valid() && fresh(Members(lru) - old(Members(lru)))
      ensures history == old(history) + [Op.Add(url, data, now, allocOk)]
      ensures code == if data != [] && allocOk then 0 else -1
      ensures code == 0 ==> lru[0].accessCount == 1
    {
      ViewWellFormed();
      code := AddLocked(url, data, now, allocOk, View());
      Record(Op.Add(url, data, now, allocOk));
    }

    // The chain search of cache_get.
    method Search(url: Url) returns (node: Node?)
      requires Linked() && NewestFirst(Entries(lru)) && DistinctBirths(Entries(lru))
      ensures node == At(lru, Find(Entries(lru), url))
    {
      var bucket := CacheHash.CacheHash(url);
      node := table[bucket];
      ghost var p := 0;
      ghost var chain := chains[bucket];
      ChainHoldsUrl(chains, lru, url);
      assert Chained(chain, node, Members(lru)) && BirthsFall(chain);
      while node != null
        invariant p <= |chain| && node == At(chain, p)
        invariant forall i :: 0 <= i < p ==> chain[i].url != url
        decreases |chain| - p
      {
        if node.url == url {
          ChainFirstIsFind(chain, lru, url, p);
          return;
        }
        assert chain[p].next == At(chain, p + 1);
        node := node.next;
        p := p + 1;
      }
      NotInChainIsAbsent(chain, lru, url);
    }

    // What a hit does to its node.
    method Touch(node: Node, ghost k: nat)
      requires Linked() && k < |lru| && lru[k] == node
      modifies this`lruHead, this`lruTail, this`lru, lru`lruPrev, lru`lruNext, node`accessCount
      ensures Linked() && Members(lru) == old(Members(lru))
      ensures Entries(lru) == ToFront(Entries(old(lru)), k)
      ensures node.accessCount == old(node.accessCount) + 1
    {
      ghost var members := Members(lru);
      EntriesRemoveAt(lru, k);
      ToFrontSameMembers(lru, k);
      MoveToFront(node, k);
      assert Buckets(members);
      node.accessCount := node.accessCount + 1;
      assert Threaded(lru, lruHead, lruTail) && Buckets(members);
    }

    // The body of cache_get.  The answer stands for the node as it is under the lock.
    method GetLocked(url: Url, now: int, ghost s: State) returns (hit: Node?)
      requires Linked() && Entries(lru) == s.lru && NewestFirst(s.lru) && DistinctBirths(s.lru)
      modifies this`lruHead, this`lruTail, this`lru, lru`lruPrev, lru`lruNext, lru`accessCount
      ensures Linked() && Members(lru) == old(Members(lru))
      ensures Entries(lru) == Step(s, Op.Get(url, now)).lru
      ensures Lookup(s, url, now) == if hit == null then None else Some(hit.AsEntry())
      ensures hit != null ==> hit in old(lru) && hit.accessCount == old(hit.accessCount) + 1
      ensures forall n :: n in old(lru) && n != hit ==> n.accessCount == old(n.accessCount)
    {
      hit := Search(url);
      if hit != null {
        if now - hit.stamp < CACHE_EXPIRY_TIME {
          Touch(hit, Find(s.lru, url));
        } else {
          hit := null;
        }
      }
    }

    // cache_get: a hit is the node of the most recent successful add for the URL.
    method Get(url: Url, now: int) returns (hit: Node?)
      requires Valid() && Timely(start, history + [Op.Get(url, now)])
      modifies this, Members(lru)
      ensures Valid() && Members(lru) == old(Members(lru))
      ensures history == old(history) + [Op.Get(url, now)]
      ensures Lookup(old(View()), url, now) == if hit == null then None else Some(hit.AsEntry())
      ensures hit != null ==> Some(hit.AsEntry()) == Latest(old(history), url) && Fresh(hit.AsEntry(), now)
      ensures hit != null ==> hit in old(lru) && hit.accessCount == old(hit.accessCount) + 1
      ensures forall n :: n in old(lru) && n != hit ==> n.accessCount == old(n.accessCount)
    {
      ViewWellFormed();
      ghost var s := View();
      if Lookup(s, url, now).Some? {
        HitIsLatestAdd(maxSize, start, history, url, now);
      }
      hit := GetLocked(url, now, s);
      Record(Op.Get(url, now));
    }

    // The list half of removing an expired node: it may stand anywhere.
    method DetachExpired(node: Node, ghost k: nat)
      requires Threaded(lru, lruHead, lruTail)
      requires k < |lru| && lru[k] == node
      modifies this`lruHead, this`lruTail, this`lru, lru`lruPrev, lru`lruNext
      ensures lru == RemoveAt(old(lru), k)
      ensures Threaded(lru, lruHead, lruTail)
    {
      PassForward(node, k);
      PassBackward(node, k);
      BypassedIsThreaded(lru, k, lruHead, lruTail);
      lru := RemoveAt(lru, k);
    }

    // Points the neighbour in front of a node, or the head, past it.
    method PassForward(node: Node, ghost k: nat)
      requires Threaded(lru, lruHead, lruTail)
      requires k < |lru| && lru[k] == node
      modifies this`lruHead, lru`lruNext
      ensures forall i {:trigger lru[i].lruNext} :: 0 <= i < |lru| && i != k ==>
                lru[i].lruNext == At(lru, if i == k - 1 then k + 1 else i + 1)
      ensures lruHead == At(lru, if k == 0 then 1 else 0) && node.lruNext == At(lru, k + 1)
    {
      assert node.lruPrev == At(lru, k - 1) && node.lruNext == At(lru, k + 1);
      assert Differ(lru, k, k - 1);
      if node.lruPrev != null {
        node.lruPrev.lruNext := node.lruNext;
      } else {
        lruHead := node.lruNext;
      }
      forall i | 0 <= i < |lru| && i != k
        ensures lru[i].lruNext == At(lru, if i == k - 1 then k + 1 else i + 1)
      {
        assert Differ(lru, i, k - 1) && old(lru[i].lruNext) == At(lru, i + 1);
      }
    }

    // Points the neighbour behind a node, or the tail, past it.
    method PassBackward(node: Node, ghost k: nat)
      requires NoRepeats(lru) && lruTail == At(lru, |lru| - 1)
      requires forall i {:trigger lru[i].lruPrev} :: 0 <= i < |lru| ==> lru[i].lruPrev == At(lru, i - 1)
      requires k < |lru| && lru[k] == node && node.lruNext == At(lru, k + 1)
      modifies this`lruTail, lru`lruPrev
      ensures forall i {:trigger lru[i].lruPrev} :: 0 <= i < |lru| && i != k ==>
                lru[i].lruPrev == At(lru, if i == k + 1 then k - 1 else i - 1)
      ensures lruTail == At(lru, if k == |lru| - 1 then k - 1 else |lru| - 1)
    {
      assert node.lruPrev == At(lru, k - 1) && Differ(lru, k, k + 1);
      if node.lruNext != null {
        node.lruNext.lruPrev := node.lruPrev;
      } else {
        lruTail := node.lruPrev;
      }
      forall i | 0 <= i < |lru| && i != k
        ensures lru[i].lruPrev == At(lru, if i == k + 1 then k - 1 else i - 1)
      {
        assert Differ(lru, i, k + 1) && old(lru[i].lruPrev) == At(lru, i - 1);
      }
    }

    // One removal of the sweep: out of the chain, out of the list, counted.
    method RemoveExpiredNode(bucket: nat, prev: Node?, node: Node, ghost q: nat, ghost k: nat)
      returns (current: Node?)
      requires Linked()
      requires bucket < HASH_TABLE_SIZE && q < |chains[bucket]| && chains[bucket][q] == node
      requires prev == At(chains[bucket], q - 1)
      requires k < |lru| && lru[k] == node
      modifies this`lruHead, this`lruTail, this`currentSize, this`lru, this`chains, table
      modifies Members(lru)`lruPrev, Members(lru)`lruNext, Members(lru)`next
      ensures Linked() && Members(lru) == old(Members(lru)) - {node}
      ensures lru == RemoveAt(old(lru), k)
      ensures chains == old(chains)[bucket := RemoveAt(old(chains)[bucket], q)]
      ensures current == At(chains[bucket], q) && prev == At(chains[bucket], q - 1)
    {
      RemoveAtSubset(lru, k);
      ghost var members := Members(lru);
      Unlink(bucket, prev, node, q, members);
      assert Threaded(lru, lruHead, lruTail);
      DetachExpired(node, k);
      assert Buckets(members - {node});
      currentSize := currentSize - 1;
      current := AfterPrev(bucket, prev, q, members - {node});
    }

    // Where the scan goes on after a removal.
    method AfterPrev(bucket: nat, prev: Node?, ghost q: nat, ghost members: set<Node>) returns (current: Node?)
      requires Buckets(members) && bucket < HASH_TABLE_SIZE
      requires q <= |chains[bucket]| && prev == At(chains[bucket], q - 1)
      ensures current == At(chains[bucket], q)
    {
      assert Chained(chains[bucket], table[bucket], members);
      current := if prev != null then prev.next else table[bucket];
    }

    // Drops the expired node at position q; what is fresh stays.
    method DropExpired(bucket: nat, prev: Node?, node: Node, ghost q: nat, now: int) returns (current: Node?)
      requires Linked() && bucket < HASH_TABLE_SIZE && !FreshNode(node, now)
      requires q < |chains[bucket]| && FreshUpTo(chains[bucket], q, now)
      requires node == chains[bucket][q] && prev == At(chains[bucket], q - 1)
      modifies this`lruHead, this`lruTail, this`currentSize, this`lru, this`chains, table
      modifies Members(lru)`lruPrev, Members(lru)`lruNext, Members(lru)`next
      ensures Linked() && Members(lru) <= old(Members(lru))
      ensures FreshNodes(lru, now) == FreshNodes(old(lru), now)
      ensures chains == old(chains)[bucket := chains[bucket]]
      ensures FreshNodes(chains[bucket], now) == FreshNodes(old(chains)[bucket], now)
      ensures FreshUpTo(chains[bucket], q, now) && |chains[bucket]| == |old(chains)[bucket]| - 1
      ensures current == At(chains[bucket], q) && prev == At(chains[bucket], q - 1)
    {
      assert chains[bucket][q] in Members(lru);
      ghost var k :| 0 <= k < |lru| && lru[k] == node;
      FreshNodesRemove(chains[bucket], q, now);
      FreshUpToRemove(chains[bucket], q, now);
      FreshNodesRemove(lru, k, now);
      current := RemoveExpiredNode(bucket, prev, node, q, k);
    }

    // Walks past the fresh node at position q.
    method KeepFresh(bucket: nat, node: Node, ghost q: nat, now: int)
      returns (prev: Node, current: Node?, ghost q': nat)
      requires Buckets(Members(lru)) && bucket < HASH_TABLE_SIZE && FreshNode(node, now)
      requires q < |chains[bucket]| && FreshUpTo(chains[bucket], q, now) && node == chains[bucket][q]
      ensures q' == q + 1 && FreshUpTo(chains[bucket], q', now)
      ensures current == At(chains[bucket], q') && prev == At(chains[bucket], q' - 1)
    {
      FreshUpToNext(chains[bucket], q, now);
      prev, q' := node, q + 1;
      current := AfterPrev(bucket, prev, q', Members(lru));
    }

    // The inner loop of cache_remove_expired.
    method SweepBucket(bucket: nat, now: int)
      requires Linked() && bucket < HASH_TABLE_SIZE
      modifies this`lruHead, this`lruTail, this`currentSize, this`lru, this`chains, table
      modifies Members(lru)`lruPrev, Members(lru)`lruNext, Members(lru)`next
      ensures Linked() && Members(lru) <= old(Members(lru))
      ensures FreshNodes(lru, now) == FreshNodes(old(lru), now)
      ensures chains == old(chains)[bucket := FreshNodes(old(chains)[bucket], now)]
    {
      ghost var q: nat := 0;
      var prev: Node? := null;
      var current := AfterPrev(bucket, prev, q, Members(lru));
      while current != null
        invariant Linked() && Members(lru) <= old(Members(lru))
        invariant FreshNodes(lru, now) == FreshNodes(old(lru), now)
        invariant chains == old(chains)[bucket := chains[bucket]]
        invariant FreshNodes(chains[bucket], now) == FreshNodes(old(chains)[bucket], now)
        invariant FreshUpTo(chains[bucket], q, now)
        invariant current == At(chains[bucket], q) && prev == At(chains[bucket], q - 1)
        decreases |chains[bucket]| - q
      {
        if now - current.stamp >= CACHE_EXPIRY_TIME {
          current := DropExpired(bucket, prev, current, q, now);
        } else {
          prev, current, q := KeepFresh(bucket, current, q, now);
        }
      }
      FreshNodesAll(chains[bucket], now);
    }

    // The outer loop of cache_remove_expired.
    method SweepAll(now: int)
      requires Linked()
      modifies this`lruHead, this`lruTail, this`currentSize, this`lru, this`chains, table
      modifies Members(lru)`lruPrev, Members(lru)`lruNext, Members(lru)`next
      ensures Linked() && lru == FreshNodes(old(lru), now)
      ensures forall b :: 0 <= b < HASH_TABLE_SIZE ==> chains[b] == FreshNodes(old(chains)[b], now)
    {
      var i := 0;
      while i < HASH_TABLE_SIZE
        invariant 0 <= i <= HASH_TABLE_SIZE
        invariant Linked() && Members(lru) <= old(Members(lru))
        invariant FreshNodes(lru, now) == FreshNodes(old(lru), now)
        invariant forall b :: 0 <= b < i ==> chains[b] == FreshNodes(old(chains)[b], now)
        invariant forall b :: i <= b < HASH_TABLE_SIZE ==> chains[b] == old(chains)[b]
      {
        SweepBucket(i, now);
        i := i + 1;
      }
      AllChainsFresh(chains, lru, old(chains), now);
      FreshNodesAll(lru, now);
    }

    // cache_remove_expired: every chain and the list keep exactly their fresh nodes, in order.
    method RemoveExpired(now: int)
      requires Valid() && Timely(start, history + [Op.Sweep(now)])
      modifies this, table, Members(lru)
      ensures Valid() && history == old(history) + [Op.Sweep(now)]
      ensures lru == FreshNodes(old(lru), now) && currentSize == |FreshNodes(old(lru), now)|
      ensures forall b :: 0 <= b < HASH_TABLE_SIZE ==> chains[b] == FreshNodes(old(chains)[b], now)
    {
      FreshNodesEntries(lru, now);
      SweepAll(now);
      Record(Op.Sweep(now));
    }

    // cache_destroy: every node of the cache is freed, and none twice.
    method Destroy() returns (freed: seq<Node>)
      requires Valid()
      ensures NoRepeats(freed) && Members(freed) == Members(lru)
    {
      freed := [];
      var i := 0;
      while i < HASH_TABLE_SIZE
        invariant 0 <= i <= HASH_TABLE_SIZE
        invariant NoRepeats(freed) && forall n :: n in freed <==> n in Members(lru) && n.home < i
      {
        freed := FreeChain(i, freed);
        i := i + 1;
      }
    }

    // The inner loop of cache_destroy.
    method FreeChain(bucket: nat, before: seq<Node>) returns (freed: seq<Node>)
      requires Linked() && bucket < HASH_TABLE_SIZE
      requires NoRepeats(before) && forall n :: n in before ==> n.home < bucket
      ensures NoRepeats(freed)
      ensures forall n :: n in freed <==> n in before || (n in Members(lru) && n.home == bucket)
    {
      ghost var chain := chains[bucket];
      ghost var q: nat := 0;
      freed := before;
      assert BirthsFall(chain);
      BirthsFallNoRepeats(chain);
      assert before + chain[..0] == before;
      var current := table[bucket];
      assert Chained(chain, current, Members(lru));
      while current != null
        invariant q <= |chain| && current == At(chain, q)
        invariant freed == before + chain[..q]
        decreases |chain| - q
      {
        assert chain[q].next == At(chain, q + 1);
        var next := current.next;
        freed := freed + [current];
        current := next;
        q := q + 1;
      }
      assert chain[..q] == chain;
      ApartNoRepeats(before, chain, bucket);
      forall n
        ensures n in chain <==> n in Members(lru) && n.home == bucket
      {
        assert n in Members(lru) && n.home == bucket ==> n in chains[n.home];
      }
    }
  }
}
