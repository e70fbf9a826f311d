/**
 * The proxy as a client of the cache: look the request up, and on a miss add the response.
 * Inside one expiry window the cache is then an exact LRU stack, and a hit is decided by the
 * stack distance of the request alone.
 */
module CacheStack {
  import opened CacheHash
  import opened CacheSpec
  import opened Wrappers

  // `now` is read by the lookup; `later`, read by the add of a miss, comes after the connect
  // and the whole receive loop.
  datatype Request = Request(url: Url, response: seq<int>, now: int, later: int)

  predicate Hits(s: State, r: Request) {
    Lookup(s, r.url, r.now).Some?
  }

  function Serve(s: State, r: Request): State {
    var looked := Step(s, Get(r.url, r.now));
    if Hits(s, r) then looked else Step(looked, Add(r.url, r.response, r.later, true))
  }

  function Drive(capacity: nat, start: int, requests: seq<Request>): State {
    if requests == [] then State([], 0, start, capacity)
    else Serve(Drive(capacity, start, requests[..|requests| - 1]), requests[|requests| - 1])
  }

  // Every answer has a body, and each lookup comes less than an expiry time after the adds of
  // the requests before it.
  ghost predicate OneWindow(requests: seq<Request>) {
    && (forall i :: 0 <= i < |requests| ==> requests[i].response != [])
    && (forall i, j :: 0 <= j < i < |requests| ==> requests[i].now - requests[j].later < CACHE_EXPIRY_TIME)
  }

  function UrlsOf(requests: seq<Request>): (urls: seq<Url>)
    ensures |urls| == |requests|
    ensures forall i :: 0 <= i < |urls| ==> urls[i] == requests[i].url
  {
    seq(|requests|, i requires 0 <= i < |requests| => requests[i].url)
  }

  function Urls(lru: seq<Entry>): (urls: seq<Url>)
    ensures |urls| == |lru|
    ensures forall i :: 0 <= i < |urls| ==> urls[i] == lru[i].url
  {
    seq(|lru|, i requires 0 <= i < |lru| => lru[i].url)
  }

  // ---------------------------------------------------------------- the LRU stack

  // The first position of u; |list| when there is none.
  function Index<T(==)>(list: seq<T>, u: T): (k: nat)
    ensures k <= |list|
    ensures k < |list| ==> list[k] == u
    ensures forall j :: 0 <= j < k ==> list[j] != u
  {
    FirstFrom(list, (x: T) => x == u, 0)
  }

  function Push<T(==)>(list: seq<T>, u: T): seq<T> {
    [u] + if Index(list, u) < |list| then RemoveAt(list, Index(list, u)) else list
  }

  // The distinct elements of a request sequence, most recent first.
  function Recency<T(==)>(us: seq<T>): seq<T> {
    if us == [] then [] else Push(Recency(us[..|us| - 1]), us[|us| - 1])
  }

  function Take<T>(list: seq<T>, n: nat): seq<T> {
    if n <= |list| then list[..n] else list
  }

  ghost predicate Distinct<T>(list: seq<T>) {
    forall i, j :: 0 <= i < j < |list| ==> list[i] != list[j]
  }

  function Elements<T>(list: seq<T>): set<T> {
    set x | x in list
  }

  lemma IndexUnique<T>(list: seq<T>, u: T, k: nat)
    requires k < |list| && list[k] == u && forall i :: 0 <= i < k ==> list[i] != u
    ensures Index(list, u) == k
  {
  }

  lemma PushDistinct<T>(r: seq<T>, v: T)
    requires Distinct(r)
    ensures Distinct(Push(r, v))
    ensures forall u :: u in Push(r, v) <==> u in r || u == v
  {
    var q := Index(r, v);
    if q < |r| {
      RemoveAtMembers(r, q);
    }
  }

  lemma RemoveAtMembers<T>(r: seq<T>, q: nat)
    requires q < |r| && Distinct(r)
    ensures Distinct(RemoveAt(r, q))
    ensures forall u :: u in RemoveAt(r, q) <==> u in r && u != r[q]
  {
    var t := RemoveAt(r, q);
    assert forall i :: 0 <= i < |t| ==> t[i] == if i < q then r[i] else r[i + 1];
    assert forall i :: 0 <= i < |r| && i != q ==> r[i] == if i < q then t[i] else t[i - 1];
  }

  lemma {:induction false} RecencyDistinct<T>(us: seq<T>)
    ensures Distinct(Recency(us))
    ensures forall u :: u in Recency(us) <==> u in us
  {
    if us != [] {
      var before, v := us[..|us| - 1], us[|us| - 1];
      RecencyDistinct(before);
      PushDistinct(Recency(before), v);
      assert us == before + [v];
    }
  }

  lemma TakePush<T>(list: seq<T>, u: T, n: nat)
    requires 0 < n
    ensures var t := Take(list, n);
            Take(Push(list, u), n)
              == if Index(t, u) < |t| then ToFront(t, Index(t, u))
                 else [u] + if |t| >= n then t[..|t| - 1] else t
  {
    var t, k := Take(list, n), Index(list, u);
    var tk := Index(t, u);
    assert tk < |t| ==> tk == k by {
      if tk < |t| { IndexUnique(list, u, tk); }
    }
    if k < |t| {
      IndexUnique(t, u, k);
      assert RemoveAt(list, k)[..|t| - 1] == RemoveAt(t, k);
      assert Take(Push(list, u), n) == [u] + RemoveAt(list, k)[..|t| - 1];
    } else {
      assert Take(Push(list, u), n) == [u] + if |t| >= n then t[..|t| - 1] else t;
    }
  }

  lemma FindIsIndex(lru: seq<Entry>, url: Url)
    ensures Find(lru, url) == Index(Urls(lru), url)
  {
  }

  // Every stamp in the list is the add time of one of the requests.
  ghost predicate StampsFrom(lru: seq<Entry>, requests: seq<Request>) {
    forall e :: e in lru ==> exists i :: 0 <= i < |requests| && requests[i].later == e.stamp
  }

  lemma StampsFromMore(lru: seq<Entry>, requests: seq<Request>, r: Request)
    requires StampsFrom(lru, requests)
    ensures StampsFrom(lru, requests + [r])
  {
    forall e | e in lru
      ensures exists i :: 0 <= i < |requests + [r]| && (requests + [r])[i].later == e.stamp
    {
      var i :| 0 <= i < |requests| && requests[i].later == e.stamp;
      assert (requests + [r])[i].later == e.stamp;
    }
  }

  lemma InWindowHit(s: State, requests: seq<Request>, r: Request)
    requires StampsFrom(s.lru, requests) && OneWindow(requests + [r])
    ensures Hits(s, r) <==> Find(s.lru, r.url) < |s.lru|
  {
    var k := Find(s.lru, r.url);
    if k < |s.lru| {
      assert s.lru[k] in s.lru;
      var i :| 0 <= i < |requests| && requests[i].later == s.lru[k].stamp;
      assert (requests + [r])[i].later == requests[i].later;
      assert (requests + [r])[|requests|].now == r.now;
    }
  }

  lemma ServeMissStamps(s: State, requests: seq<Request>, r: Request)
    requires StampsFrom(s.lru, requests) && !Hits(s, r) && r.response != []
    ensures StampsFrom(Serve(s, r).lru, requests + [r])
  {
    StampsFromMore(s.lru, requests, r);
    assert (requests + [r])[|requests|].later == r.later;
    forall e | e in Serve(s, r).lru
      ensures exists i :: 0 <= i < |requests + [r]| && (requests + [r])[i].later == e.stamp
    {
      if e !in s.lru {
        assert e.stamp == r.later;
      }
    }
  }

  lemma ServeStamps(s: State, requests: seq<Request>, r: Request)
    requires StampsFrom(s.lru, requests) && r.response != []
    ensures StampsFrom(Serve(s, r).lru, requests + [r])
  {
    if Hits(s, r) {
      ToFrontMembers(s.lru, Find(s.lru, r.url));
      StampsFromMore(Serve(s, r).lru, requests, r);
    } else {
      ServeMissStamps(s, requests, r);
    }
  }

  lemma ServeUrls(s: State, r: Request)
    requires r.response != [] && (Hits(s, r) <==> Find(s.lru, r.url) < |s.lru|)
    requires |s.lru| <= s.capacity && 0 < s.capacity
    ensures var t := Urls(s.lru);
            Urls(Serve(s, r).lru)
              == if Index(t, r.url) < |t| then ToFront(t, Index(t, r.url))
                 else [r.url] + if |t| >= s.capacity then t[..|t| - 1] else t
  {
    FindIsIndex(s.lru, r.url);
  }

  lemma RecencySnoc(before: seq<Request>, r: Request)
    ensures Recency(UrlsOf(before + [r])) == Push(Recency(UrlsOf(before)), r.url)
  {
    assert UrlsOf(before + [r])[..|before|] == UrlsOf(before);
  }

  lemma ServeIsPush(s: State, before: seq<Request>, r: Request, stack: seq<Url>)
    requires Urls(s.lru) == Take(stack, s.capacity) && 0 < s.capacity
    requires StampsFrom(s.lru, before) && OneWindow(before + [r])
    ensures Urls(Serve(s, r).lru) == Take(Push(stack, r.url), s.capacity)
    ensures StampsFrom(Serve(s, r).lru, before + [r])
  {
    assert (before + [r])[|before|].response == r.response;
    InWindowHit(s, before, r);
    ServeStamps(s, before, r);
    ServeUrls(s, r);
    TakePush(stack, r.url, s.capacity);
  }

  // Within a window the cache holds exactly the `capacity` most recently requested URLs.
  lemma {:induction false} DriveIsStack(capacity: nat, start: int, requests: seq<Request>)
    requires 0 < capacity && OneWindow(requests)
    ensures Urls(Drive(capacity, start, requests).lru) == Take(Recency(UrlsOf(requests)), capacity)
    ensures StampsFrom(Drive(capacity, start, requests).lru, requests)
    ensures Drive(capacity, start, requests).capacity == capacity
  {
    if requests != [] {
      var before, r := requests[..|requests| - 1], requests[|requests| - 1];
      assert requests == before + [r];
      WindowPrefix(before, r);
      DriveIsStack(capacity, start, before);
      ServeIsPush(Drive(capacity, start, before), before, r, Recency(UrlsOf(before)));
      RecencySnoc(before, r);
    }
  }

  // ---------------------------------------------------------------- stack distance

  ghost predicate LastAt<T>(us: seq<T>, u: T, j: nat) {
    j < |us| && us[j] == u && forall i :: j < i < |us| ==> us[i] != u
  }

  lemma PushIndex<T>(r: seq<T>, v: T, u: T)
    requires Distinct(r)
    ensures Index(Push(r, v), u)
         == if u == v then 0
            else if u !in r then |Push(r, v)|
            else if Index(r, u) < Index(r, v) then Index(r, u) + 1 else Index(r, u)
  {
    var list, k, q := Push(r, v), Index(r, u), Index(r, v);
    PushDistinct(r, v);
    if u != v && u in r {
      var k' := if k < q then k + 1 else k;
      assert list[k'] == u by {
        assert list == [v] + if q < |r| then RemoveAt(r, q) else r;
        assert r[k] == u;
      }
      IndexUnique(list, u, k');
    }
  }

  // Exactly the elements requested since u stand above u.
  ghost predicate StandsBehind<T(!new)>(list: seq<T>, u: T, members: seq<T>) {
    u in list && forall x :: x in members <==> Index(list, x) < Index(list, u)
  }

  lemma PushBehind<T(!new)>(r: seq<T>, v: T, u: T, members: seq<T>)
    requires Distinct(r) && v != u && StandsBehind(r, u, members)
    ensures StandsBehind(Push(r, v), u, members + [v])
  {
    PushDistinct(r, v);
    PushIndex(r, v, u);
    forall x
      ensures x in members + [v] <==> Index(Push(r, v), x) < Index(Push(r, v), u)
    {
      PushIndex(r, v, x);
    }
  }

  lemma {:induction false} RecencyAbove<T(!new)>(us: seq<T>, u: T, j: nat)
    requires LastAt(us, u, j)
    ensures StandsBehind(Recency(us), u, us[j + 1..])
  {
    var before, v := us[..|us| - 1], us[|us| - 1];
    RecencyDistinct(before);
    assert us == before + [v];
    if v == u {
      PushIndex(Recency(before), v, u);
      PushDistinct(Recency(before), v);
      assert j == |us| - 1 && us[j + 1..] == [];
    } else {
      RecencyAbove(before, u, j);
      PushBehind(Recency(before), v, u, before[j + 1..]);
      assert us[j + 1..] == before[j + 1..] + [v];
    }
  }

  lemma {:induction false} DistinctSize<T>(list: seq<T>)
    requires Distinct(list)
    ensures |Elements(list)| == |list|
  {
    if list != [] {
      var n := |list| - 1;
      DistinctSize(list[..n]);
      assert list == list[..n] + [list[n]];
      assert Elements(list) == Elements(list[..n]) + {list[n]};
    }
  }

  lemma BehindCount<T(!new)>(list: seq<T>, u: T, members: seq<T>)
    requires Distinct(list) && StandsBehind(list, u, members)
    ensures Index(list, u) == |Elements(members)|
  {
    var above := list[..Index(list, u)];
    forall x
      ensures x in above <==> x in members
    {
      if x in above {
        var i :| 0 <= i < |above| && above[i] == x;
        assert list[i] == x;
      }
      if Index(list, x) < |above| {
        assert above[Index(list, x)] == x;
      }
    }
    assert Elements(above) == Elements(members);
    DistinctSize(above);
  }

  lemma RecencyIndex<T(!new)>(us: seq<T>, u: T, j: nat)
    requires LastAt(us, u, j)
    ensures Index(Recency(us), u) == |Elements(us[j + 1..])|
    ensures Index(Recency(us), u) < |Recency(us)|
  {
    RecencyAbove(us, u, j);
    RecencyDistinct(us);
    BehindCount(Recency(us), u, us[j + 1..]);
  }

  lemma {:induction false} LastExists<T>(us: seq<T>, u: T) returns (j: nat)
    requires u in us
    ensures LastAt(us, u, j)
  {
    var n := |us| - 1;
    if us[n] == u {
      j := n;
    } else {
      assert us == us[..n] + [us[n]];
      j := LastExists(us[..n], u);
    }
  }

  lemma IndexTake<T>(list: seq<T>, u: T, n: nat)
    ensures Index(Take(list, n), u) < |Take(list, n)| <==>
            Index(list, u) < |list| && Index(list, u) < n
  {
    var t := Take(list, n);
    if Index(list, u) < |t| {
      IndexUnique(t, u, Index(list, u));
    }
    if Index(t, u) < |t| {
      IndexUnique(list, u, Index(t, u));
    }
  }

  // A request hits exactly when its URL was requested before and fewer than `capacity`
  // distinct other URLs were requested since.
  lemma StackDistance(capacity: nat, start: int, requests: seq<Request>, r: Request)
    requires 0 < capacity && OneWindow(requests + [r])
    ensures Hits(Drive(capacity, start, requests), r) <==>
            exists j :: LastAt(UrlsOf(requests), r.url, j)
                     && |Elements(UrlsOf(requests)[j + 1..])| < capacity
  {
    var us := UrlsOf(requests);
    var s := Drive(capacity, start, requests);
    WindowPrefix(requests, r);
    DriveIsStack(capacity, start, requests);
    InWindowHit(s, requests, r);
    FindIsIndex(s.lru, r.url);
    IndexTake(Recency(us), r.url, capacity);
    forall j | LastAt(us, r.url, j)
      ensures Index(Recency(us), r.url) == |Elements(us[j + 1..])| < |Recency(us)|
    {
      RecencyIndex(us, r.url, j);
    }
    if Index(Recency(us), r.url) < |Recency(us)| {
      RecencyDistinct(us);
      assert r.url in Recency(us);
      var j := LastExists(us, r.url);
    }
  }

  lemma WindowPrefix(requests: seq<Request>, r: Request)
    requires OneWindow(requests + [r])
    ensures OneWindow(requests)
  {
    var all := requests + [r];
    assert forall i :: 0 <= i < |requests| ==> all[i] == requests[i];
  }

  // The inclusion property: a larger cache hits whenever a smaller one does.
  lemma LargerCacheHitsToo(small: nat, large: nat, start: int, requests: seq<Request>, r: Request)
    requires 0 < small <= large && OneWindow(requests + [r])
    requires Hits(Drive(small, start, requests), r)
    ensures Hits(Drive(large, start, requests), r)
    ensures Urls(Drive(small, start, requests).lru) <= Urls(Drive(large, start, requests).lru)
  {
    StackDistance(small, start, requests, r);
    StackDistance(large, start, requests, r);
    WindowPrefix(requests, r);
    DriveIsStack(small, start, requests);
    DriveIsStack(large, start, requests);
  }
}
