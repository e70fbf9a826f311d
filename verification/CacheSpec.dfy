/**
 * What the response cache means, without its heap: a recency list of entries, most recently
 * touched first, changed by adds, lookups and expiry sweeps.  Cache.dfy proves the linked
 * structure against this machine; here the machine is related to the plain log of operations.
 */
module CacheSpec {
  import opened CacheHash
  import opened Wrappers

  const CACHE_EXPIRY_TIME: int := 300
  const CACHE_SIZE: nat := 1024

  // `born` is the serial number of the add that made the entry.
  datatype Entry = Entry(url: Url, data: seq<int>, stamp: int, born: nat)

  datatype State = State(lru: seq<Entry>, attempts: nat, clock: int, capacity: nat)

  // `allocOk` is false when one of the three allocations of cache_add fails.
  datatype Op =
    | Get(url: Url, now: int)
    | Add(url: Url, data: seq<int>, now: int, allocOk: bool)
    | Sweep(now: int)

  predicate Fresh(e: Entry, now: int) {
    now - e.stamp < CACHE_EXPIRY_TIME
  }

  // ---------------------------------------------------------------- the operations

  // Position of the most recently touched entry for url; |lru| when there is none.
  function Find(lru: seq<Entry>, url: Url): (k: nat)
    ensures k <= |lru|
    ensures k < |lru| ==> lru[k].url == url
    ensures forall j :: 0 <= j < k ==> lru[j].url != url
  {
    FirstFrom(lru, (e: Entry) => e.url == url, 0)
  }

  function RemoveAt<T>(s: seq<T>, k: nat): seq<T>
    requires k < |s|
  {
    s[..k] + s[k + 1..]
  }

  function ToFront<T>(s: seq<T>, k: nat): seq<T>
    requires k < |s|
  {
    [s[k]] + RemoveAt(s, k)
  }

  // The answer of a lookup, as the data held under the lock.
  function Lookup(s: State, url: Url, now: int): Option<Entry> {
    var k := Find(s.lru, url);
    if k < |s.lru| && Fresh(s.lru[k], now) then Some(s.lru[k]) else None
  }

  // The list once there is room for one more.
  function MakeRoom(s: State): seq<Entry> {
    if |s.lru| >= s.capacity && |s.lru| > 0 then s.lru[..|s.lru| - 1] else s.lru
  }

  function FreshOnly(lru: seq<Entry>, now: int): (kept: seq<Entry>)
    ensures forall e :: e in kept <==> e in lru && Fresh(e, now)
  {
    if lru == [] then []
    else
      var n := |lru| - 1;
      assert lru == lru[..n] + [lru[n]];
      FreshOnly(lru[..n], now) + if Fresh(lru[n], now) then [lru[n]] else []
  }

  function Step(s: State, op: Op): State {
    match op
    case Get(url, now) =>
      if Lookup(s, url, now).Some?
      then s.(lru := ToFront(s.lru, Find(s.lru, url)), clock := now)
      else s.(clock := now)
    case Add(url, data, now, allocOk) =>
      if data == [] then s.(clock := now)
      else
        var room := MakeRoom(s);
        State(if allocOk then [Entry(url, data, now, s.attempts)] + room else room,
              s.attempts + 1, now, s.capacity)
    case Sweep(now) =>
      s.(lru := FreshOnly(s.lru, now), clock := now)
  }

  // ---------------------------------------------------------------- runs

  function Run(capacity: nat, start: int, ops: seq<Op>): State {
    if ops == [] then State([], 0, start, capacity)
    else Step(Run(capacity, start, ops[..|ops| - 1]), ops[|ops| - 1])
  }

  lemma RunSnoc(capacity: nat, start: int, ops: seq<Op>, op: Op)
    ensures Run(capacity, start, ops + [op]) == Step(Run(capacity, start, ops), op)
  {
    assert (ops + [op])[..|ops|] == ops;
  }

  // The clock never goes back.
  ghost predicate Timely(start: int, ops: seq<Op>) {
    && (forall i :: 0 <= i < |ops| ==> start <= ops[i].now)
    && (forall i, j :: 0 <= i < j < |ops| ==> ops[i].now <= ops[j].now)
  }

  function Attempts(ops: seq<Op>): nat {
    if ops == [] then 0
    else
      var last := ops[|ops| - 1];
      Attempts(ops[..|ops| - 1]) + if last.Add? && last.data != [] then 1 else 0
  }

  // Read off the log alone: the most recent successful add for url.
  function Latest(ops: seq<Op>, url: Url): Option<Entry> {
    if ops == [] then None
    else
      var before, last := ops[..|ops| - 1], ops[|ops| - 1];
      if last.Add? && last.url == url && last.data != [] && last.allocOk
      then Some(Entry(url, last.data, last.now, Attempts(before)))
      else Latest(before, url)
  }

  // ---------------------------------------------------------------- invariant of the list

  ghost predicate DistinctBirths(lru: seq<Entry>) {
    forall i, j :: 0 <= i < j < |lru| ==> lru[i].born != lru[j].born
  }

  // Entries with one URL appear newest first.
  ghost predicate NewestFirst(lru: seq<Entry>) {
    forall i, j :: 0 <= i < j < |lru| && lru[i].url == lru[j].url ==> lru[i].born > lru[j].born
  }

  // Birth order and timestamp order agree.
  ghost predicate StampsAgree(lru: seq<Entry>) {
    forall i, j :: 0 <= i < |lru| && 0 <= j < |lru| && lru[i].born < lru[j].born
      ==> lru[i].stamp <= lru[j].stamp
  }

  ghost predicate Bounded(lru: seq<Entry>, attempts: nat, clock: int) {
    forall i :: 0 <= i < |lru| ==> lru[i].born < attempts && lru[i].stamp <= clock
  }

  ghost predicate WellFormed(s: State) {
    && |s.lru| <= s.capacity
    && DistinctBirths(s.lru)
    && NewestFirst(s.lru)
    && StampsAgree(s.lru)
    && Bounded(s.lru, s.attempts, s.clock)
  }

  // `t` is `s` with some elements left out, order kept; `at` maps positions of t into s.
  ghost predicate Embeds<T>(t: seq<T>, s: seq<T>, at: seq<nat>) {
    && |at| == |t|
    && (forall i :: 0 <= i < |t| ==> at[i] < |s| && t[i] == s[at[i]])
    && (forall i, j :: 0 <= i < j < |t| ==> at[i] < at[j])
  }

  lemma {:induction false} EmbeddingLength<T>(t: seq<T>, s: seq<T>, at: seq<nat>)
    requires Embeds(t, s, at)
    ensures |t| <= |s|
  {
    if t != [] {
      var n := |t| - 1;
      EmbeddingLength(t[..n], s[..at[n]], at[..n]);
    }
  }

  lemma SublistKeeps(t: seq<Entry>, s: State, at: seq<nat>)
    requires WellFormed(s) && Embeds(t, s.lru, at)
    ensures WellFormed(s.(lru := t))
  {
    EmbeddingLength(t, s.lru, at);
    forall i, j | 0 <= i < |t| && 0 <= j < |t| && t[i].born < t[j].born
      ensures t[i].stamp <= t[j].stamp
    {
      assert s.lru[at[i]].born < s.lru[at[j]].born;
    }
    forall i, j | 0 <= i < j < |t|
      ensures t[i].born != t[j].born
      ensures t[i].url == t[j].url ==> t[i].born > t[j].born
    {
      assert at[i] < at[j];
    }
  }

  lemma EmbedsSnoc<T>(t: seq<T>, s: seq<T>, at: seq<nat>, x: T)
    requires Embeds(t, s, at)
    ensures Embeds(t, s + [x], at) && Embeds(t + [x], s + [x], at + [|s|])
  {
  }

  lemma {:induction false} FreshOnlyEmbeds(lru: seq<Entry>, now: int) returns (at: seq<nat>)
    ensures Embeds(FreshOnly(lru, now), lru, at)
  {
    if lru == [] {
      at := [];
    } else {
      var n := |lru| - 1;
      var rest := FreshOnlyEmbeds(lru[..n], now);
      EmbedsSnoc(FreshOnly(lru[..n], now), lru[..n], rest, lru[n]);
      assert lru == lru[..n] + [lru[n]];
      at := if Fresh(lru[n], now) then rest + [n] else rest;
    }
  }

  lemma RemoveAtKeeps(s: State, k: nat)
    requires WellFormed(s) && k < |s.lru|
    ensures WellFormed(s.(lru := RemoveAt(s.lru, k)))
  {
    var t := RemoveAt(s.lru, k);
    SublistKeeps(t, s, seq(|t|, i => if i < k then i else i + 1));
  }

  // Moving the first entry of its URL to the front keeps every order.
  lemma GetKeeps(s: State, url: Url, now: int)
    requires WellFormed(s) && s.clock <= now
    ensures WellFormed(Step(s, Get(url, now)))
  {
    if Lookup(s, url, now).Some? {
      var k := Find(s.lru, url);
      var e, rest := s.lru[k], RemoveAt(s.lru, k);
      RemoveAtKeeps(s, k);
      forall i | 0 <= i < |rest|
        ensures rest[i].born != e.born
        ensures rest[i].url == e.url ==> rest[i].born < e.born
        ensures rest[i].born < e.born ==> rest[i].stamp <= e.stamp
        ensures e.born < rest[i].born ==> e.stamp <= rest[i].stamp
      {
        assert rest[i] == s.lru[if i < k then i else i + 1];
      }
      FrontKeeps(s.(lru := rest), e, now);
    }
  }

  lemma FrontKeeps(s: State, e: Entry, now: int)
    requires WellFormed(s) && |s.lru| < s.capacity && s.clock <= now
    requires e.born < s.attempts && e.stamp <= now
    requires forall i :: 0 <= i < |s.lru| ==>
      && s.lru[i].born != e.born
      && (s.lru[i].url == e.url ==> s.lru[i].born < e.born)
      && (s.lru[i].born < e.born ==> s.lru[i].stamp <= e.stamp)
      && (e.born < s.lru[i].born ==> e.stamp <= s.lru[i].stamp)
    ensures WellFormed(s.(lru := [e] + s.lru, clock := now))
  {
    var t := [e] + s.lru;
    assert forall i :: 0 < i < |t| ==> t[i] == s.lru[i - 1];
  }

  lemma ButLastKeeps(s: State)
    requires WellFormed(s) && s.lru != []
    ensures WellFormed(s.(lru := s.lru[..|s.lru| - 1]))
  {
    var t := s.lru[..|s.lru| - 1];
    assert forall i :: 0 <= i < |t| ==> t[i] == s.lru[i];
  }

  lemma AddKeeps(s: State, op: Op)
    requires WellFormed(s) && op.Add? && s.clock <= op.now && 0 < s.capacity
    ensures WellFormed(Step(s, op))
  {
    if |s.lru| >= s.capacity {
      ButLastKeeps(s);
    }
    if op.data != [] && op.allocOk {
      FrontKeeps(s.(lru := MakeRoom(s), attempts := s.attempts + 1),
                 Entry(op.url, op.data, op.now, s.attempts), op.now);
    }
  }

  lemma StepKeeps(s: State, op: Op)
    requires WellFormed(s) && s.clock <= op.now && 0 < s.capacity
    ensures WellFormed(Step(s, op))
    ensures Step(s, op).capacity == s.capacity && Step(s, op).clock == op.now
  {
    match op
    case Get(url, now) => GetKeeps(s, url, now);
    case Add(_, _, _, _) => AddKeeps(s, op);
    case Sweep(now) =>
      var at := FreshOnlyEmbeds(s.lru, now);
      SublistKeeps(FreshOnly(s.lru, now), s, at);
  }

  lemma TimelyPrefix(start: int, ops: seq<Op>)
    requires ops != [] && Timely(start, ops)
    ensures Timely(start, ops[..|ops| - 1])
    ensures forall i :: 0 <= i < |ops| - 1 ==> ops[i].now <= ops[|ops| - 1].now
  {
  }

  // In every reachable state the capacity is respected and recency order, birth order and
  // timestamp order agree for entries with one URL.
  lemma {:induction false} RunWellFormed(capacity: nat, start: int, ops: seq<Op>)
    requires 0 < capacity && Timely(start, ops)
    ensures WellFormed(Run(capacity, start, ops))
    ensures Run(capacity, start, ops).capacity == capacity
    ensures Run(capacity, start, ops).clock == if ops == [] then start else ops[|ops| - 1].now
    ensures Run(capacity, start, ops).attempts == Attempts(ops)
  {
    if ops != [] {
      TimelyPrefix(start, ops);
      RunWellFormed(capacity, start, ops[..|ops| - 1]);
      StepKeeps(Run(capacity, start, ops[..|ops| - 1]), ops[|ops| - 1]);
    }
  }

  // ---------------------------------------------------------------- a hit is the latest add

  // The latest add for the URL of `e` is live and no older than `e`.
  ghost predicate Covered(e: Entry, lru: seq<Entry>, ops: seq<Op>) {
    var latest := Latest(ops, e.url);
    latest.Some? && latest.value in lru && e.born <= latest.value.born
  }

  ghost predicate Shadowed(lru: seq<Entry>, ops: seq<Op>) {
    forall e :: e in lru ==> Covered(e, lru, ops)
  }

  lemma {:induction false} LatestFacts(start: int, ops: seq<Op>, url: Url)
    requires Timely(start, ops) && Latest(ops, url).Some?
    ensures var e := Latest(ops, url).value;
            e.url == url && e.born < Attempts(ops) && e.data != [] && e.stamp <= ops[|ops| - 1].now
    ensures ops != []
  {
    var before, last := ops[..|ops| - 1], ops[|ops| - 1];
    TimelyPrefix(start, ops);
    if !(last.Add? && last.url == url && last.data != [] && last.allocOk) {
      LatestFacts(start, before, url);
    }
  }

  lemma LatestSnoc(before: seq<Op>, op: Op, url: Url)
    ensures Latest(before + [op], url)
         == if op.Add? && op.url == url && op.data != [] && op.allocOk
            then Some(Entry(url, op.data, op.now, Attempts(before)))
            else Latest(before, url)
  {
    assert (before + [op])[..|before|] == before;
  }

  lemma CoveredStill(e: Entry, lru: seq<Entry>, t: seq<Entry>, before: seq<Op>, op: Op)
    requires Covered(e, lru, before) && Latest(before, e.url).value in t
    requires op.Add? && op.url == e.url ==> op.data == [] || !op.allocOk
    ensures Covered(e, t, before + [op])
  {
    LatestSnoc(before, op, e.url);
  }

  lemma SameMembersShadowed(lru: seq<Entry>, t: seq<Entry>, before: seq<Op>, op: Op)
    requires Shadowed(lru, before) && (op.Add? ==> op.data == [] || !op.allocOk)
    requires forall e :: e in t <==> e in lru
    ensures Shadowed(t, before + [op])
  {
    forall e | e in t
      ensures Covered(e, t, before + [op])
    {
      assert Covered(e, lru, before);
      CoveredStill(e, lru, t, before, op);
    }
  }

  lemma ToFrontMembers<T>(s: seq<T>, k: nat)
    requires k < |s|
    ensures forall e :: e in ToFront(s, k) <==> e in s
  {
    assert s == s[..k] + [s[k]] + s[k + 1..];
  }

  lemma SweepShadowed(lru: seq<Entry>, before: seq<Op>, op: Op)
    requires op.Sweep? && StampsAgree(lru) && DistinctBirths(lru) && Shadowed(lru, before)
    ensures Shadowed(FreshOnly(lru, op.now), before + [op])
  {
    var t := FreshOnly(lru, op.now);
    forall e | e in t
      ensures Covered(e, t, before + [op])
    {
      assert Covered(e, lru, before);
      NotOlderIsFresher(lru, e, Latest(before, e.url).value);
      CoveredStill(e, lru, t, before, op);
    }
  }

  lemma NotOlderIsFresher(lru: seq<Entry>, e: Entry, f: Entry)
    requires e in lru && f in lru && e.born <= f.born
    requires StampsAgree(lru) && DistinctBirths(lru)
    ensures e.stamp <= f.stamp
  {
    var i :| 0 <= i < |lru| && lru[i] == e;
    var j :| 0 <= j < |lru| && lru[j] == f;
    if e.born == f.born {
      assert i == j;
    }
  }

  // With the newest first, dropping the last entry keeps the latest add of every other entry.
  lemma ButLastShadowed(lru: seq<Entry>, ops: seq<Op>)
    requires lru != [] && NewestFirst(lru) && Shadowed(lru, ops)
    requires forall url :: Latest(ops, url).Some? ==> Latest(ops, url).value.url == url
    ensures Shadowed(lru[..|lru| - 1], ops)
  {
    var room := lru[..|lru| - 1];
    forall e | e in room
      ensures Covered(e, room, ops)
    {
      var j :| 0 <= j < |room| && room[j] == e;
      assert Covered(lru[j], lru, ops);
      var f := Latest(ops, e.url).value;
      var k :| 0 <= k < |lru| && lru[k] == f;
      assert k <= j;
      assert room[k] == f;
    }
  }

  lemma PushShadowed(lru: seq<Entry>, before: seq<Op>, op: Op)
    requires op.Add? && op.data != [] && op.allocOk && Shadowed(lru, before)
    requires forall e :: e in lru ==> e.born < Attempts(before)
    ensures Shadowed([Entry(op.url, op.data, op.now, Attempts(before))] + lru, before + [op])
  {
    var added := Entry(op.url, op.data, op.now, Attempts(before));
    var t := [added] + lru;
    forall e | e in t
      ensures Covered(e, t, before + [op])
    {
      LatestSnoc(before, op, e.url);
      if e.url == op.url {
        assert added in t;
      } else {
        assert Covered(e, lru, before);
      }
    }
  }

  lemma StepShadowed(s: State, before: seq<Op>, op: Op)
    requires WellFormed(s) && Shadowed(s.lru, before) && s.attempts == Attempts(before)
    requires forall url :: Latest(before, url).Some? ==> Latest(before, url).value.url == url
    ensures Shadowed(Step(s, op).lru, before + [op])
  {
    match op
    case Get(url, now) =>
      if Find(s.lru, url) < |s.lru| {
        ToFrontMembers(s.lru, Find(s.lru, url));
      }
      SameMembersShadowed(s.lru, Step(s, op).lru, before, op);
    case Add(_, data, _, allocOk) =>
      if data != [] && |s.lru| >= s.capacity && |s.lru| > 0 {
        ButLastShadowed(s.lru, before);
      }
      if data != [] && allocOk {
        PushShadowed(MakeRoom(s), before, op);
      } else {
        var t := Step(s, op).lru;
        SameMembersShadowed(t, t, before, op);
      }
    case Sweep(now) => SweepShadowed(s.lru, before, op);
  }

  // The newest entry for a URL is the last of its entries to leave the list.
  lemma {:induction false} RunShadowed(capacity: nat, start: int, ops: seq<Op>)
    requires 0 < capacity && Timely(start, ops)
    ensures Shadowed(Run(capacity, start, ops).lru, ops)
  {
    if ops != [] {
      var before, last := ops[..|ops| - 1], ops[|ops| - 1];
      TimelyPrefix(start, ops);
      RunShadowed(capacity, start, before);
      RunWellFormed(capacity, start, before);
      forall url | Latest(before, url).Some?
        ensures Latest(before, url).value.url == url
      {
        LatestFacts(start, before, url);
      }
      StepShadowed(Run(capacity, start, before), before, last);
      assert ops == before + [last];
    }
  }

  lemma FirstIsLatest(lru: seq<Entry>, ops: seq<Op>, url: Url)
    requires NewestFirst(lru) && Shadowed(lru, ops)
    requires Latest(ops, url).Some? ==> Latest(ops, url).value.url == url
    requires Find(lru, url) < |lru|
    ensures Latest(ops, url) == Some(lru[Find(lru, url)])
  {
    var k := Find(lru, url);
    assert Covered(lru[k], lru, ops);
    var e := Latest(ops, url).value;
    var j :| 0 <= j < |lru| && lru[j] == e;
    assert k <= j;
  }

  // Over every run: a lookup answers with the data of the most recent successful add for that
  // URL or not at all, and only while that add is younger than the expiry time.
  lemma HitIsLatestAdd(capacity: nat, start: int, ops: seq<Op>, url: Url, now: int)
    requires 0 < capacity && Timely(start, ops)
    requires Lookup(Run(capacity, start, ops), url, now).Some?
    ensures Lookup(Run(capacity, start, ops), url, now) == Latest(ops, url)
    ensures now - Latest(ops, url).value.stamp < 300
  {
    RunShadowed(capacity, start, ops);
    RunWellFormed(capacity, start, ops);
    if Latest(ops, url).Some? {
      LatestFacts(start, ops, url);
    }
    FirstIsLatest(Run(capacity, start, ops).lru, ops, url);
  }
}
