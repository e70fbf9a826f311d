/**
 * Recency, eviction and expiry over whole runs of the cache, told through the log of touches:
 * an add touches the entry it makes, a hit touches the entry it returns.
 */
module CacheRecency {
  import opened CacheHash
  import opened CacheSpec
  import opened Wrappers

  // The serial number each operation touches.  An add whose allocation fails still draws one,
  // because it has already evicted.
  function Touches(capacity: nat, start: int, ops: seq<Op>): seq<nat> {
    if ops == [] then []
    else
      var before, last := ops[..|ops| - 1], ops[|ops| - 1];
      Touches(capacity, start, before) + TouchOf(Run(capacity, start, before), last)
  }

  function TouchOf(s: State, op: Op): seq<nat> {
    match op
    case Get(url, now) =>
      var hit := Lookup(s, url, now);
      if hit.Some? then [hit.value.born] else []
    case Add(_, data, _, _) => if data != [] then [s.attempts] else []
    case Sweep(_) => []
  }

  // Everything touched after the last touch of `born`.
  function Since(touches: seq<nat>, born: nat): set<nat> {
    if touches == [] then {}
    else
      var n := |touches| - 1;
      if touches[n] == born then {} else Since(touches[..n], born) + {touches[n]}
  }

  lemma SinceSnoc(touches: seq<nat>, t: nat, born: nat)
    ensures Since(touches + [t], born) == if t == born then {} else Since(touches, born) + {t}
  {
    assert (touches + [t])[..|touches|] == touches;
  }

  // Strictly sorted by last touch.
  ghost predicate SortedByTouch(lru: seq<Entry>, touches: seq<nat>) {
    forall i, j :: 0 <= i < j < |lru| ==>
      && lru[i].born in Since(touches, lru[j].born)
      && lru[j].born !in Since(touches, lru[i].born)
  }

  lemma SortedSublist(t: seq<Entry>, lru: seq<Entry>, at: seq<nat>, touches: seq<nat>)
    requires Embeds(t, lru, at) && SortedByTouch(lru, touches)
    ensures SortedByTouch(t, touches)
  {
    forall i, j | 0 <= i < j < |t|
      ensures t[i].born in Since(touches, t[j].born) && t[j].born !in Since(touches, t[i].born)
    {
      assert at[i] < at[j];
    }
  }

  lemma RemoveAtSorted(lru: seq<Entry>, k: nat, touches: seq<nat>)
    requires k < |lru| && SortedByTouch(lru, touches)
    ensures SortedByTouch(RemoveAt(lru, k), touches)
  {
    var t := RemoveAt(lru, k);
    SortedSublist(t, lru, seq(|t|, i => if i < k then i else i + 1), touches);
  }

  lemma PushSorted(lru: seq<Entry>, e: Entry, touches: seq<nat>)
    requires SortedByTouch(lru, touches)
    requires forall i :: 0 <= i < |lru| ==> lru[i].born != e.born
    ensures SortedByTouch([e] + lru, touches + [e.born])
    ensures SortedByTouch(lru, touches + [e.born])
  {
    forall i | 0 <= i < |lru|
      ensures Since(touches + [e.born], lru[i].born) == Since(touches, lru[i].born) + {e.born}
    {
      SinceSnoc(touches, e.born, lru[i].born);
    }
    SinceSnoc(touches, e.born, e.born);
  }

  lemma RemoveAtBirths(lru: seq<Entry>, k: nat)
    requires k < |lru| && DistinctBirths(lru)
    ensures forall i :: 0 <= i < |lru| - 1 ==> RemoveAt(lru, k)[i].born != lru[k].born
  {
  }

  lemma StepSorted(s: State, op: Op, touches: seq<nat>)
    requires WellFormed(s) && SortedByTouch(s.lru, touches)
    ensures SortedByTouch(Step(s, op).lru, touches + TouchOf(s, op))
  {
    match op
    case Get(url, now) =>
      if Lookup(s, url, now).Some? {
        var k := Find(s.lru, url);
        RemoveAtSorted(s.lru, k, touches);
        RemoveAtBirths(s.lru, k);
        PushSorted(RemoveAt(s.lru, k), s.lru[k], touches);
      } else {
        assert touches + [] == touches;
      }
    case Add(url, data, now, _) =>
      if data != [] {
        var room := MakeRoom(s);
        SortedSublist(room, s.lru, seq(|room|, i => i), touches);
        PushSorted(room, Entry(url, data, now, s.attempts), touches);
      } else {
        assert touches + [] == touches;
      }
    case Sweep(now) =>
      var at := FreshOnlyEmbeds(s.lru, now);
      SortedSublist(FreshOnly(s.lru, now), s.lru, at, touches);
      assert touches + [] == touches;
  }

  // In every reachable state the list is sorted by last touch, so an add that finds the cache
  // full evicts exactly the entry touched longest ago.
  lemma {:induction false} RunSorted(capacity: nat, start: int, ops: seq<Op>)
    requires 0 < capacity && Timely(start, ops)
    ensures SortedByTouch(Run(capacity, start, ops).lru, Touches(capacity, start, ops))
  {
    if ops != [] {
      var before, last := ops[..|ops| - 1], ops[|ops| - 1];
      TimelyPrefix(start, ops);
      RunSorted(capacity, start, before);
      RunWellFormed(capacity, start, before);
      StepSorted(Run(capacity, start, before), last, Touches(capacity, start, before));
    }
  }

  lemma EvictsLongestUntouched(capacity: nat, start: int, ops: seq<Op>, op: Op, e: Entry)
    requires 0 < capacity && Timely(start, ops)
    requires op.Add? && op.data != []
    requires e in Run(capacity, start, ops).lru
    ensures e !in Step(Run(capacity, start, ops), op).lru <==>
            && |Run(capacity, start, ops).lru| == capacity
            && forall f :: f in Run(capacity, start, ops).lru && f != e
                 ==> f.born in Since(Touches(capacity, start, ops), e.born)
  {
    RunSorted(capacity, start, ops);
    RunWellFormed(capacity, start, ops);
    LastIsLongestUntouched(Run(capacity, start, ops), Touches(capacity, start, ops), op, e);
  }

  // An add that fails for lack of memory changes nothing exactly when the cache was not full:
  // the eviction comes before the allocations.
  lemma FailedAddExact(capacity: nat, start: int, ops: seq<Op>, op: Op)
    requires 0 < capacity && Timely(start, ops)
    requires op.Add? && op.data != [] && !op.allocOk
    ensures Step(Run(capacity, start, ops), op).lru == Run(capacity, start, ops).lru
        <==> |Run(capacity, start, ops).lru| < capacity
  {
    RunWellFormed(capacity, start, ops);
  }

  // One add of `lost`, then n adds of `other`.
  function Filling(lost: Url, other: Url, data: seq<int>, start: int, n: nat): (ops: seq<Op>)
    ensures |ops| == n + 1 && forall i :: 0 <= i <= n ==> ops[i].now == start
  {
    if n == 0 then [Add(lost, data, start, true)]
    else Filling(lost, other, data, start, n - 1) + [Add(other, data, start, true)]
  }

  // `lost` was added first, then only `other`.
  ghost predicate Filled(s: State, lost: Entry, other: Url, n: nat) {
    && |s.lru| == n + 1 <= s.capacity
    && s.lru[n] == lost && forall i :: 0 <= i < n ==> s.lru[i].url == other
  }

  lemma FillingStep(s: State, lost: Entry, other: Url, data: seq<int>, now: int, n: nat)
    requires Filled(s, lost, other, n) && n + 1 < s.capacity && data != []
    ensures Filled(Step(s, Add(other, data, now, true)), lost, other, n + 1)
  {
    var e := Entry(other, data, now, s.attempts);
    assert Step(s, Add(other, data, now, true)).lru == [e] + s.lru;
  }

  lemma FillingFirst(capacity: nat, lost: Url, other: Url, data: seq<int>, start: int)
    requires 0 < capacity && data != []
    ensures Run(capacity, start, Filling(lost, other, data, start, 0))
         == State([Entry(lost, data, start, 0)], 1, start, capacity)
  {
    RunSnoc(capacity, start, [], Add(lost, data, start, true));
    assert [] + [Add(lost, data, start, true)] == Filling(lost, other, data, start, 0);
  }

  lemma FillingSnoc(capacity: nat, lost: Url, other: Url, data: seq<int>, start: int, n: nat)
    ensures Run(capacity, start, Filling(lost, other, data, start, n + 1))
         == Step(Run(capacity, start, Filling(lost, other, data, start, n)), Add(other, data, start, true))
  {
    RunSnoc(capacity, start, Filling(lost, other, data, start, n), Add(other, data, start, true));
  }

  lemma {:induction false} FillingRun(capacity: nat, lost: Url, other: Url, data: seq<int>, start: int, n: nat)
    requires n < capacity && data != []
    ensures Filled(Run(capacity, start, Filling(lost, other, data, start, n)), Entry(lost, data, start, 0), other, n)
    ensures Run(capacity, start, Filling(lost, other, data, start, n)).capacity == capacity
  {
    if n == 0 {
      FillingFirst(capacity, lost, other, data, start);
    } else {
      var m := n - 1;
      var s := Run(capacity, start, Filling(lost, other, data, start, m));
      FillingRun(capacity, lost, other, data, start, m);
      FillingSnoc(capacity, lost, other, data, start, m);
      FillingStep(s, Entry(lost, data, start, 0), other, data, start, m);
    }
  }

  lemma FilledLoses(s: State, lost: Entry, other: Url, op: Op)
    requires 0 < s.capacity && Filled(s, lost, other, s.capacity - 1) && lost.url != other
    requires op.Add? && op.data != [] && !op.allocOk && Fresh(lost, op.now)
    ensures Lookup(s, lost.url, op.now) == Some(lost)
    ensures Lookup(Step(s, op), lost.url, op.now) == None
  {
    var t, k := Step(s, op), Find(s.lru, lost.url);
    assert s.lru[s.capacity - 1] == lost && k == s.capacity - 1;
    assert t.lru == s.lru[..s.capacity - 1];
    assert forall i :: 0 <= i < |t.lru| ==> t.lru[i].url == other;
  }

  lemma AllAtOnce(start: int, ops: seq<Op>, op: Op)
    requires op.now == start && forall i :: 0 <= i < |ops| ==> ops[i].now == start
    ensures Timely(start, ops + [op])
  {
  }

  // For every capacity: once the cache has been filled, a failed add of any URL loses the
  // oldest answer.
  lemma FailedAddLoses(capacity: nat, lost: Url, other: Url, url: Url, data: seq<int>, start: int)
    requires 0 < capacity && data != [] && lost != other
    ensures var ops, op := Filling(lost, other, data, start, capacity - 1), Add(url, data, start, false);
            && Timely(start, ops + [op])
            && Lookup(Run(capacity, start, ops), lost, start) == Some(Entry(lost, data, start, 0))
            && Lookup(Run(capacity, start, ops + [op]), lost, start) == None
  {
    var n, oldest := capacity - 1, Entry(lost, data, start, 0);
    var ops, op := Filling(lost, other, data, start, n), Add(url, data, start, false);
    var s := Run(capacity, start, ops);
    FillingRun(capacity, lost, other, data, start, n);
    FilledLoses(s, oldest, other, op);
    AllAtOnce(start, ops, op);
    RunSnoc(capacity, start, ops, op);
  }

  lemma LastIsLongestUntouched(s: State, touches: seq<nat>, op: Op, e: Entry)
    requires WellFormed(s) && SortedByTouch(s.lru, touches) && 0 < s.capacity
    requires op.Add? && op.data != [] && e in s.lru
    ensures e !in Step(s, op).lru <==>
            && |s.lru| == s.capacity
            && forall f :: f in s.lru && f != e ==> f.born in Since(touches, e.born)
  {
    var n := |s.lru| - 1;
    var k :| 0 <= k <= n && s.lru[k] == e;
    var room := MakeRoom(s);
    assert e.born != s.attempts;
    assert e in Step(s, op).lru <==> e in room;
    if k < n {
      assert room[k] == e;
      assert s.lru[n] in s.lru && s.lru[n].born !in Since(touches, e.born);
    } else if |s.lru| == s.capacity {
      assert forall i :: 0 <= i < n ==> room[i].born != e.born;
      forall f | f in s.lru && f != e
        ensures f.born in Since(touches, e.born)
      {
        var i :| 0 <= i <= n && s.lru[i] == f;
        assert i < n;
      }
    } else {
      assert room[k] == e;
    }
  }

  // ---------------------------------------------------------------- sweeps are invisible

  lemma SublistFind(t: seq<Entry>, lru: seq<Entry>, at: seq<nat>, url: Url)
    requires Embeds(t, lru, at) && DistinctBirths(lru)
    requires Find(lru, url) < |lru| && lru[Find(lru, url)] in t
    ensures Find(t, url) < |t| && t[Find(t, url)] == lru[Find(lru, url)]
  {
    var k, k' := Find(lru, url), Find(t, url);
    var i :| 0 <= i < |t| && t[i] == lru[k];
    assert at[i] == k;
    assert at[k'] >= k;
  }

  lemma FirstIsYoungest(lru: seq<Entry>, url: Url, e: Entry)
    requires NewestFirst(lru) && StampsAgree(lru) && e in lru && e.url == url
    ensures Find(lru, url) < |lru| && e.stamp <= lru[Find(lru, url)].stamp
  {
    var j :| 0 <= j < |lru| && lru[j] == e;
    var k := Find(lru, url);
    assert k < j ==> lru[j].born < lru[k].born;
  }

  // A sweep keeps exactly the entries younger than 300 seconds, in their order.
  lemma SweepExact(s: State, now: int) returns (at: seq<nat>)
    ensures Embeds(Step(s, Sweep(now)).lru, s.lru, at)
    ensures forall e :: e in Step(s, Sweep(now)).lru <==> e in s.lru && now - e.stamp < 300
  {
    at := FreshOnlyEmbeds(s.lru, now);
  }

  // A sweep changes no lookup answer at its own time or later, for any URL.
  lemma SweepChangesNoAnswer(s: State, url: Url, now: int, later: int)
    requires WellFormed(s) && s.clock <= now <= later
    ensures Lookup(Step(s, Sweep(now)), url, later) == Lookup(s, url, later)
  {
    var k, kept := Find(s.lru, url), FreshOnly(s.lru, now);
    if k < |s.lru| && Fresh(s.lru[k], now) {
      var at := FreshOnlyEmbeds(s.lru, now);
      SublistFind(kept, s.lru, at, url);
    } else if Find(kept, url) < |kept| {
      FirstIsYoungest(s.lru, url, kept[Find(kept, url)]);
      assert false;
    }
  }

  // ---------------------------------------------------------------- no early eviction

  lemma {:induction false} LatestBirthUnique(start: int, ops: seq<Op>, url: Url, url': Url)
    requires Timely(start, ops)
    requires Latest(ops, url).Some? && Latest(ops, url').Some?
    requires Latest(ops, url).value.born == Latest(ops, url').value.born
    ensures url == url'
  {
    var before, last := ops[..|ops| - 1], ops[|ops| - 1];
    TimelyPrefix(start, ops);
    if Latest(before, url).Some? {
      LatestFacts(start, before, url);
    }
    if Latest(before, url').Some? {
      LatestFacts(start, before, url');
    }
    if Latest(ops, url) == Latest(before, url) && Latest(ops, url') == Latest(before, url') {
      LatestBirthUnique(start, before, url, url');
    }
  }

  function Births(lru: seq<Entry>): set<nat> {
    set e | e in lru :: e.born
  }

  lemma {:induction false} BirthsSize(lru: seq<Entry>)
    requires DistinctBirths(lru)
    ensures |Births(lru)| == |lru|
  {
    if lru != [] {
      var n := |lru| - 1;
      BirthsSize(lru[..n]);
      assert lru == lru[..n] + [lru[n]];
      assert Births(lru) == Births(lru[..n]) + {lru[n].born};
      assert lru[n].born !in Births(lru[..n]);
    }
  }

  lemma SubsetSize<T>(a: set<T>, b: set<T>)
    requires a <= b
    ensures |a| <= |b|
  {
    assert b == a + (b - a);
  }

  // Where the latest add for a URL can be: live, expired, or pushed out by `capacity` others.
  ghost predicate Accounted(s: State, touches: seq<nat>, e: Entry) {
    || e in s.lru
    || !Fresh(e, s.clock)
    || |Since(touches, e.born)| >= s.capacity
  }

  lemma EvictedAfterMany(s: State, touches: seq<nat>, e: Entry)
    requires WellFormed(s) && SortedByTouch(s.lru, touches)
    requires s.lru != [] && |s.lru| == s.capacity && e == s.lru[|s.lru| - 1]
    ensures |Since(touches + [s.attempts], e.born)| >= s.capacity
  {
    var n := |s.lru| - 1;
    var others := Births(s.lru[..n]);
    var since := Since(touches + [s.attempts], e.born);
    SinceSnoc(touches, s.attempts, e.born);
    BirthsSize(s.lru[..n]);
    assert others <= Since(touches, e.born);
    assert s.attempts !in others;
    SubsetSize(others + {s.attempts}, since);
  }

  lemma DroppedIsLast(s: State, e: Entry)
    requires e in s.lru && e !in MakeRoom(s)
    ensures |s.lru| >= s.capacity && e == s.lru[|s.lru| - 1]
  {
    var k :| 0 <= k < |s.lru| && s.lru[k] == e;
    assert forall i :: 0 <= i < |MakeRoom(s)| ==> MakeRoom(s)[i] == s.lru[i];
  }

  lemma StepAccounted(s: State, touches: seq<nat>, op: Op, e: Entry)
    requires WellFormed(s) && SortedByTouch(s.lru, touches) && Accounted(s, touches, e)
    requires s.clock <= op.now && e.born < s.attempts && 0 < s.capacity
    requires forall h :: h in s.lru && h.born == e.born && TouchOf(s, op) == [h.born] ==> h == e
    ensures Accounted(Step(s, op), touches + TouchOf(s, op), e)
  {
    var touched := TouchOf(s, op);
    if touched == [] {
      assert touches + touched == touches;
    } else {
      SinceSnoc(touches, touched[0], e.born);
      if touched[0] != e.born {
        SubsetSize(Since(touches, e.born), Since(touches + touched, e.born));
      }
    }
    match op
    case Get(url, now) =>
      if touched != [] {
        ToFrontMembers(s.lru, Find(s.lru, url));
        assert Lookup(s, url, now).value in s.lru;
      }
    case Add(_, data, _, _) =>
      if data != [] && e in s.lru && e !in MakeRoom(s) {
        DroppedIsLast(s, e);
        EvictedAfterMany(s, touches, e);
      }
    case Sweep(now) =>
  }

  lemma {:induction false} RunAccounted(capacity: nat, start: int, ops: seq<Op>, url: Url)
    requires 0 < capacity && Timely(start, ops) && Latest(ops, url).Some?
    ensures Accounted(Run(capacity, start, ops), Touches(capacity, start, ops),
                      Latest(ops, url).value)
  {
    var before, last := ops[..|ops| - 1], ops[|ops| - 1];
    var s := Run(capacity, start, before);
    TimelyPrefix(start, ops);
    RunWellFormed(capacity, start, before);
    if Latest(before, url).Some? && Latest(ops, url) == Latest(before, url) {
      var e := Latest(before, url).value;
      RunAccounted(capacity, start, before, url);
      RunSorted(capacity, start, before);
      LatestFacts(start, before, url);
      forall h | h in s.lru && h.born == e.born && TouchOf(s, last) == [h.born]
        ensures h == e
      {
        TouchedIsLatest(capacity, start, before, last, url, h);
      }
      StepAccounted(s, Touches(capacity, start, before), last, e);
    } else {
      assert Latest(ops, url).value == Run(capacity, start, ops).lru[0];
    }
  }

  lemma TouchedIsLatest(capacity: nat, start: int, before: seq<Op>, op: Op, url: Url, h: Entry)
    requires 0 < capacity && Timely(start, before) && Latest(before, url).Some?
    requires h in Run(capacity, start, before).lru
    requires h.born == Latest(before, url).value.born
    requires TouchOf(Run(capacity, start, before), op) == [h.born]
    ensures h == Latest(before, url).value
  {
    var s := Run(capacity, start, before);
    RunWellFormed(capacity, start, before);
    assert h.born != s.attempts;
    HitIsLatestAdd(capacity, start, before, op.url, op.now);
    LatestBirthUnique(start, before, url, op.url);
    var k :| 0 <= k < |s.lru| && s.lru[k] == h;
    assert k == Find(s.lru, op.url);
  }

  // Over every run: while the latest add for a URL is unexpired and fewer than `capacity`
  // other entries were touched or attempted since it was last touched, a lookup finds it.
  lemma NoEarlyEviction(capacity: nat, start: int, ops: seq<Op>, url: Url, now: int)
    requires 0 < capacity && Timely(start, ops) && Latest(ops, url).Some?
    requires Run(capacity, start, ops).clock <= now
    requires now - Latest(ops, url).value.stamp < 300
    requires |Since(Touches(capacity, start, ops), Latest(ops, url).value.born)| < capacity
    ensures Lookup(Run(capacity, start, ops), url, now) == Latest(ops, url)
  {
    var s := Run(capacity, start, ops);
    RunWellFormed(capacity, start, ops);
    RunAccounted(capacity, start, ops, url);
    RunShadowed(capacity, start, ops);
    LatestFacts(start, ops, url);
    var k :| 0 <= k < |s.lru| && s.lru[k] == Latest(ops, url).value;
    FirstIsLatest(s.lru, ops, url);
  }
}
