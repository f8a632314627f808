/** The policy of the proxy's cache over whole runs of any number of threads: ages tell the
    last uses, and what is evicted is what was used longest ago. */
module ProxyLru {
  import opened Basics
  import opened WebCacheModel
  import opened Proxy

  /** The state a run is in after its first n events. */
  ghost predicate At(events: seq<Event>, n: nat, s: State) {
    n <= |events| && Feasible(INITIAL, events[..n]) && Exec(INITIAL, events[..n]) == s
  }

  /** The n-th event answers a request for the URI from the cache, or adds it. */
  ghost predicate UsesAt(events: seq<Event>, n: nat, uri: string) {
    && n < |events|
    && exists s :: At(events, n, s) && Uses(s, events[n], uri)
  }

  predicate Uses(s: State, e: Event, uri: string) {
    match e
    case ReadsEntry(t) => t in s.threads && s.threads[t].Hit? && s.threads[t].uri == uri
    case Adds(t) => t in s.threads && s.threads[t].Absent? && s.threads[t].uri == uri
    case _ => false
  }

  ghost predicate LastUse(events: seq<Event>, n: nat, uri: string) {
    UsesAt(events, n, uri) && forall m :: n < m < |events| ==> !UsesAt(events, m, uri)
  }

  ghost predicate Orders(events: seq<Event>, s: State) {
    Feasible(INITIAL, events) && OrderlyRun(INITIAL, events) && Exec(INITIAL, events) == s
  }

  /** A run up to its last event, and that event. */
  lemma {:induction false} LastStep(s: State, events: seq<Event>)
    requires Feasible(s, events) && events != []
    ensures var n := |events| - 1;
            && Feasible(s, events[..n]) && Enabled(Exec(s, events[..n]), events[n])
            && Exec(s, events) == Apply(Exec(s, events[..n]), events[n])
            && (OrderlyRun(s, events) ==> OrderlyRun(s, events[..n]) && Orderly(Exec(s, events[..n]), events[n]))
    decreases |events|
  {
    var n := |events| - 1;
    if n > 0 {
      LastStep(Apply(s, events[0]), events[1..]);
      assert events[1..][..n - 1] == events[..n][1..] && events[..n][0] == events[0];
    }
  }

  /** Uses of a run that goes on. */
  lemma UsesBefore(events: seq<Event>, m: nat, uri: string)
    requires events != [] && m < |events| - 1
    ensures UsesAt(events, m, uri) <==> UsesAt(events[..|events| - 1], m, uri)
  {
    var init := events[..|events| - 1];
    assert init[..m] == events[..m] && init[m] == events[m];
    if UsesAt(events, m, uri) {
      var s :| At(events, m, s) && Uses(s, events[m], uri);
      assert At(init, m, s);
    }
    if UsesAt(init, m, uri) {
      var s :| At(init, m, s) && Uses(s, init[m], uri);
      assert At(events, m, s);
    }
  }

  lemma UsesLast(events: seq<Event>, s: State, uri: string)
    requires events != [] && At(events, |events| - 1, s)
    ensures UsesAt(events, |events| - 1, uri) <==> Uses(s, events[|events| - 1], uri)
  {
  }

  /** The last use of a URI stays the last one, unless the next event is one. */
  lemma LastUseStays(events: seq<Event>, s: State, n: nat, uri: string)
    requires events != [] && At(events, |events| - 1, s) && !Uses(s, events[|events| - 1], uri)
    requires LastUse(events[..|events| - 1], n, uri)
    ensures LastUse(events, n, uri)
  {
    UsesBefore(events, n, uri);
    forall m | n < m < |events| ensures !UsesAt(events, m, uri) {
      if m < |events| - 1 { UsesBefore(events, m, uri); } else { UsesLast(events, s, uri); }
    }
  }

  lemma LastUseNow(events: seq<Event>, s: State, uri: string)
    requires events != [] && At(events, |events| - 1, s) && Uses(s, events[|events| - 1], uri)
    ensures LastUse(events, |events| - 1, uri)
  {
  }

  lemma AtLonger(events: seq<Event>, n: nat, s: State)
    requires events != [] && At(events[..|events| - 1], n, s)
    ensures At(events, n, s)
  {
    assert events[..|events| - 1][..n] == events[..n];
  }

  /** What a step leaves of the entries: each one is new or stamped by a use of its URI at
      the new clock, or it is as before and its URI is not used. */
  lemma StepAges(s: State, e: Event, i: nat)
    requires Inv(s) && Enabled(s, e) && Orderly(s, e) && i < |Apply(s, e).store.entries|
    ensures var s' := Apply(s, e); var x := s'.store.entries[i];
            || (Uses(s, e, x.uri) && x.age == s'.time == s.time + 1)
            || (!Uses(s, e, x.uri) && x in s.store.entries)
  {
    match e
    case ReadsEntry(t) => ReadAges(s, t, i);
    case Adds(t) => AddAges(s, t, i);
    case _ =>
  }

  lemma ReadAges(s: State, t: Tid, i: nat)
    requires Inv(s) && Enabled(s, ReadsEntry(t)) && i < |s.store.entries|
    ensures var s' := Apply(s, ReadsEntry(t));
            && |s'.store.entries| == |s.store.entries| && s'.time == s.time + 1
            && var x := s'.store.entries[i];
               if Uses(s, ReadsEntry(t), x.uri) then x.age == s'.time else x == s.store.entries[i]
  {
    assert ThreadOk(s.store, s.origin, s.threads[t]);
    TouchedIs(s.store, s.time, s.threads[t].k);
  }

  lemma AddAges(s: State, t: Tid, i: nat)
    requires Inv(s) && Enabled(s, Adds(t)) && i < |Apply(s, Adds(t)).store.entries|
    ensures var s' := Apply(s, Adds(t));
            && s'.time == s.time + 1
            && var x := s'.store.entries[i];
               if Uses(s, Adds(t), x.uri) then x.age == s'.time else x in s.store.entries
  {
    var p := s.threads[t];
    assert ThreadOk(s.store, s.origin, p);
    AddsTo(s, t, p.uri, p.obj, Added(s.store, p.uri, p.obj, s.time + 1));
    UsesItsOwn(s, t, p.uri, p.obj, Apply(s, Adds(t)).store.entries[i].uri);
    AddedAges(s.store, p.uri, p.obj, s.time, i);
  }

  lemma AddsTo(s: State, t: Tid, uri: string, obj: seq<Byte>, st: Store)
    requires Enabled(s, Adds(t)) && s.threads[t] == Absent(uri, obj) && IsAdded(s.store, uri, obj, s.time + 1, st)
    ensures Apply(s, Adds(t)).store == st && Apply(s, Adds(t)).time == s.time + 1
  {
  }

  lemma UsesItsOwn(s: State, t: Tid, uri: string, obj: seq<Byte>, u: string)
    requires t in s.threads && s.threads[t] == Absent(uri, obj)
    ensures Uses(s, Adds(t), u) <==> u == uri
  {
  }

  lemma AddedAges(st: Store, uri: string, obj: seq<Byte>, now: nat, i: nat)
    requires Consistent(st, now) && Search(st.entries, uri) == |st.entries| && |obj| <= MakeRoom(st, |obj|).slots
    requires i < |Added(st, uri, obj, now + 1).entries|
    ensures var x := Added(st, uri, obj, now + 1).entries[i];
            if x.uri == uri then x.age == now + 1 else x in st.entries
  {
    AddedIsConsistent(st, uri, obj, now);
  }

  /** In every reachable state the age of an entry is the clock right after the last answer
      from the cache for its URI, or after its addition if there has been none. */
  lemma {:induction false} AgeIsLastUse(events: seq<Event>, s: State, i: nat) returns (n: nat, used: State)
    requires Orders(events, s) && i < |s.store.entries|
    ensures LastUse(events, n, s.store.entries[i].uri)
    ensures At(events, n + 1, used) && s.store.entries[i].age == used.time
    decreases |events|
  {
    assert events != [];
    var l := |events| - 1;
    LastStep(INITIAL, events);
    var init, before := events[..l], Exec(INITIAL, events[..l]);
    RunKeepsInv(INITIAL, init);
    StepAges(before, events[l], i);
    var x := s.store.entries[i];
    assert At(events, l, before) && events[..l + 1] == events;
    if Uses(before, events[l], x.uri) {
      LastUseNow(events, before, x.uri);
      n, used := l, s;
    } else {
      var j :| 0 <= j < |before.store.entries| && before.store.entries[j] == x;
      n, used := AgeIsLastUse(init, before, j);
      LastUseStays(events, before, n, x.uri);
      AtLonger(events, n + 1, used);
    }
  }

  /** The clock never goes back. */
  lemma {:induction false} ClockGoesOn(events: seq<Event>, m: nat, n: nat, s: State, s': State)
    requires m <= n <= |events| && At(events, m, s) && At(events, n, s')
    ensures s.time <= s'.time
    decreases n - m
  {
    if m < n {
      LastStep(INITIAL, events[..n]);
      assert events[..n][..n - 1] == events[..n - 1];
      ClockGoesOn(events, m, n - 1, s, Exec(INITIAL, events[..n - 1]));
    }
  }

  /** Least recently used first: of two entries, the older one was last used earlier. */
  lemma OlderWasUsedEarlier(events: seq<Event>, s: State, i: nat, j: nat, m: nat, n: nat)
    requires Orders(events, s) && i < |s.store.entries| && j < |s.store.entries|
    requires LastUse(events, m, s.store.entries[i].uri) && LastUse(events, n, s.store.entries[j].uri)
    ensures s.store.entries[i].age < s.store.entries[j].age ==> m < n
  {
    var m', used := AgeIsLastUse(events, s, i);
    var n', used' := AgeIsLastUse(events, s, j);
    assert m' == m && n' == n;
    if n <= m { ClockGoesOn(events, n + 1, m + 1, used', used); }
  }

  /** An addition evicts least recently used entries: whatever it evicts was last used before
      whatever it keeps. */
  lemma EvictsLeastRecentlyUsed(events: seq<Event>, s: State, t: Tid, i: nat, j: nat, m: nat, n: nat)
    requires Orders(events, s) && Enabled(s, Adds(t)) && i < |s.store.entries| && j < |s.store.entries|
    requires LastUse(events, m, s.store.entries[i].uri) && LastUse(events, n, s.store.entries[j].uri)
    requires s.time < MIN && s.store.entries[i] !in Apply(s, Adds(t)).store.entries
    requires s.store.entries[j] in Apply(s, Adds(t)).store.entries
    ensures m < n
  {
    RunKeepsInv(INITIAL, events);
    var p := s.threads[t];
    assert ThreadOk(s.store, s.origin, p);
    EvictedIsOlder(s.store, p.uri, p.obj, s.time, s.store.entries[i], s.store.entries[j]);
    OlderWasUsedEarlier(events, s, i, j, m, n);
  }

  lemma EvictedIsOlder(st: Store, uri: string, obj: seq<Byte>, now: nat, x: Entry, y: Entry)
    requires Consistent(st, now) && now < MIN && |obj| <= MAX_CACHE_SIZE && Search(st.entries, uri) == |st.entries|
    requires |obj| <= MakeRoom(st, |obj|).slots && x in st.entries && y in st.entries
    requires x !in Added(st, uri, obj, now + 1).entries && y in Added(st, uri, obj, now + 1).entries
    ensures x.age < y.age
  {
    var cut := AddedKeeps(st, uri, obj, now);
    KeptMembers(st.entries, cut, x);
    KeptMembers(st.entries, cut, y);
    assert y.age <= now;
  }
}
