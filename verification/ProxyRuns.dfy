/** Whole requests of the proxy (proxylab/proxy.c, doit), and the policy of its cache over
    whole runs: what is evicted is what was used longest ago. */
module ProxyRuns {
  import opened Basics
  import opened WebCacheModel
  import opened Proxy

  lemma OneMore(s: State, e: Event, rest: seq<Event>)
    ensures Feasible(s, [e] + rest) <==> Enabled(s, e) && Feasible(Apply(s, e), rest)
    ensures Feasible(s, [e] + rest) ==> Exec(s, [e] + rest) == Exec(Apply(s, e), rest)
  {
    assert ([e] + rest)[1..] == rest;
  }

  // ---- Requests ----

  predicate Cached(s: State, uri: string) {
    Search(s.store.entries, uri) < |s.store.entries|
  }

  function HitRun(t: Tid): seq<Event> {
    [Locks(t)] + ([Searches(t)] + ([ReadsEntry(t)] + ([Unlocks(t)] + [])))
  }

  function MissRun(t: Tid): seq<Event> {
    [Locks(t)] + ([Searches(t)] + ([Unlocks(t)] + []))
  }

  /** A cached URI is answered with the stored bytes, without asking the origin, and its
      entry alone is stamped. */
  predicate Answers(s: State, s': State, t: Tid, uri: string) {
    && Cached(s, uri)
    && var k := Search(s.store.entries, uri);
       && s' == s.(store := s'.store, time := s.time + 1,
                   threads := s.threads[t := Answered(uri, s.store.entries[k].obj)])
       && s'.store == s.store.(entries := s.store.entries[k := Entry(uri, s.store.entries[k].obj, s.time + 1)])
  }

  /** A request for a cached URI is answered from the cache, and any other one goes on to the
      origin; each of the two runs can be played exactly then. */
  lemma RequestIsServed(s: State, t: Tid, uri: string)
    requires Reachable(s) && s.lock == None && t in s.threads && s.threads[t] == Start(uri)
    ensures Feasible(s, HitRun(t)) <==> Cached(s, uri)
    ensures Feasible(s, MissRun(t)) <==> !Cached(s, uri)
    ensures Cached(s, uri) ==> Answers(s, Exec(s, HitRun(t)), t, uri)
    ensures !Cached(s, uri) ==> Exec(s, MissRun(t)) == s.(threads := s.threads[t := Fetching(uri)])
  {
    ReachableInv(s);
    var locked, searched := LooksUp(s, t, uri);
    OneMore(s, Locks(t), [Searches(t)] + ([ReadsEntry(t)] + ([Unlocks(t)] + [])));
    OneMore(s, Locks(t), [Searches(t)] + ([Unlocks(t)] + []));
    OneMore(locked, Searches(t), [ReadsEntry(t)] + ([Unlocks(t)] + []));
    OneMore(locked, Searches(t), [Unlocks(t)] + []);
    OneMore(searched, ReadsEntry(t), [Unlocks(t)] + []);
    OneMore(searched, Unlocks(t), []);
    if Cached(s, uri) { HitGoesOn(s, t, uri, searched); }
  }

  ghost predicate Steps(s: State, e: Event, s': State) {
    Enabled(s, e) && s' == Apply(s, e)
  }

  lemma LooksUp(s: State, t: Tid, uri: string) returns (locked: State, searched: State)
    requires s.lock == None && t in s.threads && s.threads[t] == Start(uri)
    ensures Steps(s, Locks(t), locked) && Steps(locked, Searches(t), searched)
    ensures searched == s.(lock := Some(t), threads := s.threads[
              t := if Cached(s, uri) then Hit(uri, Search(s.store.entries, uri)) else Missed(uri)])
  {
    locked := Apply(s, Locks(t));
    searched := Apply(locked, Searches(t));
  }

  lemma HitGoesOn(s: State, t: Tid, uri: string, searched: State)
    requires Cached(s, uri) && s.lock == None
    requires searched == s.(lock := Some(t), threads := s.threads[t := Hit(uri, Search(s.store.entries, uri))])
    ensures Enabled(searched, ReadsEntry(t))
    ensures var read := Apply(searched, ReadsEntry(t));
            && Feasible(read, [Unlocks(t)] + []) && Answers(s, Exec(read, [Unlocks(t)] + []), t, uri)
  {
    var read := Apply(searched, ReadsEntry(t));
    OneMore(read, Unlocks(t), []);
  }

  /** A thread that is not done can take a step of its own, unless it waits for the lock: no
      thread gets stuck. */
  lemma ThreadMoves(s: State, t: Tid) returns (e: Event)
    requires Reachable(s) && t in s.threads && !s.threads[t].Answered? && !s.threads[t].Finished?
    requires s.time < MIN && (WantsLock(s.threads[t]) ==> s.lock == None)
    ensures e.t == t && Enabled(s, e)
  {
    var p := s.threads[t];
    if Locked(p) {
      e := LockHolderMoves(s, t);
    } else if p.Fetching? {
      e := OriginResponds(t, []);
    } else {
      e := if WantsLock(p) then Locks(t) else GivesUp(t);
    }
  }

  /** Clients and origins are free: in any state a new request may come in, with any URI, and
      an origin may give any response. */
  lemma OutsideIsFree(s: State, t: Tid, uri: string, r: seq<Byte>)
    ensures t !in s.threads ==>
              && Enabled(s, Accepts(t, uri))
              && Apply(s, Accepts(t, uri)) == s.(lock := None, threads := s.threads[t := Start(uri)])
    ensures t in s.threads && s.threads[t] == Fetching(uri) ==>
              && Enabled(s, OriginResponds(t, r))
              && Apply(s, OriginResponds(t, r))
                 == s.(threads := s.threads[t := Fetched(uri, r)], origin := s.origin + {(uri, r)})
  {
  }

  // ---- Fetched responses ----

  /** What a thread does with a response: adds it, finds it cached by now, or gives it up. */
  function Adding(t: Tid): seq<Event> {
    [Locks(t)] + ([Searches(t)] + ([Adds(t)] + ([Unlocks(t)] + [])))
  }

  function Dropping(t: Tid): seq<Event> {
    [Locks(t)] + ([Searches(t)] + ([Unlocks(t)] + []))
  }

  function GivingUp(t: Tid): seq<Event> {
    [GivesUp(t)] + []
  }

  /** A response that is worth keeping: not empty, and small enough. */
  predicate Keepable(r: seq<Byte>) {
    0 < |r| <= 102400
  }

  /** What a thread leaves when it is done: only the store, the clock and the record of what
      origins have said differ. */
  predicate Done(s: State, s': State, t: Tid, uri: string, r: seq<Byte>) {
    s' == s.(store := s'.store, time := s'.time, threads := s.threads[t := Finished], origin := s.origin + {(uri, r)})
  }

  /** The response is now the first entry, with the new clock for its age, and behind it is
      what the shortest eviction has left. */
  ghost predicate KeptFirst(st: Store, now: nat, st': Store, uri: string, r: seq<Byte>) {
    && st'.entries != [] && st'.entries[0] == Entry(uri, r, now + 1)
    && exists cut :: st'.entries[1..] == Kept(st.entries, cut) && ShortestCut(st.entries, |r|, cut)
  }

  /** A response of the origin is added exactly when it can be kept and the URI is not cached
      by then; each of the three runs can be played exactly in its case. */
  lemma ResponseIsKept(s: State, t: Tid, uri: string, r: seq<Byte>)
    requires Reachable(s) && s.lock == None && t in s.threads && s.threads[t] == Fetching(uri) && s.time < MIN
    ensures Feasible(s, [OriginResponds(t, r)] + Adding(t)) <==> Keepable(r) && !Cached(s, uri)
    ensures Feasible(s, [OriginResponds(t, r)] + Dropping(t)) <==> Keepable(r) && Cached(s, uri)
    ensures Feasible(s, [OriginResponds(t, r)] + GivingUp(t)) <==> !Keepable(r)
    ensures Keepable(r) && !Cached(s, uri) ==>
              var s' := Exec(s, [OriginResponds(t, r)] + Adding(t));
              Done(s, s', t, uri, r) && s'.time == s.time + 1 && KeptFirst(s.store, s.time, s'.store, uri, r)
    ensures Keepable(r) && Cached(s, uri) ==>
              var s' := Exec(s, [OriginResponds(t, r)] + Dropping(t));
              Done(s, s', t, uri, r) && s'.store == s.store && s'.time == s.time
    ensures !Keepable(r) ==>
              var s' := Exec(s, [OriginResponds(t, r)] + GivingUp(t));
              Done(s, s', t, uri, r) && s'.store == s.store && s'.time == s.time
    ensures Enabled(s, GivesUp(t)) && Apply(s, GivesUp(t)) == s.(threads := s.threads[t := Finished])
  {
    ReachableInv(s);
    var fetched := Apply(s, OriginResponds(t, r));
    OneMore(s, OriginResponds(t, r), Adding(t));
    OneMore(s, OriginResponds(t, r), Dropping(t));
    OneMore(s, OriginResponds(t, r), GivingUp(t));
    Responds(s, fetched, t, uri, r);
  }

  lemma Responds(s: State, fetched: State, t: Tid, uri: string, r: seq<Byte>)
    requires Consistent(s.store, s.time) && s.time < MIN && s.lock == None
    requires t in s.threads && s.threads[t] == Fetching(uri) && fetched == Apply(s, OriginResponds(t, r))
    ensures Feasible(fetched, Adding(t)) <==> Keepable(r) && !Cached(s, uri)
    ensures Feasible(fetched, Dropping(t)) <==> Keepable(r) && Cached(s, uri)
    ensures Feasible(fetched, GivingUp(t)) <==> !Keepable(r)
    ensures Keepable(r) && !Cached(s, uri) ==>
              var s' := Exec(fetched, Adding(t));
              Done(s, s', t, uri, r) && s'.time == s.time + 1 && KeptFirst(s.store, s.time, s'.store, uri, r)
    ensures Keepable(r) && Cached(s, uri) ==>
              var s' := Exec(fetched, Dropping(t));
              Done(s, s', t, uri, r) && s'.store == s.store && s'.time == s.time
    ensures !Keepable(r) ==>
              var s' := Exec(fetched, GivingUp(t));
              Done(s, s', t, uri, r) && s'.store == s.store && s'.time == s.time
  {
    assert fetched.threads[t := Finished] == s.threads[t := Finished];
    if Keepable(r) {
      KeepableGoesOn(fetched, t, uri, r);
    } else {
      LongGivesUp(fetched, t, uri, r);
    }
  }

  lemma LongGivesUp(s: State, t: Tid, uri: string, r: seq<Byte>)
    requires t in s.threads && s.threads[t] == Fetched(uri, r) && !Keepable(r)
    ensures !Feasible(s, Adding(t)) && !Feasible(s, Dropping(t)) && Feasible(s, GivingUp(t))
    ensures Exec(s, GivingUp(t)) == s.(threads := s.threads[t := Finished])
  {
    OneMore(s, Locks(t), [Searches(t)] + ([Adds(t)] + ([Unlocks(t)] + [])));
    OneMore(s, Locks(t), [Searches(t)] + ([Unlocks(t)] + []));
    OneMore(s, GivesUp(t), []);
  }

  lemma KeepableGoesOn(s: State, t: Tid, uri: string, r: seq<Byte>)
    requires Consistent(s.store, s.time) && s.time < MIN && s.lock == None && Keepable(r)
    requires t in s.threads && s.threads[t] == Fetched(uri, r)
    ensures Feasible(s, Adding(t)) <==> !Cached(s, uri)
    ensures Feasible(s, Dropping(t)) <==> Cached(s, uri)
    ensures !Feasible(s, GivingUp(t))
    ensures !Cached(s, uri) ==>
              var s' := Exec(s, Adding(t));
              && s' == s.(store := s'.store, time := s.time + 1, threads := s.threads[t := Finished])
              && KeptFirst(s.store, s.time, s'.store, uri, r)
    ensures Cached(s, uri) ==> Exec(s, Dropping(t)) == s.(threads := s.threads[t := Finished])
  {
    var locked, searched := Confirms(s, t, uri, r);
    TwoMore(s, Locks(t), locked, Searches(t), searched, [Adds(t)] + ([Unlocks(t)] + []));
    TwoMore(s, Locks(t), locked, Searches(t), searched, [Unlocks(t)] + []);
    OneMore(s, GivesUp(t), []);
    if Cached(s, uri) {
      CachedGoesOn(s, t, searched);
    } else {
      AddGoesOn(s, t, uri, r, searched);
    }
  }

  lemma TwoMore(s: State, e: Event, s1: State, f: Event, s2: State, rest: seq<Event>)
    requires Steps(s, e, s1) && Steps(s1, f, s2)
    ensures Feasible(s, [e] + ([f] + rest)) <==> Feasible(s2, rest)
    ensures Feasible(s2, rest) ==> Exec(s, [e] + ([f] + rest)) == Exec(s2, rest)
  {
    OneMore(s, e, [f] + rest);
    OneMore(s1, f, rest);
  }

  lemma CachedGoesOn(s: State, t: Tid, searched: State)
    requires s.lock == None && t in s.threads
    requires searched == s.(lock := Some(t), threads := s.threads[t := Leaving])
    ensures !Feasible(searched, [Adds(t)] + ([Unlocks(t)] + [])) && Feasible(searched, [Unlocks(t)] + [])
    ensures Exec(searched, [Unlocks(t)] + []) == s.(threads := s.threads[t := Finished])
  {
    OneMore(searched, Adds(t), [Unlocks(t)] + []);
    OneMore(searched, Unlocks(t), []);
  }

  lemma Confirms(s: State, t: Tid, uri: string, r: seq<Byte>) returns (locked: State, searched: State)
    requires s.lock == None && t in s.threads && s.threads[t] == Fetched(uri, r) && Keepable(r)
    ensures Steps(s, Locks(t), locked) && Steps(locked, Searches(t), searched)
    ensures searched == s.(lock := Some(t),
                           threads := s.threads[t := if Cached(s, uri) then Leaving else Absent(uri, r)])
  {
    assert r[..|r|] == r;
    locked := Apply(s, Locks(t));
    searched := Apply(locked, Searches(t));
  }

  lemma AddGoesOn(s: State, t: Tid, uri: string, r: seq<Byte>, searched: State)
    requires Consistent(s.store, s.time) && s.time < MIN && s.lock == None && !Cached(s, uri) && Keepable(r)
    requires searched == s.(lock := Some(t), threads := s.threads[t := Absent(uri, r)])
    ensures Feasible(searched, [Adds(t)] + ([Unlocks(t)] + [])) && !Feasible(searched, [Unlocks(t)] + [])
    ensures var s' := Exec(searched, [Adds(t)] + ([Unlocks(t)] + []));
            && s' == s.(store := s'.store, time := s.time + 1, threads := s.threads[t := Finished])
            && KeptFirst(s.store, s.time, s'.store, uri, r)
  {
    var st := AddedIsKept(s.store, s.time, uri, r);
    var added := AddsIt(s, t, uri, r, searched, st);
    OneMore(searched, Unlocks(t), []);
    OneMore(searched, Adds(t), [Unlocks(t)] + []);
    OneMore(added, Unlocks(t), []);
  }

  lemma AddsIt(s: State, t: Tid, uri: string, r: seq<Byte>, searched: State, st: Store) returns (added: State)
    requires s.lock == None && IsAdded(s.store, uri, r, s.time + 1, st)
    requires searched == s.(lock := Some(t), threads := s.threads[t := Absent(uri, r)])
    ensures Steps(searched, Adds(t), added)
    ensures added == s.(store := st, time := s.time + 1, lock := Some(t), threads := s.threads[t := Leaving])
  {
    added := Apply(searched, Adds(t));
  }

  lemma AddedIsKept(st: Store, now: nat, uri: string, r: seq<Byte>) returns (st': Store)
    requires Consistent(st, now) && now < MIN && Keepable(r) && Search(st.entries, uri) == |st.entries|
    ensures IsAdded(st, uri, r, now + 1, st') && KeptFirst(st, now, st', uri, r)
  {
    var cut := AddedKeeps(st, uri, r, now);
    st' := Added(st, uri, r, now + 1);
    assert st'.entries[1..] == Kept(st.entries, cut);
  }
}
