/** Any number of proxy threads sharing one cache (proxylab/proxy.c, doit): look up, fetch
    from the origin, look up again, add. Every step of every thread interleaves; only the
    mutex keeps the steps between lock and unlock apart. Each new thread initialises the
    mutex again, which frees it; the runs in which that never happens while the lock is held
    are the ones the protocol is safe in. */
module Proxy {
  import opened Basics
  import opened WebCacheModel

  type Tid = nat

  /** Where a thread is. In the phases marked (L) it holds the lock. */
  datatype Phase =
    | Start(uri: string)
    | Searching(uri: string)                          // (L)
    | Hit(uri: string, k: nat)                        // (L) the search returned entry k
    | Read(uri: string, reply: seq<Byte>)             // (L) entry copied out
    | Missed(uri: string)                             // (L)
    | Fetching(uri: string)
    | Fetched(uri: string, response: seq<Byte>)
    | Confirming(uri: string, obj: seq<Byte>)         // (L)
    | Absent(uri: string, obj: seq<Byte>)             // (L) the second search found nothing
    | Leaving                                         // (L)
    | Answered(uri: string, reply: seq<Byte>)         // answered from the cache
    | Finished

  predicate Locked(p: Phase) {
    p.Searching? || p.Hit? || p.Read? || p.Missed? || p.Confirming? || p.Absent? || p.Leaving?
  }

  /** `origin` records every response an origin server ever gave, with its URI. */
  datatype State = State(store: Store, time: nat, lock: Option<Tid>, threads: map<Tid, Phase>,
                         origin: set<(string, seq<Byte>)>)

  const INITIAL := State(EMPTY, 0, None, map[], {})

  datatype Event =
    | Accepts(t: Tid, uri: string)
    | Locks(t: Tid)
    | Searches(t: Tid)
    | ReadsEntry(t: Tid)
    | Unlocks(t: Tid)
    | GivesUp(t: Tid)
    | OriginResponds(t: Tid, response: seq<Byte>)
    | Adds(t: Tid)

  predicate Enabled(s: State, e: Event) {
    match e
    case Accepts(t, uri) => t !in s.threads
    case Locks(t) => s.lock == None && t in s.threads && WantsLock(s.threads[t])
    case Searches(t) => t in s.threads && (s.threads[t].Searching? || s.threads[t].Confirming?)
    case ReadsEntry(t) => t in s.threads && s.threads[t].Hit? && s.threads[t].k < |s.store.entries|
    case Unlocks(t) => t in s.threads && (s.threads[t].Read? || s.threads[t].Missed? || s.threads[t].Leaving?)
    case GivesUp(t) => t in s.threads && (s.threads[t].Fetching? || (s.threads[t].Fetched? && !WantsLock(s.threads[t])))
    case OriginResponds(t, response) => t in s.threads && s.threads[t].Fetching?
    // the eviction loop must find enough to evict, or it never ends
    case Adds(t) =>
      t in s.threads && s.threads[t].Absent?
      && |s.threads[t].obj| <= MakeRoom(s.store, |s.threads[t].obj|).slots
  }

  /** A new thread initialises the mutex; this must not happen while the lock is held. */
  predicate Orderly(s: State, e: Event) {
    e.Accepts? ==> s.lock == None
  }

  predicate WantsLock(p: Phase) {
    p.Start? || (p.Fetched? && KeptSize(p.response) > 0)
  }

  function Moves(s: State, t: Tid, p: Phase): State {
    s.(threads := s.threads[t := p])
  }

  function Apply(s: State, e: Event): State
    requires Enabled(s, e)
  {
    match e
    case Accepts(t, uri) => Moves(s.(lock := None), t, Start(uri))
    case Locks(t) =>
      var p := s.threads[t];
      Moves(s.(lock := Some(t)), t,
            if p.Start? then Searching(p.uri) else Confirming(p.uri, p.response[..KeptSize(p.response)]))
    case Searches(t) =>
      var p := s.threads[t];
      var k := Search(s.store.entries, p.uri);
      var found := k < |s.store.entries|;
      Moves(s, t,
            if p.Searching? then (if found then Hit(p.uri, k) else Missed(p.uri))
            else if found then Leaving else Absent(p.uri, p.obj))
    case ReadsEntry(t) =>
      var p := s.threads[t];
      Moves(s.(store := Touched(s.store, p.k, s.time + 1), time := s.time + 1), t,
            Read(p.uri, s.store.entries[p.k].obj))
    case Unlocks(t) =>
      var p := s.threads[t];
      Moves(s.(lock := None), t,
            match p case Read(uri, reply) => Answered(uri, reply) case Missed(uri) => Fetching(uri) case _ => Finished)
    case GivesUp(t) => Moves(s, t, Finished)
    case OriginResponds(t, response) =>
      var p := s.threads[t];
      Moves(s.(origin := s.origin + {(p.uri, response)}), t, Fetched(p.uri, response))
    case Adds(t) =>
      var p := s.threads[t];
      Moves(s.(store := Added(s.store, p.uri, p.obj, s.time + 1), time := s.time + 1), t, Leaving)
  }

  // ---- What every run keeps ----

  /** The lock belongs to exactly the thread that is between lock and unlock. */
  ghost predicate LockOk(s: State) {
    && (forall t :: t in s.threads ==> (Locked(s.threads[t]) <==> s.lock == Some(t)))
    && (s.lock.Some? ==> s.lock.value in s.threads)
  }

  /** What a thread knows about the cache and the origin. */
  ghost predicate ThreadOk(store: Store, origin: set<(string, seq<Byte>)>, p: Phase) {
    match p
    case Hit(uri, k) => k < |store.entries| && store.entries[k].uri == uri
    case Read(uri, reply) => (uri, reply) in origin && |reply| <= MAX_OBJECT_SIZE
    case Answered(uri, reply) => (uri, reply) in origin && |reply| <= MAX_OBJECT_SIZE
    case Fetched(uri, response) => (uri, response) in origin
    case Confirming(uri, obj) => (uri, obj) in origin && 0 < |obj| <= MAX_OBJECT_SIZE
    case Absent(uri, obj) =>
        (uri, obj) in origin && 0 < |obj| <= MAX_OBJECT_SIZE && Search(store.entries, uri) == |store.entries|
    case _ => true
  }

  /** Every cached object is a response the origin gave for its URI, and small enough. */
  ghost predicate Genuine(store: Store, origin: set<(string, seq<Byte>)>) {
    forall i :: 0 <= i < |store.entries| ==>
      (store.entries[i].uri, store.entries[i].obj) in origin && |store.entries[i].obj| <= MAX_OBJECT_SIZE
  }

  ghost predicate Inv(s: State) {
    && LockOk(s) && Consistent(s.store, s.time) && Genuine(s.store, s.origin)
    && forall t :: t in s.threads ==> ThreadOk(s.store, s.origin, s.threads[t])
  }

  /** Threads outside the lock know nothing that another thread's step can spoil. */
  lemma OthersKeep(s: State, t: Tid, store': Store, origin': set<(string, seq<Byte>)>)
    requires Inv(s) && s.origin <= origin'
    requires s.store == store' || s.lock == Some(t)
    ensures forall u :: u in s.threads && u != t ==> ThreadOk(store', origin', s.threads[u])
  {
  }

  /** A step of thread `t` that leaves its own phase right keeps the invariant. */
  lemma MoveKeeps(s: State, t: Tid, s': State)
    requires Inv(s) && s.origin <= s'.origin && t in s'.threads
    requires s'.threads == s.threads[t := s'.threads[t]]
    requires s'.store == s.store || s.lock == Some(t)
    requires Consistent(s'.store, s'.time) && Genuine(s'.store, s'.origin)
    requires ThreadOk(s'.store, s'.origin, s'.threads[t])
    requires s'.lock == (if Locked(s'.threads[t]) then Some(t) else if s.lock == Some(t) then None else s.lock)
    requires Locked(s'.threads[t]) ==> s.lock == None || s.lock == Some(t)
    ensures Inv(s')
  {
    OthersKeep(s, t, s'.store, s'.origin);
  }

  lemma StepKeepsInv(s: State, e: Event)
    requires Inv(s) && Enabled(s, e) && Orderly(s, e)
    ensures Inv(Apply(s, e))
  {
    if e.ReadsEntry? {
      ReadStepKeeps(s, e);
    } else if e.Adds? {
      AddStepKeeps(s, e);
    } else if e.Locks? {
      LockStepKeeps(s, e);
    } else {
      MoveKeeps(s, e.t, Apply(s, e));
    }
  }

  lemma ReadStepKeeps(s: State, e: Event)
    requires Inv(s) && Enabled(s, e) && e.ReadsEntry?
    ensures Inv(Apply(s, e))
  {
    StoreReadKeeps(s.store, s.time, s.origin, s.threads[e.t].k);
    MoveKeeps(s, e.t, Apply(s, e));
  }

  lemma StoreReadKeeps(store: Store, time: nat, origin: set<(string, seq<Byte>)>, k: nat)
    requires Consistent(store, time) && Genuine(store, origin) && k < |store.entries|
    ensures Consistent(Touched(store, k, time + 1), time + 1)
    ensures Genuine(Touched(store, k, time + 1), origin)
  {
    TouchedKeeps(store, time, k);
  }

  lemma AddStepKeeps(s: State, e: Event)
    requires Inv(s) && Enabled(s, e) && e.Adds?
    ensures Inv(Apply(s, e))
  {
    var p, t := s.threads[e.t], s.time + 1;
    assert ThreadOk(s.store, s.origin, p);
    var st := Added(s.store, p.uri, p.obj, t);
    StoreAddKeeps(s.store, s.time, s.origin, p.uri, p.obj, st);
    AddedMoves(s, e.t, st);
  }

  lemma AddedMoves(s: State, t: Tid, st: Store)
    requires Inv(s) && t in s.threads && s.threads[t].Absent? && s.lock == Some(t)
    requires Consistent(st, s.time + 1) && Genuine(st, s.origin)
    ensures Inv(Moves(s.(store := st, time := s.time + 1), t, Leaving))
  {
    MoveKeeps(s, t, Moves(s.(store := st, time := s.time + 1), t, Leaving));
  }

  lemma LockStepKeeps(s: State, e: Event)
    requires Inv(s) && Enabled(s, e) && e.Locks?
    ensures Inv(Apply(s, e))
  {
    var p := s.threads[e.t];
    if p.Fetched? { assert p.response[..|p.response|] == p.response; }
    MoveKeeps(s, e.t, Apply(s, e));
  }

  lemma StoreAddKeeps(store: Store, time: nat, origin: set<(string, seq<Byte>)>, uri: string, obj: seq<Byte>, st: Store)
    requires Consistent(store, time) && Genuine(store, origin) && Search(store.entries, uri) == |store.entries|
    requires (uri, obj) in origin && |obj| <= MAX_OBJECT_SIZE && |obj| <= MakeRoom(store, |obj|).slots
    requires st == Added(store, uri, obj, time + 1)
    ensures Consistent(st, time + 1) && Genuine(st, origin)
  {
    AddedIsConsistent(store, uri, obj, time);
  }

  // ---- Every run ----

  /** The events can happen in this order. */
  ghost predicate Feasible(s: State, events: seq<Event>)
    decreases |events|
  {
    events == [] || (Enabled(s, events[0]) && Feasible(Apply(s, events[0]), events[1..]))
  }

  /** No thread starts while the lock is held. */
  ghost predicate OrderlyRun(s: State, events: seq<Event>)
    requires Feasible(s, events)
    decreases |events|
  {
    events == [] || (Orderly(s, events[0]) && OrderlyRun(Apply(s, events[0]), events[1..]))
  }

  function Exec(s: State, events: seq<Event>): State
    requires Feasible(s, events)
    decreases |events|
  {
    if events == [] then s else Exec(Apply(s, events[0]), events[1..])
  }

  lemma {:induction false} RunKeepsInv(s: State, events: seq<Event>)
    requires Inv(s) && Feasible(s, events) && OrderlyRun(s, events)
    ensures Inv(Exec(s, events))
    decreases |events|
  {
    if events != [] {
      StepKeepsInv(s, events[0]);
      RunKeepsInv(Apply(s, events[0]), events[1..]);
    }
  }

  /** Some orderly run leads to `s`. */
  ghost predicate Reachable(s: State) {
    exists events :: Feasible(INITIAL, events) && OrderlyRun(INITIAL, events) && Exec(INITIAL, events) == s
  }

  lemma ReachableInv(s: State)
    requires Reachable(s)
    ensures Inv(s)
  {
    var events :| Feasible(INITIAL, events) && OrderlyRun(INITIAL, events) && Exec(INITIAL, events) == s;
    RunKeepsInv(INITIAL, events);
  }

  /** At most one thread is between lock and unlock. */
  lemma MutualExclusion(s: State, t: Tid, u: Tid)
    requires Reachable(s) && t in s.threads && u in s.threads && Locked(s.threads[t]) && Locked(s.threads[u])
    ensures t == u
  {
    ReachableInv(s);
  }

  /** In every reachable state no URI is cached twice, all ages are distinct and at most the
      clock, and free space plus stored bytes is the whole budget. */
  lemma CacheIsConsistent(s: State)
    requires Reachable(s)
    ensures DistinctUris(s.store.entries) && DistinctAges(s.store.entries) && Budget(s.store)
    ensures forall i :: 0 <= i < |s.store.entries| ==> s.store.entries[i].age <= s.time
  {
    ReachableInv(s);
  }

  /** Everything cached, and every answer given from the cache, is byte for byte a response
      that an origin gave for that URI. */
  lemma RepliesAreGenuine(s: State)
    requires Reachable(s)
    ensures forall i :: 0 <= i < |s.store.entries| ==> (s.store.entries[i].uri, s.store.entries[i].obj) in s.origin
    ensures forall t :: t in s.threads && s.threads[t].Answered? ==>
              (s.threads[t].uri, s.threads[t].reply) in s.origin && |s.threads[t].reply| <= MAX_OBJECT_SIZE
  {
    ReachableInv(s);
  }

  /** The thread holding the lock can always take its next step, as long as the clock has
      not passed MIN: no search result goes stale, and eviction always finds room. */
  lemma LockHolderMoves(s: State, t: Tid) returns (e: Event)
    requires Reachable(s) && t in s.threads && Locked(s.threads[t]) && s.time < MIN
    ensures e.t == t && Enabled(s, e)
  {
    ReachableInv(s);
    var p := s.threads[t];
    if p.Searching? || p.Confirming? {
      e := Searches(t);
    } else if p.Hit? {
      e := ReadsEntry(t);
    } else if p.Absent? {
      var _, _ := MakeRoomIsShortestCut(s.store, |p.obj|, s.time);
      e := Adds(t);
    } else {
      e := Unlocks(t);
    }
  }

  // ---- Initialising the mutex again ----

  /** At most one thread is between lock and unlock. */
  ghost predicate Exclusive(s: State) {
    forall t, u :: t in s.threads && u in s.threads && Locked(s.threads[t]) && Locked(s.threads[u]) ==> t == u
  }

  /** No thread is. */
  ghost predicate NobodyInside(s: State) {
    forall t :: t in s.threads ==> !Locked(s.threads[t])
  }

  /** Exclusion, in all states of a run. */
  ghost predicate ExclusiveRun(s: State, events: seq<Event>)
    requires Feasible(s, events)
    decreases |events|
  {
    Exclusive(s) && (events == [] || ExclusiveRun(Apply(s, events[0]), events[1..]))
  }

  /** The mutex lets no thread in beside another. */
  ghost predicate GuardedRun(s: State, events: seq<Event>)
    requires Feasible(s, events)
    decreases |events|
  {
    events == []
    || ((events[0].Locks? ==> NobodyInside(s)) && GuardedRun(Apply(s, events[0]), events[1..]))
  }

  lemma StepIsExclusive(s: State, e: Event)
    requires Exclusive(s) && Enabled(s, e)
    ensures Exclusive(Apply(s, e)) <==> (e.Locks? ==> NobodyInside(s))
  {
    var s' := Apply(s, e);
    assert e.t in s'.threads;
    if e.Locks? && !NobodyInside(s) {
      var t :| t in s.threads && Locked(s.threads[t]);
      assert t in s'.threads && Locked(s'.threads[t]) && Locked(s'.threads[e.t]) && t != e.t;
    }
  }

  /** The exact condition for exclusion along any run, orderly or not: no thread gets the
      lock while another is inside. */
  lemma {:induction false} ExclusionExactly(s: State, events: seq<Event>)
    requires Exclusive(s) && Feasible(s, events)
    ensures ExclusiveRun(s, events) <==> GuardedRun(s, events)
    decreases |events|
  {
    if events != [] {
      StepIsExclusive(s, events[0]);
      if Exclusive(Apply(s, events[0])) { ExclusionExactly(Apply(s, events[0]), events[1..]); }
    }
  }

  // When does the mutex itself guarantee that? When no thread starts while it is held.

  /** Exclusion holds, and whichever thread can take the lock next does not break it. */
  ghost predicate Secure(s: State) {
    Exclusive(s) && forall t :: Enabled(s, Locks(t)) ==> Exclusive(Apply(s, Locks(t)))
  }

  lemma InvIsSecure(s: State)
    requires Inv(s)
    ensures Secure(s)
  {
    forall t | Enabled(s, Locks(t)) ensures Exclusive(Apply(s, Locks(t))) {
      StepKeepsInv(s, Locks(t));
    }
  }

  /** A thread that starts while another is between lock and unlock frees the mutex, takes
      it, and is then between lock and unlock as well. */
  lemma StartingBreaksExclusion(s: State, u: Tid, uri: string)
    requires Inv(s) && s.lock.Some? && u !in s.threads
    ensures Enabled(s, Accepts(u, uri)) && !Secure(Apply(s, Accepts(u, uri)))
    ensures var s' := Apply(s, Accepts(u, uri));
            Enabled(s', Locks(u)) && !Exclusive(Apply(s', Locks(u)))
  {
    var t, s' := s.lock.value, Apply(s, Accepts(u, uri));
    var s'' := Apply(s', Locks(u));
    assert t in s''.threads && Locked(s''.threads[t]) && t != u;
    assert u in s''.threads && Locked(s''.threads[u]);
  }

  /** Step by step: after a step exclusion holds and no next locking can break it, exactly
      when the step does not start a thread while the lock is held. */
  lemma StepSecureExactly(s: State, e: Event)
    requires Inv(s) && Enabled(s, e)
    ensures Secure(Apply(s, e)) <==> Orderly(s, e)
  {
    if Orderly(s, e) {
      StepKeepsInv(s, e);
      InvIsSecure(Apply(s, e));
    } else {
      StartingBreaksExclusion(s, e.t, e.uri);
    }
  }

  /** In all states of a run exclusion holds and no next locking can break it. */
  ghost predicate SecureRun(s: State, events: seq<Event>)
    requires Feasible(s, events)
    decreases |events|
  {
    Secure(s) && (events == [] || SecureRun(Apply(s, events[0]), events[1..]))
  }

  lemma {:induction false} SecureExactly(s: State, events: seq<Event>)
    requires Inv(s) && Feasible(s, events)
    ensures SecureRun(s, events) <==> OrderlyRun(s, events)
    decreases |events|
  {
    InvIsSecure(s);
    if events != [] {
      var e := events[0];
      StepSecureExactly(s, e);
      if Orderly(s, e) {
        StepKeepsInv(s, e);
        SecureExactly(Apply(s, e), events[1..]);
      }
    }
  }

  lemma {:induction false} SecureIsExclusive(s: State, events: seq<Event>)
    requires Feasible(s, events) && SecureRun(s, events)
    ensures ExclusiveRun(s, events)
    decreases |events|
  {
    if events != [] { SecureIsExclusive(Apply(s, events[0]), events[1..]); }
  }

  /** A run that is not orderly has passed a state from which two threads get inside: right
      behind the first disorderly start, the new thread takes the lock. */
  lemma {:induction false} DisorderOpens(s: State, events: seq<Event>) returns (k: nat, u: Tid)
    requires Inv(s) && Feasible(s, events) && !OrderlyRun(s, events)
    ensures k <= |events| && Feasible(s, events[..k] + [Locks(u)])
    ensures !Exclusive(Exec(s, events[..k] + [Locks(u)]))
    decreases |events|
  {
    var e := events[0];
    var rest: seq<Event>;
    if Orderly(s, e) {
      StepKeepsInv(s, e);
      k, u := DisorderOpens(Apply(s, e), events[1..]);
      rest := events[1..][..k] + [Locks(u)];
      k := k + 1;
    } else {
      StartingBreaksExclusion(s, e.t, e.uri);
      k, u := 1, e.t;
      rest := [Locks(u)];
      assert Exec(Apply(s, e), rest) == Apply(Apply(s, e), Locks(u)) by { assert rest[1..] == []; }
    }
    var broken := events[..k] + [Locks(u)];
    assert broken[0] == e && broken[1..] == rest;
  }

  /** For every run of the proxy, from its start: it is orderly exactly when exclusion holds
      all along and at no point a locking could break it; and then exclusion holds. */
  lemma ProxySecureExactly(events: seq<Event>)
    requires Feasible(INITIAL, events)
    ensures SecureRun(INITIAL, events) <==> OrderlyRun(INITIAL, events)
    ensures OrderlyRun(INITIAL, events) ==> ExclusiveRun(INITIAL, events)
  {
    SecureExactly(INITIAL, events);
    if OrderlyRun(INITIAL, events) { SecureIsExclusive(INITIAL, events); }
  }

  // ---- Three runs that are not orderly ----

  lemma {:induction false} ExtendRun(s: State, events: seq<Event>, e: Event)
    requires Feasible(s, events) && Enabled(Exec(s, events), e)
    ensures Feasible(s, events + [e]) && Exec(s, events + [e]) == Apply(Exec(s, events), e)
    decreases |events|
  {
    var longer := events + [e];
    if events == [] {
      assert longer[0] == e && longer[1..] == [];
    } else {
      assert longer[0] == events[0] && longer[1..] == events[1..] + [e];
      ExtendRun(Apply(s, events[0]), events[1..], e);
    }
  }

  lemma Plays(events: seq<Event>, e: Event) returns (longer: seq<Event>)
    requires Feasible(INITIAL, events) && Enabled(Exec(INITIAL, events), e)
    ensures longer == events + [e] && Feasible(INITIAL, longer)
    ensures Exec(INITIAL, longer) == Apply(Exec(INITIAL, events), e)
  {
    ExtendRun(INITIAL, events, e);
    longer := events + [e];
  }

  /** Two requests, and two threads inside. */
  lemma TwoInside(u: string, v: string)
    ensures var events := [Accepts(0, u), Locks(0), Accepts(1, v), Locks(1)];
            Feasible(INITIAL, events) && !Exclusive(Exec(INITIAL, events))
  {
    var events := Plays([], Accepts(0, u));
    events := Plays(events, Locks(0));
    events := Plays(events, Accepts(1, v));
    events := Plays(events, Locks(1));
    var s := Exec(INITIAL, events);
    assert s.threads == map[0 := Searching(u), 1 := Searching(v)];
    assert 0 in s.threads && 1 in s.threads && Locked(s.threads[0]) && Locked(s.threads[1]);
    assert events == [Accepts(0, u), Locks(0), Accepts(1, v), Locks(1)];
  }

  /** A run that is not orderly need not go wrong: the late thread can be slow. */
  lemma DisorderMayPass(u: string, v: string)
    ensures var events := [Accepts(0, u), Locks(0), Accepts(1, v), Searches(0), Unlocks(0)];
            Feasible(INITIAL, events) && !OrderlyRun(INITIAL, events) && ExclusiveRun(INITIAL, events)
  {
    var events := [Accepts(0, u), Locks(0), Accepts(1, v), Searches(0), Unlocks(0)];
    var s1 := Apply(INITIAL, Accepts(0, u));
    var s2 := Apply(s1, Locks(0));
    var s3 := Apply(s2, Accepts(1, v));
    var s4 := Apply(s3, Searches(0));
    assert events[1..][1..][1..][1..] == [Unlocks(0)];
    assert events[1..][1..][1..] == [Searches(0), Unlocks(0)];
    assert events[1..][1..] == [Accepts(1, v), Searches(0), Unlocks(0)];
    assert Feasible(s4, [Unlocks(0)]) && GuardedRun(s4, [Unlocks(0)]);
    assert Feasible(s3, [Searches(0), Unlocks(0)]) && GuardedRun(s3, [Searches(0), Unlocks(0)]);
    assert Feasible(s2, events[1..][1..]) && GuardedRun(s2, events[1..][1..]) && !OrderlyRun(s2, events[1..][1..]);
    ExclusionExactly(INITIAL, events);
  }

  /** A thread up to the point where it has its response and wants the lock again. */
  function Fetches(t: Tid, u: string, r: seq<Byte>): seq<Event> {
    [Accepts(t, u), Locks(t), Searches(t), Unlocks(t), OriginResponds(t, r)]
  }

  /** Two threads that have fetched the same URI let in by a third that starts in between:
      both see that it is not cached, and both add it. */
  function AddsTwice(v: string): seq<Event> {
    [Locks(0), Accepts(2, v), Locks(1), Searches(0), Searches(1), Adds(0), Adds(1)]
  }

  /** Nothing is cached or locked, and `threads` have fetched from `origin`. */
  predicate OnlyFetched(s: State, threads: map<Tid, Phase>, origin: set<(string, seq<Byte>)>) {
    s == State(EMPTY, 0, None, threads, origin)
  }

  lemma PlaysFetches(events: seq<Event>, t: Tid, u: string, r: seq<Byte>) returns (longer: seq<Event>)
    requires Feasible(INITIAL, events)
    requires var s := Exec(INITIAL, events); OnlyFetched(s, s.threads, s.origin) && t !in s.threads
    ensures longer == events + Fetches(t, u, r) && Feasible(INITIAL, longer)
    ensures var s := Exec(INITIAL, events);
            OnlyFetched(Exec(INITIAL, longer), s.threads[t := Fetched(u, r)], s.origin + {(u, r)})
  {
    longer := PlaysMiss(events, t, u);
    longer := Plays(longer, Unlocks(t));
    longer := Plays(longer, OriginResponds(t, r));
    var s, s' := Exec(INITIAL, events), Exec(INITIAL, longer);
    assert s'.threads == s.threads[t := Fetched(u, r)];
  }

  lemma PlaysMiss(events: seq<Event>, t: Tid, u: string) returns (longer: seq<Event>)
    requires Feasible(INITIAL, events)
    requires var s := Exec(INITIAL, events); OnlyFetched(s, s.threads, s.origin) && t !in s.threads
    ensures longer == events + [Accepts(t, u), Locks(t), Searches(t)] && Feasible(INITIAL, longer)
    ensures var s := Exec(INITIAL, events);
            Exec(INITIAL, longer) == s.(lock := Some(t), threads := s.threads[t := Missed(u)])
  {
    longer := Plays(events, Accepts(t, u));
    longer := Plays(longer, Locks(t));
    longer := Plays(longer, Searches(t));
    var s, s' := Exec(INITIAL, events), Exec(INITIAL, longer);
    assert s'.threads == s.threads[t := Missed(u)];
  }

  /** What a start while the lock is held does to the cache: one URI is cached twice, and
      with different bytes if the origin gave different responses. */
  lemma StartingCachesTwice(u: string, v: string, r: seq<Byte>, q: seq<Byte>)
    requires 0 < |r| <= MAX_OBJECT_SIZE && 0 < |q| <= MAX_OBJECT_SIZE
    ensures var events := Fetches(0, u, r) + Fetches(1, u, q) + AddsTwice(v);
            && Feasible(INITIAL, events)
            && Exec(INITIAL, events).store.entries == [Entry(u, q, 2), Entry(u, r, 1)]
            && !DistinctUris(Exec(INITIAL, events).store.entries)
  {
    var events := PlaysFetches([], 0, u, r);
    events := PlaysFetches(events, 1, u, q);
    var inside := BothInside(events, u, v, r, q);
    var longer := Plays(inside, Adds(0));
    longer := Plays(longer, Adds(1));
    assert longer == Fetches(0, u, r) + Fetches(1, u, q) + AddsTwice(v);
    var entries := Exec(INITIAL, longer).store.entries;
    assert entries[0].uri == entries[1].uri;
  }

  lemma BothInside(events: seq<Event>, u: string, v: string, r: seq<Byte>, q: seq<Byte>)
    returns (longer: seq<Event>)
    requires 0 < |r| <= MAX_OBJECT_SIZE && 0 < |q| <= MAX_OBJECT_SIZE && Feasible(INITIAL, events)
    requires OnlyFetched(Exec(INITIAL, events), map[0 := Fetched(u, r), 1 := Fetched(u, q)], {(u, r), (u, q)})
    ensures longer == events + [Locks(0), Accepts(2, v), Locks(1), Searches(0), Searches(1)]
    ensures Feasible(INITIAL, longer)
    ensures var s := Exec(INITIAL, longer);
            && s.threads == map[0 := Absent(u, r), 1 := Absent(u, q), 2 := Start(v)]
            && s.store == EMPTY && s.time == 0
  {
    longer := BothLocked(events, u, v, r, q);
    longer := Plays(longer, Searches(0));
    longer := Plays(longer, Searches(1));
  }

  lemma BothLocked(events: seq<Event>, u: string, v: string, r: seq<Byte>, q: seq<Byte>)
    returns (longer: seq<Event>)
    requires 0 < |r| <= MAX_OBJECT_SIZE && 0 < |q| <= MAX_OBJECT_SIZE && Feasible(INITIAL, events)
    requires OnlyFetched(Exec(INITIAL, events), map[0 := Fetched(u, r), 1 := Fetched(u, q)], {(u, r), (u, q)})
    ensures longer == events + [Locks(0), Accepts(2, v), Locks(1)] && Feasible(INITIAL, longer)
    ensures var s := Exec(INITIAL, longer);
            && s.threads == map[0 := Confirming(u, r), 1 := Confirming(u, q), 2 := Start(v)]
            && s.store == EMPTY && s.time == 0
  {
    assert r[..|r|] == r && q[..|q|] == q;
    longer := Plays(events, Locks(0));
    longer := Plays(longer, Accepts(2, v));
    longer := Plays(longer, Locks(1));
  }
}
