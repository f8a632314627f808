/** What a proxy thread does on the linked cache and with the response it forwards, seen as
    steps of module Proxy. */
module ProxySteps {
  import opened Basics
  import opened WebCacheModel
  import opened Proxy
  import opened ProxySections
  import Rio

  /** The first section is the steps of a thread between its lock and its unlock. */
  lemma LookUpIsSteps(s: State, t: Tid, uri: string, found: bool, reply: seq<Byte>, st: Store, now: nat)
    requires t in s.threads && s.threads[t] == Searching(uri)
    requires LookedUp(s.store, s.time, uri, found, reply, st, now)
    ensures var events := if found then [Searches(t), ReadsEntry(t)] else [Searches(t)];
            && Feasible(s, events)
            && Exec(s, events) == s.(store := st, time := now,
                                     threads := s.threads[t := if found then Read(uri, reply) else Missed(uri)])
  {
    OneStep(s, Searches(t));
    if found {
      var s' := Apply(s, Searches(t));
      assert s'.threads[t] == Hit(uri, Search(s.store.entries, uri));
      TwoSteps(s, Searches(t), ReadsEntry(t));
      assert s'.threads[t := Read(uri, reply)] == s.threads[t := Read(uri, reply)];
    }
  }

  /** And the second one those of its other stay. */
  lemma InsertIsSteps(s: State, t: Tid, uri: string, obj: seq<Byte>, st: Store, now: nat)
    requires t in s.threads && s.threads[t] == Confirming(uri, obj)
    requires Inserted(s.store, s.time, uri, obj, st, now)
    ensures var found := Search(s.store.entries, uri) < |s.store.entries|;
            var events := if found then [Searches(t)] else [Searches(t), Adds(t)];
            && Feasible(s, events)
            && Exec(s, events) == s.(store := st, time := now, threads := s.threads[t := Leaving])
  {
    OneStep(s, Searches(t));
    if Search(s.store.entries, uri) == |s.store.entries| {
      var s' := Apply(s, Searches(t));
      assert s'.threads[t] == Absent(uri, obj);
      TwoSteps(s, Searches(t), Adds(t));
      assert s'.threads[t := Leaving] == s.threads[t := Leaving];
    }
  }

  lemma OneStep(s: State, e: Event)
    requires Enabled(s, e)
    ensures Feasible(s, [e]) && Exec(s, [e]) == Apply(s, e)
  {
    assert [e][1..] == [];
  }

  lemma TwoSteps(s: State, e: Event, f: Event)
    requires Enabled(s, e) && Enabled(Apply(s, e), f)
    ensures Feasible(s, [e, f]) && Exec(s, [e, f]) == Apply(Apply(s, e), f)
  {
    assert [e, f][1..] == [f];
    OneStep(Apply(s, e), f);
  }

  /** What forwarding keeps of a response is what the thread goes on to add: it asks for the
      lock again exactly when the forwarding ends with a size, and then with those bytes. */
  lemma ForwardedIsConfirmed(s: State, t: Tid, uri: string, response: seq<Byte>, before: seq<Byte>,
                             sent: seq<Byte>, copy: seq<Byte>, size: nat)
    requires t in s.threads && s.threads[t] == Fetched(uri, response) && s.lock == None
    requires Rio.Forwarded(response, before, sent, copy, size)
    ensures Enabled(s, Locks(t)) <==> size > 0
    ensures size > 0 ==> Apply(s, Locks(t)).threads[t] == Confirming(uri, copy[..size])
  {
  }
}
