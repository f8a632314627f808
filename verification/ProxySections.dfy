/** The two critical sections of a proxy thread (proxylab/proxy.c, doit) on the linked cache:
    the code that steps of module Proxy stand for (module ProxySteps). */
module ProxySections {
  import opened WebCacheModel
  import opened WebCache

  // ---- The sections on values ----

  /** What a look-up at time `now` leaves: a hit is stamped with the advanced clock, and its
      bytes are the reply; a miss changes nothing. */
  predicate LookedUp(st: Store, now: nat, uri: string, found: bool, reply: seq<Byte>, st': Store, now': nat) {
    var k := Search(st.entries, uri);
    && (found <==> k < |st.entries|)
    && (if found then now' == now + 1 && st' == Touched(st, k, now') && reply == st.entries[k].obj
        else now' == now && st' == st)
  }

  /** What the second section leaves: an addition under the advanced clock, exactly when the
      second search finds nothing. */
  predicate Inserted(st: Store, now: nat, uri: string, obj: seq<Byte>, st': Store, now': nat) {
    if Search(st.entries, uri) < |st.entries| then st' == st && now' == now
    else now' == now + 1 && IsAdded(st, uri, obj, now', st')
  }

  // ---- The sections on the linked cache ----

  class Server {
    const webCache: Cache
    var timeCount: nat

    ghost predicate Valid()
      reads this, webCache, webCache.nodes
    {
      webCache.Valid() && Healthy(webCache.Contents(), timeCount)
    }

    constructor ()
      ensures Valid() && webCache.Contents() == EMPTY && timeCount == 0
      ensures fresh(webCache)
    {
      webCache := new Cache();
      timeCount := 0;
      new;
      assert webCache.Contents() == EMPTY;
    }

    /** Look up; a hit is stamped with the advanced clock and copied out. */
    method LookUp(uri: string, response: array<Byte>) returns (found: bool, length: nat)
      requires Valid() && response.Length == MAX_OBJECT_SIZE
      modifies this, webCache, webCache.Repr(), response
      ensures Valid()
      ensures length <= response.Length
      ensures LookedUp(old(webCache.Contents()), old(timeCount), uri, found, response[..length],
                       webCache.Contents(), timeCount)
    {
      length := 0;
      ghost var k := Search(webCache.Contents().entries, uri);
      var node := webCache.SearchCache(uri);
      found := node != null;
      if node != null {
        length := Serve(node, response, k);
      }
    }

    /** The hit: advance the clock, stamp the entry, copy it out. */
    method Serve(node: Node, response: array<Byte>, ghost k: nat) returns (length: nat)
      requires Valid() && response.Length == MAX_OBJECT_SIZE && k < |webCache.nodes| && webCache.nodes[k] == node
      modifies this, webCache.Repr(), response
      ensures Valid() && timeCount == old(timeCount) + 1
      ensures webCache.Contents() == Touched(old(webCache.Contents()), k, timeCount)
      ensures length <= response.Length && response[..length] == old(webCache.Contents()).entries[k].obj
    {
      ghost var st := webCache.Contents();
      TouchedHealthy(st, timeCount, k);
      timeCount := timeCount + 1;
      length := webCache.ReadResponse(node, response, timeCount, k);
    }

    /** Confirm that the URI is still not cached, then add the response under it. */
    method Insert(uri: string, response: array<Byte>, size: nat)
      requires Valid() && 0 < size <= MAX_OBJECT_SIZE == response.Length && timeCount < MIN
      modifies this, webCache, webCache.Repr()
      ensures Valid()
      ensures Inserted(old(webCache.Contents()), old(timeCount), uri, response[..size], webCache.Contents(), timeCount)
    {
      var found := webCache.SearchCache(uri);
      if found == null {
        Keep(uri, response, size);
      }
    }

    /** The second search found nothing: advance the clock and add. */
    method Keep(uri: string, response: array<Byte>, size: nat)
      requires Valid() && size <= MAX_OBJECT_SIZE == response.Length && timeCount < MIN
      requires Search(webCache.Contents().entries, uri) == |webCache.Contents().entries|
      modifies this, webCache, webCache.Repr()
      ensures Valid() && timeCount == old(timeCount) + 1
      ensures IsAdded(old(webCache.Contents()), uri, response[..size], timeCount, webCache.Contents())
    {
      timeCount := timeCount + 1;
      AddAt(uri, response, size, timeCount);
    }

    method AddAt(uri: string, response: array<Byte>, size: nat, time: nat)
      requires webCache.Valid() && size <= MAX_OBJECT_SIZE == response.Length && 0 < time <= MIN
      requires Healthy(webCache.Contents(), time - 1)
      requires Search(webCache.Contents().entries, uri) == |webCache.Contents().entries|
      modifies webCache, webCache.Repr()
      ensures webCache.Valid() && Healthy(webCache.Contents(), time)
      ensures IsAdded(old(webCache.Contents()), uri, response[..size], time, webCache.Contents())
    {
      ghost var st := webCache.Contents();
      HealthyCanAdd(st, time - 1);
      webCache.AddToCache(uri, response, size, time);
      AddedHealthy(st, time - 1, uri, response[..size], webCache.Contents());
    }
  }

  predicate ObjectsFit(st: Store) {
    forall i :: 0 <= i < |st.entries| ==> |st.entries[i].obj| <= MAX_OBJECT_SIZE
  }

  /** What the two sections keep of the cache, with the clock at `now`. */
  ghost predicate Healthy(st: Store, now: nat) {
    Consistent(st, now) && ObjectsFit(st)
  }

  lemma HealthyCanAdd(st: Store, now: nat)
    requires Healthy(st, now) && now < MIN
    ensures Budget(st) && AgesInRange(st)
  {
  }

  lemma TouchedHealthy(st: Store, now: nat, k: nat)
    requires Healthy(st, now) && k < |st.entries|
    ensures Healthy(Touched(st, k, now + 1), now + 1) && |st.entries[k].obj| <= MAX_OBJECT_SIZE
  {
    TouchedKeeps(st, now, k);
  }

  lemma AddedHealthy(st: Store, now: nat, uri: string, obj: seq<Byte>, st': Store)
    requires Healthy(st, now) && Search(st.entries, uri) == |st.entries|
    requires |obj| <= MAX_OBJECT_SIZE && IsAdded(st, uri, obj, now + 1, st')
    ensures Healthy(st', now + 1)
  {
    AddedIsConsistent(st, uri, obj, now);
  }
}
