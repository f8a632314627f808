/** The proxy's object cache (proxylab/cache.c) as a list of entries, most recently added
    first, with a byte budget. */
module WebCacheModel {
  import opened Basics

  const MAX_CACHE_SIZE: nat := 1024 * 1024
  const MAX_OBJECT_SIZE: nat := 100 * 1024
  const MIN: nat := 100_000_000

  type Byte = bv8

  datatype Entry = Entry(uri: string, obj: seq<Byte>, age: nat)

  datatype Store = Store(entries: seq<Entry>, slots: nat)

  const EMPTY := Store([], MAX_CACHE_SIZE)

  // ---- The operations ----

  /** The number of bytes kept of a response: all of it, or none when it is too long. */
  function KeptSize(response: seq<Byte>): nat {
    if |response| <= MAX_OBJECT_SIZE then |response| else 0
  }

  /** Index of the first entry for `uri`, or the number of entries. */
  function Search(entries: seq<Entry>, uri: string): (k: nat)
    ensures k <= |entries| && (k < |entries| ==> entries[k].uri == uri)
    ensures forall i :: 0 <= i < k ==> entries[i].uri != uri
  {
    if entries == [] then 0
    else if entries[0].uri == uri then 0
    else
      var k := Search(entries[1..], uri);
      assert forall i :: 1 <= i < |entries| ==> entries[i] == entries[1..][i - 1];
      1 + k
  }

  /** Index of the first entry of the least age below `bound`, or the number of entries. */
  function OldestBelow(entries: seq<Entry>, bound: nat): (k: nat)
    ensures k <= |entries|
    ensures k < |entries| ==>
              entries[k].age < bound && forall i :: 0 <= i < |entries| ==> entries[k].age <= entries[i].age
    ensures k < |entries| ==> forall i :: 0 <= i < k ==> entries[k].age < entries[i].age
    ensures k == |entries| ==> forall i :: 0 <= i < |entries| ==> entries[i].age >= bound
  {
    if entries == [] then 0
    else
      var n := |entries| - 1;
      var k := OldestBelow(entries[..n], bound);
      if k < n then (if entries[n].age < entries[k].age then n else k)
      else if entries[n].age < bound then n else n + 1
  }

  function Oldest(entries: seq<Entry>): nat {
    OldestBelow(entries, MIN)
  }

  function Bytes(entries: seq<Entry>): nat {
    if entries == [] then 0 else Bytes(entries[..|entries| - 1]) + |entries[|entries| - 1].obj|
  }

  /** Reading marks the entry as used now. */
  function Touched(st: Store, k: nat, time: nat): Store
    requires k < |st.entries|
  {
    st.(entries := st.entries[k := st.entries[k].(age := time)])
  }

  /** Removes the oldest entry. */
  function EvictOne(st: Store): Store
    requires Oldest(st.entries) < |st.entries|
  {
    var k := Oldest(st.entries);
    Store(RemoveAt(st.entries, k), st.slots + |st.entries[k].obj|)
  }

  /** Removes oldest entries until `size` bytes are free; entries whose age is out of range
      are never chosen. */
  function MakeRoom(st: Store, size: nat): (r: Store)
    decreases |st.entries|
  {
    if size <= st.slots || Oldest(st.entries) == |st.entries| then st else MakeRoom(EvictOne(st), size)
  }

  function Added(st: Store, uri: string, obj: seq<Byte>, time: nat): Store
    requires |obj| <= MakeRoom(st, |obj|).slots
  {
    var room := MakeRoom(st, |obj|);
    Store([Entry(uri, obj, time)] + room.entries, room.slots - |obj|)
  }

  /** `st'` is the cache after an addition; there was, or has been made, room for it. */
  predicate IsAdded(st: Store, uri: string, obj: seq<Byte>, time: nat, st': Store) {
    |obj| <= MakeRoom(st, |obj|).slots && st' == Added(st, uri, obj, time)
  }

  // ---- What they keep ----

  ghost predicate DistinctAges(entries: seq<Entry>) {
    forall i, j :: 0 <= i < j < |entries| ==> entries[i].age != entries[j].age
  }

  ghost predicate DistinctUris(entries: seq<Entry>) {
    forall i, j :: 0 <= i < j < |entries| ==> entries[i].uri != entries[j].uri
  }

  /** The budget is accounted for byte by byte. */
  predicate Budget(st: Store) {
    st.slots + Bytes(st.entries) == MAX_CACHE_SIZE
  }

  /** Ages are distinct and no later than `now`; no URI is stored twice. */
  ghost predicate Consistent(st: Store, now: nat) {
    && Budget(st) && DistinctAges(st.entries) && DistinctUris(st.entries)
    && forall i :: 0 <= i < |st.entries| ==> st.entries[i].age <= now
  }

  lemma {:induction false} BytesSplit(a: seq<Entry>, b: seq<Entry>)
    ensures Bytes(a + b) == Bytes(a) + Bytes(b)
  {
    if b == [] {
      assert a + b == a;
    } else {
      assert (a + b)[..|a + b| - 1] == a + b[..|b| - 1];
      BytesSplit(a, b[..|b| - 1]);
    }
  }

  lemma SplitAt(entries: seq<Entry>, k: nat)
    requires k < |entries|
    ensures entries == entries[..k] + [entries[k]] + entries[k + 1..]
  {
  }

  lemma BytesAround(entries: seq<Entry>, k: nat)
    requires k < |entries|
    ensures Bytes(entries) == Bytes(entries[..k]) + |entries[k].obj| + Bytes(entries[k + 1..])
  {
    SplitAt(entries, k);
    BytesSplit(entries[..k] + [entries[k]], entries[k + 1..]);
    BytesSplit(entries[..k], [entries[k]]);
    assert Bytes([entries[k]]) == |entries[k].obj|;
  }

  lemma BytesWithout(entries: seq<Entry>, k: nat)
    requires k < |entries|
    ensures Bytes(RemoveAt(entries, k)) + |entries[k].obj| == Bytes(entries)
  {
    BytesAround(entries, k);
    BytesSplit(entries[..k], entries[k + 1..]);
  }

  lemma EvictOneKeeps(st: Store, now: nat)
    requires Consistent(st, now) && Oldest(st.entries) < |st.entries|
    ensures Consistent(EvictOne(st), now)
  {
    BytesWithout(st.entries, Oldest(st.entries));
  }

  lemma MakeRoomStep(st: Store, size: nat)
    requires size > st.slots && Oldest(st.entries) < |st.entries|
    ensures MakeRoom(st, size) == MakeRoom(EvictOne(st), size)
  {
  }

  /** Eviction only removes, whatever the ages. */
  lemma {:induction false} MakeRoomKeeps(st: Store, size: nat, now: nat)
    requires Consistent(st, now)
    ensures Consistent(MakeRoom(st, size), now)
    ensures forall e :: e in MakeRoom(st, size).entries ==> e in st.entries
    decreases |st.entries|
  {
    if size > st.slots && Oldest(st.entries) < |st.entries| {
      EvictOneKeeps(st, now);
      MakeRoomKeeps(EvictOne(st), size, now);
      MakeRoomStep(st, size);
    }
  }

  lemma TouchedKeeps(st: Store, now: nat, k: nat)
    requires Consistent(st, now) && k < |st.entries|
    ensures Consistent(Touched(st, k, now + 1), now + 1)
  {
    var e := st.entries[k].(age := now + 1);
    BytesAround(st.entries, k);
    BytesAround(st.entries[k := e], k);
    assert st.entries[k := e][..k] == st.entries[..k] && st.entries[k := e][k + 1..] == st.entries[k + 1..];
  }

  /** A read entry keeps its URI and bytes and is from then on the one used last; nothing
      else changes. */
  lemma TouchedIs(st: Store, now: nat, k: nat)
    requires Consistent(st, now) && k < |st.entries|
    ensures var st' := Touched(st, k, now + 1);
            && st'.slots == st.slots && |st'.entries| == |st.entries|
            && st'.entries[k] == Entry(st.entries[k].uri, st.entries[k].obj, now + 1)
            && forall i :: 0 <= i < |st.entries| && i != k ==>
                 st'.entries[i] == st.entries[i] && st'.entries[i].age < st'.entries[k].age
  {
  }

  // ---- Exactly what is evicted ----

  /** The entries last used at `age` or later, in their order, untouched. */
  function Kept(entries: seq<Entry>, age: nat): seq<Entry> {
    if entries == [] then []
    else
      var n := |entries| - 1;
      Kept(entries[..n], age) + if entries[n].age >= age then [entries[n]] else []
  }

  lemma {:induction false} KeptAppend(a: seq<Entry>, b: seq<Entry>, age: nat)
    ensures Kept(a + b, age) == Kept(a, age) + Kept(b, age)
  {
    if b == [] {
      assert a + b == a;
    } else {
      var n := |b| - 1;
      assert (a + b)[..|a + b| - 1] == a + b[..n];
      KeptAppend(a, b[..n], age);
    }
  }

  lemma {:induction false} KeptAll(entries: seq<Entry>, age: nat)
    requires forall i :: 0 <= i < |entries| ==> entries[i].age >= age
    ensures Kept(entries, age) == entries
  {
    if entries != [] {
      var n := |entries| - 1;
      KeptAll(entries[..n], age);
      assert entries == entries[..n] + [entries[n]];
    }
  }

  lemma {:induction false} KeptTwice(entries: seq<Entry>, a: nat, b: nat)
    ensures Kept(Kept(entries, a), b) == Kept(entries, if a < b then b else a)
  {
    if entries != [] {
      var n := |entries| - 1;
      KeptTwice(entries[..n], a, b);
      KeptAppend(Kept(entries[..n], a), if entries[n].age >= a then [entries[n]] else [], b);
      KeptOne(entries[n], b);
    }
  }

  lemma KeptOne(e: Entry, age: nat)
    ensures Kept([e], age) == if e.age >= age then [e] else []
  {
    assert [e][..0] == [];
  }

  /** Keeping all but one entry is removing it. */
  lemma {:induction false} KeptWithout(entries: seq<Entry>, k: nat, age: nat)
    requires k < |entries| && entries[k].age < age
    requires forall i :: 0 <= i < |entries| && i != k ==> entries[i].age >= age
    ensures Kept(entries, age) == RemoveAt(entries, k)
  {
    var n := |entries| - 1;
    if k == n {
      KeptAll(entries[..n], age);
      assert entries[..n] + entries[n + 1..] == entries[..n];
    } else {
      KeptWithout(entries[..n], k, age);
      assert entries[..n][..k] == entries[..k] && entries[..n][k + 1..] + [entries[n]] == entries[k + 1..];
    }
  }

  lemma WithoutOldest(entries: seq<Entry>, k: nat)
    requires DistinctAges(entries) && k < |entries|
    requires forall i :: 0 <= i < |entries| ==> entries[k].age <= entries[i].age
    ensures Kept(entries, entries[k].age + 1) == RemoveAt(entries, k)
  {
    forall i | 0 <= i < |entries| && i != k ensures entries[i].age >= entries[k].age + 1 {
      assert entries[i].age != entries[k].age;
    }
    KeptWithout(entries, k, entries[k].age + 1);
  }

  /** `t` is where the eviction for `size` bytes cuts: what is last used at `t` or later
      fits, and no earlier cut would fit. */
  ghost predicate ShortestCut(entries: seq<Entry>, size: nat, t: nat) {
    && Bytes(Kept(entries, t)) + size <= 1048576
    && forall u: nat :: u < t ==> Bytes(Kept(entries, u)) + size > 1048576
  }

  /** Eviction removes exactly the shortest oldest-first run of entries that makes room, and
      keeps every other entry as it was, in order. */
  lemma {:induction false} MakeRoomIsShortestCut(st: Store, size: nat, now: nat) returns (r: Store, t: nat)
    requires Consistent(st, now) && now < MIN && size <= MAX_CACHE_SIZE
    ensures r == MakeRoom(st, size) && size <= r.slots && Consistent(r, now)
    ensures r.entries == Kept(st.entries, t) && ShortestCut(st.entries, size, t)
    decreases |st.entries|
  {
    if size <= st.slots {
      r, t := st, 0;
      KeptAll(st.entries, 0);
    } else {
      var age, rest := EvictionStep(st, size, now);
      var cut;
      r, cut := MakeRoomIsShortestCut(rest, size, now);
      t := CutAfterOldest(st.entries, size, age, cut);
    }
  }

  /** With space lacking and all ages in range there is an oldest entry, and evicting it is
      the first step; it keeps the younger ones. */
  lemma EvictionStep(st: Store, size: nat, now: nat) returns (age: nat, rest: Store)
    requires Consistent(st, now) && now < MIN && st.slots < size <= MAX_CACHE_SIZE
    ensures forall i :: 0 <= i < |st.entries| ==> age <= st.entries[i].age
    ensures Consistent(rest, now) && |rest.entries| < |st.entries| && rest.entries == Kept(st.entries, age + 1)
    ensures MakeRoom(st, size) == MakeRoom(rest, size)
  {
    assert st.entries != [] && st.entries[0].age < MIN;
    var k := Oldest(st.entries);
    age, rest := st.entries[k].age, EvictOne(st);
    WithoutOldest(st.entries, k);
    EvictOneKeeps(st, now);
  }

  /** A shortest cut of what is left after the oldest, when the oldest had to go. */
  lemma CutAfterOldest(entries: seq<Entry>, size: nat, a: nat, cut: nat) returns (t: nat)
    requires forall i :: 0 <= i < |entries| ==> entries[i].age >= a
    requires Bytes(entries) + size > MAX_CACHE_SIZE
    requires ShortestCut(Kept(entries, a + 1), size, cut)
    ensures ShortestCut(entries, size, t) && Kept(entries, t) == Kept(Kept(entries, a + 1), cut)
  {
    t := if a + 1 < cut then cut else a + 1;
    KeptTwice(entries, a + 1, cut);
    forall u: nat | u < t ensures Bytes(Kept(entries, u)) + size > MAX_CACHE_SIZE {
      if u <= a {
        KeptAll(entries, u);
      } else {
        KeptTwice(entries, a + 1, u);
      }
    }
  }

  /** What Kept keeps. */
  lemma {:induction false} KeptMembers(entries: seq<Entry>, age: nat, e: Entry)
    ensures e in Kept(entries, age) <==> e in entries && e.age >= age
  {
    if entries != [] {
      var n := |entries| - 1;
      KeptMembers(entries[..n], age, e);
      assert entries == entries[..n] + [entries[n]];
    }
  }

  /** Adding a new URI at a later time: the new entry comes first, the rest is what the
      shortest eviction leaves, and everything stays consistent. */
  lemma AddedKeeps(st: Store, uri: string, obj: seq<Byte>, now: nat) returns (t: nat)
    requires Consistent(st, now) && now < MIN && |obj| <= MAX_CACHE_SIZE
    requires Search(st.entries, uri) == |st.entries|
    ensures |obj| <= MakeRoom(st, |obj|).slots
    ensures var st' := Added(st, uri, obj, now + 1);
            && Consistent(st', now + 1)
            && st'.entries == [Entry(uri, obj, now + 1)] + Kept(st.entries, t) && ShortestCut(st.entries, |obj|, t)
  {
    var room, e;
    room, t := MakeRoomIsShortestCut(st, |obj|, now);
    e := Entry(uri, obj, now + 1);
    forall i | 0 <= i < |room.entries| ensures room.entries[i].uri != uri {
      KeptMembers(st.entries, t, room.entries[i]);
    }
    PrependKeeps(room, e, now);
  }

  lemma PrependKeeps(st: Store, e: Entry, now: nat)
    requires Consistent(st, now) && |e.obj| <= st.slots && e.age == now + 1
    requires forall i :: 0 <= i < |st.entries| ==> st.entries[i].uri != e.uri
    ensures Consistent(Store([e] + st.entries, st.slots - |e.obj|), now + 1)
  {
    BytesSplit([e], st.entries);
    assert Bytes([e]) == |e.obj|;
  }

  /** What adding a new URI keeps, whatever is evicted. */
  lemma AddedIsConsistent(st: Store, uri: string, obj: seq<Byte>, now: nat)
    requires Consistent(st, now) && Search(st.entries, uri) == |st.entries|
    requires |obj| <= MakeRoom(st, |obj|).slots
    ensures Consistent(Added(st, uri, obj, now + 1), now + 1)
    ensures var entries := Added(st, uri, obj, now + 1).entries;
            entries[0] == Entry(uri, obj, now + 1) && forall i :: 0 < i < |entries| ==> entries[i] in st.entries
  {
    var room := MakeRoom(st, |obj|);
    MakeRoomKeeps(st, |obj|, now);
    forall i | 0 <= i < |room.entries| ensures room.entries[i].uri != uri && room.entries[i] in st.entries {
      assert room.entries[i] in st.entries;
    }
    PrependKeeps(room, Entry(uri, obj, now + 1), now);
  }
}
