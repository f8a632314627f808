/** The proxy's object cache in place (proxylab/cache.c): a doubly linked list relinked by
    every insertion and eviction, proved against module WebCacheModel. */
module WebCache {
  import opened Basics
  import opened WebCacheModel

  class Node {
    var prev: Node?
    var next: Node?
    const uri: string
    const obj: seq<Byte>
    const size: nat
    var age: nat

    constructor (uri: string, obj: seq<Byte>, age: nat)
      ensures this.uri == uri && this.obj == obj && this.size == |obj| && this.age == age
    {
      this.uri, this.obj, this.size, this.age := uri, obj, |obj|, age;
      prev, next := null, null;
    }
  }

  /** The nodes of a well-formed list, in order. */
  ghost predicate Linked(head: Node?, nodes: seq<Node>)
    reads nodes
  {
    && (forall i, j :: 0 <= i < j < |nodes| ==> nodes[i] != nodes[j])
    && head == (if nodes == [] then null else nodes[0])
    && (forall i {:trigger nodes[i].prev} ::
          0 <= i < |nodes| ==> nodes[i].prev == if i == 0 then null else nodes[i - 1])
    && (forall i {:trigger nodes[i].next} ::
          0 <= i < |nodes| ==> nodes[i].next == if i + 1 < |nodes| then nodes[i + 1] else null)
    && (forall i {:trigger nodes[i].size} :: 0 <= i < |nodes| ==> nodes[i].size == |nodes[i].obj|)
  }

  ghost function EntriesOf(nodes: seq<Node>): (r: seq<Entry>)
    reads nodes
    ensures |r| == |nodes|
    ensures forall i :: 0 <= i < |r| ==> r[i] == Entry(nodes[i].uri, nodes[i].obj, nodes[i].age)
  {
    seq(|nodes|, i requires 0 <= i < |nodes| reads nodes => Entry(nodes[i].uri, nodes[i].obj, nodes[i].age))
  }

  /** All ages are in the range the eviction scan looks at. */
  predicate AgesInRange(st: Store) {
    forall i :: 0 <= i < |st.entries| ==> st.entries[i].age < MIN
  }

  class Cache {
    var head: Node?
    var slots: nat
    ghost var nodes: seq<Node>

    ghost predicate Valid()
      reads this, nodes
    {
      Linked(head, nodes)
    }

    ghost function Repr(): set<Node>
      reads this
    {
      set n | n in nodes
    }

    /** What the list stands for. */
    ghost function Contents(): Store
      reads this, nodes
    {
      Store(EntriesOf(nodes), slots)
    }

    constructor ()
      ensures Valid() && Contents() == EMPTY && nodes == []
    {
      head, slots, nodes := null, MAX_CACHE_SIZE, [];
    }

    /** The first node for a URI. */
    method SearchCache(uri: string) returns (found: Node?)
      requires Valid()
      ensures var k := Search(Contents().entries, uri);
              found == if k < |nodes| then nodes[k] else null
    {
      var start := head;
      ghost var i := 0;
      while start != null
        invariant 0 <= i <= |nodes| && start == (if i < |nodes| then nodes[i] else null)
        invariant forall j :: 0 <= j < i ==> Contents().entries[j].uri != uri
        decreases |nodes| - i
      {
        if start.uri == uri {
          return start;
        }
        start := start.next;
        i := i + 1;
      }
      found := null;
    }

    /** Copies the stored response out and marks the entry as just used. */
    method ReadResponse(curr: Node, contents: array<Byte>, time: nat, ghost k: nat) returns (length: nat)
      requires Valid() && k < |nodes| && nodes[k] == curr && curr.size <= contents.Length
      modifies curr`age, contents
      ensures Valid() && Contents() == Touched(old(Contents()), k, time)
      ensures length == |curr.obj| && contents[..length] == curr.obj
      ensures contents[length..] == old(contents[length..])
    {
      length := curr.size;
      Stamp(curr, time, k);
      forall i | 0 <= i < length {
        contents[i] := curr.obj[i];
      }
    }

    /** Marks an entry as just used. */
    method Stamp(curr: Node, time: nat, ghost k: nat)
      requires Valid() && k < |nodes| && nodes[k] == curr
      modifies curr`age
      ensures Valid() && Contents() == Touched(old(Contents()), k, time)
    {
      ghost var entries := EntriesOf(nodes);
      curr.age := time;
      assert EntriesOf(nodes) == entries[k := entries[k].(age := time)];
    }

    /** The node used longest ago. */
    method EvictAge() returns (evict: Node?)
      requires Valid()
      ensures var k := Oldest(Contents().entries);
              evict == if k < |nodes| then nodes[k] else null
    {
      var currmin := MIN;
      evict := null;
      var start := head;
      ghost var i := 0;
      while start != null
        invariant 0 <= i <= |nodes| && start == (if i < |nodes| then nodes[i] else null)
        invariant var k := Oldest(EntriesOf(nodes)[..i]);
                  if k < i then evict == nodes[k] && currmin == nodes[k].age else evict == null && currmin == MIN
        decreases |nodes| - i
      {
        assert EntriesOf(nodes)[..i + 1][..i] == EntriesOf(nodes)[..i];
        if start.age < currmin {
          currmin := start.age;
          evict := start;
        }
        start := start.next;
        i := i + 1;
      }
      assert EntriesOf(nodes)[..|nodes|] == EntriesOf(nodes);
    }

    /** Unlinks a node and gives its bytes back. */
    method RemoveFromCache(remove: Node, ghost k: nat)
      requires Valid() && k < |nodes| && nodes[k] == remove
      modifies this, Repr()
      ensures Valid() && nodes == old(nodes[..k] + nodes[k + 1..])
      ensures Contents() == Store(RemoveAt(old(Contents().entries), k), old(slots) + |remove.obj|)
    {
      var start := head;
      ghost var i := 0;
      while start != null
        invariant 0 <= i <= k && start == nodes[i]
        decreases |nodes| - i
      {
        if start == remove {
          assert i == k;
          Unlink(start, k);
          slots := slots + start.size;
          assert EntriesOf(nodes) == RemoveAt(old(EntriesOf(nodes)), k);
          return;
        }
        start := start.next;
        i := i + 1;
      }
    }

    /** Takes a node out of the list: at the front, at the end, or in the middle. */
    method Unlink(start: Node, ghost k: nat)
      requires Valid() && k < |nodes| && nodes[k] == start
      modifies this`head, this`nodes, Repr()
      ensures Valid() && nodes == old(nodes[..k] + nodes[k + 1..])
      ensures forall n :: n in old(nodes) ==> n.age == old(n.age)
    {
      ghost var before := nodes;
      if start.prev == null {
        head := start.next;
        if start.next != null {
          start.next.prev := null;
          start.next := null;
        }
      } else if start.next == null {
        start.prev.next := null;
        start.prev := null;
      } else {
        start.prev.next := start.next;
        start.next.prev := start.prev;
        start.prev := null;
        start.next := null;
      }
      nodes := nodes[..k] + nodes[k + 1..];
      forall i | 0 <= i < |nodes| ensures nodes[i] == before[if i < k then i else i + 1] {}
      forall i | 0 <= i < |nodes| ensures nodes[i].prev == if i == 0 then null else nodes[i - 1] {
        if i == k && k > 0 { assert nodes[i] == before[k + 1] && nodes[i - 1] == before[k - 1]; }
      }
      forall i | 0 <= i < |nodes| ensures nodes[i].next == if i + 1 < |nodes| then nodes[i + 1] else null {
        if i + 1 == k { assert nodes[i] == before[k - 1]; }
      }
    }

    /** One round of eviction. */
    method EvictOldest()
      requires Valid() && Oldest(Contents().entries) < |nodes|
      modifies this, Repr()
      ensures Valid() && Contents() == EvictOne(old(Contents()))
      ensures |nodes| < |old(nodes)| && Repr() <= old(Repr())
    {
      ghost var k := Oldest(Contents().entries);
      var remBlock := EvictAge();
      if remBlock != null {
        RemoveFromCache(remBlock, k);
      }
    }

    /** Evicts oldest entries until `size` bytes are free. */
    method FreeUp(size: nat)
      requires Valid() && size <= MAX_CACHE_SIZE && Budget(Contents()) && AgesInRange(Contents())
      modifies this, Repr()
      ensures Valid() && Contents() == MakeRoom(old(Contents()), size) && size <= slots
      ensures Repr() <= old(Repr())
    {
      ghost var goal := MakeRoom(Contents(), size);
      while size > slots
        invariant Valid() && Budget(Contents()) && AgesInRange(Contents())
        invariant goal == MakeRoom(Contents(), size)
        invariant Repr() <= old(Repr())
        decreases |nodes|
      {
        EvictionPossible(Contents(), size);
        EvictOldest();
      }
    }

    /** Adds a response under a URI at the front, evicting oldest entries to make room. */
    method AddToCache(uri: string, response: array<Byte>, size: nat, time: nat)
      requires Valid() && size <= response.Length && size <= MAX_CACHE_SIZE
      requires Budget(Contents()) && AgesInRange(Contents())
      modifies this, Repr()
      ensures Valid()
      ensures IsAdded(old(Contents()), uri, response[..size], time, Contents())
    {
      ghost var st, obj := Contents(), response[..size];
      FreeUp(size);
      ghost var room := Contents();
      var elem := new Node(uri, response[..size], time);
      InsertNew(elem, size);
      InsertedIsAdded(st, uri, obj, time, room, Contents());
    }

    /** Charges the bytes of a new node and puts it first. */
    method InsertNew(elem: Node, size: nat)
      requires Valid() && elem !in nodes && size == elem.size == |elem.obj| <= slots
      modifies this, Repr(), elem
      ensures Valid() && slots == old(slots) - size && nodes == [elem] + old(nodes)
      ensures Contents().entries == [Entry(elem.uri, elem.obj, old(elem.age))] + old(Contents().entries)
    {
      slots := slots - size;
      InsertFront(elem);
    }

    method InsertFront(elem: Node)
      requires Valid() && elem !in nodes && elem.size == |elem.obj|
      modifies this`head, this`nodes, Repr(), elem
      ensures Valid() && nodes == [elem] + old(nodes) && slots == old(slots)
      ensures Contents().entries == [Entry(elem.uri, elem.obj, old(elem.age))] + old(Contents().entries)
    {
      elem.prev := null;
      elem.next := head;
      if head != null {
        assert head == nodes[0];
        head.prev := elem;
      }
      head := elem;
      nodes := [elem] + nodes;
    }
  }

  lemma InsertedIsAdded(st: Store, uri: string, obj: seq<Byte>, time: nat, room: Store, st': Store)
    requires room == MakeRoom(st, |obj|) && |obj| <= room.slots
    requires st'.entries == [Entry(uri, obj, time)] + room.entries && st'.slots == room.slots - |obj|
    ensures IsAdded(st, uri, obj, time, st')
  {
  }

  /** While space is lacking there is an entry to evict, and evicting it is one step towards
      the goal. */
  lemma EvictionPossible(st: Store, size: nat)
    requires Budget(st) && size > st.slots && size <= MAX_CACHE_SIZE
    requires AgesInRange(st)
    ensures Oldest(st.entries) < |st.entries|
    ensures MakeRoom(st, size) == MakeRoom(EvictOne(st), size) && Budget(EvictOne(st)) && AgesInRange(EvictOne(st))
  {
    assert st.entries != [] && st.entries[0].age < MIN;
    BytesWithout(st.entries, Oldest(st.entries));
    MakeRoomStep(st, size);
  }
}
