/** The simulator of cachelab/csim.c, in place over arrays of timestamped lines, proved
    to refine the recency lists of module Lru. */
module CacheSim {
  import opened Basics
  import opened Words
  import opened Lru
  import LruTheory
  import opened LruBalance

  const MIN: nat := 100_000_000

  /** One physical line; `lru` is the time of its last use. */
  datatype SetLine = SetLine(valid: bool, dirty: bool, lru: nat, tag: nat)

  const EMPTY := SetLine(false, false, 0, 0)

  // ---- Address arithmetic, as written with shifts and a mask ----

  function GetTag(addr: Word64, g: Geometry): nat {
    var shift := g.s + g.b;
    Shr(Shl(Shr(addr, shift), shift, 64), shift)
  }

  function GetSetIndex(addr: Word64, g: Geometry): nat {
    var mask := Pow2(g.s) - 1;
    // the assignment to an unsigned int keeps 32 bits
    var index := LowBits(Shr(Shl(Shr(addr, g.b), g.b, 64), g.b), 32);
    And(index, mask)
  }

  lemma AddressSplit(addr: Word64, g: Geometry)
    requires g.Valid()
    ensures GetTag(addr, g) == TagOf(g, Block(g, addr))
    ensures GetSetIndex(addr, g) == SetOf(g, Block(g, addr))
  {
    WordIs(addr);
    ShrShlShr(addr, g.b + g.s, 64);
    ShrShlShr(addr, g.b, 64);
    ShrShr(addr, g.b, g.s);
    var block := Shr(addr, g.b);
    AndLowMask(LowBits(block, 32), g.s);
    LowBitsTwice(block, g.s, 32);
  }

  // ---- The invariant of one set, and the list it represents ----

  /** `ord` is a permutation of 0 .. n-1. */
  ghost predicate Permutes(ord: seq<nat>, n: nat) {
    && |ord| == n
    && LruTheory.Distinct(ord)
    && (forall p :: 0 <= p < n ==> ord[p] < n)
    && (forall k :: 0 <= k < n ==> k in ord)
  }

  /** Along `ord` stamps fall strictly from at most `now`, and tags differ. */
  ghost predicate Ordered(lines: seq<SetLine>, ord: seq<nat>, now: nat)
    requires forall p :: 0 <= p < |ord| ==> ord[p] < |lines|
  {
    && (forall p :: 0 <= p < |ord| ==> lines[ord[p]].lru <= now)
    && (forall p, q :: 0 <= p < q < |ord| ==> lines[ord[p]].lru > lines[ord[q]].lru)
    && (forall p, q :: 0 <= p < q < |ord| ==> lines[ord[p]].tag != lines[ord[q]].tag)
  }

  /** `ord` lists the valid lines, a prefix of the set, from the most to the least
      recently used. */
  ghost predicate SetOk(lines: seq<SetLine>, ord: seq<nat>, now: nat) {
    && |ord| <= |lines|
    && Permutes(ord, |ord|)
    && (forall k :: 0 <= k < |lines| ==> if k < |ord| then lines[k].valid else lines[k] == EMPTY)
    && Ordered(lines, ord, now)
  }

  ghost function Abstract(lines: seq<SetLine>, ord: seq<nat>): (r: seq<Line>)
    requires forall p :: 0 <= p < |ord| ==> ord[p] < |lines|
    ensures |r| == |ord|
    ensures forall p :: 0 <= p < |r| ==> r[p] == Line(lines[ord[p]].tag, lines[ord[p]].dirty)
  {
    seq(|ord|, p requires 0 <= p < |ord| => Line(lines[ord[p]].tag, lines[ord[p]].dirty))
  }

  /** Writing line `k` with a fresh stamp and putting it before the ordered `rest`. */
  lemma WriteFront(lines: seq<SetLine>, rest: seq<nat>, now: nat, k: nat, line: SetLine)
    requires Permutes([k] + rest, 1 + |rest|) && 1 + |rest| <= |lines|
    requires forall j :: 0 <= j < |lines| && j != k ==> if j < 1 + |rest| then lines[j].valid else lines[j] == EMPTY
    requires forall p :: 0 <= p < |rest| ==> rest[p] < |lines|
    requires Ordered(lines, rest, now)
    requires line.valid && line.lru == now + 1
    requires forall p :: 0 <= p < |rest| ==> lines[rest[p]].tag != line.tag
    ensures k < |lines|
    ensures SetOk(lines[k := line], [k] + rest, now + 1)
    ensures Abstract(lines[k := line], [k] + rest) == [Line(line.tag, line.dirty)] + Abstract(lines, rest)
  {
    var ord := [k] + rest;
    assert ord[0] == k;
    var lines' := lines[k := line];
    forall p | 0 < p < |ord| ensures ord[p] == rest[p - 1] && lines'[ord[p]] == lines[rest[p - 1]] {
      assert ord[p] != ord[0];
    }
  }

  lemma MoveToFrontPermutes(ord: seq<nat>, k: nat)
    requires k in ord && Permutes(ord, |ord|)
    ensures Permutes([k] + RemoveAt(ord, IndexOf(ord, k)), |ord|)
  {
    var p := IndexOf(ord, k);
    var ord' := [k] + RemoveAt(ord, p);
    forall x | x in ord ensures x in ord' {
      var q := IndexOf(ord, x);
      if q != p { assert ord'[if q < p then q + 1 else q] == x; }
    }
  }

  lemma RemoveAtOrdered(lines: seq<SetLine>, ord: seq<nat>, now: nat, p: nat)
    requires p < |ord| && forall q :: 0 <= q < |ord| ==> ord[q] < |lines|
    requires Ordered(lines, ord, now)
    ensures forall q :: 0 <= q < |ord| - 1 ==> RemoveAt(ord, p)[q] < |lines|
    ensures Ordered(lines, RemoveAt(ord, p), now)
    ensures Abstract(lines, RemoveAt(ord, p)) == RemoveAt(Abstract(lines, ord), p)
    ensures forall q :: 0 <= q < |ord| - 1 ==> lines[RemoveAt(ord, p)[q]].tag != lines[ord[p]].tag
  {
    RemoveAtIndex(ord, p);
    RemoveAtAbstract(lines, ord, p);
  }

  lemma RemoveAtAbstract(lines: seq<SetLine>, ord: seq<nat>, p: nat)
    requires p < |ord| && forall q :: 0 <= q < |ord| ==> ord[q] < |lines|
    ensures forall q :: 0 <= q < |ord| - 1 ==> RemoveAt(ord, p)[q] < |lines|
    ensures Abstract(lines, RemoveAt(ord, p)) == RemoveAt(Abstract(lines, ord), p)
  {
    RemoveAtIndex(ord, p);
    RemoveAtIndex(Abstract(lines, ord), p);
  }

  /** A hit on line `k`: new stamp, dirty if a store; the index moves to the front. */
  lemma HitRefines(lines: seq<SetLine>, ord: seq<nat>, now: nat, k: nat, E: nat, store: bool)
    requires SetOk(lines, ord, now) && k < |ord| && E == |lines| >= 1
    ensures var line := lines[k].(lru := now + 1, dirty := lines[k].dirty || store);
            var lines', ord' := lines[k := line], [k] + RemoveAt(ord, IndexOf(ord, k));
            && SetOk(lines', ord', now + 1)
            && Abstract(lines', ord') == Touch(Abstract(lines, ord), E, lines[k].tag, store)
  {
    var p := IndexOf(ord, k);
    var line := lines[k].(lru := now + 1, dirty := lines[k].dirty || store);
    MoveToFrontPermutes(ord, k);
    RemoveAtOrdered(lines, ord, now, p);
    WriteFront(lines, RemoveAt(ord, p), now, k, line);
    TagPosition(lines, ord, now, p);
  }

  lemma TagPosition(lines: seq<SetLine>, ord: seq<nat>, now: nat, p: nat)
    requires SetOk(lines, ord, now) && p < |ord|
    ensures IndexOf(Tags(Abstract(lines, ord)), lines[ord[p]].tag) == p
  {
    IndexOfDistinct(Tags(Abstract(lines, ord)), lines[ord[p]].tag, p);
  }

  /** A miss with an empty line: it is filled and becomes the front. */
  lemma FillRefines(lines: seq<SetLine>, ord: seq<nat>, now: nat, E: nat, t: nat, store: bool)
    requires SetOk(lines, ord, now) && |ord| < |lines| == E
    requires t !in Tags(Abstract(lines, ord))
    ensures var lines', ord' := lines[|ord| := SetLine(true, store, now + 1, t)], [|ord|] + ord;
            && SetOk(lines', ord', now + 1)
            && Abstract(lines', ord') == Touch(Abstract(lines, ord), E, t, store)
  {
    var n := |ord|;
    var ord', ts := [n] + ord, Tags(Abstract(lines, ord));
    forall k | 0 <= k < |ord'| ensures k in ord' {
      if k < n { assert ord'[IndexOf(ord, k) + 1] == k; }
    }
    assert forall q :: 0 <= q < |ord| ==> ts[q] == lines[ord[q]].tag;
    WriteFront(lines, ord, now, n, SetLine(true, store, now + 1, t));
  }

  /** A miss in a full set: the last line of the order is overwritten and becomes the front. */
  lemma EvictRefines(lines: seq<SetLine>, ord: seq<nat>, now: nat, E: nat, t: nat, store: bool)
    requires SetOk(lines, ord, now) && |ord| == |lines| == E && E >= 1
    requires t !in Tags(Abstract(lines, ord))
    ensures var k := ord[|ord| - 1];
            var lines', ord' := lines[k := SetLine(true, store, now + 1, t)], [k] + ord[..|ord| - 1];
            && SetOk(lines', ord', now + 1)
            && Abstract(lines', ord') == Touch(Abstract(lines, ord), E, t, store)
  {
    var n := |ord| - 1;
    var k, ts := ord[n], Tags(Abstract(lines, ord));
    IndexOfDistinct(ord, k, n);
    assert RemoveAt(ord, n) == ord[..n];
    assert RemoveAt(Abstract(lines, ord), n) == Abstract(lines, ord)[..n];
    MoveToFrontPermutes(ord, k);
    RemoveAtOrdered(lines, ord, now, n);
    assert forall q :: 0 <= q < n ==> ts[q] == lines[ord[q]].tag;
    WriteFront(lines, ord[..n], now, k, SetLine(true, store, now + 1, t));
  }

  /** The physical effect of one access on a set, and its new order. */
  ghost function After(lines: seq<SetLine>, ord: seq<nat>, now: nat, t: nat, store: bool): (seq<SetLine>, seq<nat>)
    requires SetOk(lines, ord, now) && lines != []
  {
    var p := IndexOf(Tags(Abstract(lines, ord)), t);
    var k := if p < |ord| then ord[p] else if |ord| < |lines| then |ord| else ord[|ord| - 1];
    var line := SetLine(true, store || (p < |ord| && lines[k].dirty), now + 1, t);
    (lines[k := line],
     [k] + if p < |ord| then RemoveAt(ord, p) else if |ord| < |lines| then ord else ord[..|ord| - 1])
  }

  lemma AfterRefines(lines: seq<SetLine>, ord: seq<nat>, now: nat, t: nat, store: bool)
    requires SetOk(lines, ord, now) && lines != []
    ensures var (lines', ord') := After(lines, ord, now, t, store);
            && |lines'| == |lines|
            && SetOk(lines', ord', now + 1)
            && Abstract(lines', ord') == Touch(Abstract(lines, ord), |lines|, t, store)
  {
    var p := IndexOf(Tags(Abstract(lines, ord)), t);
    if p < |ord| {
      IndexOfDistinct(ord, ord[p], p);
      HitRefines(lines, ord, now, ord[p], |lines|, store);
    } else if |ord| < |lines| {
      FillRefines(lines, ord, now, |lines|, t, store);
    } else {
      EvictRefines(lines, ord, now, |lines|, t, store);
    }
  }

  // ---- All sets together ----

  ghost predicate AllOk(contents: seq<seq<SetLine>>, order: seq<seq<nat>>, now: nat) {
    |contents| == |order| && forall i :: 0 <= i < |contents| ==> SetOk(contents[i], order[i], now)
  }

  ghost function AbstractAll(contents: seq<seq<SetLine>>, order: seq<seq<nat>>, now: nat): (r: seq<seq<Line>>)
    requires AllOk(contents, order, now)
    ensures |r| == |contents| && forall i :: 0 <= i < |r| ==> r[i] == Abstract(contents[i], order[i])
  {
    seq(|contents|, i requires 0 <= i < |contents| => Abstract(contents[i], order[i]))
  }

  lemma StampsBelow(lines: seq<SetLine>, ord: seq<nat>, now: nat)
    requires SetOk(lines, ord, now)
    ensures forall k :: 0 <= k < |ord| ==> lines[k].lru <= now
    ensures SetOk(lines, ord, now + 1)
  {
    forall k | 0 <= k < |ord| ensures lines[k].lru <= now {
      assert ord[IndexOf(ord, k)] == k;
    }
  }

  /** One access touches one set; the others stay well formed as the clock advances. */
  lemma AfterRefinesAll(contents: seq<seq<SetLine>>, order: seq<seq<nat>>, now: nat, i: nat, t: nat, store: bool)
    requires AllOk(contents, order, now) && i < |contents| && contents[i] != []
    ensures var (lines', ord') := After(contents[i], order[i], now, t, store);
            var contents', order' := contents[i := lines'], order[i := ord'];
            && AllOk(contents', order', now + 1)
            && AbstractAll(contents', order', now + 1) ==
               AbstractAll(contents, order, now)[i := Touch(Abstract(contents[i], order[i]), |contents[i]|, t, store)]
  {
    AfterRefines(contents[i], order[i], now, t, store);
    forall j | 0 <= j < |contents| ensures SetOk(contents[j], order[j], now + 1) {
      StampsBelow(contents[j], order[j], now);
    }
  }

  /** The line with the smallest stamp is the last of the order. */
  lemma OldestIsLast(lines: seq<SetLine>, ord: seq<nat>, now: nat, k: nat)
    requires SetOk(lines, ord, now) && |ord| == |lines| && k < |lines|
    requires forall i :: 0 <= i < |lines| ==> lines[k].lru <= lines[i].lru
    ensures k == ord[|ord| - 1]
  {
    var p := IndexOf(ord, k);
    assert p < |ord|;
  }

  /** The tag scan of a set is a search of the represented list. */
  lemma ScanIsSearch(lines: seq<SetLine>, ord: seq<nat>, now: nat, t: nat)
    requires SetOk(lines, ord, now)
    ensures t in Tags(Abstract(lines, ord)) <==> exists k :: 0 <= k < |ord| && lines[k].tag == t
  {
    var ts := Tags(Abstract(lines, ord));
    if k :| 0 <= k < |ord| && lines[k].tag == t {
      assert ts[IndexOf(ord, k)] == t;
    }
    if t in ts {
      var p :| 0 <= p < |ts| && ts[p] == t;
      assert lines[ord[p]].tag == t;
    }
  }

  // ---- Dirty lines, counted over physical lines ----

  const PHYSICAL_WEIGHT: SetLine -> nat := (l: SetLine) => if l.dirty then 1 else 0

  /** Counting dirty lines in index order or in recency order gives the same number. */
  lemma PermutedDirt(lines: seq<SetLine>, ord: seq<nat>, now: nat)
    requires SetOk(lines, ord, now)
    ensures Total(lines, PHYSICAL_WEIGHT) == DirtyLines(Abstract(lines, ord))
  {
    var n := |ord|;
    assert lines == lines[..n] + lines[n..];
    TotalAppend(lines[..n], lines[n..], PHYSICAL_WEIGHT);
    TotalZero(lines[n..], PHYSICAL_WEIGHT);
    assert Abstract(lines, ord) == Abstract(lines[..n], ord);
    FullSetDirt(lines[..n], ord);
  }

  lemma {:induction false} FullSetDirt(lines: seq<SetLine>, ord: seq<nat>)
    requires Permutes(ord, |lines|)
    ensures Total(lines, PHYSICAL_WEIGHT) == DirtyLines(Abstract(lines, ord))
  {
    if lines == [] {
      assert Abstract(lines, ord) == [];
    } else {
      var n := |lines| - 1;
      var p := IndexOf(ord, n);
      DropLast(ord, n, p);
      RemoveLastLine(lines, ord, p);
      FullSetDirt(lines[..n], RemoveAt(ord, p));
    }
  }

  lemma DropLast(ord: seq<nat>, n: nat, p: nat)
    requires Permutes(ord, n + 1) && p == IndexOf(ord, n)
    ensures p < |ord| && ord[p] == n && Permutes(RemoveAt(ord, p), n)
    ensures forall q :: 0 <= q < |ord| && q != p ==> ord[q] < n
  {
    assert n in ord;
    MoveToFrontPermutes(ord, n);
    DropFront(RemoveAt(ord, p), n);
  }

  /** Dropping the last physical line and its place in the order. */
  lemma AbstractDrop(lines: seq<SetLine>, ord: seq<nat>, p: nat)
    requires p < |ord| && (forall q :: 0 <= q < |ord| ==> ord[q] < |lines|) && lines != []
    requires forall q :: 0 <= q < |ord| && q != p ==> ord[q] < |lines| - 1
    ensures forall q :: 0 <= q < |RemoveAt(ord, p)| ==> RemoveAt(ord, p)[q] < |lines| - 1
    ensures RemoveAt(Abstract(lines, ord), p) == Abstract(lines[..|lines| - 1], RemoveAt(ord, p))
  {
    RemoveAtIndex(ord, p);
    RemoveAtIndex(Abstract(lines, ord), p);
  }

  lemma RemoveLastLine(lines: seq<SetLine>, ord: seq<nat>, p: nat)
    requires p < |ord| && (forall q :: 0 <= q < |ord| ==> ord[q] < |lines|) && ord[p] == |lines| - 1
    requires forall q :: 0 <= q < |ord| && q != p ==> ord[q] < |lines| - 1
    ensures forall q :: 0 <= q < |RemoveAt(ord, p)| ==> RemoveAt(ord, p)[q] < |lines| - 1
    ensures DirtyLines(Abstract(lines, ord)) ==
            DirtyLines(Abstract(lines[..|lines| - 1], RemoveAt(ord, p))) + PHYSICAL_WEIGHT(lines[|lines| - 1])
  {
    AbstractDrop(lines, ord, p);
    TotalRemoveAt(Abstract(lines, ord), p, DIRTY_WEIGHT);
  }

  lemma DropFront(rest: seq<nat>, n: nat)
    requires Permutes([n] + rest, n + 1)
    ensures Permutes(rest, n)
  {
    var ord := [n] + rest;
    forall k | 0 <= k < n ensures k in rest {
      assert ord[IndexOf(ord, k)] == k;
    }
    assert forall p :: 0 <= p < n ==> rest[p] == ord[p + 1] && ord[0] == n;
  }

  // ---- The simulator ----

  class CacheInformation {
    var time: nat
    var hits: nat
    var misses: nat
    var evicts: nat
    var dirtyEvicted: nat

    ghost function Counters(): State
      reads this
    {
      State([], time, hits, misses, evicts, dirtyEvicted)
    }

    constructor ()
      ensures time == hits == misses == evicts == dirtyEvicted == 0
    {
      time, hits, misses, evicts, dirtyEvicted := 0, 0, 0, 0, 0;
    }
  }

  class Cache {
    const g: Geometry
    const sets: array<array<SetLine>>
    ghost var order: seq<seq<nat>>

    ghost predicate Shape()
      reads this, sets
    {
      && g.Valid() && sets.Length == g.Sets()
      && (forall i :: 0 <= i < sets.Length ==> sets[i].Length == g.E)
      && (forall i, j :: 0 <= i < j < sets.Length ==> sets[i] != sets[j])
    }

    ghost function Contents(): (r: seq<seq<SetLine>>)
      reads this, sets, sets[..]
      ensures |r| == sets.Length && forall i :: 0 <= i < |r| ==> r[i] == sets[i][..]
    {
      seq(sets.Length, i requires 0 <= i < sets.Length reads this, sets, sets[..] => sets[i][..])
    }

    ghost predicate Valid(now: nat)
      reads this, sets, sets[..]
    {
      Shape() && AllOk(Contents(), order, now)
    }

    ghost function Sets(now: nat): (r: seq<seq<Line>>)
      requires Valid(now)
      reads this, sets, sets[..]
      ensures |r| == g.Sets()
    {
      AbstractAll(Contents(), order, now)
    }

    /** The abstract state this cache and these counters stand for. */
    ghost function Model(info: CacheInformation): (r: State)
      requires Valid(info.time)
      reads this, sets, sets[..], info
      ensures |r.sets| == g.Sets()
    {
      State(Sets(info.time), info.time, info.hits, info.misses, info.evicts, info.dirtyEvicted)
    }

    constructor (s: nat, E: nat, b: nat)
      requires Geometry(s, b, E).Valid()
      ensures Valid(0) && g == Geometry(s, b, E) && fresh(sets)
      ensures forall i :: 0 <= i < sets.Length ==> fresh(sets[i])
      ensures Sets(0) == Init(g).sets
    {
      var geo := Geometry(s, b, E);
      var all := NewSets(geo.Sets(), E);
      g, sets := geo, all;
      order := seq(geo.Sets(), _ => []);
      new;
      assert Contents() == seq(geo.Sets(), _ => seq(E, _ => EMPTY));
    }
  }

  /** S sets of E empty lines each. */
  method NewSets(S: nat, E: nat) returns (all: array<array<SetLine>>)
    ensures fresh(all) && all.Length == S
    ensures forall i :: 0 <= i < S ==> fresh(all[i]) && all[i][..] == seq(E, _ => EMPTY)
    ensures forall i, j :: 0 <= i < j < S ==> all[i] != all[j]
  {
    var none := new SetLine[E](_ => EMPTY);
    all := new array<SetLine>[S](_ => none);
    for i := 0 to S
      modifies all
      invariant forall j :: 0 <= j < i ==> fresh(all[j]) && all[j][..] == seq(E, _ => EMPTY)
      invariant forall j, k :: 0 <= j < k < i ==> all[j] != all[k]
    {
      var lines := new SetLine[E](_ => EMPTY);
      assert lines[..] == seq(E, _ => EMPTY);
      all[i] := lines;
    }
  }

  /** First line with the smallest stamp below MIN; line 0 when there is none. */
  method Evict(currSet: array<SetLine>) returns (minIndex: nat)
    ensures currSet.Length > 0 ==> minIndex < currSet.Length
    ensures (forall i :: 0 <= i < currSet.Length ==> currSet[i].lru >= MIN) ==> minIndex == 0
    ensures (exists i :: 0 <= i < currSet.Length && currSet[i].lru < MIN) ==>
              && minIndex < currSet.Length && currSet[minIndex].lru < MIN
              && (forall i :: 0 <= i < currSet.Length ==> currSet[minIndex].lru <= currSet[i].lru)
              && (forall i :: 0 <= i < minIndex ==> currSet[minIndex].lru < currSet[i].lru)
  {
    var min := MIN;
    minIndex := 0;
    for i := 0 to currSet.Length
      invariant minIndex == 0 || minIndex < i
      invariant min <= MIN && (min < MIN ==> minIndex < i && currSet[minIndex].lru == min)
      invariant min == MIN ==> minIndex == 0
      invariant forall j :: 0 <= j < i ==> min <= currSet[j].lru
      invariant forall j :: 0 <= j < minIndex ==> min < currSet[j].lru
    {
      if currSet[i].lru < min {
        min := currSet[i].lru;
        minIndex := i;
      }
    }
  }

  method AddLine(currSet: array<SetLine>, tag: nat, index: nat, sflag: bool, time: nat)
    requires index < currSet.Length
    modifies currSet
    ensures currSet[..] == old(currSet[..])[index := SetLine(true, sflag, time, tag)]
  {
    currSet[index] := currSet[index].(tag := tag);
    currSet[index] := currSet[index].(lru := time);
    currSet[index] := currSet[index].(valid := true);
    if sflag {
      currSet[index] := currSet[index].(dirty := true);
    } else {
      currSet[index] := currSet[index].(dirty := false);
    }
  }

  /** The scan of one set: the line hit, or else the first empty line if there is one. */
  method Scan(currSet: array<SetLine>, ghost ord: seq<nat>, ghost now: nat, traceTag: nat)
    returns (hit: bool, index: int)
    requires SetOk(currSet[..], ord, now)
    ensures hit ==> 0 <= index < |ord| && currSet[index].tag == traceTag
    ensures !hit ==> traceTag !in Tags(Abstract(currSet[..], ord))
    ensures !hit ==> index == if |ord| < currSet.Length then |ord| else -1
    ensures hit <==> traceTag in Tags(Abstract(currSet[..], ord))
  {
    hit, index := false, -1;
    var i := 0;
    ScanIsSearch(currSet[..], ord, now, traceTag);
    while i < currSet.Length
      invariant 0 <= i <= |ord|
      invariant forall k :: 0 <= k < i ==> currSet[k].tag != traceTag
    {
      assert currSet[..][i] == currSet[i];
      if currSet[i].valid {
        if currSet[i].tag == traceTag {
          assert currSet[..][i].tag == traceTag;
          return true, i;
        }
      } else {
        index := i;
        break;
      }
      i := i + 1;
    }
    assert i == |ord|;
  }

  /** A hit: the line gets a new stamp, and a store makes it dirty. */
  method Restamp(currSet: array<SetLine>, ghost ord: seq<nat>, ghost now: nat, index: nat, time: nat, sflag: bool)
    requires SetOk(currSet[..], ord, now) && index < |ord| && time == now + 1
    modifies currSet
    ensures currSet[..] == After(old(currSet[..]), ord, now, old(currSet[index].tag), sflag).0
  {
    HitEffect(currSet[..], ord, now, index, sflag);
    currSet[index] := currSet[index].(lru := time);
    if sflag {
      currSet[index] := currSet[index].(dirty := true);
    }
  }

  /** A miss: an empty line is filled, or else the oldest line is replaced. */
  method Place(info: CacheInformation, g: Geometry, currSet: array<SetLine>, ghost ord: seq<nat>, ghost now: nat,
               index: int, traceTag: nat, sflag: bool)
    requires currSet.Length == g.E >= 1 && now < MIN && info.time == now + 1 && SetOk(currSet[..], ord, now)
    requires traceTag !in Tags(Abstract(currSet[..], ord))
    requires index == if |ord| < currSet.Length then |ord| else -1
    modifies info`evicts, info`dirtyEvicted, currSet
    ensures currSet[..] == After(old(currSet[..]), ord, now, traceTag, sflag).0
    ensures |ord| < g.E ==> info.evicts == old(info.evicts) && info.dirtyEvicted == old(info.dirtyEvicted)
    ensures |ord| >= g.E ==> info.evicts == old(info.evicts) + 1 && info.dirtyEvicted == old(info.dirtyEvicted)
                             + if old(currSet[..])[ord[|ord| - 1]].dirty then g.BlockBytes() else 0
  {
    if index != -1 {
      AddLine(currSet, traceTag, index, sflag, info.time);
    } else {
      info.evicts := info.evicts + 1;
      var evictedLine := Evict(currSet);
      StampsBelow(currSet[..], ord, now);
      OldestIsLast(currSet[..], ord, now, evictedLine);
      if currSet[evictedLine].dirty {
        info.dirtyEvicted := info.dirtyEvicted + g.BlockBytes();
      }
      AddLine(currSet, traceTag, evictedLine, sflag, info.time);
    }
  }

  /** How an access to tag `t` of a set holding `lines` moves the counters. */
  ghost predicate Counted(g: Geometry, lines: seq<Line>, t: nat, st: State, st': State)
    requires g.E >= 1
  {
    if t in Tags(lines) then
      && st'.hits == st.hits + 1 && st'.misses == st.misses
      && st'.evicts == st.evicts && st'.dirtyEvicted == st.dirtyEvicted
    else if |lines| < g.E then
      && st'.hits == st.hits && st'.misses == st.misses + 1
      && st'.evicts == st.evicts && st'.dirtyEvicted == st.dirtyEvicted
    else
      && st'.hits == st.hits && st'.misses == st.misses + 1 && st'.evicts == st.evicts + 1
      && st'.dirtyEvicted == st.dirtyEvicted + if lines[|lines| - 1].dirty then g.BlockBytes() else 0
  }

  /** The part of an access that happens inside its set. */
  method AccessSet(info: CacheInformation, g: Geometry, currSet: array<SetLine>, ghost ord: seq<nat>,
                   traceTag: nat, sflag: bool)
    requires currSet.Length == g.E >= 1 && info.time < MIN && SetOk(currSet[..], ord, info.time)
    modifies info, currSet
    ensures info.time == old(info.time) + 1
    ensures currSet[..] == After(old(currSet[..]), ord, old(info.time), traceTag, sflag).0
    ensures Counted(g, old(Abstract(currSet[..], ord)), traceTag, old(info.Counters()), info.Counters())
  {
    ghost var now := info.time;
    info.time := info.time + 1;
    var hit, index := Scan(currSet, ord, now, traceTag);
    if hit {
      info.hits := info.hits + 1;
      Restamp(currSet, ord, now, index, info.time, sflag);
    } else {
      info.misses := info.misses + 1;
      Place(info, g, currSet, ord, now, index, traceTag, sflag);
    }
  }

  lemma HitEffect(lines: seq<SetLine>, ord: seq<nat>, now: nat, k: nat, store: bool)
    requires SetOk(lines, ord, now) && k < |ord|
    ensures After(lines, ord, now, lines[k].tag, store).0 ==
            lines[k := SetLine(true, lines[k].dirty || store, now + 1, lines[k].tag)]
  {
    var q := IndexOf(ord, k);
    IndexOfDistinct(Tags(Abstract(lines, ord)), lines[k].tag, q);
  }

  /** One access to a known set and tag. */
  method RunInSet(info: CacheInformation, cache: Cache, setIndex: nat, traceTag: nat, sflag: bool)
    requires cache.Valid(info.time) && info.time < MIN && setIndex < cache.sets.Length
    modifies info, cache`order, cache.sets[setIndex]
    ensures cache.Shape() && info.time == old(info.time) + 1
    ensures var (lines', ord') := After(old(cache.Contents()[setIndex]), old(cache.order[setIndex]),
                                        old(info.time), traceTag, sflag);
            && cache.Contents() == old(cache.Contents())[setIndex := lines']
            && cache.order == old(cache.order)[setIndex := ord']
    ensures Counted(cache.g, Abstract(old(cache.Contents()[setIndex]), old(cache.order[setIndex])), traceTag,
                    old(info.Counters()), info.Counters())
  {
    ghost var now, contents := info.time, cache.Contents();
    var currSet := cache.sets[setIndex];
    ghost var ord := cache.order[setIndex];
    AccessSet(info, cache.g, currSet, ord, traceTag, sflag);
    cache.order := cache.order[setIndex := After(contents[setIndex], ord, now, traceTag, sflag).1];
    forall i | 0 <= i < cache.sets.Length && i != setIndex ensures cache.sets[i][..] == contents[i] {
      assert cache.sets[i] != currSet;
    }
  }

  /** One access. The new state is the abstract LRU step of the old one. */
  method RunAccess(info: CacheInformation, cache: Cache, addr: Word64, sflag: bool)
    requires cache.Valid(info.time) && info.time < MIN
    modifies info, cache`order, cache.sets[SetOf(cache.g, Block(cache.g, addr))]
    ensures cache.Valid(info.time)
    ensures cache.Model(info) == Step(cache.g, old(cache.Model(info)), Access(addr, sflag))
  {
    AddressSplit(addr, cache.g);
    var traceTag := GetTag(addr, cache.g);
    var setIndex := GetSetIndex(addr, cache.g);
    ghost var contents, order, before := cache.Contents(), cache.order, cache.Model(info);
    RunInSet(info, cache, setIndex, traceTag, sflag);
    ModelStep(cache.g, contents, order, Access(addr, sflag), before, cache.Contents(), cache.order, info.Counters());
  }

  /** The physical step, seen abstractly, is the LRU step. */
  lemma ModelStep(g: Geometry, contents: seq<seq<SetLine>>, order: seq<seq<nat>>, a: Access, st: State,
                  contents': seq<seq<SetLine>>, order': seq<seq<nat>>, counters: State)
    requires g.E >= 1 && AllOk(contents, order, st.time) && |contents| == g.Sets() && counters.time == st.time + 1
    requires st.sets == AbstractAll(contents, order, st.time)
    requires var i := SetOf(g, Block(g, a.addr));
             && |contents[i]| == g.E
             && var (lines', ord') := After(contents[i], order[i], st.time, TagOf(g, Block(g, a.addr)), a.store);
             && contents' == contents[i := lines'] && order' == order[i := ord']
             && Counted(g, st.sets[i], TagOf(g, Block(g, a.addr)), st, counters)
    ensures AllOk(contents', order', counters.time)
    ensures counters.(sets := AbstractAll(contents', order', counters.time)) == Step(g, st, a)
  {
    var i, t := SetOf(g, Block(g, a.addr)), TagOf(g, Block(g, a.addr));
    AfterRefinesAll(contents, order, st.time, i, t, a.store);
    StepByFields(g, st, a, counters.(sets := AbstractAll(contents', order', counters.time)));
  }

  /** The abstract step, field by field. */
  lemma StepByFields(g: Geometry, st: State, a: Access, st': State)
    requires g.E >= 1 && |st.sets| == g.Sets() && st'.time == st.time + 1
    requires var i, t := SetOf(g, Block(g, a.addr)), TagOf(g, Block(g, a.addr));
             st'.sets == st.sets[i := Touch(st.sets[i], g.E, t, a.store)] && Counted(g, st.sets[i], t, st, st')
    ensures st' == Step(g, st, a)
  {
  }

  /** Adds the bytes of the dirty lines of one set: the inner loop of the count below. */
  method DirtyInSet(lines: array<SetLine>, ghost ord: seq<nat>, ghost now: nat, B: nat, start: nat)
    returns (result: nat)
    requires SetOk(lines[..], ord, now)
    ensures result == start + B * DirtyLines(Abstract(lines[..], ord))
  {
    result := start;
    for j := 0 to lines.Length
      invariant result == start + B * Total(lines[..j], PHYSICAL_WEIGHT)
    {
      assert lines[..j + 1][..j] == lines[..j];
      ghost var n := Total(lines[..j], PHYSICAL_WEIGHT);
      assert B * (n + 1) == B * n + B;
      if lines[j].dirty {
        result := result + B;
      }
    }
    assert lines[..lines.Length] == lines[..];
    PermutedDirt(lines[..], ord, now);
  }

  /** Bytes held by dirty lines. */
  method DirtyInCache(cache: Cache, ghost now: nat) returns (result: nat)
    requires cache.Valid(now)
    ensures result == cache.g.BlockBytes() * Total(cache.Sets(now), SET_DIRT)
  {
    ghost var sets, dirtyLines := cache.Sets(now), 0;
    var B := cache.g.BlockBytes();
    result := 0;
    for i := 0 to cache.sets.Length
      invariant dirtyLines == Total(sets[..i], SET_DIRT) && result == B * dirtyLines
    {
      assert SetOk(cache.Contents()[i], cache.order[i], now);
      result := DirtyInSet(cache.sets[i], cache.order[i], now, B, result);
      dirtyLines := AddDirt(B, sets, i, dirtyLines);
    }
    assert sets[..cache.sets.Length] == sets;
  }

  lemma AddDirt(B: nat, sets: seq<seq<Line>>, i: nat, before: nat) returns (after: nat)
    requires i < |sets| && before == Total(sets[..i], SET_DIRT)
    ensures after == Total(sets[..i + 1], SET_DIRT)
    ensures B * after == B * before + B * DirtyLines(sets[i])
  {
    assert sets[..i + 1][..i] == sets[..i];
    after := before + DirtyLines(sets[i]);
    Distribute(B, before, DirtyLines(sets[i]));
  }

  lemma Distribute(b: nat, m: nat, n: nat)
    ensures b * (m + n) == b * m + b * n
  {
  }

  /** The simulation of a trace refines the abstract run. */
  method RunTrace(s: nat, E: nat, b: nat, trace: seq<Access>) returns (info: CacheInformation, cache: Cache)
    requires Geometry(s, b, E).Valid() && |trace| <= MIN
    ensures cache.g == Geometry(s, b, E) && cache.Valid(info.time)
    ensures cache.Model(info) == Run(cache.g, trace)
  {
    info := new CacheInformation();
    cache := new Cache(s, E, b);
    ghost var g := cache.g;
    for n := 0 to |trace|
      invariant cache.Valid(info.time) && info.time == n && fresh(info) && fresh(cache)
      invariant cache.g == g
      invariant forall i :: 0 <= i < cache.sets.Length ==> fresh(cache.sets[i])
      invariant cache.Model(info) == Run(g, trace[..n])
    {
      RunSnoc(g, trace, n);
      RunAccess(info, cache, trace[n].addr, trace[n].store);
    }
    assert trace[..|trace|] == trace;
  }

  lemma RunSnoc(g: Geometry, trace: seq<Access>, n: nat)
    requires g.E >= 1 && n < |trace|
    ensures Run(g, trace[..n + 1]) == Step(g, Run(g, trace[..n]), Access(trace[n].addr, trace[n].store))
  {
    assert trace[..n + 1][..n] == trace[..n];
  }

  /** The five numbers a simulation reports. */
  method Simulate(s: nat, E: nat, b: nat, trace: seq<Access>)
    returns (hits: nat, misses: nat, evicts: nat, dirty: nat, dirtyEvicted: nat)
    requires Geometry(s, b, E).Valid() && |trace| <= MIN
    ensures hits == |LruTheory.Reuses(Geometry(s, b, E), trace)|
    ensures hits + misses == |trace|
    ensures misses == evicts + ResidentLines(Run(Geometry(s, b, E), trace))
    ensures evicts == Run(Geometry(s, b, E), trace).evicts
    ensures dirtyEvicted == Run(Geometry(s, b, E), trace).dirtyEvicted
    ensures dirty == Geometry(s, b, E).BlockBytes() * AllDirtyLines(Run(Geometry(s, b, E), trace))
    ensures dirtyEvicted + dirty == Geometry(s, b, E).BlockBytes() * |Dirtyings(Geometry(s, b, E), trace)|
  {
    var info, cache := RunTrace(s, E, b, trace);
    dirty := DirtyInCache(cache, info.time);
    hits, misses, evicts, dirtyEvicted := info.hits, info.misses, info.evicts, info.dirtyEvicted;
    LruTheory.HitsAreReuses(cache.g, trace);
    CountsBalance(cache.g, trace);
    BytesBalance(cache.g, trace);
  }
}
