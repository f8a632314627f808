/** The abstract cache: each set is a most-recent-first list of resident lines.
    This is what cachelab/csim.c computes once its timestamps are forgotten. */
module Lru {
  import opened Basics
  import opened Words

  /** Cache geometry: 2^s sets of E lines holding 2^b bytes each. */
  datatype Geometry = Geometry(s: nat, b: nat, E: nat) {
    predicate Valid() {
      E >= 1 && s <= 31 && s + b < 64
    }
    function Sets(): (r: nat) ensures r > 0 { Pow2(s) }
    function BlockBytes(): (r: nat) ensures r > 0 { Pow2(b) }
  }

  datatype Access = Access(addr: Word64, store: bool)
  datatype Line = Line(tag: nat, dirty: bool)

  // ---- Addresses ----

  /** The number of the memory block an address lies in. */
  function Block(g: Geometry, addr: nat): nat {
    Shr(addr, g.b)
  }

  function TagOf(g: Geometry, block: nat): nat {
    Shr(block, g.s)
  }

  function SetOf(g: Geometry, block: nat): (i: nat)
    ensures i < g.Sets()
  {
    Split(block, g.s);
    LowBits(block, g.s)
  }

  function BlockFrom(g: Geometry, tag: nat, i: nat): nat {
    i + Raised(tag, g.s)
  }

  /** A block is the run of that many addresses that starts at a multiple of its size. */
  lemma BlockHolds(g: Geometry, addr: nat, k: nat)
    ensures Block(g, addr) == k <==> k * g.BlockBytes() <= addr < (k + 1) * g.BlockBytes()
  {
    var B := g.BlockBytes();
    ShrIs(addr, g.b);
    assert (k + 1) * B == k * B + B;
    assert addr == (addr / B) * B + addr % B;
    if k * B <= addr < (k + 1) * B { DivUnique(addr, B, k); }
  }

  /** Tag and set index are quotient and remainder by the number of sets. */
  lemma TagAndSet(g: Geometry, block: nat)
    ensures TagOf(g, block) == block / g.Sets() && SetOf(g, block) == block % g.Sets()
  {
    ShrIs(block, g.s);
    LowBitsIsMod(block, g.s);
  }

  /** Tag and set index together determine the block, and every pair is some block's. */
  lemma BlockSplit(g: Geometry, block: nat)
    ensures BlockFrom(g, TagOf(g, block), SetOf(g, block)) == block
  {
    Split(block, g.s);
  }

  lemma BlockJoin(g: Geometry, tag: nat, i: nat)
    requires i < g.Sets()
    ensures TagOf(g, BlockFrom(g, tag, i)) == tag && SetOf(g, BlockFrom(g, tag, i)) == i
  {
    SplitUnique(i, tag, g.s);
  }

  // ---- One set ----

  function Tags(lines: seq<Line>): (ts: seq<nat>)
    ensures |ts| == |lines| && forall k :: 0 <= k < |ts| ==> ts[k] == lines[k].tag
  {
    seq(|lines|, k requires 0 <= k < |lines| => lines[k].tag)
  }

  /** Position of `x` in `s`, or |s| when absent. */
  function IndexOf<T(==)>(s: seq<T>, x: T): (p: nat)
    ensures p <= |s| && (p < |s| ==> s[p] == x) && x !in s[..p]
    ensures x in s <==> p < |s|
  {
    if s == [] then 0
    else if s[0] == x then 0
    else
      assert forall k {:trigger s[k]} :: 1 <= k < |s| ==> s[k] == s[1..][k - 1];
      1 + IndexOf(s[1..], x)
  }

  /** What one access to tag `t` does to a set: a hit moves the line to the front and
      keeps it dirty; a miss pushes a new line and, in a full set, drops the last one. */
  function Touch(lines: seq<Line>, E: nat, t: nat, store: bool): (r: seq<Line>)
    requires 1 <= E
  {
    var p := IndexOf(Tags(lines), t);
    if p < |lines| then [Line(t, lines[p].dirty || store)] + RemoveAt(lines, p)
    else if |lines| < E then [Line(t, store)] + lines
    else [Line(t, store)] + lines[..|lines| - 1]
  }

  // ---- The whole cache ----

  datatype State = State(sets: seq<seq<Line>>, time: nat, hits: nat, misses: nat, evicts: nat, dirtyEvicted: nat)

  function Init(g: Geometry): State {
    State(seq(g.Sets(), _ => []), 0, 0, 0, 0, 0)
  }

  predicate Hit(g: Geometry, st: State, addr: nat)
    requires |st.sets| == g.Sets()
  {
    TagOf(g, Block(g, addr)) in Tags(st.sets[SetOf(g, Block(g, addr))])
  }

  function Step(g: Geometry, st: State, a: Access): (r: State)
    requires g.E >= 1 && |st.sets| == g.Sets()
    ensures |r.sets| == g.Sets()
  {
    var i, t := SetOf(g, Block(g, a.addr)), TagOf(g, Block(g, a.addr));
    var lines := st.sets[i];
    var sets' := st.sets[i := Touch(lines, g.E, t, a.store)];
    if Hit(g, st, a.addr) then
      st.(sets := sets', time := st.time + 1, hits := st.hits + 1)
    else if |lines| < g.E then
      st.(sets := sets', time := st.time + 1, misses := st.misses + 1)
    else
      var spilled := if lines[|lines| - 1].dirty then g.BlockBytes() else 0;
      st.(sets := sets', time := st.time + 1, misses := st.misses + 1, evicts := st.evicts + 1,
          dirtyEvicted := st.dirtyEvicted + spilled)
  }

  /** The state after a whole trace, last access last. */
  function Run(g: Geometry, trace: seq<Access>): (r: State)
    requires g.E >= 1
    ensures |r.sets| == g.Sets()
  {
    if trace == [] then Init(g) else Step(g, Run(g, trace[..|trace| - 1]), trace[|trace| - 1])
  }

  /** The block addresses held by set `i`, most recent first. */
  function Blocks(g: Geometry, lines: seq<Line>, i: nat): (r: seq<nat>)
    ensures |r| == |lines|
    ensures forall k :: 0 <= k < |r| ==> r[k] == BlockFrom(g, lines[k].tag, i)
  {
    seq(|lines|, k requires 0 <= k < |lines| => BlockFrom(g, lines[k].tag, i))
  }
}
