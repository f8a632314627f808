/** What a least-recently-used cache guarantees over whole traces: the contents are the
    top of the recency list, hits are exactly the short stack distances, a larger cache
    never loses, and the counters balance. */
module LruTheory {
  import opened Basics
  import opened Words
  import opened Lru

  // ---- The recency list: all blocks of a set ever used, most recent first ----

  function ToFront(s: seq<nat>, x: nat): seq<nat> {
    var p := IndexOf(s, x);
    if p < |s| then [x] + RemoveAt(s, p) else [x] + s
  }

  function Recency(g: Geometry, trace: seq<Access>, i: nat): seq<nat> {
    if trace == [] then []
    else
      var r := Recency(g, trace[..|trace| - 1], i);
      var b := Block(g, trace[|trace| - 1].addr);
      if SetOf(g, b) == i then ToFront(r, b) else r
  }

  function Top(s: seq<nat>, n: nat): seq<nat> {
    if |s| <= n then s else s[..n]
  }

  ghost predicate Distinct<T(!new)>(s: seq<T>) {
    forall p, q :: 0 <= p < q < |s| ==> s[p] != s[q]
  }

  /** An access to a bounded list. */
  function TouchList(s: seq<nat>, n: nat, x: nat): seq<nat> {
    if x in s then ToFront(s, x) else Top([x] + s, n)
  }

  lemma IndexOfUnique<T>(s: seq<T>, x: T, p: nat)
    requires p < |s| && s[p] == x && x !in s[..p]
    ensures IndexOf(s, x) == p
  {
    var q := IndexOf(s, x);
    assert forall k {:trigger s[k]} :: 0 <= k < p ==> s[k] == s[..p][k];
    assert forall k {:trigger s[k]} :: 0 <= k < q ==> s[k] == s[..q][k];
  }

  lemma ToFrontDistinct(s: seq<nat>, x: nat)
    requires Distinct(s)
    ensures Distinct(ToFront(s, x))
  {
  }

  lemma {:induction false} RecencyDistinct(g: Geometry, trace: seq<Access>, i: nat)
    ensures Distinct(Recency(g, trace, i))
  {
    if trace != [] {
      RecencyDistinct(g, trace[..|trace| - 1], i);
      ToFrontDistinct(Recency(g, trace[..|trace| - 1], i), Block(g, trace[|trace| - 1].addr));
    }
  }

  /** Truncation commutes with an access. */
  lemma TopTouch(r: seq<nat>, n: nat, x: nat)
    requires Distinct(r) && n >= 1
    ensures TouchList(Top(r, n), n, x) == Top(ToFront(r, x), n)
  {
    var p := IndexOf(r, x);
    if p < |r| {
      if p < n {
        assert Top(r, n)[p] == x;
        if |r| > n { assert r[..n][..p] == r[..p]; }
        IndexOfUnique(Top(r, n), x, p);
      } else {
        assert Top(r, n) == r[..n] == r[..p][..n];
        assert x !in Top(r, n);
      }
    } else {
      assert x !in r;
    }
  }

  /** A tag is where its block is. */
  lemma TagIndex(g: Geometry, lines: seq<Line>, i: nat, b: nat)
    requires SetOf(g, b) == i
    ensures IndexOf(Tags(lines), TagOf(g, b)) == IndexOf(Blocks(g, lines, i), b)
  {
    var t, ts, bs := TagOf(g, b), Tags(lines), Blocks(g, lines, i);
    BlockSplit(g, b);
    forall k | 0 <= k < |lines| ensures ts[k] == t <==> bs[k] == b { BlockJoin(g, ts[k], i); }
    SameIndex(ts, t, bs, b);
  }

  lemma {:induction false} SameIndex(s: seq<nat>, x: nat, t: seq<nat>, y: nat)
    requires |s| == |t| && forall k :: 0 <= k < |s| ==> (s[k] == x <==> t[k] == y)
    ensures IndexOf(s, x) == IndexOf(t, y)
  {
    if s != [] && s[0] != x {
      assert forall k :: 0 <= k < |s| - 1 ==> s[1..][k] == s[k + 1] && t[1..][k] == t[k + 1];
      SameIndex(s[1..], x, t[1..], y);
    }
  }

  /** An access to a set of lines, seen on block addresses. */
  lemma TouchBlocks(g: Geometry, lines: seq<Line>, i: nat, b: nat, store: bool)
    requires g.E >= 1 && SetOf(g, b) == i && |lines| <= g.E
    ensures Blocks(g, Touch(lines, g.E, TagOf(g, b), store), i) == TouchList(Blocks(g, lines, i), g.E, b)
    ensures TagOf(g, b) in Tags(lines) <==> b in Blocks(g, lines, i)
  {
    TagIndex(g, lines, i, b);
    BlockSplit(g, b);
    var p := IndexOf(Tags(lines), TagOf(g, b));
    if p < |lines| {
      BlocksHit(g, lines, i, b, store, p);
    } else {
      BlocksMiss(g, lines, i, b, store);
    }
  }

  lemma BlocksHit(g: Geometry, lines: seq<Line>, i: nat, b: nat, dirty: bool, p: nat)
    requires p < |lines| && BlockFrom(g, TagOf(g, b), i) == b
    ensures forall d: bool :: Blocks(g, [Line(TagOf(g, b), d)] + RemoveAt(lines, p), i)
                              == [b] + RemoveAt(Blocks(g, lines, i), p)
  {
    RemoveAtIndex(lines, p);
    RemoveAtIndex(Blocks(g, lines, i), p);
  }

  lemma BlocksMiss(g: Geometry, lines: seq<Line>, i: nat, b: nat, store: bool)
    requires BlockFrom(g, TagOf(g, b), i) == b
    ensures Blocks(g, [Line(TagOf(g, b), store)] + lines, i) == [b] + Blocks(g, lines, i)
    ensures lines != [] ==>
              Blocks(g, [Line(TagOf(g, b), store)] + lines[..|lines| - 1], i)
              == [b] + Blocks(g, lines, i)[..|lines| - 1]
  {
  }

  lemma {:induction false} SetsBounded(g: Geometry, trace: seq<Access>, i: nat)
    requires g.E >= 1 && i < g.Sets()
    ensures |Run(g, trace).sets[i]| <= g.E
  {
    if trace != [] {
      SetsBounded(g, trace[..|trace| - 1], i);
    }
  }

  /** Refinement of the bounded cache by the unbounded recency list: after any trace,
      every set holds exactly the E most recently used blocks that map to it, in order. */
  lemma {:induction false} LruIsTopOfRecency(g: Geometry, trace: seq<Access>, i: nat)
    requires g.E >= 1 && i < g.Sets()
    ensures Blocks(g, Run(g, trace).sets[i], i) == Top(Recency(g, trace, i), g.E)
  {
    if trace != [] {
      var init, last := trace[..|trace| - 1], trace[|trace| - 1];
      LruIsTopOfRecency(g, init, i);
      var b := Block(g, last.addr);
      if SetOf(g, b) == i {
        SetsBounded(g, init, i);
        TouchBlocks(g, Run(g, init).sets[i], i, b, last.store);
        RecencyDistinct(g, init, i);
        TopTouch(Recency(g, init, i), g.E, b);
      }
    }
  }

  // ---- Stack distance ----

  ghost predicate LastUse(g: Geometry, trace: seq<Access>, j: nat, b: nat) {
    j < |trace| && Block(g, trace[j].addr) == b
    && forall k :: j < k < |trace| ==> Block(g, trace[k].addr) != b
  }

  /** The distinct blocks of set `i` used after position `j`. */
  ghost function UsedSince(g: Geometry, trace: seq<Access>, j: nat, i: nat): set<nat> {
    set k | j < k < |trace| && SetOf(g, Block(g, trace[k].addr)) == i :: Block(g, trace[k].addr)
  }

  lemma {:induction false} DistinctCount(s: seq<nat>, m: set<nat>)
    requires Distinct(s) && forall y :: y in s <==> y in m
    ensures |m| == |s|
  {
    if s == [] {
      assert m == {};
    } else {
      var n := |s| - 1;
      assert s[n] in s;
      forall y ensures y in s[..n] <==> y in m - {s[n]} {
        if y in s && y != s[n] {
          var k :| 0 <= k < |s| && s[k] == y;
          assert s[..n][k] == y;
        }
      }
      DistinctCount(s[..n], m - {s[n]});
    }
  }

  /** Moving another element to the front: what then stands before `b`. */
  lemma ToFrontBefore(r: seq<nat>, x: nat, b: nat) returns (p: nat)
    requires Distinct(r) && b in r && x != b
    ensures var r' := ToFront(r, x); var q := IndexOf(r, x);
            && p == IndexOf(r, b) < |r|
            && b in r' && IndexOf(r', b) == (if q < p then p else p + 1)
            && r'[..IndexOf(r', b)] == [x] + if q < p then r[..q] + r[q + 1..p] else r[..p]
  {
    p := IndexOf(r, b);
    var r', q := ToFront(r, x), IndexOf(r, x);
    var p' := if q < p then p else p + 1;
    assert r'[p'] == b;
    var front := [x] + if q < p then r[..q] + r[q + 1..p] else r[..p];
    assert r'[..p'] == front;
    assert b !in front by { assert b !in r[..p]; if q < p { TakenApart(r, p, q); } }
    IndexOfUnique(r', b, p');
  }

  /** A prefix is its element at `q` and what is around it. */
  lemma TakenApart(r: seq<nat>, p: nat, q: nat)
    requires q < p <= |r|
    ensures r[..p] == r[..q] + [r[q]] + r[q + 1..p]
  {
  }

  /** Who precedes `b` afterwards: the moved element, and whoever did before. */
  lemma ToFrontPrefix(r: seq<nat>, x: nat, b: nat)
    requires Distinct(r) && b in r && x != b
    ensures var r' := ToFront(r, x);
            b in r' && forall y :: y in r'[..IndexOf(r', b)] <==> y == x || y in r[..IndexOf(r, b)]
  {
    var p := ToFrontBefore(r, x, b);
    var q := IndexOf(r, x);
    if q < p { TakenApart(r, p, q); }
  }

  /** The depth of a block in the recency list is its stack distance. */
  lemma {:induction false} DepthIsStackDistance(g: Geometry, trace: seq<Access>, j: nat, b: nat)
    requires LastUse(g, trace, j, b)
    ensures var r := Recency(g, trace, SetOf(g, b));
            b in r && forall y :: y in r[..IndexOf(r, b)] <==> y in UsedSince(g, trace, j, SetOf(g, b))
  {
    var i, n := SetOf(g, b), |trace| - 1;
    var r, r0 := Recency(g, trace, i), Recency(g, trace[..n], i);
    var x := Block(g, trace[n].addr);
    if j == n {
      IndexOfUnique(r, b, 0);
      assert UsedSince(g, trace, j, i) == {};
    } else {
      assert LastUse(g, trace[..n], j, b) by {
        forall k | j < k < n ensures Block(g, trace[..n][k].addr) != b { assert trace[..n][k] == trace[k]; }
      }
      DepthIsStackDistance(g, trace[..n], j, b);
      var u, u0 := UsedSince(g, trace, j, i), UsedSince(g, trace[..n], j, i);
      assert u == u0 + (if SetOf(g, x) == i then {x} else {}) by { UsedSinceSnoc(g, trace, j, i); }
      if SetOf(g, x) == i {
        RecencyDistinct(g, trace[..n], i);
        ToFrontPrefix(r0, x, b);
      }
    }
  }

  lemma UsedSinceSnoc(g: Geometry, trace: seq<Access>, j: nat, i: nat)
    requires j < |trace| - 1
    ensures var n := |trace| - 1; var x := Block(g, trace[n].addr);
            UsedSince(g, trace, j, i) == UsedSince(g, trace[..n], j, i) + (if SetOf(g, x) == i then {x} else {})
  {
    var n := |trace| - 1;
    var u, u0 := UsedSince(g, trace, j, i), UsedSince(g, trace[..n], j, i);
    forall y | y in u0 ensures y in u {
      var k :| j < k < n && SetOf(g, Block(g, trace[..n][k].addr)) == i && Block(g, trace[..n][k].addr) == y;
      assert trace[..n][k] == trace[k];
    }
    forall y | y in u ensures y in u0 || (y == Block(g, trace[n].addr) && SetOf(g, y) == i) {
      var k :| j < k <= n && SetOf(g, Block(g, trace[k].addr)) == i && Block(g, trace[k].addr) == y;
      if k < n { assert trace[..n][k] == trace[k]; }
    }
  }

  /** Only blocks that were used are in the recency list. */
  lemma {:induction false} RecentWasUsed(g: Geometry, trace: seq<Access>, i: nat, b: nat) returns (j: nat)
    requires b in Recency(g, trace, i)
    ensures LastUse(g, trace, j, b) && SetOf(g, b) == i
  {
    var n := |trace| - 1;
    if Block(g, trace[n].addr) == b {
      j := n;
      if SetOf(g, b) != i {
        var _ := RecentWasUsed(g, trace[..n], i, b);
      }
    } else {
      j := RecentWasUsed(g, trace[..n], i, b);
      forall k | j < k < |trace| ensures Block(g, trace[k].addr) != b {
        if k < n { assert trace[..n][k] == trace[k]; }
      }
      assert trace[..n][j] == trace[j];
    }
  }

  /** The access at the end of `trace` would hit, judged from the trace alone. */
  ghost predicate Reused(g: Geometry, trace: seq<Access>, b: nat) {
    exists j :: LastUse(g, trace, j, b) && |UsedSince(g, trace, j, SetOf(g, b))| < g.E
  }

  /** Stack distance theorem: an access hits exactly when its block was used before and
      fewer than E distinct other blocks of its set were used since. */
  lemma StackDistance(g: Geometry, trace: seq<Access>, addr: Word64)
    requires g.E >= 1
    ensures Hit(g, Run(g, trace), addr) <==> Reused(g, trace, Block(g, addr))
  {
    var b := Block(g, addr);
    var i := SetOf(g, b);
    var r := Recency(g, trace, i);
    SetsBounded(g, trace, i);
    TouchBlocks(g, Run(g, trace).sets[i], i, b, false);
    LruIsTopOfRecency(g, trace, i);
    RecencyDistinct(g, trace, i);
    forall j | LastUse(g, trace, j, b)
      ensures b in r && |UsedSince(g, trace, j, i)| == IndexOf(r, b)
    {
      DepthIsStackDistance(g, trace, j, b);
      DistinctCount(r[..IndexOf(r, b)], UsedSince(g, trace, j, i));
    }
    if b in r {
      var j := RecentWasUsed(g, trace, i, b);
      assert LastUse(g, trace, j, b);
      var p := IndexOf(r, b);
      if p < g.E { assert Top(r, g.E)[p] == b; }
      if b in Top(r, g.E) {
        var k :| 0 <= k < |Top(r, g.E)| && Top(r, g.E)[k] == b;
        assert r[k] == r[p];
        assert k == p;
      }
    } else {
      assert b !in Top(r, g.E);
    }
  }

  /** The positions of a trace whose access reuses its block soon enough. */
  ghost function Reuses(g: Geometry, trace: seq<Access>): set<nat> {
    set k | 0 <= k < |trace| && Reused(g, trace[..k], Block(g, trace[k].addr))
  }

  lemma ReusesSnoc(g: Geometry, trace: seq<Access>)
    requires trace != []
    ensures var n := |trace| - 1;
            && n !in Reuses(g, trace[..n])
            && Reuses(g, trace) == Reuses(g, trace[..n])
                                   + (if Reused(g, trace[..n], Block(g, trace[n].addr)) then {n} else {})
  {
    var n := |trace| - 1;
    forall k | 0 <= k < n ensures trace[..n][..k] == trace[..k] && trace[..n][k] == trace[k] {}
  }

  /** Hits over a whole run, counted from the trace alone. */
  lemma {:induction false} HitsAreReuses(g: Geometry, trace: seq<Access>)
    requires g.E >= 1
    ensures Run(g, trace).hits == |Reuses(g, trace)|
  {
    if trace == [] {
    } else {
      var n := |trace| - 1;
      HitsAreReuses(g, trace[..n]);
      ReusesSnoc(g, trace);
      StackDistance(g, trace[..n], trace[n].addr);
    }
  }

  // ---- Inclusion ----

  ghost predicate Resident(g: Geometry, st: State, b: nat)
    requires |st.sets| == g.Sets()
  {
    b in Blocks(g, st.sets[SetOf(g, b)], SetOf(g, b))
  }

  /** LRU inclusion: with more lines per set, everything that was resident still is, and
      the number of hits does not fall. */
  lemma {:induction false} Inclusion(g: Geometry, more: nat, trace: seq<Access>)
    requires g.E >= 1 && more >= g.E
    ensures var g' := g.(E := more);
            && (forall b :: Resident(g, Run(g, trace), b) ==> Resident(g', Run(g', trace), b))
            && Run(g, trace).hits <= Run(g', trace).hits
  {
    var g' := g.(E := more);
    forall b | Resident(g, Run(g, trace), b) ensures Resident(g', Run(g', trace), b) {
      var i := SetOf(g, b);
      LruIsTopOfRecency(g, trace, i);
      LruIsTopOfRecency(g', trace, i);
      RecencySameForAllE(g, g', trace, i);
    }
    if trace != [] {
      var init, a := trace[..|trace| - 1], trace[|trace| - 1].addr;
      Inclusion(g, more, init);
      var b := Block(g, a);
      var i := SetOf(g, b);
      SetsBounded(g, init, i);
      SetsBounded(g', init, i);
      TouchBlocks(g, Run(g, init).sets[i], i, b, false);
      TouchBlocks(g', Run(g', init).sets[i], i, b, false);
      assert Resident(g, Run(g, init), b) ==> Resident(g', Run(g', init), b);
    }
  }

  lemma {:induction false} RecencySameForAllE(g: Geometry, g': Geometry, trace: seq<Access>, i: nat)
    requires g' == g.(E := g'.E)
    ensures Recency(g, trace, i) == Recency(g', trace, i)
  {
    if trace != [] {
      RecencySameForAllE(g, g', trace[..|trace| - 1], i);
    }
  }
}
