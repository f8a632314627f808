/** Conservation laws of the simulated cache: counters, dirty bytes and dirty bits. */
module LruBalance {
  import opened Basics
  import opened Lru
  import opened LruTheory

  // ---- Totals ----

  function Total<T>(s: seq<T>, f: T -> nat): nat {
    if s == [] then 0 else Total(s[..|s| - 1], f) + f(s[|s| - 1])
  }

  lemma {:induction false} TotalAppend<T>(s: seq<T>, t: seq<T>, f: T -> nat)
    ensures Total(s + t, f) == Total(s, f) + Total(t, f)
  {
    if t == [] {
      assert s + t == s;
    } else {
      assert (s + t)[..|s + t| - 1] == s + t[..|t| - 1];
      TotalAppend(s, t[..|t| - 1], f);
    }
  }

  lemma TotalSplit<T>(s: seq<T>, p: nat, f: T -> nat)
    requires p < |s|
    ensures Total(s, f) == Total(s[..p], f) + f(s[p]) + Total(s[p + 1..], f)
  {
    assert s == s[..p] + [s[p]] + s[p + 1..];
    TotalAppend(s[..p] + [s[p]], s[p + 1..], f);
    TotalAppend(s[..p], [s[p]], f);
    assert Total([s[p]], f) == f(s[p]);
  }

  lemma TotalUpdate<T>(s: seq<T>, p: nat, x: T, f: T -> nat)
    requires p < |s|
    ensures Total(s[p := x], f) + f(s[p]) == Total(s, f) + f(x)
  {
    TotalSplit(s, p, f);
    TotalSplit(s[p := x], p, f);
    assert s[p := x][..p] == s[..p] && s[p := x][p + 1..] == s[p + 1..];
  }

  lemma TotalRemoveAt<T>(s: seq<T>, p: nat, f: T -> nat)
    requires p < |s|
    ensures Total(RemoveAt(s, p), f) + f(s[p]) == Total(s, f)
  {
    TotalSplit(s, p, f);
    TotalAppend(s[..p], s[p + 1..], f);
  }

  lemma TotalCons<T>(x: T, s: seq<T>, f: T -> nat)
    ensures Total([x] + s, f) == f(x) + Total(s, f)
  {
    TotalAppend([x], s, f);
    assert Total([x], f) == f(x);
  }

  lemma {:induction false} TotalZero<T>(s: seq<T>, f: T -> nat)
    requires forall x :: x in s ==> f(x) == 0
    ensures Total(s, f) == 0
  {
    if s != [] {
      TotalZero(s[..|s| - 1], f);
    }
  }

  const DIRTY_WEIGHT: Line -> nat := (l: Line) => if l.dirty then 1 else 0

  function DirtyLines(lines: seq<Line>): nat {
    Total(lines, DIRTY_WEIGHT)
  }

  const SET_SIZE: seq<Line> -> nat := (lines: seq<Line>) => |lines|
  const SET_DIRT: seq<Line> -> nat := (lines: seq<Line>) => DirtyLines(lines)

  function ResidentLines(st: State): nat {
    Total(st.sets, SET_SIZE)
  }

  function AllDirtyLines(st: State): nat {
    Total(st.sets, SET_DIRT)
  }

  // ---- What made lines dirty ----

  /** The block is resident and its line is dirty. */
  ghost predicate Dirty(g: Geometry, st: State, b: nat)
    requires |st.sets| == g.Sets()
  {
    var lines, t := st.sets[SetOf(g, b)], TagOf(g, b);
    IndexOf(Tags(lines), t) < |lines| && lines[IndexOf(Tags(lines), t)].dirty
  }

  /** The stores that found their line clean or had to load it. */
  ghost function Dirtyings(g: Geometry, trace: seq<Access>): set<nat>
    requires g.E >= 1
  {
    set k | 0 <= k < |trace| && trace[k].store && !Dirty(g, Run(g, trace[..k]), Block(g, trace[k].addr))
  }

  lemma DirtyingsSnoc(g: Geometry, trace: seq<Access>)
    requires g.E >= 1 && trace != []
    ensures var n := |trace| - 1;
            var dirties := trace[n].store && !Dirty(g, Run(g, trace[..n]), Block(g, trace[n].addr));
            && n !in Dirtyings(g, trace[..n])
            && Dirtyings(g, trace) == Dirtyings(g, trace[..n]) + (if dirties then {n} else {})
  {
    var n := |trace| - 1;
    forall k | 0 <= k < n ensures trace[..n][..k] == trace[..k] && trace[..n][k] == trace[k] {}
  }

  /** Dirty lines of one set across one access. */
  lemma TouchDirty(lines: seq<Line>, E: nat, t: nat, store: bool)
    requires 1 <= E
    ensures var p := IndexOf(Tags(lines), t);
            var spilled := if p == |lines| && |lines| >= E then DIRTY_WEIGHT(lines[|lines| - 1]) else 0;
            var gained := if store && !(p < |lines| && lines[p].dirty) then 1 else 0;
            DirtyLines(Touch(lines, E, t, store)) + spilled == DirtyLines(lines) + gained
  {
    var p := IndexOf(Tags(lines), t);
    if p < |lines| {
      TotalRemoveAt(lines, p, DIRTY_WEIGHT);
      TotalCons(Line(t, lines[p].dirty || store), RemoveAt(lines, p), DIRTY_WEIGHT);
    } else if |lines| < E {
      TotalCons(Line(t, store), lines, DIRTY_WEIGHT);
    } else {
      TotalCons(Line(t, store), lines[..|lines| - 1], DIRTY_WEIGHT);
    }
  }

  /** 1 when the access makes a clean or new line dirty. */
  ghost function Gained(g: Geometry, st: State, a: Access): nat
    requires |st.sets| == g.Sets()
  {
    if a.store && !Dirty(g, st, Block(g, a.addr)) then 1 else 0
  }

  /** 1 when the access throws a dirty line out. */
  ghost function Spilled(g: Geometry, st: State, a: Access): nat
    requires |st.sets| == g.Sets() && g.E >= 1
  {
    var lines := st.sets[SetOf(g, Block(g, a.addr))];
    if !Hit(g, st, a.addr) && |lines| >= g.E then DIRTY_WEIGHT(lines[|lines| - 1]) else 0
  }

  lemma StepSizes(g: Geometry, st: State, a: Access)
    requires g.E >= 1 && |st.sets| == g.Sets()
    ensures var st' := Step(g, st, a);
            st'.misses + ResidentLines(st) + st.evicts == st'.evicts + ResidentLines(st') + st.misses
  {
    var i := SetOf(g, Block(g, a.addr));
    TotalUpdate(st.sets, i, Step(g, st, a).sets[i], SET_SIZE);
  }

  lemma StepDirt(g: Geometry, st: State, a: Access)
    requires g.E >= 1 && |st.sets| == g.Sets()
    ensures AllDirtyLines(Step(g, st, a)) + Spilled(g, st, a) == AllDirtyLines(st) + Gained(g, st, a)
  {
    var i, t := SetOf(g, Block(g, a.addr)), TagOf(g, Block(g, a.addr));
    TotalUpdate(st.sets, i, Step(g, st, a).sets[i], SET_DIRT);
    TouchDirty(st.sets[i], g.E, t, a.store);
    assert Hit(g, st, a.addr) <==> IndexOf(Tags(st.sets[i]), t) < |st.sets[i]|;
  }

  lemma StepSpills(g: Geometry, st: State, a: Access)
    requires g.E >= 1 && |st.sets| == g.Sets()
    ensures Step(g, st, a).dirtyEvicted == st.dirtyEvicted + g.BlockBytes() * Spilled(g, st, a)
  {
    var B := g.BlockBytes();
    assert B * 0 == 0 && B * 1 == B;
  }

  /** The bytes of dirty lines, evicted or still cached, across one access. */
  lemma BytesStep(B: nat, evicted: nat, evicted': nat, dirty: nat, dirty': nat, spilled: nat, gained: nat, count: nat)
    requires evicted + B * dirty == B * count
    requires dirty' + spilled == dirty + gained && evicted' == evicted + B * spilled
    ensures evicted' + B * dirty' == B * (count + gained)
  {
    assert B * (dirty' + spilled) == B * (dirty + gained);
    assert B * dirty' + B * spilled == B * dirty + B * gained;
  }

  /** Every access is a hit or a miss, and every miss that evicted nothing filled a line. */
  lemma {:induction false} CountsBalance(g: Geometry, trace: seq<Access>)
    requires g.E >= 1
    ensures var st := Run(g, trace);
            && st.hits + st.misses == st.time == |trace|
            && st.misses == st.evicts + ResidentLines(st)
  {
    if trace == [] {
      TotalZero(Init(g).sets, SET_SIZE);
    } else {
      var n := |trace| - 1;
      CountsBalance(g, trace[..n]);
      StepSizes(g, Run(g, trace[..n]), trace[n]);
    }
  }

  ghost predicate BytesAccounted(g: Geometry, st: State, count: nat) {
    st.dirtyEvicted + g.BlockBytes() * AllDirtyLines(st) == g.BlockBytes() * count
  }

  /** Dirty bytes, evicted or still cached, are the bytes of the lines ever made dirty. */
  lemma {:induction false} BytesBalance(g: Geometry, trace: seq<Access>)
    requires g.E >= 1
    ensures BytesAccounted(g, Run(g, trace), |Dirtyings(g, trace)|)
  {
    if trace == [] {
      BytesBalanceInit(g);
      assert Dirtyings(g, trace) == {};
    } else {
      var n := |trace| - 1;
      BytesBalance(g, trace[..n]);
      DirtyingsCount(g, trace);
      BytesBalanceStep(g, Run(g, trace[..n]), trace[n], |Dirtyings(g, trace[..n])|,
                       Run(g, trace), |Dirtyings(g, trace)|);
    }
  }

  lemma DirtyingsCount(g: Geometry, trace: seq<Access>)
    requires g.E >= 1 && trace != []
    ensures var n := |trace| - 1;
            |Dirtyings(g, trace)| == |Dirtyings(g, trace[..n])| + Gained(g, Run(g, trace[..n]), trace[n])
  {
    DirtyingsSnoc(g, trace);
  }

  lemma BytesBalanceInit(g: Geometry)
    ensures BytesAccounted(g, Init(g), 0)
  {
    TotalZero(Init(g).sets, SET_DIRT);
  }

  lemma BytesBalanceStep(g: Geometry, st: State, a: Access, count: nat, st': State, count': nat)
    requires g.E >= 1 && |st.sets| == g.Sets() && BytesAccounted(g, st, count)
    requires st' == Step(g, st, a) && count' == count + Gained(g, st, a)
    ensures BytesAccounted(g, st', count')
  {
    StepDirt(g, st, a);
    StepSpills(g, st, a);
    BytesStep(g.BlockBytes(), st.dirtyEvicted, st'.dirtyEvicted, AllDirtyLines(st), AllDirtyLines(st'),
              Spilled(g, st, a), Gained(g, st, a), count);
  }

  // ---- Dirty bits ----

  /** Position of the miss that brought block `b` in for the last time. */
  ghost predicate LastLoad(g: Geometry, trace: seq<Access>, l: nat, b: nat)
    requires g.E >= 1
  {
    && l < |trace| && Block(g, trace[l].addr) == b
    && !Hit(g, Run(g, trace[..l]), trace[l].addr)
    && forall k :: l < k < |trace| && Block(g, trace[k].addr) == b ==> Hit(g, Run(g, trace[..k]), trace[k].addr)
  }

  ghost predicate StoredSince(g: Geometry, trace: seq<Access>, l: nat, b: nat) {
    exists k :: l <= k < |trace| && Block(g, trace[k].addr) == b && trace[k].store
  }

  /** The line just accessed: dirty if this was a store or it was dirty before. */
  lemma TouchedLine(lines: seq<Line>, E: nat, t: nat, store: bool)
    requires 1 <= E
    ensures var lines', p := Touch(lines, E, t, store), IndexOf(Tags(lines), t);
            && lines' != [] && IndexOf(Tags(lines'), t) == 0
            && (lines'[0].dirty <==> store || (p < |lines| && lines[p].dirty))
  {
    IndexOfUnique(Tags(Touch(lines, E, t, store)), t, 0);
  }

  /** Every other line that is resident afterwards was resident before, unchanged. */
  lemma TouchKeepsOthers(lines: seq<Line>, E: nat, t: nat, store: bool, u: nat)
    requires 1 <= E && Distinct(Tags(lines)) && u != t && u in Tags(Touch(lines, E, t, store))
    ensures var lines' := Touch(lines, E, t, store);
            var p, p' := IndexOf(Tags(lines), u), IndexOf(Tags(lines'), u);
            p' < |lines'| && p < |lines| && lines'[p'] == lines[p]
  {
    var lines' := Touch(lines, E, t, store);
    var p', q := IndexOf(Tags(lines'), u), IndexOf(Tags(lines), t);
    assert Tags(lines')[p'] == u && p' > 0;
    var k := if q < |lines| && p' - 1 >= q then p' else p' - 1;
    assert lines'[p'] == lines[k];
    IndexOfDistinct(Tags(lines), u, k);
  }

  lemma IndexOfDistinct(s: seq<nat>, x: nat, p: nat)
    requires Distinct(s) && p < |s| && s[p] == x
    ensures IndexOf(s, x) == p
  {
  }

  lemma {:induction false} TagsDistinct(g: Geometry, trace: seq<Access>, i: nat)
    requires g.E >= 1 && i < g.Sets()
    ensures Distinct(Tags(Run(g, trace).sets[i]))
  {
    var lines := Run(g, trace).sets[i];
    LruIsTopOfRecency(g, trace, i);
    RecencyDistinct(g, trace, i);
    forall p, q | 0 <= p < q < |lines| ensures Tags(lines)[p] != Tags(lines)[q] {
      assert Blocks(g, lines, i)[p] != Blocks(g, lines, i)[q];
    }
  }

  /** A resident block has a last load, and its line is dirty exactly when it was stored
      to at or after that load. */
  lemma {:induction false} DirtyIffStoredSinceLoad(g: Geometry, trace: seq<Access>, b: nat) returns (l: nat)
    requires g.E >= 1 && TagOf(g, b) in Tags(Run(g, trace).sets[SetOf(g, b)])
    ensures LastLoad(g, trace, l, b)
    ensures Dirty(g, Run(g, trace), b) <==> StoredSince(g, trace, l, b)
  {
    var n := |trace| - 1;
    assert trace != [];
    var init, a := trace[..n], trace[n];
    var i, t := SetOf(g, Block(g, a.addr)), TagOf(g, Block(g, a.addr));
    BlockSplit(g, b);
    BlockSplit(g, Block(g, a.addr));
    if i == SetOf(g, b) {
      TagsDistinct(g, init, i);
      if t == TagOf(g, b) {
        TouchedLine(Run(g, init).sets[i], g.E, t, a.store);
      } else {
        TouchKeepsOthers(Run(g, init).sets[i], g.E, t, a.store, TagOf(g, b));
      }
    }
    if Block(g, a.addr) == b && !Hit(g, Run(g, init), a.addr) {
      l := n;
      assert trace[..l] == init;
      if a.store { assert l <= n < |trace| && Block(g, trace[n].addr) == b && trace[n].store; }
    } else {
      l := DirtyIffStoredSinceLoad(g, init, b);
      ExtendHistory(g, trace, l, b);
    }
  }

  lemma ExtendHistory(g: Geometry, trace: seq<Access>, l: nat, b: nat)
    requires g.E >= 1 && trace != [] && LastLoad(g, trace[..|trace| - 1], l, b)
    requires var a := trace[|trace| - 1]; Block(g, a.addr) == b ==> Hit(g, Run(g, trace[..|trace| - 1]), a.addr)
    ensures LastLoad(g, trace, l, b)
    ensures StoredSince(g, trace, l, b) <==>
            StoredSince(g, trace[..|trace| - 1], l, b)
            || (Block(g, trace[|trace| - 1].addr) == b && trace[|trace| - 1].store)
  {
    var n := |trace| - 1;
    var init := trace[..n];
    forall k | 0 <= k < n ensures init[..k] == trace[..k] && init[k] == trace[k] {}
    forall k | l < k < |trace| && Block(g, trace[k].addr) == b ensures Hit(g, Run(g, trace[..k]), trace[k].addr) {
      if k < n {
        assert Block(g, init[k].addr) == b && init[..k] == trace[..k];
      }
    }
    ExtendStores(g, trace, l, b);
  }

  lemma ExtendStores(g: Geometry, trace: seq<Access>, l: nat, b: nat)
    requires l < |trace| - 1
    ensures StoredSince(g, trace, l, b) <==>
            StoredSince(g, trace[..|trace| - 1], l, b)
            || (Block(g, trace[|trace| - 1].addr) == b && trace[|trace| - 1].store)
  {
    var n := |trace| - 1;
    var init := trace[..n];
    if StoredSince(g, init, l, b) {
      var k :| l <= k < |init| && Block(g, init[k].addr) == b && init[k].store;
      assert Block(g, trace[k].addr) == b && trace[k].store;
    }
    if StoredSince(g, trace, l, b) {
      var k :| l <= k < |trace| && Block(g, trace[k].addr) == b && trace[k].store;
      if k < n { assert Block(g, init[k].addr) == b && init[k].store; }
    }
  }
}
