/** The k-best sampler (malloclab/fcyc.c): keeps the k smallest of all measurements, sorted,
    by insertion with swaps. */
module Sampler {

  /** Insertion from the right, past everything greater. */
  function Insert(s: seq<real>, v: real): (r: seq<real>)
    ensures |r| == |s| + 1
  {
    if s == [] || s[|s| - 1] <= v then s + [v] else Insert(s[..|s| - 1], v) + [s[|s| - 1]]
  }

  function SortedOf(samples: seq<real>): (r: seq<real>)
    ensures |r| == |samples|
  {
    if samples == [] then [] else Insert(SortedOf(samples[..|samples| - 1]), samples[|samples| - 1])
  }

  function Top(s: seq<real>, k: nat): seq<real> {
    if |s| <= k then s else s[..k]
  }

  /** The k smallest samples in order; all of them while there are fewer. */
  function Best(samples: seq<real>, k: nat): seq<real> {
    Top(SortedOf(samples), k)
  }

  predicate Sorted(s: seq<real>) {
    forall i, j :: 0 <= i < j < |s| ==> s[i] <= s[j]
  }

  lemma {:induction false} InsertElements(s: seq<real>, v: real)
    ensures multiset(Insert(s, v)) == multiset(s) + multiset{v}
  {
    if s != [] && s[|s| - 1] > v {
      var n := |s| - 1;
      InsertElements(s[..n], v);
      assert s == s[..n] + [s[n]];
    }
  }

  lemma {:induction false} InsertSorted(s: seq<real>, v: real)
    requires Sorted(s)
    ensures Sorted(Insert(s, v))
  {
    if s != [] && s[|s| - 1] > v {
      var n := |s| - 1;
      var r := Insert(s[..n], v);
      InsertSorted(s[..n], v);
      InsertElements(s[..n], v);
      forall i | 0 <= i < |r| ensures r[i] <= s[n] {
        assert r[i] in multiset(r);
        assert r[i] in s[..n] || r[i] == v;
      }
    }
  }

  lemma {:induction false} SortedOfSorts(samples: seq<real>)
    ensures Sorted(SortedOf(samples)) && multiset(SortedOf(samples)) == multiset(samples)
  {
    if samples != [] {
      var n := |samples| - 1;
      SortedOfSorts(samples[..n]);
      InsertSorted(SortedOf(samples[..n]), samples[n]);
      InsertElements(SortedOf(samples[..n]), samples[n]);
      assert samples == samples[..n] + [samples[n]];
    }
  }

  /** What Best means: a sorted sequence of min(k, n) samples, and every other sample is at
      least as large as all of them. */
  lemma BestIsSmallest(samples: seq<real>, k: nat) returns (others: seq<real>)
    ensures var best := Best(samples, k);
            && |best| == (if |samples| <= k then |samples| else k)
            && Sorted(best) && multiset(best) + multiset(others) == multiset(samples)
            && forall x, y :: x in best && y in others ==> x <= y
  {
    var all, best := SortedOf(samples), Best(samples, k);
    SortedOfSorts(samples);
    others := all[|best|..];
    SortedParts(all, |best|);
  }

  /** A sorted sequence cut in two. */
  lemma SortedParts(s: seq<real>, n: nat)
    requires Sorted(s) && n <= |s|
    ensures Sorted(s[..n]) && multiset(s[..n]) + multiset(s[n..]) == multiset(s)
    ensures forall x, y :: x in s[..n] && y in s[n..] ==> x <= y
  {
    assert s == s[..n] + s[n..];
  }

  /** Keeping only the k best so far loses nothing. */
  lemma TopInsert(s: seq<real>, v: real, k: nat)
    requires Sorted(s) && k >= 1
    ensures Top(Insert(s, v), k) ==
            if |s| < k then Insert(s, v)
            else if v < s[k - 1] then Insert(s[..k - 1], v)
            else s[..k]
    decreases |s|
  {
    if |s| > k {
      var n := |s| - 1;
      if s[n] <= v {
        assert (s + [v])[..k] == s[..k];
      } else {
        TopInsert(s[..n], v, k);
        assert Insert(s, v)[..k] == Insert(s[..n], v)[..k];
        assert s[..n][..k] == s[..k] && s[..n][..k - 1] == s[..k - 1];
      }
    } else if |s| == k {
      assert s == s[..k - 1] + [s[k - 1]];
      if v < s[k - 1] {
        assert Insert(s, v)[..k] == Insert(s[..k - 1], v);
      } else {
        assert (s + [v])[..k] == s[..k];
      }
    }
  }

  /** One more sample. */
  lemma BestSnoc(samples: seq<real>, v: real, k: nat)
    requires k >= 1
    ensures |Best(samples, k)| == if |samples| < k then |samples| else k
    ensures Best(samples + [v], k) ==
            var best := Best(samples, k);
            if |samples| < k then Insert(best, v)
            else if v < best[k - 1] then Insert(best[..k - 1], v)
            else best
  {
    var all := SortedOf(samples);
    SortedOfSorts(samples);
    assert (samples + [v])[..|samples|] == samples;
    TopInsert(all, v, k);
    if |samples| >= k { assert all[..k][..k - 1] == all[..k - 1] && all[..k][k - 1] == all[k - 1]; }
    if |samples| == k { assert all[..k] == all; }
  }

  class Samples {
    const kbest: nat
    const values: array<real>
    var samplecount: nat
    ghost var history: seq<real>

    /** `values` holds the best of all samples so far. */
    ghost predicate Valid()
      reads this, values
    {
      && values.Length == kbest >= 1 && samplecount == |history|
      && values[..if samplecount <= kbest then samplecount else kbest] == Best(history, kbest)
    }

    constructor (k: nat)
      requires k >= 1
      ensures Valid() && history == [] && kbest == k && fresh(values)
    {
      kbest := k;
      values := new real[k](_ => 0.0);
      samplecount, history := 0, [];
    }

    method AddSample(val: real)
      requires Valid()
      modifies this, values
      ensures Valid() && history == old(history) + [val]
    {
      BestSnoc(history, val, kbest);
      ghost var best := Best(history, kbest);
      var pos := 0;
      if samplecount < kbest {
        pos := samplecount;
        values[pos] := val;
        samplecount := samplecount + 1;
        Sift(pos, best);
      } else if val < values[kbest - 1] {
        pos := kbest - 1;
        assert values[..kbest][..pos] == values[..pos];
        values[pos] := val;
        samplecount := samplecount + 1;
        Sift(pos, best[..pos]);
      } else {
        samplecount := samplecount + 1;
        // the loop stops at once in position 0
        Sift(pos, []);
        assert values[..kbest] == values[..1] + values[1..];
      }
      history := history + [val];
    }

    /** The insertion sort: moves the value at `start` down past everything greater. */
    method Sift(start: nat, ghost kept: seq<real>)
      requires start < values.Length && values[..start] == kept
      modifies values
      ensures values[..start + 1] == Insert(kept, old(values[start]))
      ensures values[start + 1..] == old(values[start + 1..])
    {
      var pos := start;
      ghost var v := values[start];
      assert kept[..start] == kept && kept[start..] == [];
      while pos > 0 && values[pos - 1] > values[pos]
        invariant 0 <= pos <= start == |kept|
        invariant values[..pos] == kept[..pos] && values[pos] == v && values[pos + 1..start + 1] == kept[pos..]
        invariant values[start + 1..] == old(values[start + 1..])
        invariant Insert(kept, v) == Insert(kept[..pos], v) + kept[pos..]
      {
        assert values[pos - 1] == values[..pos][pos - 1] == kept[pos - 1];
        InsertStep(kept, pos, v);
        var temp := values[pos - 1];
        values[pos - 1] := values[pos];
        values[pos] := temp;
        pos := pos - 1;
        assert values[pos + 1..start + 1] == [kept[pos]] + kept[pos + 1..];
      }
      if pos > 0 {
        assert values[pos - 1] == values[..pos][pos - 1] == kept[pos - 1];
      }
      assert values[..start + 1] == values[..pos] + [values[pos]] + values[pos + 1..start + 1];
    }
  }

  lemma InsertStep(kept: seq<real>, pos: nat, v: real)
    requires 0 < pos <= |kept| && kept[pos - 1] > v
    ensures Insert(kept[..pos], v) + kept[pos..] == Insert(kept[..pos - 1], v) + kept[pos - 1..]
    ensures kept[pos - 1..] == [kept[pos - 1]] + kept[pos..]
  {
    assert kept[..pos][..pos - 1] == kept[..pos - 1];
  }
}
