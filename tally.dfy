/**
  The counting loop of RandomCountGenerator.py's `__main__` block.

  The loop calls weighted_selection once per iteration and adds one to the count
  of whatever it returns, in a defaultdict(int). The random draws are given as the
  sequence `draws`, one per iteration (RandomCountGenerator.py runs 100000 iterations). A count
  map holds exactly the keys that were incremented at least once, as a defaultdict
  does; a missing key reads as 0. The keys are Option values because the Python
  program would count a result of None like any other key.
 */
module Tally {
  import opened Selection

  /** Sum of the values of m over the keys in ks. */
  ghost function SumOver<K>(m: map<K, nat>, ks: set<K>): (sum: nat)
    requires ks <= m.Keys
    decreases ks
  {
    if ks == {} then 0
    else
      var k :| k in ks;
      m[k] + SumOver(m, ks - {k})
  }

  /** Sum of all the counts in m. */
  ghost function SumValues<K>(m: map<K, nat>): (sum: nat)
  {
    SumOver(m, m.Keys)
  }

  /** The sum does not depend on which key is taken out first. */
  lemma {:induction false} SumOverRemove<K>(m: map<K, nat>, ks: set<K>, k: K)
    requires ks <= m.Keys && k in ks
    ensures SumOver(m, ks) == m[k] + SumOver(m, ks - {k})
    decreases ks
  {
    var k' :| k' in ks && SumOver(m, ks) == m[k'] + SumOver(m, ks - {k'});
    if k' != k {
      SumOverRemove(m, ks - {k'}, k);
      SumOverRemove(m, ks - {k}, k');
      assert ks - {k'} - {k} == ks - {k} - {k'};
    }
  }

  /** The sum over ks only looks at the values of the keys in ks. */
  lemma {:induction false} SumOverFrame<K>(m: map<K, nat>, m': map<K, nat>, ks: set<K>)
    requires ks <= m.Keys && ks <= m'.Keys
    requires forall k :: k in ks ==> m[k] == m'[k]
    ensures SumOver(m, ks) == SumOver(m', ks)
    decreases ks
  {
    if ks != {} {
      var k :| k in ks;
      SumOverRemove(m, ks, k);
      SumOverRemove(m', ks, k);
      SumOverFrame(m, m', ks - {k});
    }
  }

  /** The defaultdict increment `counts[key] += 1`. */
  function Increment<K>(counts: map<K, nat>, key: K): (counts': map<K, nat>)
  {
    counts[key := (if key in counts then counts[key] else 0) + 1]
  }

  /** Adding one to a single count adds one to the sum of the counts. */
  lemma IncrementAddsOne<K>(counts: map<K, nat>, key: K)
    ensures SumValues(Increment(counts, key)) == SumValues(counts) + 1
  {
    var m := Increment(counts, key);
    var rest := counts.Keys - {key};
    SumOverRemove(m, m.Keys, key);
    assert m.Keys - {key} == rest;
    SumOverFrame(m, counts, rest);
    if key in counts {
      SumOverRemove(counts, counts.Keys, key);
    } else {
      assert counts.Keys == rest;
    }
  }

  /** The counts a defaultdict(int) holds after `counts[key] += 1` for each key of s in turn. */
  ghost function Histogram<K>(s: seq<K>): (counts: map<K, nat>)
  {
    if s == [] then map[] else Increment(Histogram(s[..|s| - 1]), s[|s| - 1])
  }

  /** Exactly the keys that occur in s are counted, each as often as it occurs. */
  lemma {:induction false} HistogramCounts<K>(s: seq<K>, key: K)
    ensures key in Histogram(s) <==> key in s
    ensures key in Histogram(s) ==> Histogram(s)[key] == multiset(s)[key]
  {
    if s != [] {
      var init := s[..|s| - 1];
      HistogramCounts(init, key);
      assert s == init + [s[|s| - 1]];
    }
  }

  /** The counts add up to the number of keys counted. */
  lemma {:induction false} HistogramTotal<K>(s: seq<K>)
    ensures SumValues(Histogram(s)) == |s|
  {
    if s != [] {
      HistogramTotal(s[..|s| - 1]);
      IncrementAddsOne(Histogram(s[..|s| - 1]), s[|s| - 1]);
    }
  }

  /** What weighted_selection returns for each draw, in draw order. */
  function Selections<L>(probs: seq<(L, nat)>, draws: seq<real>): (s: seq<Option<L>>)
    ensures |s| == |draws|
    ensures forall i :: 0 <= i < |draws| ==> s[i] == Selected(probs, draws[i])
  {
    seq(|draws|, i requires 0 <= i < |draws| => Selected(probs, draws[i]))
  }

  /**
    Every selection is a label of probs or None, and it is never None when probs
    is non-empty and every draw lies in [0, total], as every draw of
    uniform(0, total) does.
   */
  lemma SelectionsAreLabels<L>(probs: seq<(L, nat)>, draws: seq<real>, key: Option<L>)
    requires key in Selections(probs, draws)
    ensures key.None? || HasLabel(probs, key.value)
    ensures probs != [] && (forall d :: d in draws ==> d <= Total(probs) as real) ==> key.Some?
  {
    var j :| 0 <= j < |draws| && Selections(probs, draws)[j] == key;
    if probs != [] && (forall d :: d in draws ==> d <= Total(probs) as real) {
      assert draws[j] in draws;
      NeverFallsThrough(probs, draws[j]);
    }
  }

  /**
    The counting loop: one call to weighted_selection per draw, and one added to
    the count of its result. The counts are the histogram of the selections, so
    every counted key was returned by some draw, its count is the number of draws
    that returned it (HistogramCounts), and the counts add up to the number of
    draws.
   */
  method CountSelections<L(==)>(probs: seq<(L, nat)>, draws: seq<real>)
    returns (counts: map<Option<L>, nat>)
    ensures counts == Histogram(Selections(probs, draws))
    ensures SumValues(counts) == |draws|
  {
    ghost var sel := Selections(probs, draws);
    counts := map[];
    for i := 0 to |draws|
      invariant counts == Histogram(sel[..i])
    {
      var key := WeightedSelection(probs, draws[i]);
      assert sel[..i + 1][..i] == sel[..i];
      counts := Increment(counts, key);
    }
    assert sel[..|draws|] == sel;
    HistogramTotal(sel);
  }

  /**
    Conservation of the tally: after one iteration per draw, with draws as
    uniform(0, total) gives them, the counts add up to the number of draws and
    only labels of probs have a count, each at least 1.
   */
  lemma TallyConservation<L>(probs: seq<(L, nat)>, draws: seq<real>)
    requires probs != [] && forall d :: d in draws ==> d <= Total(probs) as real
    ensures SumValues(Histogram(Selections(probs, draws))) == |draws|
    ensures forall key :: key in Histogram(Selections(probs, draws)) ==>
              key.Some? && HasLabel(probs, key.value) && Histogram(Selections(probs, draws))[key] > 0
  {
    var sel := Selections(probs, draws);
    HistogramTotal(sel);
    forall key | key in Histogram(sel)
      ensures key.Some? && HasLabel(probs, key.value) && Histogram(sel)[key] > 0
    {
      HistogramCounts(sel, key);
      SelectionsAreLabels(probs, draws, key);
    }
  }
}
