/**
  The weighted selection of RandomCountGenerator.py.

  A weight table is an ordered sequence of (label, weight) pairs; the order is
  the order in which the scan visits the entries. The random draw `r` is a
  parameter: the Python program draws it from uniform(0, total), so every draw
  it makes lies in [0, Total(t)], both ends included.

  The scan adds the weights one by one to a running `start` and returns the first
  label whose cumulative weight `start + w` reaches `r`. Entry i is therefore
  returned exactly for the draws in the interval (Cumulative(t, i-1), Cumulative(t, i)],
  whose width is the weight of entry i (SelectionInterval).
 */
module Selection {

  datatype Option<+T> = None | Some(value: T)

  /** Sum of all the weights of t: `sum(values_with_weights.values())`. */
  function Total<L>(t: seq<(L, nat)>): (n: nat)
  {
    if t == [] then 0 else Total(t[..|t| - 1]) + t[|t| - 1].1
  }

  /** Cumulative weight up to and including entry i. */
  function Cumulative<L>(t: seq<(L, nat)>, i: nat): (n: nat)
    requires i < |t|
  {
    Total(t[..i + 1])
  }

  /** Entry i's cumulative weight reaches the draw r. */
  predicate Reaches<L>(t: seq<(L, nat)>, i: nat, r: real)
    requires i < |t|
  {
    Cumulative(t, i) as real >= r
  }

  /** Label k occurs in the table. */
  ghost predicate HasLabel<L>(t: seq<(L, nat)>, k: L)
  {
    exists i :: 0 <= i < |t| && t[i].0 == k
  }

  /** The least index at or after i whose cumulative weight reaches r, if any. */
  function FirstReachingFrom<L>(t: seq<(L, nat)>, r: real, i: nat): (res: Option<nat>)
    requires i <= |t|
    ensures res.Some? ==> i <= res.value < |t| && Reaches(t, res.value, r)
    ensures res.Some? ==> forall j :: i <= j < res.value ==> !Reaches(t, j, r)
    ensures res.None? ==> forall j :: i <= j < |t| ==> !Reaches(t, j, r)
    decreases |t| - i
  {
    if i == |t| then None
    else if Reaches(t, i, r) then Some(i)
    else FirstReachingFrom(t, r, i + 1)
  }

  /**
    Position of the entry selected for draw r: the least index whose cumulative
    weight reaches r, or None when no entry reaches it.
   */
  function SelectedIndex<L>(t: seq<(L, nat)>, r: real): (res: Option<nat>)
    ensures res.Some? ==> res.value < |t| && Reaches(t, res.value, r)
    ensures res.Some? ==> forall j :: 0 <= j < res.value ==> !Reaches(t, j, r)
    ensures res.None? <==> forall j :: 0 <= j < |t| ==> !Reaches(t, j, r)
  {
    FirstReachingFrom(t, r, 0)
  }

  /** The label selected for draw r (None when the scan falls through). */
  function Selected<L>(t: seq<(L, nat)>, r: real): (k: Option<L>)
    ensures k.Some? ==> HasLabel(t, k.value)
  {
    match SelectedIndex(t, r)
    case None => None
    case Some(i) => Some(t[i].0)
  }

  /** An entry that reaches r with no earlier entry reaching it is the one selected. */
  lemma SelectedIndexIsLeast<L>(t: seq<(L, nat)>, r: real, i: nat)
    requires i < |t| && Reaches(t, i, r)
    requires forall j :: 0 <= j < i ==> !Reaches(t, j, r)
    ensures SelectedIndex(t, r) == Some(i)
  {
  }

  /** Adding entry i to the running sum of the first i weights gives its cumulative weight. */
  lemma CumulativeStep<L>(t: seq<(L, nat)>, i: nat)
    requires i < |t|
    ensures Cumulative(t, i) == Total(t[..i]) + t[i].1
  {
    assert t[..i + 1][..i] == t[..i];
  }

  /** Cumulative weights never decrease along the table. */
  lemma {:induction false} CumulativeMonotone<L>(t: seq<(L, nat)>, i: nat, j: nat)
    requires i <= j < |t|
    ensures Cumulative(t, i) <= Cumulative(t, j)
    decreases j - i
  {
    if i < j {
      CumulativeMonotone(t, i, j - 1);
      CumulativeStep(t, j);
      CumulativeStep(t, j - 1);
    }
  }

  /** The cumulative weight of the last entry is the table's total. */
  lemma CumulativeLast<L>(t: seq<(L, nat)>)
    requires t != []
    ensures Cumulative(t, |t| - 1) == Total(t)
  {
    assert t[..|t|] == t;
  }

  /** No cumulative weight exceeds the total. */
  lemma CumulativeAtMostTotal<L>(t: seq<(L, nat)>, i: nat)
    requires i < |t|
    ensures Cumulative(t, i) <= Total(t)
  {
    CumulativeMonotone(t, i, |t| - 1);
    CumulativeLast(t);
  }

  /**
    The scan of weighted_selection, with the random draw given as r. The loop
    keeps `start` equal to the sum of the weights already passed, and every
    entry it moves past falls short of r.
   */
  method WeightedSelection<L>(t: seq<(L, nat)>, r: real) returns (k: Option<L>)
    ensures k == Selected(t, r)
  {
    var start: nat := 0;
    for i := 0 to |t|
      invariant start == Total(t[..i])
      invariant forall j :: 0 <= j < i ==> !Reaches(t, j, r)
    {
      var (key, w) := t[i];
      CumulativeStep(t, i);
      if (start + w) as real >= r {
        SelectedIndexIsLeast(t, r, i);
        return Some(key);
      }
      start := start + w;
    }
    assert t[..|t|] == t;
    return None;
  }

  /**
    For a non-empty table and a draw no larger than the total (in particular every
    draw of uniform(0, total)), the scan never falls through: a label of the table
    is returned.
   */
  lemma NeverFallsThrough<L>(t: seq<(L, nat)>, r: real)
    requires t != [] && r <= Total(t) as real
    ensures Selected(t, r).Some? && HasLabel(t, Selected(t, r).value)
  {
    CumulativeLast(t);
    assert Reaches(t, |t| - 1, r);
  }

  /** The scan falls through exactly when the table is empty or the draw exceeds the total. */
  lemma FallsThroughIff<L>(t: seq<(L, nat)>, r: real)
    ensures Selected(t, r).None? <==> t == [] || Total(t) as real < r
  {
    if t != [] {
      if Total(t) as real < r {
        forall j | 0 <= j < |t| ensures !Reaches(t, j, r) {
          CumulativeAtMostTotal(t, j);
        }
      } else {
        NeverFallsThrough(t, r);
      }
    }
  }

  /**
    A draw of 0 (or below) selects the first entry, whatever its weight. In
    particular a non-empty table whose weights are all zero, where uniform(0, 0)
    can only give 0, returns its first label.
   */
  lemma ZeroDrawSelectsFirst<L>(t: seq<(L, nat)>, r: real)
    requires t != [] && r <= 0.0
    ensures SelectedIndex(t, r) == Some(0) && Selected(t, r) == Some(t[0].0)
  {
    assert Reaches(t, 0, r);
  }

  /** A larger draw never selects an earlier entry. */
  lemma SelectionMonotone<L>(t: seq<(L, nat)>, r1: real, r2: real)
    requires r1 <= r2 && SelectedIndex(t, r2).Some?
    ensures SelectedIndex(t, r1).Some?
    ensures SelectedIndex(t, r1).value <= SelectedIndex(t, r2).value
  {
    var i2 := SelectedIndex(t, r2).value;
    assert Reaches(t, i2, r1);
  }

  /**
    Entry i is selected exactly for the draws above the cumulative weight of the
    entries before it and at most its own cumulative weight.
   */
  lemma SelectionInterval<L>(t: seq<(L, nat)>, r: real, i: nat)
    requires i < |t|
    ensures SelectedIndex(t, r) == Some(i)
        <==> (i == 0 || r > Cumulative(t, i - 1) as real) && r <= Cumulative(t, i) as real
  {
    if SelectedIndex(t, r) == Some(i) && i > 0 {
      assert !Reaches(t, i - 1, r);
    }
    if (i == 0 || r > Cumulative(t, i - 1) as real) && r <= Cumulative(t, i) as real {
      forall j | 0 <= j < i ensures !Reaches(t, j, r) {
        CumulativeMonotone(t, j, i - 1);
      }
      SelectedIndexIsLeast(t, r, i);
    }
  }

  /** A positive draw never selects an entry of weight zero. */
  lemma PositiveDrawSkipsZeroWeight<L>(t: seq<(L, nat)>, r: real)
    requires r > 0.0 && SelectedIndex(t, r).Some?
    ensures t[SelectedIndex(t, r).value].1 > 0
  {
    var i := SelectedIndex(t, r).value;
    CumulativeStep(t, i);
    if i > 0 {
      assert !Reaches(t, i - 1, r);
    }
  }

  /** The table of the `__main__` block of RandomCountGenerator.py, in the order 1, 2, 3, 4, 5. */
  const ExampleWeights: seq<(int, nat)> := [(1, 50), (2, 25), (3, 15), (4, 5), (5, 5)]

  /**
    For the example table every draw in [0, 100] selects a label, and each label
    owns a slice of [0, 100] as long as its weight: 1 gets [0, 50], 2 gets (50, 75],
    3 gets (75, 90], 4 gets (90, 95] and 5 gets (95, 100].
   */
  lemma ExampleSlices(r: real)
    requires 0.0 <= r <= 100.0
    ensures Total(ExampleWeights) == 100
    ensures Selected(ExampleWeights, r) == Some(1) <==> r <= 50.0
    ensures Selected(ExampleWeights, r) == Some(2) <==> 50.0 < r <= 75.0
    ensures Selected(ExampleWeights, r) == Some(3) <==> 75.0 < r <= 90.0
    ensures Selected(ExampleWeights, r) == Some(4) <==> 90.0 < r <= 95.0
    ensures Selected(ExampleWeights, r) == Some(5) <==> 95.0 < r
  {
    var t := ExampleWeights;
    assert t[..1] == [(1, 50)];
    assert Cumulative(t, 0) == 50;
    CumulativeStep(t, 1);
    CumulativeStep(t, 2);
    CumulativeStep(t, 3);
    CumulativeStep(t, 4);
    CumulativeLast(t);
    SelectionInterval(t, r, 0);
    SelectionInterval(t, r, 1);
    SelectionInterval(t, r, 2);
    SelectionInterval(t, r, 3);
    SelectionInterval(t, r, 4);
    NeverFallsThrough(t, r);
  }
}
