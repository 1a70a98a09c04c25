/** What a histogram says about the samples recorded in it. */
module HistogramSamples {
  import opened Common
  import opened HistogramBuckets

  // ---------- Tallies ----------

  /** How many samples have index i. */
  function Tally(c: Config, samples: seq<nat>, i: int): nat {
    if samples == [] then 0
    else
      var l, s := samples[..|samples| - 1], samples[|samples| - 1];
      Tally(c, l, i) + (if IndexFor(c, s) == i then 1 else 0)
  }

  /** How many samples have an index below i. */
  function Below(c: Config, samples: seq<nat>, i: int): (n: nat)
    ensures n <= |samples|
  {
    if samples == [] then 0
    else
      var l, s := samples[..|samples| - 1], samples[|samples| - 1];
      Below(c, l, i) + (if IndexFor(c, s) < i then 1 else 0)
  }

  ghost predicate Tallied(c: Config, samples: seq<nat>, counts: seq<nat>) {
    forall i :: 0 <= i < |counts| ==> counts[i] == Tally(c, samples, i)
  }

  lemma TallySnoc(c: Config, samples: seq<nat>, s: nat, i: int)
    ensures Tally(c, samples + [s], i) == Tally(c, samples, i) + (if IndexFor(c, s) == i then 1 else 0)
  {
    assert (samples + [s])[..|samples|] == samples;
  }

  /** Counting one more sample. */
  lemma TalliedSnoc(c: Config, samples: seq<nat>, s: nat, counts: seq<nat>)
    requires Tallied(c, samples, counts) && 0 <= IndexFor(c, s) < |counts|
    ensures var i := IndexFor(c, s); Tallied(c, samples + [s], counts[i := counts[i] + 1])
  {
    hide IndexFor, Tally;
    forall j ensures Tally(c, samples + [s], j) == Tally(c, samples, j) + (if IndexFor(c, s) == j then 1 else 0) {
      TallySnoc(c, samples, s, j);
    }
  }

  lemma {:induction false} TallyConcat(c: Config, a: seq<nat>, b: seq<nat>, i: int)
    ensures Tally(c, a + b, i) == Tally(c, a, i) + Tally(c, b, i)
    decreases b
  {
    if b == [] {
      assert a + b == a;
    } else {
      var l, s := b[..|b| - 1], b[|b| - 1];
      assert a + b == (a + l) + [s] && b == l + [s];
      TallySnoc(c, a + l, s, i);
      TallySnoc(c, l, s, i);
      TallyConcat(c, a, l, i);
    }
  }

  lemma {:induction false} BelowNext(c: Config, samples: seq<nat>, i: int)
    ensures Below(c, samples, i + 1) == Below(c, samples, i) + Tally(c, samples, i)
  {
    if samples != [] {
      BelowNext(c, samples[..|samples| - 1], i);
    }
  }

  lemma {:induction false} BelowEnds(c: Config, samples: seq<nat>, n: nat)
    requires forall s :: s in samples ==> 0 <= IndexFor(c, s) < n
    ensures Below(c, samples, 0) == 0 && Below(c, samples, n) == |samples|
  {
    if samples != [] {
      var l, s := samples[..|samples| - 1], samples[|samples| - 1];
      assert s in samples && forall x :: x in l ==> x in samples;
      BelowEnds(c, l, n);
    }
  }

  function Sum(counts: seq<nat>): nat {
    if counts == [] then 0 else Sum(counts[..|counts| - 1]) + counts[|counts| - 1]
  }

  lemma {:induction false} SumIsBelow(c: Config, samples: seq<nat>, counts: seq<nat>)
    requires Tallied(c, samples, counts)
    requires Below(c, samples, 0) == 0
    ensures Sum(counts) == Below(c, samples, |counts|)
  {
    if counts != [] {
      SumIsBelow(c, samples, counts[..|counts| - 1]);
      BelowNext(c, samples, |counts| - 1);
    }
  }

  // ---------- Extremes ----------

  function Least(samples: seq<nat>): int {
    if samples == [] then INT64_MAX
    else
      var l, s := samples[..|samples| - 1], samples[|samples| - 1];
      if s < Least(l) then s else Least(l)
  }

  function Greatest(samples: seq<nat>): nat {
    if samples == [] then 0
    else
      var l, s := samples[..|samples| - 1], samples[|samples| - 1];
      if s > Greatest(l) then s else Greatest(l)
  }

  lemma ExtremesSnoc(samples: seq<nat>, s: nat)
    ensures Least(samples + [s]) == if s < Least(samples) then s else Least(samples)
    ensures Greatest(samples + [s]) == if s > Greatest(samples) then s else Greatest(samples)
  {
    assert (samples + [s])[..|samples|] == samples;
  }

  lemma {:induction false} ExtremesConcat(a: seq<nat>, b: seq<nat>)
    ensures Least(a + b) == if Least(b) < Least(a) then Least(b) else Least(a)
    ensures Greatest(a + b) == if Greatest(b) > Greatest(a) then Greatest(b) else Greatest(a)
    decreases b
  {
    if b == [] {
      assert a + b == a;
      LeastBound(a);
    } else {
      var l, s := b[..|b| - 1], b[|b| - 1];
      assert (a + b)[..|a + b| - 1] == a + l && (a + b)[|a + b| - 1] == s;
      ExtremesConcat(a, l);
    }
  }

  lemma {:induction false} LeastBound(samples: seq<nat>)
    ensures Least(samples) <= INT64_MAX
  {
    if samples != [] {
      LeastBound(samples[..|samples| - 1]);
    }
  }

  /** Least and greatest are samples, and all lie between them. */
  lemma {:induction false} ExtremesBound(samples: seq<nat>)
    requires samples != [] && forall s :: s in samples ==> s <= INT64_MAX
    ensures Least(samples) in samples && Greatest(samples) in samples
    ensures forall s :: s in samples ==> Least(samples) <= s <= Greatest(samples)
    decreases samples
  {
    var l, s := samples[..|samples| - 1], samples[|samples| - 1];
    assert s in samples && samples == l + [s];
    assert forall x :: x in l ==> x in samples;
    if l != [] {
      ExtremesBound(l);
    }
  }

  // ---------- Ranks ----------

  predicate Sorted(s: seq<nat>) {
    forall i, j :: 0 <= i < j < |s| ==> s[i] <= s[j]
  }

  function InsertSorted(s: seq<nat>, x: nat): (r: seq<nat>)
    ensures multiset(r) == multiset(s) + multiset{x} && |r| == |s| + 1
    decreases s
  {
    if s == [] || s[|s| - 1] <= x then s + [x]
    else
      var l, y := s[..|s| - 1], s[|s| - 1];
      assert s == l + [y];
      InsertSorted(l, x) + [y]
  }

  lemma {:induction false} InsertKeepsSorted(s: seq<nat>, x: nat)
    requires Sorted(s)
    ensures Sorted(InsertSorted(s, x))
    decreases s
  {
    if s == [] || s[|s| - 1] <= x {
    } else {
      var l, y := s[..|s| - 1], s[|s| - 1];
      InsertKeepsSorted(l, x);
      var r := InsertSorted(l, x);
      forall i | 0 <= i < |r| ensures r[i] <= y {
        assert r[i] in multiset(r);
        assert r[i] in l || r[i] == x;
      }
    }
  }

  /** The samples in ascending order. */
  function Sort(samples: seq<nat>): (r: seq<nat>)
    ensures multiset(r) == multiset(samples) && |r| == |samples|
  {
    if samples == [] then []
    else
      var l, s := samples[..|samples| - 1], samples[|samples| - 1];
      assert samples == l + [s];
      InsertSorted(Sort(l), s)
  }

  lemma {:induction false} SortSorts(samples: seq<nat>)
    ensures Sorted(Sort(samples))
  {
    if samples != [] {
      var l, s := samples[..|samples| - 1], samples[|samples| - 1];
      SortSorts(l);
      InsertKeepsSorted(Sort(l), s);
    }
  }

  lemma BelowSnoc(c: Config, samples: seq<nat>, s: nat, i: int)
    ensures Below(c, samples + [s], i) == Below(c, samples, i) + (if IndexFor(c, s) < i then 1 else 0)
  {
    assert (samples + [s])[..|samples|] == samples;
  }

  lemma {:induction false} BelowInsert(c: Config, s: seq<nat>, x: nat, i: int)
    ensures Below(c, InsertSorted(s, x), i) == Below(c, s, i) + (if IndexFor(c, x) < i then 1 else 0)
    decreases s
  {
    if s == [] || s[|s| - 1] <= x {
      BelowSnoc(c, s, x, i);
    } else {
      var l, y := s[..|s| - 1], s[|s| - 1];
      BelowInsert(c, l, x, i);
      BelowSnoc(c, InsertSorted(l, x), y, i);
    }
  }

  lemma {:induction false} BelowSort(c: Config, samples: seq<nat>, i: int)
    ensures Below(c, Sort(samples), i) == Below(c, samples, i)
  {
    if samples != [] {
      var l, s := samples[..|samples| - 1], samples[|samples| - 1];
      BelowSort(c, l, i);
      BelowInsert(c, Sort(l), s, i);
    }
  }

  /** In sorted order, the samples with an index below i come first. */
  lemma {:induction false} BelowIsPrefix(c: Config, s: seq<nat>, i: int, k: nat)
    requires Sorted(s) && k < |s|
    ensures IndexFor(c, s[k]) < i <==> k < Below(c, s, i)
    decreases s
  {
    var l, y := s[..|s| - 1], s[|s| - 1];
    assert s == l + [y];
    BelowSnoc(c, l, y, i);
    if IndexFor(c, y) < i {
      AllBelow(c, l, y, i);
      if k < |l| {
        BelowIsPrefix(c, l, i, k);
      }
    } else if k < |l| {
      BelowIsPrefix(c, l, i, k);
    }
  }

  lemma {:induction false} AllBelow(c: Config, s: seq<nat>, y: nat, i: int)
    requires IndexFor(c, y) < i && forall x :: x in s ==> x <= y
    ensures Below(c, s, i) == |s|
  {
    if s != [] {
      var l, x := s[..|s| - 1], s[|s| - 1];
      assert x in s && forall z :: z in l ==> z in s;
      AllBelow(c, l, y, i);
      IndexMonotone(c, x, y);
    }
  }

  /** The scan stops at the index of the k-th smallest sample. */
  lemma RankIndex(c: Config, samples: seq<nat>, k: nat, i: int)
    requires 1 <= k <= |samples| && Below(c, samples, i) < k <= Below(c, samples, i + 1)
    ensures IndexFor(c, Sort(samples)[k - 1]) == i
  {
    hide IndexFor, Below, Sort, Sorted;
    SortSorts(samples);
    BelowSort(c, samples, i);
    BelowSort(c, samples, i + 1);
    BelowIsPrefix(c, Sort(samples), i, k - 1);
    BelowIsPrefix(c, Sort(samples), i + 1, k - 1);
  }
}
