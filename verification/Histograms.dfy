/** The benchmark's latency histogram: recording, merging and percentile scans. */
module Histograms {
  import opened Bits
  import opened Common
  import opened HistogramBuckets
  import opened HistogramSamples

  /** No shift or product of the configuration overflows its 32- or 64-bit field. */
  ghost predicate Representable(c: Config) {
    && c.highest <= INT64_MAX
    && Pow2(c.half + 1) <= INT32_MAX
    && Pow2(c.half + 1 + c.unit) <= INT64_MAX
    && CountsLength(c) <= INT32_MAX
  }

  /** Up to five significant digits fit, whatever the highest value. */
  lemma FiveDigitsFit(lowest: nat, highest: nat, sig: nat)
    requires 0 < lowest <= 0x1_0000_0000 && highest <= INT64_MAX && sig <= 5
    ensures Representable(ConfigFor(lowest, highest, sig))
  {
    hide CountsLength, BucketsFor, Pow2, BitLen, CeilLog2, FloorLog2;
    var c := ConfigFor(lowest, highest, sig);
    FewDigits(sig);
    SmallUnit(lowest);
    Powers();
    Pow2Monotone(c.half + 1, 18);
    Pow2Monotone(c.half + 1 + c.unit, 18 + 32);
    BucketsBound(highest, c.unit, c.half);
    CountsBound(c);
  }

  lemma Powers()
    ensures Pow2(16) == 0x1_0000 && Pow2(17) == 0x2_0000 && Pow2(18) == 0x4_0000
    ensures Pow2(32) == 0x1_0000_0000 && Pow2(50) == 0x4_0000_0000_0000 && Pow2(64) == TWO_64
  {
    hide Pow2;
    Pow2Of4();
    Pow2Add(4, 4);
    Pow2Add(8, 8);
    Pow2Double(16);
    Pow2Double(17);
    Pow2Add(16, 16);
    Pow2Add(18, 32);
    Pow2Add(32, 32);
  }

  lemma Pow2Of4()
    ensures Pow2(4) == 16
  {
  }

  lemma FewDigits(sig: nat)
    requires sig <= 5
    ensures CeilLog2(2 * Pow10(sig)) <= 18
  {
    hide BitLen, Pow2;
    Powers();
    Pow10Bound(sig);
    BitLenRange(2 * Pow10(sig), 18);
  }

  lemma Pow10Bound(sig: nat)
    requires sig <= 5
    ensures Pow10(sig) <= 100000
  {
    assert Pow10(3) == 1000;
  }

  lemma SmallUnit(lowest: nat)
    requires 0 < lowest <= 0x1_0000_0000
    ensures FloorLog2(lowest) <= 32
  {
    hide Pow2;
    Powers();
    Pow2Double(32);
    BitLenRange(lowest, 33);
  }

  lemma BucketsBound(highest: nat, unit: nat, half: nat)
    requires highest <= INT64_MAX
    ensures BucketsFor(highest, unit, half) <= 64
  {
    hide Pow2, BitLen;
    Powers();
    BitLenRange(highest, 64);
  }

  lemma CountsBound(c: Config)
    requires c.buckets <= 64 && c.half <= 17
    ensures CountsLength(c) <= INT32_MAX
  {
    hide Pow2;
    Powers();
    Pow2Monotone(c.half, 17);
    MulOrder(c.buckets + 1, 65, Pow2(c.half));
  }

  method IPow10(e: nat) returns (r: nat)
    ensures r == Pow10(e)
  {
    r := 1;
    var i := 0;
    while i < e
      invariant i <= e && r == Pow10(i)
    {
      r := r * 10;
      i := i + 1;
    }
  }

  /** Doubles the reach until it exceeds the highest value, never past the 64-bit range. */
  method BucketsNeeded(highest: nat, unit: nat, half: nat) returns (needed: nat)
    requires highest <= INT64_MAX && Pow2(half + 1 + unit) <= INT64_MAX
    ensures needed == BucketsFor(highest, unit, half)
  {
    hide Pow2, BitLen;
    Pow2Add(half + 1, unit);
    var reach := Pow2(half + 1) * Pow2(unit);
    needed := 1;
    while reach <= highest
      invariant needed >= 1 && reach == Pow2(unit + half + needed) <= INT64_MAX
      invariant needed > 1 ==> Pow2(unit + half + needed - 1) <= highest
      decreases highest + 1 - reach
    {
      Pow2Double(unit + half + needed);
      if reach > INT64_MAX / 2 {
        BitLenRange(highest, unit + half + needed + 1);
        return needed + 1;
      }
      reach := 2 * reach;
      needed := needed + 1;
    }
    BitLenRange(highest, unit + half + needed);
  }

  class Histogram {
    const config: Config
    var counts: array?<nat>
    var total: nat
    var minValue: int
    var maxValue: nat
    /** Every value recorded, clamped, in order. */
    ghost var samples: seq<nat>

    ghost predicate Valid()
      reads this, counts
    {
      && config.buckets == BucketsFor(config.highest, config.unit, config.half) && Representable(config)
      && counts != null && counts.Length == CountsLength(config)
      && (forall s :: s in samples ==> s <= config.highest)
      && Tallied(config, samples, counts[..])
      && total == |samples| && minValue == Least(samples) && maxValue == Greatest(samples)
    }

    /** The counts array can fail to be allocated. */
    constructor (lowest: nat, highest: nat, sig: nat, allocOk: bool)
      requires lowest > 0 && Representable(ConfigFor(lowest, highest, sig))
      ensures config == ConfigFor(lowest, highest, sig) && samples == []
      ensures if allocOk then Valid() && fresh(counts) else counts == null
    {
      hide Representable, Pow2, BitLen;
      var unit := FloorLog2(lowest);
      var power := IPow10(sig);
      var magnitude := CeilLog2(2 * power);
      var half := (if magnitude > 1 then magnitude else 1) - 1;
      Fits(ConfigFor(lowest, highest, sig));
      var buckets := BucketsNeeded(highest, unit, half);
      config := Config(highest, unit, half, buckets);
      counts := null;
      if allocOk {
        counts := new nat[(buckets + 1) * Pow2(half)](_ => 0);
      }
      total, minValue, maxValue := 0, INT64_MAX, 0;
      samples := [];
    }

    static lemma Fits(c: Config)
      requires Representable(c)
      ensures c.highest <= INT64_MAX && Pow2(c.half + 1 + c.unit) <= INT64_MAX
    {
    }

    /** Records one value, or the end of the range nearest to it; its index is always in range. */
    method Record(value: int)
      requires Valid()
      modifies this, counts
      ensures Valid() && counts == old(counts)
      ensures |samples| == |old(samples)| + 1 && old(samples) <= samples
      ensures 0 <= value <= config.highest ==> samples[|old(samples)|] == value
      ensures value < 0 ==> samples[|old(samples)|] == 0
      ensures value > config.highest ==> samples[|old(samples)|] == config.highest
    {
      hide IndexFor, BucketsFor, Representable, CountsLength, Tallied, Least, Greatest;
      var v: nat := if value < 0 then 0 else if value > config.highest then config.highest else value;
      IndexInRange(config, v);
      TalliedSnoc(config, samples, v, counts[..]);
      ExtremesSnoc(samples, v);
      var i := IndexFor(config, v);
      counts[i] := counts[i] + 1;
      total := total + 1;
      if v < minValue {
        minValue := v;
      }
      if v > maxValue {
        maxValue := v;
      }
      assert counts[..] == old(counts[..])[i := old(counts[i]) + 1];
      samples := samples + [v];
    }

    /** Records a run of values that are in range. */
    method RecordAll(values: seq<nat>)
      requires Valid() && forall v :: v in values ==> v <= config.highest
      modifies this, counts
      ensures Valid() && counts == old(counts) && samples == old(samples) + values
    {
      hide Histogram.Valid;
      for i := 0 to |values|
        invariant Valid() && counts == old(counts) && samples == old(samples) + values[..i]
      {
        ghost var before := samples;
        assert values[i] in values;
        Record(values[i]);
        assert samples == before + [values[i]];
        assert values[..i + 1] == values[..i] + [values[i]];
      }
      assert values[..|values|] == values;
    }

    lemma BelowAll()
      requires Valid()
      ensures Below(config, samples, 0) == 0 && Below(config, samples, CountsLength(config)) == |samples|
    {
      hide IndexFor, BucketsFor, Representable, CountsLength;
      forall s | s in samples ensures 0 <= IndexFor(config, s) < CountsLength(config) {
        IndexInRange(config, s);
      }
      BelowEnds(config, samples, CountsLength(config));
    }

    /** The total is the sum of the counts: no sample is lost. */
    lemma TotalIsSum()
      requires Valid()
      ensures Sum(counts[..]) == total == |samples|
    {
      hide IndexFor, BucketsFor, Representable, CountsLength;
      BelowAll();
      SumIsBelow(config, samples, counts[..]);
    }

    /** The value reported for a rank is the lower end of the bucket that holds the sample of that
        rank in ascending order. */
    method ValueAtRank(rank: int) returns (r: nat)
      requires Valid()
      ensures samples == [] ==> r == 0
      ensures var k := if rank < 1 then 1 else rank;
              if k <= |samples| then
                var x := Sort(samples)[k - 1];
                IndexFor(config, x) >= 0
                && r == ValueAt(config, IndexFor(config, x)) && r <= x < r + Width(config, IndexFor(config, x))
              else samples != [] ==> r == Greatest(samples)
    {
      hide IndexFor, ValueAt, Width, BucketsFor, Representable, CountsLength, Below, Sort;
      if total == 0 {
        return 0;
      }
      var k := if rank < 1 then 1 else rank;
      var seen := 0;
      BelowAll();
      for i := 0 to counts.Length
        invariant seen == Below(config, samples, i) && seen < k
      {
        BelowNext(config, samples, i);
        assert counts[..][i] == counts[i];
        seen := seen + counts[i];
        if seen >= k {
          RankIndex(config, samples, k, i);
          InOwnBucket(config, Sort(samples)[k - 1]);
          return ValueAt(config, i);
        }
      }
      return maxValue;
    }

    /** The value at a percentage of the samples, over exact arithmetic: the rank is that share of
        the total, rounded to the nearest, and always the rank of a sample. */
    method ValueAtPercentile(percentile: real) returns (r: nat)
      requires Valid()
      ensures samples == [] ==> r == 0
      ensures samples != [] ==>
                var share := Share(percentile, |samples|);
                var k := if share < 0.5 then 1 else (share + 0.5).Floor;
                1 <= k <= |samples| && (share >= 0.5 ==> -0.5 <= share - k as real <= 0.5) &&
                var x := Sort(samples)[k - 1];
                IndexFor(config, x) >= 0
                && r == ValueAt(config, IndexFor(config, x)) && r <= x < r + Width(config, IndexFor(config, x))
    {
      hide IndexFor, ValueAt, Width, BucketsFor, Representable, CountsLength, Sort, Tallied, Least, Greatest, Share;
      if total == 0 {
        return 0;
      }
      var share := Share(percentile, total);
      ShareAtMost(percentile, total);
      NearestRank(share, total);
      r := ValueAtRank((share + 0.5).Floor);
    }

    /** A percentage of the total, at most all of it. */
    static function Share(percentile: real, total: nat): real {
      (if percentile > 100.0 then 100.0 else percentile) / 100.0 * (total as real)
    }

    /** In proportion to the percentage up to all of the total, and never more. */
    static lemma ShareAtMost(percentile: real, total: nat)
      ensures Share(percentile, total) <= total as real
      ensures percentile <= 100.0 ==> 100.0 * Share(percentile, total) == percentile * (total as real)
      ensures percentile >= 100.0 ==> Share(percentile, total) == total as real
    {
      var p := if percentile > 100.0 then 100.0 else percentile;
      assert p / 100.0 <= 1.0;
      MulAtMost(p / 100.0, total as real);
    }

    static lemma NearestRank(share: real, total: nat)
      requires 0 < total && share <= total as real
      ensures var k := if share < 0.5 then 1 else (share + 0.5).Floor;
              && 1 <= k <= total && (share >= 0.5 ==> -0.5 <= share - k as real <= 0.5)
              && k == if (share + 0.5).Floor < 1 then 1 else (share + 0.5).Floor
    {
    }

    static lemma MulAtMost(x: real, n: real)
      requires x <= 1.0 && n >= 0.0
      ensures x * n <= n
    {
    }

    /** Merging adds the counts that both have. For equally configured histograms the result is the
        histogram of all their samples. */
    method Add(src: Histogram)
      requires Valid() && (src.Valid() || (src.counts == null && src.samples == []))
      requires src == this || src.counts != counts
      modifies this, counts
      ensures counts == old(counts) && counts.Length == old(counts.Length)
      ensures src.counts == null ==> Valid() && samples == old(samples)
      ensures src.counts != null ==>
                && total == old(total) + old(src.total)
                && minValue == (if old(src.minValue) < old(minValue) then old(src.minValue) else old(minValue))
                && maxValue == (if old(src.maxValue) > old(maxValue) then old(src.maxValue) else old(maxValue))
                && (forall j :: 0 <= j < counts.Length ==>
                      counts[j] == old(counts[j]) + (if j < src.counts.Length then old(src.counts[j]) else 0))
      ensures src.config == config ==> Valid() && samples == old(samples) + old(src.samples)
      ensures src != this && src.counts != null ==> src.Valid() && src.samples == old(src.samples)
    {
      hide IndexFor, BucketsFor, Representable, CountsLength, Tally, HistogramSamples.Least, Greatest;
      if src.counts == null {
        assert samples + src.samples == samples;
        return;
      }
      ghost var mine, theirs := samples, src.samples;
      AddCounts(src);
      ExtremesConcat(mine, theirs);
      if src.config == config {
        forall j | 0 <= j < counts.Length ensures counts[..][j] == Tally(config, mine + theirs, j) {
          TallyConcat(config, mine, theirs, j);
          assert old(counts[..])[j] == old(counts[j]) && old(src.counts[..])[j] == old(src.counts[j]);
        }
      }
      samples := mine + theirs;
      var srcTotal, srcMin, srcMax := src.total, src.minValue, src.maxValue;
      total := total + srcTotal;
      if srcTotal > 0 {
        if srcMin < minValue {
          minValue := srcMin;
        }
        if srcMax > maxValue {
          maxValue := srcMax;
        }
      } else {
        assert theirs == [] && mine + theirs == mine;
        NoExtremes(mine);
      }
    }

    static lemma NoExtremes(mine: seq<nat>)
      ensures HistogramSamples.Least([]) >= HistogramSamples.Least(mine) && Greatest([]) <= Greatest(mine)
    {
      LeastBound(mine);
    }

    method AddCounts(src: Histogram)
      requires counts != null && src.counts != null && (src == this || src.counts != counts)
      modifies counts
      ensures forall j :: 0 <= j < counts.Length ==>
                counts[j] == old(counts[j]) + (if j < src.counts.Length then old(src.counts[j]) else 0)
    {
      var n := Min(counts.Length, src.counts.Length);
      for i := 0 to n
        invariant forall j :: 0 <= j < i ==> counts[j] == old(counts[j]) + old(src.counts[j])
        invariant forall j :: i <= j < counts.Length ==> counts[j] == old(counts[j])
        invariant src != this ==> forall j :: 0 <= j < src.counts.Length ==> src.counts[j] == old(src.counts[j])
      {
        counts[i] := counts[i] + src.counts[i];
      }
    }
  }

  /** Up to five significant digits, the value reported for a rank is below the value of that rank
      among those recorded, by less than the lowest value or by less than one part in 10^sig. */
  method ReportRank(lowest: nat, highest: nat, sig: nat, values: seq<nat>, rank: nat) returns (r: nat)
    requires 0 < lowest <= 0x1_0000_0000 && highest <= INT64_MAX && sig <= 5
    requires 1 <= rank <= |values| && forall v :: v in values ==> v <= highest
    ensures Sorted(Sort(values)) && multiset(Sort(values)) == multiset(values)
    ensures var x := Sort(values)[rank - 1]; r <= x && (x - r < lowest || (x - r) * Pow10(sig) < x)
  {
    hide Histogram.Valid, ConfigFor, Representable, IndexFor, ValueAt, Width, Sort, Sorted, Pow10;
    FiveDigitsFit(lowest, highest, sig);
    SortSorts(values);
    var h := new Histogram(lowest, highest, sig, true);
    HighestOf(lowest, highest, sig);
    h.RecordAll(values);
    assert [] + values == values;
    r := h.ValueAtRank(rank);
    ReportedIsClose(lowest, highest, sig, Sort(values)[rank - 1]);
  }

  lemma HighestOf(lowest: nat, highest: nat, sig: nat)
    requires lowest > 0
    ensures ConfigFor(lowest, highest, sig).highest == highest
  {
  }
}
