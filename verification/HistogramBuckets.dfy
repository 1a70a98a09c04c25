/** The logarithmic buckets of the benchmark's latency histogram. */
module HistogramBuckets {
  import opened Bits
  import opened Common

  const INT32_MAX: nat := 0x7fff_ffff

  /** Values are recorded to 2^unit; each power of two is cut into 2^half sub-buckets. */
  datatype Config = Config(highest: nat, unit: nat, half: nat, buckets: nat)

  function FloorLog2(v: nat): nat
    requires v > 0
  {
    BitLen(v) - 1
  }

  function CeilLog2(v: nat): nat
    requires v > 0
  {
    var f := FloorLog2(v);
    if Pow2(f) == v then f else f + 1
  }

  /** How many powers of two it takes to reach the highest value. */
  function BucketsFor(highest: nat, unit: nat, half: nat): (n: nat)
    ensures n >= 1
  {
    if BitLen(highest) <= unit + half + 1 then 1 else BitLen(highest) - unit - half
  }

  function ConfigFor(lowest: nat, highest: nat, sig: nat): Config
    requires lowest > 0
  {
    var unit := FloorLog2(lowest);
    var magnitude := CeilLog2(2 * Pow10(sig));
    var half := (if magnitude > 1 then magnitude else 1) - 1;
    Config(highest, unit, half, BucketsFor(highest, unit, half))
  }

  function CountsLength(c: Config): nat {
    (c.buckets + 1) * Pow2(c.half)
  }

  function Mask(c: Config): nat {
    (Pow2(c.half + 1) - 1) * Pow2(c.unit)
  }

  function BucketOf(c: Config, v: nat): int {
    BitLen(Or(v, Mask(c))) - c.unit - (c.half + 1)
  }

  function IndexFor(c: Config, v: nat): int {
    var bucket := BucketOf(c, v);
    var sub := if bucket + c.unit >= 0 then Shr(v, bucket + c.unit) else 0;
    (bucket + 1) * Pow2(c.half) + (sub - Pow2(c.half))
  }

  function ValueAt(c: Config, index: nat): nat {
    var bucket: int := Shr(index, c.half) - 1;
    var sub := And(index, Pow2(c.half) - 1) + Pow2(c.half);
    if bucket < 0 then (sub - Pow2(c.half)) * Pow2(c.unit) else sub * Pow2(bucket + c.unit)
  }

  /** The number of values that share an index. */
  function Width(c: Config, index: nat): nat {
    var bucket: int := Shr(index, c.half) - 1;
    Pow2(if bucket < 0 then c.unit else bucket + c.unit)
  }

  // ---------- Shifts as divisions ----------

  lemma {:induction false} ShrIsDiv(x: nat, k: nat)
    ensures Shr(x, k) == x / Pow2(k)
  {
    if k > 0 {
      ShrIsDiv(x / 2, k - 1);
      DivDiv(x, 2, Pow2(k - 1));
    }
  }

  lemma MaskLength(c: Config)
    ensures BitLen(Mask(c)) == c.unit + c.half + 1
  {
    hide Pow2, BitLen;
    var top := c.unit + c.half + 1;
    Pow2Add(c.half, c.unit);
    Pow2Double(top - 1);
    Pow2Double(c.half);
    AllOnesBounds(Pow2(c.half), Pow2(c.unit));
    BitLenUnique(Mask(c), top);
  }

  lemma Pow2Double(n: nat)
    ensures Pow2(n + 1) == 2 * Pow2(n)
  {
  }

  lemma AllOnesBounds(h: nat, p: nat)
    requires h > 0 && p > 0
    ensures h * p <= (2 * h - 1) * p < 2 * (h * p)
  {
    assert (2 * h - 1) * p == h * p + (h - 1) * p;
    assert (h - 1) * p + p == h * p;
    assert (h - 1) * p >= 0;
  }

  lemma Distribute(b: nat, h: nat)
    ensures (b + 1) * h == b * h + h && b * h >= 0
  {
  }

  lemma DivBelow(v: nat, n: nat, w: nat)
    requires w > 0 && v < n * w
    ensures v / w < n
  {
    DivFloor(v, w);
    if v / w >= n {
      MulOrder(n, v / w, w);
      assert false;
    }
  }

  lemma DivAtLeast(v: nat, n: nat, w: nat)
    requires w > 0 && v >= n * w
    ensures v / w >= n
  {
    DivFloor(v, w);
    if v / w < n {
      MulDistance(n, v / w, w);
      assert false;
    }
  }

  lemma DivFloor(v: nat, w: nat)
    requires w > 0
    ensures v / w >= 0 && (v / w) * w <= v < (v / w) * w + w
  {
  }

  lemma MulOrder(a: nat, b: nat, w: nat)
    requires a <= b
    ensures a * w <= b * w
  {
    if a < b {
      MulDistance(b, a, w);
    }
  }

  lemma BucketIsLength(c: Config, v: nat)
    ensures var top := c.unit + c.half + 1;
            BucketOf(c, v) == if BitLen(v) <= top then 0 else BitLen(v) - top
  {
    MaskLength(c);
    OrBitLen(v, Mask(c));
  }

  // ---------- The two coordinates of an index ----------

  /** The power of two an index belongs to, when each holds h of them. */
  function Level(h: nat, index: nat): nat
    requires h > 0
  {
    if index < h then 0 else index / h - 1
  }

  /** Its position there. */
  function Sub(h: nat, index: nat): nat
    requires h > 0
  {
    if index < h then index else index % h + h
  }

  lemma LevelOf(h: nat, level: nat, sub: nat)
    requires h > 0 && sub < 2 * h && (level > 0 ==> sub >= h)
    ensures Level(h, level * h + sub) == level && Sub(h, level * h + sub) == sub
  {
    if sub >= h {
      assert level * h + sub == (level + 1) * h + (sub - h);
      assert level * h >= 0;
      DivModUnique(level * h + sub, h, level + 1, sub - h);
    }
  }

  lemma LevelSplits(h: nat, index: nat)
    requires h > 0
    ensures index == Level(h, index) * h + Sub(h, index)
    ensures Sub(h, index) < 2 * h && (Level(h, index) > 0 ==> Sub(h, index) >= h)
  {
    if index >= h {
      var q, r := index / h, index % h;
      assert index == q * h + r;
      assert (q - 1) * h + h == q * h;
    }
  }

  lemma LevelNext(h: nat, index: nat)
    requires h > 0
    ensures var l, s := Level(h, index), Sub(h, index);
            if s + 1 < 2 * h then Level(h, index + 1) == l && Sub(h, index + 1) == s + 1
            else Level(h, index + 1) == l + 1 && Sub(h, index + 1) == h
  {
    LevelSplits(h, index);
    var l, s := Level(h, index), Sub(h, index);
    if s + 1 < 2 * h {
      LevelOf(h, l, s + 1);
    } else {
      assert (l + 1) * h == l * h + h;
      LevelOf(h, l + 1, h);
    }
  }

  lemma Coordinates(c: Config, index: nat)
    ensures var h := Pow2(c.half);
            ValueAt(c, index) == Sub(h, index) * Pow2(Level(h, index) + c.unit)
            && Width(c, index) == Pow2(Level(h, index) + c.unit)
  {
    hide Pow2, And, Shr;
    var h := Pow2(c.half);
    ShrIsDiv(index, c.half);
    AndMask(index, c.half);
    if index < h {
      DivModUnique(index, h, 0, index);
    } else {
      DivAtLeast(index, 1, h);
    }
  }

  /** A value's index is its power of two and its leading digits there. */
  lemma IndexCoordinates(c: Config, v: nat)
    ensures var b, h := BucketOf(c, v), Pow2(c.half);
            b >= 0 && IndexFor(c, v) >= 0 && Level(h, IndexFor(c, v)) == b
            && Sub(h, IndexFor(c, v)) == v / Pow2(b + c.unit)
            && IndexFor(c, v) < b * h + 2 * h
  {
    hide Pow2, Shr, BucketOf, Level, Sub;
    BucketIsLength(c, v);
    var b := BucketOf(c, v);
    var h, sub := Pow2(c.half), v / Pow2(b + c.unit);
    ShrIsDiv(v, b + c.unit);
    LeadingDigits(c, v);
    Distribute(b, h);
    LevelOf(h, b, sub);
  }

  lemma LeadingDigits(c: Config, v: nat)
    requires BucketOf(c, v) >= 0
    ensures var b := BucketOf(c, v); var sub := v / Pow2(b + c.unit);
            0 <= sub < 2 * Pow2(c.half) && (b > 0 ==> sub >= Pow2(c.half))
  {
    hide Pow2, BucketOf;
    var b := BucketOf(c, v);
    var h, w := Pow2(c.half), Pow2(b + c.unit);
    PowerBounds(c, v);
    DivFloor(v, w);
    DivBelow(v, 2 * h, w);
    if b > 0 {
      DivAtLeast(v, h, w);
    }
  }

  lemma PowerBounds(c: Config, v: nat)
    requires BucketOf(c, v) >= 0
    ensures var b := BucketOf(c, v); var h, w := Pow2(c.half), Pow2(b + c.unit);
            v < (2 * h) * w && (b > 0 ==> h * w <= v)
  {
    hide Pow2, BucketOf;
    BucketIsLength(c, v);
    var b := BucketOf(c, v);
    var low := b + c.unit;
    Pow2Add(c.half, low);
    Pow2Double(c.half);
    Pow2Add(c.half + 1, low);
    BitLenBounds(v);
    Pow2Monotone(BitLen(v), c.half + 1 + low);
    if b > 0 {
      assert BitLen(v) - 1 == c.half + low;
    }
  }

  // ---------- Each index holds an interval of values ----------

  lemma InOwnBucket(c: Config, v: nat)
    ensures var i := IndexFor(c, v); i >= 0 && ValueAt(c, i) <= v < ValueAt(c, i) + Width(c, i)
  {
    hide Pow2, IndexFor, ValueAt, Width, BucketOf, Level, Sub;
    IndexCoordinates(c, v);
    Coordinates(c, IndexFor(c, v));
    DivFloor(v, Pow2(BucketOf(c, v) + c.unit));
  }

  /** The buckets leave no gap. */
  lemma BucketsAbut(c: Config, i: nat)
    ensures ValueAt(c, i + 1) == ValueAt(c, i) + Width(c, i)
  {
    hide Pow2, ValueAt, Width, Level, Sub;
    var h := Pow2(c.half);
    Coordinates(c, i);
    Coordinates(c, i + 1);
    LevelNext(h, i);
    LevelSplits(h, i);
    var l, s := Level(h, i), Sub(h, i);
    var w := Pow2(l + c.unit);
    assert (s + 1) * w == s * w + w;
    if s + 1 >= 2 * h {
      Pow2Double(l + c.unit);
      assert l + c.unit + 1 == (l + 1) + c.unit;
      assert h * (2 * w) == (2 * h) * w;
    }
  }

  lemma {:induction false} BucketsApart(c: Config, i: nat, j: nat)
    requires i < j
    ensures ValueAt(c, i) + Width(c, i) <= ValueAt(c, j)
  {
    BucketsAbut(c, j - 1);
    if i < j - 1 {
      BucketsApart(c, i, j - 1);
    }
  }

  /** An index holds exactly the values of one interval, so that the value reported for an index
      has that index. */
  lemma BucketIsInterval(c: Config, v: nat, i: nat)
    ensures IndexFor(c, v) == i <==> ValueAt(c, i) <= v < ValueAt(c, i) + Width(c, i)
    ensures IndexFor(c, ValueAt(c, i)) == i
  {
    hide IndexFor, ValueAt, Width;
    Contained(c, v, i);
    WidthPositive(c, i);
    Contained(c, ValueAt(c, i), i);
  }

  lemma WidthPositive(c: Config, i: nat)
    ensures Width(c, i) > 0
  {
  }

  lemma Contained(c: Config, v: nat, i: nat)
    ensures IndexFor(c, v) == i <==> ValueAt(c, i) <= v < ValueAt(c, i) + Width(c, i)
  {
    hide IndexFor, ValueAt, Width;
    InOwnBucket(c, v);
    var j := IndexFor(c, v);
    if i < j {
      BucketsApart(c, i, j);
    } else if j < i {
      BucketsApart(c, j, i);
    }
  }

  lemma IndexMonotone(c: Config, v: nat, w: nat)
    requires v <= w
    ensures 0 <= IndexFor(c, v) <= IndexFor(c, w)
  {
    hide IndexFor, ValueAt, Width;
    InOwnBucket(c, v);
    InOwnBucket(c, w);
    if IndexFor(c, v) > IndexFor(c, w) {
      BucketsApart(c, IndexFor(c, w), IndexFor(c, v));
    }
  }

  /** No value up to the highest is dropped. */
  lemma IndexInRange(c: Config, v: nat)
    requires v <= c.highest && c.buckets == BucketsFor(c.highest, c.unit, c.half)
    ensures 0 <= IndexFor(c, v) < CountsLength(c)
  {
    hide IndexFor, Pow2, BucketOf, BitLen;
    IndexMonotone(c, v, c.highest);
    IndexCoordinates(c, c.highest);
    BucketIsLength(c, c.highest);
    var b, h := BucketOf(c, c.highest), Pow2(c.half);
    assert (b + 2) * h == b * h + 2 * h;
    MulOrder(b + 2, c.buckets + 1, h);
  }

  // ---------- The error bound ----------

  lemma HalfCoversDigits(lowest: nat, highest: nat, sig: nat)
    requires lowest > 0
    ensures Pow10(sig) <= Pow2(ConfigFor(lowest, highest, sig).half)
    ensures Pow2(ConfigFor(lowest, highest, sig).unit) <= lowest
  {
    var n := 2 * Pow10(sig);
    BitLenBounds(n);
    BitLenBounds(lowest);
  }

  /** A bucket is one unit wide, or no wider than one part in 10^sig of the values it holds. */
  lemma RelativeError(lowest: nat, highest: nat, sig: nat, v: nat)
    requires lowest > 0
    ensures var c := ConfigFor(lowest, highest, sig); var i := IndexFor(c, v);
            i >= 0 && ValueAt(c, i) <= v < ValueAt(c, i) + Width(c, i)
            && (Width(c, i) == Pow2(c.unit) <= lowest || Width(c, i) * Pow10(sig) <= v)
  {
    hide ConfigFor, IndexFor, ValueAt, Width, Level, Sub, Pow2, BucketOf, Pow10;
    var c := ConfigFor(lowest, highest, sig);
    var i, h := IndexFor(c, v), Pow2(c.half);
    InOwnBucket(c, v);
    HalfCoversDigits(lowest, highest, sig);
    IndexCoordinates(c, v);
    Coordinates(c, i);
    if Level(h, i) > 0 {
      LeadingDigits(c, v);
      MulOrder(Pow10(sig), Sub(h, i), Width(c, i));
    }
  }

  /** So a reported value is below the recorded one by less than the lowest value of interest, or
      by less than one part in 10^sig. */
  lemma ReportedIsClose(lowest: nat, highest: nat, sig: nat, v: nat)
    requires lowest > 0
    ensures var c := ConfigFor(lowest, highest, sig); var i := IndexFor(c, v);
            i >= 0 && var d := v - ValueAt(c, i); 0 <= d && (d < lowest || d * Pow10(sig) < v)
  {
    hide ConfigFor, IndexFor, ValueAt, Width, Pow2, Pow10;
    RelativeError(lowest, highest, sig, v);
    var c := ConfigFor(lowest, highest, sig);
    var i := IndexFor(c, v);
    MulDistance(Width(c, i), v - ValueAt(c, i), Pow10(sig));
  }
}
