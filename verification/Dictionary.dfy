/** The incrementally resized hash table as a value: two arrays of chains and a migration cursor.
    Every operation of the heap table (module HashTables) is specified by a function here. */
module Dictionary {
  import opened Common
  import opened Bits

  type Key = Bytes

  datatype Encoding = IntText | Raw

  datatype Value = Value(bytes: Bytes, encoding: Encoding)

  datatype Entry = Entry(key: Key, value: Value)

  type Chain = seq<Entry>

  type Table = seq<Chain>

  /** Outcomes of the allocations one set may ask for: the value, the node, the larger bucket array. */
  datatype Alloc = Alloc(value: bool, node: bool, buckets: bool)

  /** `rehash` is -1 when no resize is in flight, else the next bucket of t0 to migrate into t1. */
  datatype Dict = Dict(t0: Table, t1: Table, used0: nat, used1: nat, rehash: int) {
    predicate Rehashing() {
      rehash != -1
    }

    function Live(): nat {
      used0 + used1
    }

    /** The table that receives new keys. */
    function Newest(): Table {
      if Rehashing() then t1 else t0
    }
  }

  // ---------- Hashing ----------

  /** DJB2 over the first n bytes of a key, in 64-bit arithmetic. */
  function Djb2(key: Key, n: nat): (h: nat)
    requires n <= |key|
    ensures h < TWO_64
  {
    if n == 0 then 5381 else (33 * Djb2(key, n - 1) + key[n - 1]) % TWO_64
  }

  function Pow33(n: nat): nat {
    if n == 0 then 1 else 33 * Pow33(n - 1)
  }

  /** The bytes of a key as digits in base 33, the first one weighing most. */
  function Weighed(key: Key): nat {
    if key == [] then 0 else key[0] as nat * Pow33(|key| - 1) + Weighed(key[1..])
  }

  lemma {:induction false} WeighedSnoc(key: Key, b: byte)
    ensures Weighed(key + [b]) == 33 * Weighed(key) + b as nat
  {
    if key == [] {
      assert [] + [b] == [b] && [b][1..] == [];
      assert Pow33(0) == 1;
    } else {
      WeighedSnoc(key[1..], b);
      assert (key + [b])[1..] == key[1..] + [b];
      var w := key[0] as nat;
      assert w * Pow33(|key|) == 33 * (w * Pow33(|key| - 1));
    }
  }

  lemma WrapInner(a: nat, b: nat)
    ensures (33 * (a % TWO_64) + b) % TWO_64 == (33 * a + b) % TWO_64
  {
    var q, r := a / TWO_64, a % TWO_64;
    assert 33 * a + b == (33 * r + b) + (33 * q) * TWO_64;
    ModAdd(33 * r + b, 33 * q);
  }

  lemma {:induction false} ModAdd(x: nat, n: nat)
    ensures (x + n * TWO_64) % TWO_64 == x % TWO_64
  {
    if n > 0 {
      ModAdd(x, n - 1);
      assert x + n * TWO_64 == (x + (n - 1) * TWO_64) + TWO_64;
    }
  }

  /** The hash of a key is 5381 followed by its bytes, in base 33, modulo 2^64. */
  lemma {:induction false} HashIsPolynomial(key: Key)
    ensures Djb2(key, |key|) == (5381 * Pow33(|key|) + Weighed(key)) % TWO_64
    decreases key
  {
    if key != [] {
      var l, b := key[..|key| - 1], key[|key| - 1];
      assert key == l + [b];
      HashIsPolynomial(l);
      SamePrefix(l, key, |l|);
      WeighedSnoc(l, b);
      WrapInner(5381 * Pow33(|l|) + Weighed(l), b as nat);
    }
  }

  lemma {:induction false} SamePrefix(a: Key, b: Key, n: nat)
    requires n <= |a| <= |b| && a <= b
    ensures Djb2(a, n) == Djb2(b, n)
  {
    if n > 0 {
      SamePrefix(a, b, n - 1);
    }
  }

  function Fold(hash: nat, size: nat): (i: nat)
    requires size > 0
    ensures i < size
  {
    And(hash, size - 1)
  }

  function Slot(key: Key, size: nat): (i: nat)
    requires size > 0
    ensures i < size
  {
    Fold(Djb2(key, |key|), size)
  }

  /** Folding into a power-of-two table is the remainder, as the public hash function computes it. */
  lemma FoldIsModulo(hash: nat, size: nat)
    requires IsPow2(size) && size > 0
    ensures Fold(hash, size) == hash % size
  {
    var n: nat :| size == Pow2(n);
    AndMask(hash, n);
  }

  // ---------- Chains ----------

  /** Position of the first entry holding k, or |c|. */
  function IndexOf(c: Chain, k: Key): (j: nat)
    ensures j <= |c|
    ensures j < |c| ==> c[j].key == k
    ensures forall i :: 0 <= i < j ==> c[i].key != k
  {
    if c == [] then 0 else if c[0].key == k then 0 else 1 + IndexOf(c[1..], k)
  }

  predicate Has(c: Chain, k: Key) {
    IndexOf(c, k) < |c|
  }

  function ChainLookup(c: Chain, k: Key): Option<Value> {
    var j := IndexOf(c, k);
    if j < |c| then Some(c[j].value) else None
  }

  function Without(c: Chain, j: nat): Chain
    requires j < |c|
  {
    c[..j] + c[j + 1..]
  }

  ghost predicate Distinct(c: Chain) {
    forall i, j :: 0 <= i < j < |c| ==> c[i].key != c[j].key
  }

  // ---------- Tables ----------

  /** A chain of bucket i of a table of the given size: distinct keys that all hash there. */
  ghost predicate ChainOk(c: Chain, i: nat, size: nat) {
    && Distinct(c)
    && size > 0
    && forall j :: 0 <= j < |c| ==> Slot(c[j].key, size) == i
  }

  ghost predicate TableOk(t: Table) {
    forall i :: 0 <= i < |t| ==> ChainOk(t[i], i, |t|)
  }

  function TableLookup(t: Table, k: Key): Option<Value> {
    if |t| == 0 then None else ChainLookup(t[Slot(k, |t|)], k)
  }

  function Push(t: Table, e: Entry): Table
    requires |t| > 0
  {
    var i := Slot(e.key, |t|);
    t[i := [e] + t[i]]
  }

  /** Number of entries of the first n buckets. */
  function Count(t: Table, n: nat): nat
    requires n <= |t|
  {
    if n == 0 then 0 else Count(t, n - 1) + |t[n - 1]|
  }

  function Buckets(n: nat): (t: Table)
    ensures |t| == n && forall i :: 0 <= i < n ==> t[i] == []
  {
    seq(n, _ => [])
  }

  // ---------- The invariant and the abstraction ----------

  ghost predicate Valid(d: Dict) {
    && IsPow2(|d.t0|)
    && TableOk(d.t0) && TableOk(d.t1)
    && d.used0 == Count(d.t0, |d.t0|)
    && d.used1 == Count(d.t1, |d.t1|)
    && (d.Rehashing() ==>
          && 0 <= d.rehash <= |d.t0|
          && IsPow2(|d.t1|)
          && forall i :: 0 <= i < d.rehash ==> d.t0[i] == [])
    && (!d.Rehashing() ==> d.t1 == [])
    && (forall k :: TableLookup(d.t0, k).Some? ==> TableLookup(d.t1, k) == None)
  }

  /** What a lookup answers: table 0 first, then table 1 while a resize is in flight. */
  function Lookup(d: Dict, k: Key): Option<Value> {
    var r := TableLookup(d.t0, k);
    if r.Some? || !d.Rehashing() then r else TableLookup(d.t1, k)
  }

  ghost function TableKeys(t: Table): set<Key> {
    set i, j | 0 <= i < |t| && 0 <= j < |t[i]| :: t[i][j].key
  }

  /** The plain map the table stands for. */
  ghost function AsMap(d: Dict): (m: map<Key, Value>)
  {
    map k | k in TableKeys(d.t0) + TableKeys(d.t1) && Lookup(d, k).Some? :: Lookup(d, k).value
  }

  // ---------- Operations ----------

  function Create(size: nat): Dict {
    Dict(Buckets(size), [], 0, 0, -1)
  }

  /** First index at or after r that is not an empty bucket, giving up after `budget` empty ones. */
  function SkipEmpty(t: Table, r: nat, budget: nat): (r': nat)
    requires r <= |t|
    ensures r <= r' <= |t| && r' <= r + budget
    ensures forall i :: r <= i < r' ==> t[i] == []
    ensures r' < r + budget ==> r' == |t| || t[r'] != []
    decreases budget
  {
    if budget > 0 && r < |t| && t[r] == [] then SkipEmpty(t, r + 1, budget - 1) else r
  }

  /** Relinks every entry of a chain, front to back, at the head of its bucket of t. */
  function Migrate(c: Chain, t: Table): (t': Table)
    requires |t| > 0
    ensures |t'| == |t|
  {
    if c == [] then t else Migrate(c[1..], Push(t, c[0]))
  }

  function Finalize(d: Dict): Dict {
    Dict(d.t1, [], d.used1, 0, -1)
  }

  function FinalizeIfDrained(d: Dict): Dict {
    if d.rehash >= |d.t0| then Finalize(d) else d
  }

  const EMPTY_VISITS: nat := 10

  function MoveBucket(d: Dict, r: nat): Dict
    requires r < |d.t0| && |d.t1| > 0 && |d.t0[r]| <= d.used0
  {
    var c := d.t0[r];
    Dict(d.t0[r := []], Migrate(c, d.t1), d.used0 - |c|, d.used1 + |c|, r + 1)
  }

  function RehashStep(d: Dict): Dict
    requires d.Rehashing() ==> 0 <= d.rehash <= |d.t0| && |d.t1| > 0
    requires forall i :: 0 <= i < |d.t0| ==> |d.t0[i]| <= d.used0
  {
    if !d.Rehashing() then d
    else
      var r := SkipEmpty(d.t0, d.rehash, EMPTY_VISITS);
      if r - d.rehash >= EMPTY_VISITS then d.(rehash := r)
      else if r >= |d.t0| then Finalize(d)
      else FinalizeIfDrained(MoveBucket(d, r))
  }

  /** Doubles `size` until it reaches `want`. */
  function GrowTo(size: nat, want: nat): (r: nat)
    requires size > 0
    ensures r >= size && r >= want
    decreases want - size
  {
    if size < want then GrowTo(2 * size, want) else size
  }

  function MaybeStartRehash(d: Dict, bucketsOk: bool): Dict
    requires |d.t0| > 0
  {
    if d.Rehashing() || !bucketsOk then d
    else d.(t1 := Buckets(GrowTo(|d.t0|, 2 * d.used0)), used1 := 0, rehash := 0)
  }

  function Replace(t: Table, k: Key, v: Value): Table
    requires |t| > 0 && TableLookup(t, k).Some?
  {
    var i := Slot(k, |t|);
    t[i := t[i][IndexOf(t[i], k) := Entry(k, v)]]
  }

  function Overwrite(d: Dict, k: Key, v: Value): Dict
    requires Lookup(d, k).Some?
  {
    if TableLookup(d.t0, k).Some? then d.(t0 := Replace(d.t0, k, v)) else d.(t1 := Replace(d.t1, k, v))
  }

  function Insert(d: Dict, k: Key, v: Value, bucketsOk: bool): Dict
    requires |d.t0| > 0 && (d.Rehashing() ==> |d.t1| > 0)
  {
    if d.Rehashing() then d.(t1 := Push(d.t1, Entry(k, v)), used1 := d.used1 + 1)
    else
      var d' := d.(t0 := Push(d.t0, Entry(k, v)), used0 := d.used0 + 1);
      if d'.used0 >= |d'.t0| then MaybeStartRehash(d', bucketsOk) else d'
  }

  /** Whether a set succeeds: overwriting at equal length needs no memory, a new key needs two blocks. */
  function SetSucceeds(prior: Option<Value>, v: Value, mem: Alloc): bool {
    match prior
    case Some(w) => |w.bytes| == |v.bytes| || mem.value
    case None => mem.value && mem.node
  }

  function Set(d: Dict, k: Key, v: Value, mem: Alloc): (Dict, bool)
    requires Valid(d)
  {
    RehashStepReady(d);
    RehashStepKeepsValid(d);
    var d := RehashStep(d);
    var prior := Lookup(d, k);
    if !SetSucceeds(prior, v, mem) then (d, false)
    else if prior.Some? then (Overwrite(d, k, v), true)
    else (Insert(d, k, v, mem.buckets), true)
  }

  function TableDelete(t: Table, k: Key): Table
    requires |t| > 0 && TableLookup(t, k).Some?
  {
    var i := Slot(k, |t|);
    t[i := Without(t[i], IndexOf(t[i], k))]
  }

  function Delete(d: Dict, k: Key): (Dict, bool)
    requires Valid(d)
  {
    if TableLookup(d.t0, k).Some? then
      CountPositive(d.t0, k);
      (d.(t0 := TableDelete(d.t0, k), used0 := d.used0 - 1), true)
    else if d.Rehashing() && TableLookup(d.t1, k).Some? then
      CountPositive(d.t1, k);
      (d.(t1 := TableDelete(d.t1, k), used1 := d.used1 - 1), true)
    else (d, false)
  }

  // ---------- Counting ----------

  lemma {:induction false} CountAtLeast(t: Table, n: nat, i: nat)
    requires i < n <= |t|
    ensures |t[i]| <= Count(t, n)
  {
    if i < n - 1 {
      CountAtLeast(t, n - 1, i);
    }
  }

  lemma CountPositive(t: Table, k: Key)
    requires TableLookup(t, k).Some?
    ensures Count(t, |t|) > 0
  {
    CountAtLeast(t, |t|, Slot(k, |t|));
  }

  lemma {:induction false} CountUpdate(t: Table, i: nat, c: Chain, n: nat)
    requires i < |t| && n <= |t|
    ensures Count(t[i := c], n) == Count(t, n) + (if i < n then |c| - |t[i]| else 0)
  {
    if n > 0 {
      CountUpdate(t, i, c, n - 1);
    }
  }

  lemma {:induction false} CountEmpty(t: Table, n: nat)
    requires n <= |t| && forall i :: 0 <= i < n ==> t[i] == []
    ensures Count(t, n) == 0
  {
    if n > 0 {
      CountEmpty(t, n - 1);
    }
  }

  // ---------- Chain lemmas ----------

  /** A chain with distinct keys has any of its keys exactly where it stands. */
  lemma IndexOfAt(c: Chain, j: nat)
    requires Distinct(c) && j < |c|
    ensures IndexOf(c, c[j].key) == j
  {
    assert IndexOf(c, c[j].key) <= j;
  }

  lemma IndexOfPush(e: Entry, c: Chain, k: Key)
    ensures IndexOf([e] + c, k) == if e.key == k then 0 else 1 + IndexOf(c, k)
  {
    assert ([e] + c)[1..] == c;
  }

  lemma ChainPush(e: Entry, c: Chain, i: nat, size: nat)
    requires ChainOk(c, i, size) && Slot(e.key, size) == i && !Has(c, e.key)
    ensures ChainOk([e] + c, i, size)
  {
    var c' := [e] + c;
    assert forall x :: 0 < x < |c'| ==> c'[x] == c[x - 1];
    assert forall x :: 0 <= x < |c| ==> c[x].key != e.key;
  }

  lemma IndexOfReplace(c: Chain, j: nat, v: Value, k: Key)
    requires j < |c|
    ensures IndexOf(c[j := Entry(c[j].key, v)], k) == IndexOf(c, k)
  {
    var c' := c[j := Entry(c[j].key, v)];
    assert forall x :: 0 <= x < |c| ==> c'[x].key == c[x].key;
    var a, b := IndexOf(c', k), IndexOf(c, k);
    assert a < |c| ==> c[a].key == k;
    assert b < |c| ==> c'[b].key == k;
  }

  lemma ChainReplace(c: Chain, j: nat, v: Value, i: nat, size: nat)
    requires ChainOk(c, i, size) && j < |c|
    ensures ChainOk(c[j := Entry(c[j].key, v)], i, size)
  {
    var c' := c[j := Entry(c[j].key, v)];
    assert forall x :: 0 <= x < |c| ==> c'[x].key == c[x].key;
  }

  lemma IndexOfWithout(c: Chain, j: nat, q: Key)
    requires Distinct(c) && j < |c|
    ensures ChainLookup(Without(c, j), q) == if q == c[j].key then None else ChainLookup(c, q)
  {
    var c', b := Without(c, j), IndexOf(c, q);
    if b < j {
      assert c'[b] == c[b];
      assert forall x :: 0 <= x < b ==> c'[x] == c[x];
    } else if j < b < |c| {
      assert c'[b - 1] == c[b];
      assert forall x :: 0 <= x < b - 1 ==> c'[x] == if x < j then c[x] else c[x + 1];
    } else {
      assert forall x :: 0 <= x < |c'| ==> c'[x] == if x < j then c[x] else c[x + 1];
    }
  }

  lemma ChainWithout(c: Chain, j: nat, i: nat, size: nat)
    requires ChainOk(c, i, size) && j < |c|
    ensures ChainOk(Without(c, j), i, size)
  {
    var c' := Without(c, j);
    assert forall x :: 0 <= x < |c'| ==> c'[x] == if x < j then c[x] else c[x + 1];
  }

  // ---------- Single-table lemmas ----------

  /** Exchanging one well-formed chain for another changes the lookups of its bucket only. */
  lemma BucketUpdate(t: Table, i: nat, c: Chain, q: Key)
    requires i < |t| && TableOk(t) && ChainOk(c, i, |t|)
    ensures TableOk(t[i := c])
    ensures Count(t[i := c], |t|) == Count(t, |t|) - |t[i]| + |c|
    ensures TableLookup(t[i := c], q) == if Slot(q, |t|) == i then ChainLookup(c, q) else TableLookup(t, q)
  {
    CountUpdate(t, i, c, |t|);
  }

  lemma BucketOk(t: Table, i: nat)
    requires i < |t| && TableOk(t)
    ensures ChainOk(t[i], i, |t|)
  {
    hide ChainOk;
  }

  lemma LookupPush(t: Table, e: Entry, q: Key)
    requires |t| > 0 && TableOk(t) && TableLookup(t, e.key) == None
    ensures TableOk(Push(t, e))
    ensures Count(Push(t, e), |t|) == Count(t, |t|) + 1
    ensures TableLookup(Push(t, e), q) == if q == e.key then Some(e.value) else TableLookup(t, q)
  {
    hide IndexOf, Slot, Count, ChainOk, TableOk;
    var i := Slot(e.key, |t|);
    BucketOk(t, i);
    ChainPush(e, t[i], i, |t|);
    IndexOfPush(e, t[i], q);
    BucketUpdate(t, i, [e] + t[i], q);
  }

  lemma LookupReplace(t: Table, k: Key, v: Value, q: Key)
    requires |t| > 0 && TableOk(t) && TableLookup(t, k).Some?
    ensures TableOk(Replace(t, k, v))
    ensures Count(Replace(t, k, v), |t|) == Count(t, |t|)
    ensures TableLookup(Replace(t, k, v), q) == if q == k then Some(v) else TableLookup(t, q)
  {
    var i := Slot(k, |t|);
    var j := IndexOf(t[i], k);
    assert ChainOk(t[i], i, |t|);
    ChainReplace(t[i], j, v, i, |t|);
    IndexOfReplace(t[i], j, v, q);
    BucketUpdate(t, i, t[i][j := Entry(k, v)], q);
  }

  lemma LookupDelete(t: Table, k: Key, q: Key)
    requires |t| > 0 && TableOk(t) && TableLookup(t, k).Some?
    ensures TableOk(TableDelete(t, k))
    ensures Count(TableDelete(t, k), |t|) == Count(t, |t|) - 1
    ensures TableLookup(TableDelete(t, k), q) == if q == k then None else TableLookup(t, q)
  {
    var i := Slot(k, |t|);
    var j := IndexOf(t[i], k);
    assert ChainOk(t[i], i, |t|);
    ChainWithout(t[i], j, i, |t|);
    IndexOfWithout(t[i], j, q);
    BucketUpdate(t, i, Without(t[i], j), q);
  }

  lemma LookupCleared(t: Table, r: nat, q: Key)
    requires r < |t| && TableOk(t)
    ensures TableOk(t[r := []])
    ensures Count(t[r := []], |t|) == Count(t, |t|) - |t[r]|
    ensures TableLookup(t[r := []], q) == if Slot(q, |t|) == r then None else TableLookup(t, q)
  {
    BucketUpdate(t, r, [], q);
  }

  lemma {:induction false} LookupMigrate(c: Chain, t: Table, q: Key)
    requires |t| > 0 && TableOk(t) && Distinct(c)
    requires forall j :: 0 <= j < |c| ==> TableLookup(t, c[j].key) == None
    ensures TableOk(Migrate(c, t))
    ensures Count(Migrate(c, t), |t|) == Count(t, |t|) + |c|
    ensures TableLookup(Migrate(c, t), q) == if Has(c, q) then ChainLookup(c, q) else TableLookup(t, q)
  {
    if c != [] {
      var t' := Push(t, c[0]);
      LookupPush(t, c[0], q);
      forall j | 0 <= j < |c[1..]|
        ensures TableLookup(t', c[1..][j].key) == None
      {
        LookupPush(t, c[0], c[j + 1].key);
      }
      LookupMigrate(c[1..], t', q);
      IndexOfAt(c, 0);
    }
  }

  lemma BucketsOk(n: nat)
    ensures TableOk(Buckets(n)) && Count(Buckets(n), n) == 0
    ensures forall q :: TableLookup(Buckets(n), q) == None
  {
    CountEmpty(Buckets(n), n);
  }

  // ---------- Resizing ----------

  lemma RehashStepReady(d: Dict)
    requires Valid(d)
    ensures d.Rehashing() ==> |d.t1| > 0
    ensures |d.t0| > 0
    ensures forall i :: 0 <= i < |d.t0| ==> |d.t0[i]| <= d.used0
  {
    forall i | 0 <= i < |d.t0| ensures |d.t0[i]| <= d.used0 {
      CountAtLeast(d.t0, |d.t0|, i);
    }
  }

  lemma FinalizeKeeps(d: Dict)
    requires Valid(d) && d.Rehashing() && d.rehash == |d.t0|
    ensures d.used0 == 0
    ensures Valid(Finalize(d))
    ensures forall q :: Lookup(Finalize(d), q) == Lookup(d, q)
  {
    CountEmpty(d.t0, |d.t0|);
  }

  lemma MoveBucketKeeps(d: Dict, r: nat)
    requires Valid(d) && d.Rehashing() && d.rehash <= r < |d.t0|
    requires forall i :: d.rehash <= i < r ==> d.t0[i] == []
    ensures |d.t1| > 0 && |d.t0[r]| <= d.used0
    ensures Valid(MoveBucket(d, r))
    ensures forall q :: Lookup(MoveBucket(d, r), q) == Lookup(d, q)
  {
    RehashStepReady(d);
    var c, d' := d.t0[r], MoveBucket(d, r);
    forall j | 0 <= j < |c| ensures TableLookup(d.t1, c[j].key) == None {
      IndexOfAt(c, j);
      assert TableLookup(d.t0, c[j].key).Some?;
    }
    forall q
      ensures Lookup(d', q) == Lookup(d, q)
      ensures TableLookup(d'.t0, q).Some? ==> TableLookup(d'.t1, q) == None
    {
      LookupMigrate(c, d.t1, q);
      LookupCleared(d.t0, r, q);
    }
    LookupMigrate(c, d.t1, []);
    LookupCleared(d.t0, r, []);
  }

  /** A migration step keeps the invariant and moves entries without changing any lookup. */
  lemma RehashStepKeepsValid(d: Dict)
    requires Valid(d)
    ensures d.Rehashing() ==> |d.t1| > 0
    ensures forall i :: 0 <= i < |d.t0| ==> |d.t0[i]| <= d.used0
    ensures Valid(RehashStep(d))
    ensures |RehashStep(d).t0| > 0 && (RehashStep(d).Rehashing() ==> |RehashStep(d).t1| > 0)
    ensures forall q :: Lookup(RehashStep(d), q) == Lookup(d, q)
    ensures RehashStep(d).Live() == d.Live()
  {
    RehashStepReady(d);
    if d.Rehashing() {
      var r := SkipEmpty(d.t0, d.rehash, EMPTY_VISITS);
      if r - d.rehash >= EMPTY_VISITS {
      } else if r >= |d.t0| {
        var d1 := d.(rehash := r);
        assert Finalize(d1) == Finalize(d);
        FinalizeKeeps(d1);
        assert forall q :: Lookup(d1, q) == Lookup(d, q);
      } else {
        MoveBucketKeeps(d, r);
        var d1 := MoveBucket(d, r);
        if d1.rehash >= |d1.t0| {
          FinalizeKeeps(d1);
        }
      }
      RehashStepReady(RehashStep(d));
    }
  }
}
