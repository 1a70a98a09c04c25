/** Whole runs of the table: it answers like a plain map. */
module DictionaryRuns {
  import opened Common
  import opened Bits
  import opened Dictionary

  // ---------- The table as a map ----------

  lemma {:induction false} LookupInKeys(t: Table, k: Key)
    requires TableOk(t)
    ensures k in TableKeys(t) <==> TableLookup(t, k).Some?
  {
    if k in TableKeys(t) {
      var i, j :| 0 <= i < |t| && 0 <= j < |t[i]| && t[i][j].key == k;
      IndexOfAt(t[i], j);
    }
  }

  /** The map holds exactly the answers of a lookup. */
  lemma AsMapLookup(d: Dict, k: Key)
    requires Valid(d)
    ensures k in AsMap(d) <==> Lookup(d, k).Some?
    ensures k in AsMap(d) ==> Lookup(d, k) == Some(AsMap(d)[k])
  {
    LookupInKeys(d.t0, k);
    LookupInKeys(d.t1, k);
  }

  lemma AsMapEqual(d: Dict, m: map<Key, Value>)
    requires Valid(d)
    requires forall k :: MapLookup(m, k) == Lookup(d, k)
    ensures AsMap(d) == m
  {
    forall k
      ensures k in AsMap(d) <==> k in m
      ensures k in m ==> AsMap(d)[k] == m[k]
    {
      AsMapLookup(d, k);
      assert MapLookup(m, k) == Lookup(d, k);
    }
  }

  function MapLookup(m: map<Key, Value>, k: Key): Option<Value> {
    if k in m then Some(m[k]) else None
  }

  // ---------- Each operation against the map ----------

  lemma CreateIsEmpty(size: nat)
    requires IsPow2(size)
    ensures Valid(Create(size)) && AsMap(Create(size)) == map[]
  {
    BucketsOk(size);
    CountEmpty([], 0);
    AsMapEqual(Create(size), map[]);
  }

  lemma OverwriteKeeps(d: Dict, k: Key, v: Value)
    requires Valid(d) && Lookup(d, k).Some?
    ensures Valid(Overwrite(d, k, v))
    ensures forall q :: Lookup(Overwrite(d, k, v), q) == if q == k then Some(v) else Lookup(d, q)
  {
    var in0 := TableLookup(d.t0, k).Some?;
    var t := if in0 then d.t0 else d.t1;
    LookupReplace(t, k, v, k);
    forall q ensures TableLookup(Replace(t, k, v), q) == if q == k then Some(v) else TableLookup(t, q) {
      LookupReplace(t, k, v, q);
    }
  }

  lemma PushLookups(t: Table, e: Entry)
    requires |t| > 0 && TableOk(t) && TableLookup(t, e.key) == None
    ensures TableOk(Push(t, e))
    ensures Count(Push(t, e), |t|) == Count(t, |t|) + 1
    ensures forall q :: TableLookup(Push(t, e), q) == if q == e.key then Some(e.value) else TableLookup(t, q)
  {
    LookupPush(t, e, e.key);
    forall q ensures TableLookup(Push(t, e), q) == if q == e.key then Some(e.value) else TableLookup(t, q) {
      LookupPush(t, e, q);
    }
  }

  lemma {:induction false} GrowToPow2(size: nat, want: nat)
    requires size > 0 && IsPow2(size)
    ensures IsPow2(GrowTo(size, want))
    ensures want <= size ==> GrowTo(size, want) == size
    ensures want == 2 * size ==> GrowTo(size, want) == 2 * size
    decreases want - size
  {
    if size < want {
      var n: nat :| size == Pow2(n);
      assert 2 * size == Pow2(n + 1);
      GrowToPow2(2 * size, want);
    }
  }

  lemma StartKeeps(d: Dict, bucketsOk: bool)
    requires Valid(d)
    ensures |d.t0| > 0 && Valid(MaybeStartRehash(d, bucketsOk))
    ensures forall q :: Lookup(MaybeStartRehash(d, bucketsOk), q) == Lookup(d, q)
    ensures MaybeStartRehash(d, bucketsOk).Live() == d.Live()
  {
    RehashStepReady(d);
    var n := GrowTo(|d.t0|, 2 * d.used0);
    BucketsOk(n);
    GrowToPow2(|d.t0|, 2 * d.used0);
  }

  lemma InsertKeeps(d: Dict, k: Key, v: Value, bucketsOk: bool)
    requires Valid(d) && Lookup(d, k) == None
    ensures |d.t0| > 0 && (d.Rehashing() ==> |d.t1| > 0)
    ensures Valid(Insert(d, k, v, bucketsOk))
    ensures forall q :: Lookup(Insert(d, k, v, bucketsOk), q) == if q == k then Some(v) else Lookup(d, q)
    ensures Insert(d, k, v, bucketsOk).Live() == d.Live() + 1
  {
    RehashStepReady(d);
    if d.Rehashing() {
      PushLookups(d.t1, Entry(k, v));
    } else {
      PushLookups(d.t0, Entry(k, v));
      var d' := d.(t0 := Push(d.t0, Entry(k, v)), used0 := d.used0 + 1);
      StartKeeps(d', bucketsOk);
    }
  }

  /** Before a resize is considered, the table with one more entry is already valid. */
  lemma PushOnlyKeeps(d: Dict, k: Key, v: Value)
    requires Valid(d) && Lookup(d, k) == None
    ensures |d.t0| > 0
    ensures !d.Rehashing() ==> Valid(d.(t0 := Push(d.t0, Entry(k, v)), used0 := d.used0 + 1))
  {
    RehashStepReady(d);
    if !d.Rehashing() {
      PushLookups(d.t0, Entry(k, v));
    }
  }

  lemma DeleteReady(d: Dict, k: Key)
    requires Valid(d)
    ensures |d.t0| > 0 && (d.Rehashing() ==> |d.t1| > 0)
    ensures TableLookup(d.t0, k).Some? ==> d.used0 > 0
    ensures TableLookup(d.t1, k).Some? ==> d.used1 > 0
  {
    RehashStepReady(d);
    if TableLookup(d.t0, k).Some? {
      CountPositive(d.t0, k);
    }
    if TableLookup(d.t1, k).Some? {
      CountPositive(d.t1, k);
    }
  }

  lemma SetLookups(d: Dict, k: Key, v: Value, mem: Alloc)
    requires Valid(d)
    ensures var (d', ok) := Set(d, k, v, mem);
            && Valid(d')
            && ok == SetSucceeds(Lookup(d, k), v, mem)
            && (forall q :: Lookup(d', q) == if ok && q == k then Some(v) else Lookup(d, q))
            && d'.Live() == d.Live() + (if ok && Lookup(d, k) == None then 1 else 0)
  {
    RehashStepKeepsValid(d);
    var d1 := RehashStep(d);
    if SetSucceeds(Lookup(d1, k), v, mem) {
      if Lookup(d1, k).Some? {
        OverwriteKeeps(d1, k, v);
      } else {
        InsertKeeps(d1, k, v, mem.buckets);
      }
    }
  }

  /** A set that succeeds is a map update; one that fails leaves the map as it was. */
  lemma SetRefinesMap(d: Dict, k: Key, v: Value, mem: Alloc)
    requires Valid(d)
    ensures var (d', ok) := Set(d, k, v, mem);
            && Valid(d')
            && ok == SetSucceeds(MapLookup(AsMap(d), k), v, mem)
            && AsMap(d') == (if ok then AsMap(d)[k := v] else AsMap(d))
            && d'.Live() == d.Live() + (if ok && k !in AsMap(d) then 1 else 0)
  {
    SetLookups(d, k, v, mem);
    var (d', ok) := Set(d, k, v, mem);
    AsMapLookup(d, k);
    var m := if ok then AsMap(d)[k := v] else AsMap(d);
    forall q ensures MapLookup(m, q) == Lookup(d', q) {
      AsMapLookup(d, q);
    }
    AsMapEqual(d', m);
  }

  lemma TableDeleteLookups(t: Table, k: Key)
    requires |t| > 0 && TableOk(t) && TableLookup(t, k).Some?
    ensures TableOk(TableDelete(t, k))
    ensures Count(TableDelete(t, k), |t|) == Count(t, |t|) - 1
    ensures forall q :: TableLookup(TableDelete(t, k), q) == if q == k then None else TableLookup(t, q)
  {
    LookupDelete(t, k, k);
    forall q ensures TableLookup(TableDelete(t, k), q) == if q == k then None else TableLookup(t, q) {
      LookupDelete(t, k, q);
    }
  }

  lemma DeleteLookups(d: Dict, k: Key)
    requires Valid(d)
    ensures var (d', ok) := Delete(d, k);
            && Valid(d')
            && ok == Lookup(d, k).Some?
            && (forall q :: Lookup(d', q) == if q == k then None else Lookup(d, q))
            && d'.Live() == d.Live() - (if ok then 1 else 0)
            && |d'.t0| == |d.t0| && |d'.t1| == |d.t1| && d'.rehash == d.rehash
  {
    if TableLookup(d.t0, k).Some? {
      TableDeleteLookups(d.t0, k);
    } else if Lookup(d, k).Some? {
      TableDeleteLookups(d.t1, k);
    }
  }

  /** A delete answers whether the key was there and removes exactly that key. */
  lemma DeleteRefinesMap(d: Dict, k: Key)
    requires Valid(d)
    ensures var (d', ok) := Delete(d, k);
            && Valid(d')
            && ok == (k in AsMap(d))
            && AsMap(d') == AsMap(d) - {k}
  {
    DeleteLookups(d, k);
    var (d', ok) := Delete(d, k);
    AsMapLookup(d, k);
    var m := AsMap(d) - {k};
    forall q ensures MapLookup(m, q) == Lookup(d', q) {
      AsMapLookup(d, q);
    }
    AsMapEqual(d', m);
  }

  // ---------- Runs ----------

  datatype Op =
    | OpSet(key: Key, value: Value, mem: Alloc)
    | OpDelete(key: Key)
    | OpLookup(key: Key)
    | OpGet(key: Key, copyOk: bool)

  datatype Answer = Done(ok: bool) | Found(result: Option<Value>)

  function Apply(d: Dict, op: Op): (Dict, Answer)
    requires Valid(d)
  {
    match op
    case OpSet(k, v, mem) => var (d', ok) := Set(d, k, v, mem); (d', Done(ok))
    case OpDelete(k) => var (d', ok) := Delete(d, k); (d', Done(ok))
    case OpLookup(k) => (d, Found(Lookup(d, k)))
    case OpGet(k, copyOk) => (d, Found(if copyOk then Lookup(d, k) else None))
  }

  /** The same operation on a plain map with the same memory. */
  function ApplyMap(m: map<Key, Value>, op: Op): (map<Key, Value>, Answer) {
    match op
    case OpSet(k, v, mem) =>
      var ok := SetSucceeds(MapLookup(m, k), v, mem);
      (if ok then m[k := v] else m, Done(ok))
    case OpDelete(k) => (m - {k}, Done(k in m))
    case OpLookup(k) => (m, Found(MapLookup(m, k)))
    case OpGet(k, copyOk) => (m, Found(if copyOk then MapLookup(m, k) else None))
  }

  lemma ApplyRefines(d: Dict, op: Op)
    requires Valid(d)
    ensures var (d', a) := Apply(d, op); Valid(d') && (AsMap(d'), a) == ApplyMap(AsMap(d), op)
  {
    match op
    case OpSet(k, v, mem) => SetRefinesMap(d, k, v, mem);
    case OpDelete(k) => DeleteRefinesMap(d, k);
    case OpLookup(k) => AsMapLookup(d, k);
    case OpGet(k, _) => AsMapLookup(d, k);
  }

  function Run(d: Dict, ops: seq<Op>): (r: (Dict, seq<Answer>))
    requires Valid(d)
    ensures Valid(r.0)
    decreases ops
  {
    if ops == [] then (d, [])
    else
      ApplyRefines(d, ops[0]);
      var (d1, a) := Apply(d, ops[0]);
      var (d2, rest) := Run(d1, ops[1..]);
      (d2, [a] + rest)
  }

  function RunMap(m: map<Key, Value>, ops: seq<Op>): (map<Key, Value>, seq<Answer>)
    decreases ops
  {
    if ops == [] then (m, [])
    else
      var (m1, a) := ApplyMap(m, ops[0]);
      var (m2, rest) := RunMap(m1, ops[1..]);
      (m2, [a] + rest)
  }

  /** Over every run, in any resize phase and under any allocation failures, the table gives
      the answers of a plain map and ends as that map. */
  lemma {:induction false} RunRefinesMap(d: Dict, ops: seq<Op>)
    requires Valid(d)
    ensures AsMap(Run(d, ops).0) == RunMap(AsMap(d), ops).0
    ensures Run(d, ops).1 == RunMap(AsMap(d), ops).1
    decreases ops
  {
    if ops != [] {
      ApplyRefines(d, ops[0]);
      RunRefinesMap(Apply(d, ops[0]).0, ops[1..]);
    }
  }
}
