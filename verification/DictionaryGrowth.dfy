/** How resizing keeps pace with insertion, over every run. */
module DictionaryGrowth {
  import opened Common
  import opened Bits
  import opened Dictionary
  import opened DictionaryRuns

  // ---------- Live entries are the keys of the map ----------

  ghost function ChainKeys(c: Chain): set<Key> {
    set j | 0 <= j < |c| :: c[j].key
  }

  ghost function KeysUpTo(t: Table, n: nat): set<Key>
    requires n <= |t|
  {
    if n == 0 then {} else KeysUpTo(t, n - 1) + ChainKeys(t[n - 1])
  }

  lemma {:induction false} ChainKeysSize(c: Chain)
    requires Distinct(c)
    ensures |ChainKeys(c)| == |c|
  {
    if c != [] {
      var l := c[..|c| - 1];
      ChainKeysSize(l);
      assert c == l + [c[|c| - 1]];
      assert ChainKeys(c) == ChainKeys(l) + {c[|c| - 1].key};
    }
  }

  lemma {:induction false} InKeysUpTo(t: Table, n: nat, k: Key)
    requires 0 < |t| && n <= |t| && TableOk(t)
    ensures k in KeysUpTo(t, n) <==> Slot(k, |t|) < n && TableLookup(t, k).Some?
  {
    if n > 0 {
      InKeysUpTo(t, n - 1, k);
      assert ChainOk(t[n - 1], n - 1, |t|);
      assert k in ChainKeys(t[n - 1]) <==> Slot(k, |t|) == n - 1 && Has(t[n - 1], k);
    }
  }

  lemma BucketKeysDisjoint(t: Table, i: nat)
    requires i < |t| && TableOk(t)
    ensures KeysUpTo(t, i) !! ChainKeys(t[i])
  {
    var c, before := t[i], KeysUpTo(t, i);
    assert ChainOk(c, i, |t|);
    forall j | 0 <= j < |c| ensures c[j].key !in before {
      InKeysUpTo(t, i, c[j].key);
    }
  }

  lemma {:induction false} KeysUpToSize(t: Table, n: nat)
    requires n <= |t| && TableOk(t)
    ensures |KeysUpTo(t, n)| == Count(t, n)
  {
    hide ChainKeys, Slot;
    if n > 0 {
      KeysUpToSize(t, n - 1);
      assert ChainOk(t[n - 1], n - 1, |t|);
      ChainKeysSize(t[n - 1]);
      BucketKeysDisjoint(t, n - 1);
      var a, b := KeysUpTo(t, n - 1), ChainKeys(t[n - 1]);
      assert |a + b| == |a| + |b|;
    }
  }

  lemma TableKeysSize(t: Table)
    requires TableOk(t)
    ensures |TableKeys(t)| == Count(t, |t|)
  {
    KeysUpToSize(t, |t|);
    forall k ensures k in TableKeys(t) <==> k in KeysUpTo(t, |t|) {
      LookupInKeys(t, k);
      if |t| > 0 {
        InKeysUpTo(t, |t|, k);
      }
    }
    assert TableKeys(t) == KeysUpTo(t, |t|);
  }

  /** The two usage counters together count the keys of the map. */
  lemma LiveIsMapSize(d: Dict)
    requires Valid(d)
    ensures |AsMap(d)| == d.Live()
  {
    TableKeysSize(d.t0);
    TableKeysSize(d.t1);
    forall k
      ensures k in AsMap(d) <==> k in TableKeys(d.t0) + TableKeys(d.t1)
      ensures !(k in TableKeys(d.t0) && k in TableKeys(d.t1))
    {
      AsMapLookup(d, k);
      LookupInKeys(d.t0, k);
      LookupInKeys(d.t1, k);
    }
    assert AsMap(d).Keys == TableKeys(d.t0) + TableKeys(d.t1);
  }

  // ---------- Pace of a resize ----------

  /** A table with its history: sets seen by the resize in flight, and whether the allocator
      ever refused a bucket array. */
  datatype History = History(d: Dict, sets: nat, refused: bool)

  function Next(h: History, op: Op): History
    requires Valid(h.d)
  {
    var d' := Apply(h.d, op).0;
    if !op.OpSet? then h.(d := d')
    else
      var sameResize := h.d.Rehashing() && d'.Rehashing() && |d'.t0| == |h.d.t0|;
      History(d', if sameResize then h.sets + 1 else 0, h.refused || !op.mem.buckets)
  }

  ghost predicate OnPace(h: History) {
    var d := h.d;
    && Valid(d)
    && (d.Rehashing() ==>
          && |d.t1| > |d.t0|
          && h.sets <= d.rehash
          && (d.rehash == |d.t0| ==> h.sets + 9 <= d.rehash)
          && d.Live() + |d.t0| <= |d.t1| + h.sets
          && (!h.refused ==> |d.t1| == 2 * |d.t0|))
    && (!d.Rehashing() ==> h.refused || d.Live() < |d.t0|)
  }

  lemma RehashStepAdvances(d: Dict)
    requires Valid(d) && d.Rehashing()
    ensures |d.t1| > 0 && forall i :: 0 <= i < |d.t0| ==> |d.t0[i]| <= d.used0
    ensures var d' := RehashStep(d);
            || (d'.t0 == d.t0 && d'.t1 == d.t1 && d'.rehash == d.rehash + EMPTY_VISITS)
            || (!d'.Rehashing() && |d'.t0| == |d.t1|)
            || (|d'.t0| == |d.t0| && |d'.t1| == |d.t1| && d.rehash < d'.rehash < |d'.t0|)
  {
    RehashStepReady(d);
  }

  lemma InsertSizes(d: Dict, k: Key, v: Value, bucketsOk: bool)
    requires Valid(d) && Lookup(d, k) == None
    ensures |d.t0| > 0 && (d.Rehashing() ==> |d.t1| > 0)
    ensures var d' := Insert(d, k, v, bucketsOk);
            && |d'.t0| == |d.t0|
            && (d.Rehashing() ==> |d'.t1| == |d.t1| && d'.rehash == d.rehash)
            && (!d.Rehashing() && d.Live() + 1 < |d.t0| ==> !d'.Rehashing())
            && (!d.Rehashing() && d.Live() + 1 >= |d.t0| ==> (d'.Rehashing() <==> bucketsOk))
            && (!d.Rehashing() && d'.Rehashing() ==>
                  && d'.rehash == 0
                  && |d'.t1| >= 2 * d'.Live() && d'.Live() >= |d.t0|
                  && (d'.Live() == |d.t0| ==> |d'.t1| == 2 * |d.t0|))
  {
    RehashStepReady(d);
    CountEmpty([], 0);
    GrowToPow2(|d.t0|, 2 * (d.used0 + 1));
  }

  /** The resize in flight went on: it drained at least one more bucket, and reached the end
      of table 0 without finishing only by skipping a full run of empty buckets. */
  predicate WentOn(d: Dict, d': Dict) {
    && d.Rehashing() && d'.Rehashing()
    && |d'.t0| == |d.t0| && |d'.t1| == |d.t1|
    && d.rehash < d'.rehash <= |d.t0|
    && (d'.rehash == |d.t0| ==> d'.rehash == d.rehash + EMPTY_VISITS)
  }

  /** The table is single, or has just started a resize with room for twice its entries. */
  predicate SingleOrStarted(d': Dict, liveBefore: nat, bucketsOk: bool) {
    if d'.Rehashing() then
      && d'.rehash == 0
      && |d'.t1| >= 2 * d'.Live() && d'.Live() >= |d'.t0|
      && (d'.Live() == |d'.t0| ==> |d'.t1| == 2 * |d'.t0|)
    else
      d'.Live() == liveBefore || d'.Live() < |d'.t0| || !bucketsOk
  }

  lemma SetShape(d: Dict, k: Key, v: Value, mem: Alloc)
    requires Valid(d)
    ensures var d' := Set(d, k, v, mem).0;
            || WentOn(d, d')
            || (|d'.t0| == |d.Newest()| && SingleOrStarted(d', d.Live(), mem.buckets))
  {
    hide TableOk, Count, MoveBucket, SkipEmpty, Lookup, SetSucceeds, Slot, IndexOf;
    RehashStepKeepsValid(d);
    var d1 := RehashStep(d);
    if d.Rehashing() {
      RehashStepAdvances(d);
    }
    if Lookup(d1, k) == None {
      InsertSizes(d1, k, v, mem.buckets);
    }
  }

  /** With room for one more key, a single table stays single and keeps its size. */
  ghost predicate Calm(d: Dict, d': Dict) {
    !d.Rehashing() && |AsMap(d)| + 1 < |d.t0| ==> !d'.Rehashing() && |d'.t0| == |d.t0|
  }

  lemma SetCalm(d: Dict, k: Key, v: Value, mem: Alloc)
    requires Valid(d)
    ensures Calm(d, Set(d, k, v, mem).0)
  {
    hide Valid, Set, AsMap;
    LiveIsMapSize(d);
    SetShape(d, k, v, mem);
    SetLookups(d, k, v, mem);
  }

  lemma DeleteCalm(d: Dict, k: Key)
    requires Valid(d)
    ensures Calm(d, Delete(d, k).0)
  {
    hide Valid, Delete, AsMap;
    DeleteLookups(d, k);
  }

  lemma CalmSelf(d: Dict)
    ensures Calm(d, d)
  {
  }

  lemma CalmChain(d: Dict, d1: Dict, d2: Dict)
    requires Calm(d, d1) && Calm(d1, d2) && |AsMap(d1)| <= |AsMap(d)|
    ensures Calm(d, d2)
  {
    hide AsMap;
  }

  lemma PaceAfterWentOn(h: History, d': Dict, refused: bool)
    requires OnPace(h) && Valid(d') && WentOn(h.d, d') && d'.Live() <= h.d.Live() + 1
    ensures OnPace(History(d', h.sets + 1, h.refused || refused))
  {
  }

  lemma PaceAfterSingle(h: History, d': Dict, bucketsOk: bool)
    requires OnPace(h) && Valid(d') && d'.Live() <= h.d.Live() + 1
    requires |d'.t0| == |h.d.Newest()| && SingleOrStarted(d', h.d.Live(), bucketsOk)
    ensures OnPace(History(d', 0, h.refused || !bucketsOk))
  {
    assert !h.refused ==> h.d.Live() < |d'.t0|;
    RehashStepReady(d');
  }

  lemma SetKeepsPace(h: History, op: Op)
    requires OnPace(h) && op.OpSet?
    ensures OnPace(Next(h, op))
    ensures h.d.Rehashing() && |Next(h, op).d.t0| != |h.d.t1| ==>
              && WentOn(h.d, Next(h, op).d)
              && Next(h, op).sets == h.sets + 1
  {
    SetLookups(h.d, op.key, op.value, op.mem);
    SetShape(h.d, op.key, op.value, op.mem);
    var d' := Set(h.d, op.key, op.value, op.mem).0;
    if WentOn(h.d, d') {
      PaceAfterWentOn(h, d', !op.mem.buckets);
    } else {
      PaceAfterSingle(h, d', op.mem.buckets);
    }
  }

  lemma NextKeepsPace(h: History, op: Op)
    requires OnPace(h)
    ensures OnPace(Next(h, op))
  {
    match op
    case OpSet(_, _, _) => SetKeepsPace(h, op);
    case OpDelete(k) => DeleteLookups(h.d, k);
    case OpLookup(_) =>
    case OpGet(_, _) =>
  }

  function RunHistory(h: History, ops: seq<Op>): (r: History)
    requires OnPace(h)
    ensures OnPace(r)
    decreases ops
  {
    if ops == [] then h
    else
      NextKeepsPace(h, ops[0]);
      RunHistory(Next(h, ops[0]), ops[1..])
  }

  /** From creation on, in every reachable state: a resize in flight has spare room in the table it
      fills and has seen fewer sets than the buckets it drains; and unless a bucket array was
      refused, live entries fit the newest table and every resize doubles. */
  lemma ReachableOnPace(size: nat, ops: seq<Op>)
    requires IsPow2(size) && size > 0
    ensures OnPace(History(Create(size), 0, false))
    ensures var h := RunHistory(History(Create(size), 0, false), ops);
            && (h.d.Rehashing() ==> |AsMap(h.d)| < |h.d.t1| && h.sets < |h.d.t0|)
            && (!h.refused ==> |AsMap(h.d)| <= |h.d.Newest()|)
            && (!h.refused && h.d.Rehashing() ==> |h.d.t1| == 2 * |h.d.t0|)
  {
    CreateIsEmpty(size);
    var h := RunHistory(History(Create(size), 0, false), ops);
    LiveIsMapSize(h.d);
  }

  function Sets(ops: seq<Op>): nat {
    if ops == [] then 0 else (if ops[0].OpSet? then 1 else 0) + Sets(ops[1..])
  }

  /** A resize of S buckets is over within S sets of its start, whatever else happens in between. */
  lemma {:induction false} ResizeFinishes(h: History, ops: seq<Op>) returns (n: nat)
    requires OnPace(h) && h.d.Rehashing()
    requires h.sets + Sets(ops) >= |h.d.t0|
    ensures n <= |ops| && |RunHistory(h, ops[..n]).d.t0| == |h.d.t1|
    decreases ops
  {
    hide Set, Delete, TableOk, Count, Lookup;
    var op := ops[0];
    NextKeepsPace(h, op);
    var h1 := Next(h, op);
    if op.OpSet? {
      SetKeepsPace(h, op);
      if |h1.d.t0| == |h.d.t1| {
        assert ops[..1] == [op];
        assert RunHistory(h, [op]) == RunHistory(h1, [op][1..]) == h1;
        return 1;
      }
    } else if op.OpDelete? {
      DeleteLookups(h.d, op.key);
    }
    var n1 := ResizeFinishes(h1, ops[1..]);
    n := n1 + 1;
    assert ops[..n][1..] == ops[1..][..n1];
  }
}
