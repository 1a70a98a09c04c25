/** Both sub-tables as one contiguous space of buckets, as sweeps and listings walk it. */
module DictionaryWalk {
  import opened Common
  import opened Dictionary
  import opened DictionaryRuns

  function AllBuckets(d: Dict): Table {
    d.t0 + d.t1
  }

  /** The bucket that holds a key. */
  function PosOf(d: Dict, k: Key): (p: nat)
    requires Valid(d) && Lookup(d, k).Some?
    ensures p < |AllBuckets(d)|
  {
    if TableLookup(d.t0, k).Some? then Slot(k, |d.t0|) else |d.t0| + Slot(k, |d.t1|)
  }

  /** An entry met in a bucket is the one a lookup of its key finds. */
  lemma EntryAt(d: Dict, p: nat, j: nat)
    requires Valid(d) && p < |AllBuckets(d)| && j < |AllBuckets(d)[p]|
    ensures var e := AllBuckets(d)[p][j];
            && Lookup(d, e.key) == Some(e.value)
            && PosOf(d, e.key) == p
            && IndexOf(AllBuckets(d)[p], e.key) == j
            && Distinct(AllBuckets(d)[p])
  {
    var e := AllBuckets(d)[p][j];
    if p < |d.t0| {
      assert ChainOk(d.t0[p], p, |d.t0|);
      IndexOfAt(d.t0[p], j);
    } else {
      var i := p - |d.t0|;
      assert AllBuckets(d)[p] == d.t1[i];
      assert ChainOk(d.t1[i], i, |d.t1|);
      IndexOfAt(d.t1[i], j);
      assert TableLookup(d.t1, e.key).Some?;
    }
  }

  /** A key that a lookup finds stands in its bucket. */
  lemma KeyInBucket(d: Dict, k: Key)
    requires Valid(d) && Lookup(d, k).Some?
    ensures var c := AllBuckets(d)[PosOf(d, k)];
            Has(c, k) && Lookup(d, k) == Some(c[IndexOf(c, k)].value)
  {
  }

  /** Deleting a key takes its entry out of its bucket and leaves every other bucket alone. */
  lemma DeleteInBucket(d: Dict, k: Key)
    requires Valid(d) && Lookup(d, k).Some?
    ensures var d' := Delete(d, k).0; var p := PosOf(d, k); var c := AllBuckets(d)[p];
            && Has(c, k)
            && AllBuckets(d') == AllBuckets(d)[p := Without(c, IndexOf(c, k))]
            && |d'.t0| == |d.t0| && |d'.t1| == |d.t1|
            && Valid(d')
  {
    hide Valid, Djb2, Fold, IndexOf, Without;
    DeleteLookups(d, k);
    var d' := Delete(d, k).0;
    var p := PosOf(d, k);
    var c := AllBuckets(d)[p];
    assert AllBuckets(d') == (d.t0 + d.t1)[p := Without(c, IndexOf(c, k))];
  }

  /** Keys that stay keep their bucket. */
  lemma DeleteKeepsPos(d: Dict, k: Key, q: Key)
    requires Valid(d)
    ensures var d' := Delete(d, k).0;
            && Valid(d')
            && (Lookup(d', q).Some? ==> Lookup(d, q).Some? && PosOf(d', q) == PosOf(d, q))
  {
    DeleteLookups(d, k);
    if TableLookup(d.t0, k).Some? {
      LookupDelete(d.t0, k, q);
    } else if Lookup(d, k).Some? {
      LookupDelete(d.t1, k, q);
    }
  }

  /** Without a resize in flight, a set leaves every stored key in its bucket. */
  lemma SetKeepsPos(d: Dict, k: Key, v: Value, mem: Alloc, q: Key)
    requires Valid(d) && !d.Rehashing() && Lookup(d, q).Some?
    ensures var d' := Set(d, k, v, mem).0;
            Valid(d') && Lookup(d', q).Some? && PosOf(d', q) == PosOf(d, q)
  {
    SetLookups(d, k, v, mem);
    var d' := Set(d, k, v, mem).0;
    if Lookup(d, k).Some? {
      if SetSucceeds(Lookup(d, k), v, mem) {
        LookupReplace(d.t0, k, v, q);
      }
    } else {
      LookupPush(d.t0, Entry(k, v), q);
    }
  }

  /** A set during a resize takes the bucket at the cursor to the other table, when it is not empty
      and not the last one; the sizes stay. */
  lemma SetMovesBucket(d: Dict, k: Key, v: Value, mem: Alloc, q: Key)
    requires Valid(d) && d.Rehashing() && d.rehash < |d.t0| - 1 && Has(d.t0[d.rehash], q) && k != q
    ensures var d' := Set(d, k, v, mem).0;
            && Valid(d') && Lookup(d, q).Some? && Lookup(d', q) == Lookup(d, q)
            && |d'.t0| == |d.t0| && |d'.t1| == |d.t1|
            && PosOf(d, q) == d.rehash && PosOf(d', q) == |d.t0| + Slot(q, |d.t1|)
  {
    hide Djb2, Fold, Migrate, IndexOf, Count;
    var r := d.rehash;
    assert ChainOk(d.t0[r], r, |d.t0|);
    RehashStepKeepsValid(d);
    MoveBucketKeeps(d, r);
    SetLookups(d, k, v, mem);
    var d1 := RehashStep(d);
    assert d1 == MoveBucket(d, r);
    if Lookup(d1, k).Some? && TableLookup(d1.t0, k).Some? {
      LookupReplace(d1.t0, k, v, q);
    }
  }

  /** The entries kept by a walk that drops some keys. */
  function Keep(c: Chain, dead: set<Key>): Chain {
    if c == [] then []
    else
      var l := c[..|c| - 1];
      if c[|c| - 1].key in dead then Keep(l, dead) else Keep(l, dead) + [c[|c| - 1]]
  }

  lemma KeepSnoc(c: Chain, j: nat, dead: set<Key>)
    requires j < |c|
    ensures Keep(c[..j + 1], dead) == if c[j].key in dead then Keep(c[..j], dead) else Keep(c[..j], dead) + [c[j]]
  {
    assert c[..j + 1][..j] == c[..j];
  }

  lemma {:induction false} KeepWithin(c: Chain, dead: set<Key>, k: Key)
    requires Has(Keep(c, dead), k)
    ensures Has(c, k)
    decreases c
  {
    var s := Keep(c, dead);
    var l := c[..|c| - 1];
    var j := IndexOf(s, k);
    if j < |Keep(l, dead)| {
      assert Keep(l, dead)[j] == s[j];
      KeepWithin(l, dead, k);
      assert l[IndexOf(l, k)] == c[IndexOf(l, k)];
    } else {
      assert s[j] == c[|c| - 1];
    }
  }
}
