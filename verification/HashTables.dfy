/** The hash table in place: two sub-tables of linked nodes, resized one bucket at a time. */
module HashTables {
  import opened Common
  import opened Bits
  import opened Dictionary
  import opened DictionaryRuns
  import G = DictionaryGrowth
  import opened DictionaryWalk
  import opened SubTables
  import D = Dictionary

  ghost predicate EntryOf(c: seq<Node>, m: Chain, j: nat)
    requires j < |c| && j < |m|
    reads c[j]
  {
    c[j].key == m[j].key && c[j].value == m[j].value && c[j].next == NodeAt(c, j + 1)
  }

  class HashTable {
    var t0: SubTable
    var t1: SubTable
    var rehashIndex: int
    ghost var repr: set<object>

    ghost function Model(): Dict
      reads this, t0, t1
    {
      Dict(t0.model, t1.model, t0.used, t1.used, rehashIndex)
    }

    /** The plain map this table stands for. */
    ghost function Contents(): map<Key, Value>
      reads this, t0, t1
    {
      AsMap(Model())
    }

    /** The chains of both sub-tables, as one contiguous space of buckets. */
    ghost function Chains(): seq<seq<Node>>
      reads this, t0, t1
    {
      t0.chains + t1.chains
    }

    ghost function Nodes(): set<Node>
      reads this, t0, t1
    {
      t0.nodes + t1.nodes
    }

    /** The two sub-tables are well linked and share nothing. */
    ghost predicate Linked()
      reads this, repr
    {
      && {this, t0, t1, t0.heads, t1.heads} <= repr && t0.nodes <= repr && t1.nodes <= repr
      && t0 != t1 && t0.heads != t1.heads && t0.nodes !! t1.nodes
      && t0.Valid() && t1.Valid()
    }

    ghost predicate Valid()
      reads this, repr
      ensures Valid() ==> {this, t0, t1} <= repr && D.Valid(Model())
    {
      Linked() && D.Valid(Model())
    }

    function Total(): nat
      reads this
    {
      t0.heads.Length + t1.heads.Length
    }

    /** First node of a bucket of the contiguous space. */
    method Head(p: nat) returns (n: Node?)
      requires Valid() && p < Total()
      ensures |Chains()| == |AllBuckets(Model())| == Total()
      ensures n == NodeAt(Chains()[p], 0)
    {
      hide SubTable.ValidBut, Holds;
      BucketAt(p);
      n := if p < t0.heads.Length then t0.heads[p] else t1.heads[p - t0.heads.Length];
    }

    lemma Sizes()
      requires Valid()
      ensures |Chains()| == |AllBuckets(Model())| == Total()
    {
    }

    /** The nodes of a bucket hold its entries and are linked in order. */
    lemma BucketAt(p: nat)
      requires Valid() && p < Total()
      ensures |Chains()| == |AllBuckets(Model())| == Total()
      ensures |Chains()[p]| == |AllBuckets(Model())[p]|
      ensures (if p < t0.heads.Length then t0.heads[p] else t1.heads[p - t0.heads.Length]) == NodeAt(Chains()[p], 0)
      ensures forall j :: 0 <= j < |Chains()[p]| ==> EntryOf(Chains()[p], AllBuckets(Model())[p], j)
    {
      hide SubTable.ValidBut;
      if p < t0.heads.Length {
        t0.BucketHolds(p);
        assert Chains()[p] == t0.chains[p] && AllBuckets(Model())[p] == t0.model[p];
      } else {
        var i := p - t0.heads.Length;
        t1.BucketHolds(i);
        assert Chains()[p] == t1.chains[i] && AllBuckets(Model())[p] == t1.model[i];
      }
    }

    constructor (size: nat)
      ensures Linked() && fresh(repr) && Model() == Create(size)
      ensures IsPow2(size) ==> Valid() && Contents() == map[]
    {
      hide SubTable.Valid;
      t0 := new SubTable(size);
      t1 := new SubTable(0);
      rehashIndex := -1;
      if IsPow2(size) {
        CreateIsEmpty(size);
      }
      new;
      repr := {this, t0, t1, t0.heads, t1.heads};
    }

    /** Moves table 1 into the primary slot, once table 0 has drained. */
    method RehashFinalize()
      requires Linked() && t0.nodes == {}
      modifies this
      ensures Linked() && fresh(repr - old(repr))
      ensures Model() == Finalize(old(Model()))
      ensures Nodes() == old(Nodes())
    {
      hide SubTable.ValidBut;
      t0 := t1;
      t1 := new SubTable(0);
      rehashIndex := -1;
      repr := repr + {t1, t1.heads};
    }

    /** Advances the migration cursor over empty buckets, giving up after ten of them. */
    method SkipEmpties() returns (stop: bool)
      requires Linked() && 0 <= rehashIndex <= |t0.model|
      modifies this`rehashIndex
      ensures Linked() && rehashIndex == SkipEmpty(t0.model, old(rehashIndex), EMPTY_VISITS)
      ensures stop == (rehashIndex - old(rehashIndex) >= EMPTY_VISITS)
    {
      hide SubTable.Valid;
      var emptyVisited := 0;
      while rehashIndex < t0.heads.Length && t0.heads[rehashIndex] == null
        invariant Linked() && 0 <= rehashIndex <= |t0.model| && emptyVisited == rehashIndex - old(rehashIndex) < EMPTY_VISITS
        invariant SkipEmpty(t0.model, old(rehashIndex), EMPTY_VISITS) == SkipEmpty(t0.model, rehashIndex, EMPTY_VISITS - emptyVisited)
      {
        t0.HeadIsNull(rehashIndex);
        rehashIndex := rehashIndex + 1;
        emptyVisited := emptyVisited + 1;
        if emptyVisited >= EMPTY_VISITS {
          return true;
        }
      }
      if rehashIndex < t0.heads.Length {
        t0.HeadIsNull(rehashIndex);
      }
      return false;
    }

    /** Relinks every node of bucket r of table 0 into table 1. */
    method MigrateBucket(r: nat)
      requires Linked() && r < |t0.model| && |t1.model| > 0 && |t0.model[r]| <= t0.used
      modifies repr
      ensures Linked() && repr == old(repr) && rehashIndex == old(rehashIndex) && |t0.model| == |old(t0.model)|
      ensures Model().(rehash := r + 1) == MoveBucket(old(Model()), r)
      ensures Nodes() == old(Nodes()) && forall n :: n in old(Nodes()) ==> n.value == old(n.value)
    {
      hide SubTable.Valid, Migrate;
      t0.MoveBucketTo(r, t1);
    }

    /** Moves bucket rehashIndex, and finishes the resize when it was the last one. */
    method MigrateCurrent()
      requires Valid() && 0 <= rehashIndex < |t0.model| && |t1.model| > 0 && |t0.model[rehashIndex]| <= t0.used
      modifies repr
      ensures Valid() && fresh(repr - old(repr))
      ensures Model() == FinalizeIfDrained(MoveBucket(old(Model()), old(rehashIndex)))
      ensures Nodes() == old(Nodes()) && forall n :: n in old(Nodes()) ==> n.value == old(n.value)
    {
      hide SubTable.Valid, Migrate, MoveBucket, D.Valid;
      ghost var d := Model();
      MoveBucketKeeps(d, rehashIndex);
      MigrateBucket(rehashIndex);
      rehashIndex := rehashIndex + 1;
      if rehashIndex >= t0.heads.Length {
        Finish();
      }
    }

    method Finish()
      requires Valid() && rehashIndex == |t0.model|
      modifies this
      ensures Valid() && fresh(repr - old(repr))
      ensures Model() == Finalize(old(Model()))
      ensures Nodes() == old(Nodes())
    {
      hide SubTable.Valid;
      FinalizeKeeps(Model());
      t0.NoNodes();
      RehashFinalize();
    }

    /** One step of the resize in flight: at most one bucket moves, and only links change. */
    method RehashStep()
      requires Valid()
      modifies repr
      ensures Valid() && fresh(repr - old(repr))
      ensures D.RehashStep.requires(old(Model())) && Model() == D.RehashStep(old(Model()))
      ensures Nodes() == old(Nodes()) && forall n :: n in old(Nodes()) ==> n.value == old(n.value)
    {
      hide SubTable.Valid, Migrate;
      ghost var d := Model();
      RehashStepKeepsValid(d);
      if rehashIndex == -1 {
        return;
      }
      var stop := SkipEmpties();
      if stop {
        return;
      }
      if rehashIndex >= t0.heads.Length {
        Finish();
        return;
      }
      MigrateCurrent();
    }

    /** Finds the node of a key, consulting both tables while a resize is in flight. */
    method FindEntry(key: Key, hash: nat) returns (n: Node?, inT1: bool)
      requires Valid() && hash == Djb2(key, |key|)
      ensures n == null <==> Lookup(Model(), key) == None
      ensures n != null ==> n.key == key && Lookup(Model(), key) == Some(n.value)
      ensures n != null ==>
                var t := if inT1 then t1 else t0;
                && (inT1 <==> TableLookup(t0.model, key) == None)
                && n in t.nodes && |t.model| > 0 && |t.chains| == |t.model|
                && var i := Slot(key, |t.model|);
                   && Has(t.model[i], key) && IndexOf(t.model[i], key) < |t.chains[i]|
                   && t.chains[i][IndexOf(t.model[i], key)] == n
    {
      hide SubTable.Valid, Djb2, Fold, IndexOf, D.Valid;
      RehashStepReady(Model());
      n := t0.Find(Fold(hash, t0.heads.Length), key);
      inT1 := false;
      if n == null && rehashIndex != -1 {
        n := t1.Find(Fold(hash, t1.heads.Length), key);
        inT1 := true;
      }
    }

    /** Borrows the stored value of a key, if there is one. */
    method LookupValue(key: Key) returns (r: Option<Value>)
      requires Valid()
      ensures r == Lookup(Model(), key) == MapLookup(Contents(), key)
    {
      hide Linked, D.Valid, Lookup, AsMap;
      AsMapLookup(Model(), key);
      var hash := ComputeHash(key);
      var n, _ := FindEntry(key, hash);
      r := if n == null then None else Some(n.value);
    }

    /** Copies the stored value of a key out, when the copy can be allocated. */
    method GetValue(key: Key, copyOk: bool) returns (r: Option<Value>)
      requires Valid()
      ensures r == if copyOk then MapLookup(Contents(), key) else None
    {
      hide Linked, D.Valid, Lookup, AsMap;
      r := LookupValue(key);
      if !copyOk {
        r := None;
      }
    }

    /** Starts a resize into a larger table, unless its bucket array cannot be allocated. */
    method MaybeStartRehash(bucketsOk: bool)
      requires Valid() && rehashIndex == -1
      modifies this
      ensures Valid() && fresh(repr - old(repr))
      ensures |old(Model()).t0| > 0 && Model() == D.MaybeStartRehash(old(Model()), bucketsOk)
      ensures Nodes() == old(Nodes())
    {
      hide SubTable.Valid;
      StartKeeps(Model(), bucketsOk);
      t1.NoNodes();
      var newSize := t0.heads.Length;
      while newSize < t0.used * 2
        invariant newSize > 0 && GrowTo(newSize, 2 * t0.used) == GrowTo(t0.heads.Length, 2 * t0.used)
        decreases t0.used * 2 - newSize
      {
        newSize := newSize * 2;
      }
      if !bucketsOk {
        return;
      }
      t1 := new SubTable(newSize);
      rehashIndex := 0;
      repr := repr + {t1, t1.heads};
    }

    /** Gives the node of an existing key a new value, in place. */
    method OverwriteEntry(n: Node, inT1: bool, key: Key, v: Value)
      requires Valid() && n.key == key && Lookup(Model(), key).Some?
      requires var t := if inT1 then t1 else t0;
               && (inT1 <==> TableLookup(t0.model, key) == None)
               && n in t.nodes && |t.model| > 0 && |t.chains| == |t.model|
               && var i := Slot(key, |t.model|);
                  && Has(t.model[i], key) && IndexOf(t.model[i], key) < |t.chains[i]|
                  && t.chains[i][IndexOf(t.model[i], key)] == n
      modifies repr
      ensures Valid() && repr == old(repr) && Nodes() == old(Nodes())
      ensures forall x :: x in old(Nodes()) && x != n ==> x.value == old(x.value)
      ensures Model() == Overwrite(old(Model()), key, v)
    {
      hide SubTable.Valid, Djb2, Fold, IndexOf, D.Valid;
      OverwriteKeeps(Model(), key, v);
      if inT1 {
        t1.Overwrite(n, v, Slot(key, |t1.model|), IndexOf(t1.model[Slot(key, |t1.model|)], key));
      } else {
        t0.Overwrite(n, v, Slot(key, |t0.model|), IndexOf(t0.model[Slot(key, |t0.model|)], key));
      }
    }

    /** Links a new node into the newest table. */
    method LinkNew(node: Node, hash: nat)
      requires Valid() && node !in repr && Lookup(Model(), node.key) == None && hash == Djb2(node.key, |node.key|)
      modifies repr, node
      ensures Valid() && repr == old(repr) + {node} && Nodes() == old(Nodes()) + {node}
      ensures rehashIndex == old(rehashIndex) && |old(Model()).t0| > 0 && (rehashIndex != -1 ==> |old(Model()).t1| > 0)
      ensures var d := old(Model()); var e := Entry(node.key, old(node.value));
              Model() == if rehashIndex != -1 then d.(t1 := D.Push(d.t1, e), used1 := d.used1 + 1)
                         else d.(t0 := D.Push(d.t0, e), used0 := d.used0 + 1)
      ensures node.value == old(node.value) && forall x :: x in old(Nodes()) ==> x.value == old(x.value)
    {
      hide SubTable.Valid, Djb2, Fold, D.Valid;
      InsertKeeps(Model(), node.key, node.value, true);
      PushOnlyKeeps(Model(), node.key, node.value);
      repr := repr + {node};
      if rehashIndex != -1 {
        t1.Push(Fold(hash, t1.heads.Length), node);
      } else {
        t0.Push(Fold(hash, t0.heads.Length), node);
      }
    }

    /** Adds a node for a new key, and starts a resize at load factor one. */
    method InsertEntry(key: Key, v: Value, hash: nat, bucketsOk: bool) returns (node: Node)
      requires Valid() && Lookup(Model(), key) == None && hash == Djb2(key, |key|)
      modifies repr
      ensures Valid() && fresh(repr - old(repr))
      ensures |old(Model()).t0| > 0 && (old(Model()).Rehashing() ==> |old(Model()).t1| > 0)
      ensures Model() == Insert(old(Model()), key, v, bucketsOk)
      ensures fresh(node) && node.key == key && Nodes() == old(Nodes()) + {node}
      ensures forall x :: x in old(Nodes()) ==> x.value == old(x.value)
    {
      hide Linked, Djb2, D.Valid, D.MaybeStartRehash, D.Push, Lookup;
      node := new Node(key, v);
      LinkNew(node, hash);
      if rehashIndex == -1 && t0.used >= t0.heads.Length {
        Sized();
        MaybeStartRehash(bucketsOk);
      } else {
        Sized();
      }
    }

    lemma Sized()
      requires Valid()
      ensures t0.heads.Length == |t0.model| && t1.heads.Length == |t1.model|
    {
      hide D.Valid;
    }

    /** Finds the node of a key and overwrites its value, or inserts a node for it. */
    method StoreEntry(key: Key, value: Value, mem: Alloc) returns (ok: bool)
      requires Valid()
      modifies repr
      ensures Valid() && fresh(repr - old(repr))
      ensures ok == SetSucceeds(Lookup(old(Model()), key), value, mem)
      ensures |old(Model()).t0| > 0 && (old(Model()).Rehashing() ==> |old(Model()).t1| > 0)
      ensures Model() == if !ok then old(Model())
                         else if Lookup(old(Model()), key).Some? then Overwrite(old(Model()), key, value)
                         else Insert(old(Model()), key, value, mem.buckets)
      ensures old(Nodes()) <= Nodes() && forall x :: x in Nodes() && x !in old(Nodes()) ==> fresh(x)
      ensures |Nodes() - old(Nodes())| == if ok && Lookup(old(Model()), key) == None then 1 else 0
      ensures forall x :: x in old(Nodes()) && x.key != key ==> x.value == old(x.value)
    {
      hide Linked, D.Valid, Lookup, Overwrite, Insert;
      RehashStepReady(Model());
      var hash := ComputeHash(key);
      var current, inT1 := FindEntry(key, hash);
      if current != null && |current.value.bytes| == |value.bytes| {
        OverwriteEntry(current, inT1, key, value);
        return true;
      }
      if !mem.value {
        return false;
      }
      if current != null {
        OverwriteEntry(current, inT1, key, value);
        return true;
      }
      if !mem.node {
        return false;
      }
      var node := InsertEntry(key, value, hash, mem.buckets);
      assert Nodes() - old(Nodes()) == {node};
      return true;
    }

    /** Stores a value under a key. Fails, changing nothing a reader sees, when memory runs out.
        Existing nodes stay, and only a new key brings a new one. */
    method SetValue(key: Key, value: Value, mem: Alloc) returns (ok: bool)
      requires Valid()
      modifies repr
      ensures Valid() && fresh(repr - old(repr))
      ensures (Model(), ok) == Set(old(Model()), key, value, mem)
      ensures ok == SetSucceeds(MapLookup(old(Contents()), key), value, mem)
      ensures Contents() == if ok then old(Contents())[key := value] else old(Contents())
      ensures old(Nodes()) <= Nodes() && forall x :: x in Nodes() && x !in old(Nodes()) ==> fresh(x)
      ensures |Nodes() - old(Nodes())| == if ok && key !in old(Contents()) then 1 else 0
      ensures forall x :: x in old(Nodes()) && x.key != key ==> x.value == old(x.value)
      ensures G.Calm(old(Model()), Model())
    {
      hide Linked, D.Valid, Lookup, AsMap, G.Calm, Overwrite, Insert, D.RehashStep, SetSucceeds, Nodes;
      SetRefinesMap(Model(), key, value, mem);
      G.SetCalm(Model(), key, value, mem);
      RehashStepKeepsValid(Model());
      AsMapLookup(Model(), key);
      RehashStep();
      ghost var nodes := Nodes();
      ok := StoreEntry(key, value, mem);
      assert Nodes() - nodes == Nodes() - old(Nodes());
    }

    /** Unlinks the node of a key, from whichever table holds it. */
    method DeleteValue(key: Key) returns (ok: bool)
      requires Valid()
      modifies repr
      ensures Valid() && repr == old(repr)
      ensures (Model(), ok) == Delete(old(Model()), key)
      ensures ok == (key in old(Contents())) && Contents() == old(Contents()) - {key}
      ensures !ok ==> Chains() == old(Chains())
      ensures Total() == old(Total()) && rehashIndex == old(rehashIndex) && G.Calm(old(Model()), Model())
      ensures ok ==>
                && Lookup(old(Model()), key).Some?
                && var p := PosOf(old(Model()), key); var j := IndexOf(AllBuckets(old(Model()))[p], key);
                   && p < |old(Chains())| && j < |old(Chains())[p]|
                   && Chains() == old(Chains())[p := Unlinked(old(Chains())[p], j)]
    {
      hide SubTable.Valid, Djb2, Fold, D.Valid, AsMap, IndexOf, G.Calm;
      DeleteRefinesMap(Model(), key);
      G.DeleteCalm(Model(), key);
      DeleteReady(Model(), key);
      var hash := ComputeHash(key);
      ok := t0.Remove(Fold(hash, t0.heads.Length), key);
      if !ok && rehashIndex != -1 {
        ok := t1.Remove(Fold(hash, t1.heads.Length), key);
      }
    }
  }

  /** Creates a table whose bucket count is the requested one rounded up to a power of two; beyond
      half the word range the count wraps, and the table has no buckets. */
  method CreateHashTable(size: nat, width: nat, headerOk: bool, bucketsOk: bool) returns (t: HashTable?)
    requires 0 < width && size < Pow2(width)
    ensures t == null <==> size == 0 || !headerOk || !bucketsOk
    ensures t != null ==> t.Linked() && fresh(t) && fresh(t.repr) && t.Model() == Create(NextPow2(size, width))
    ensures t != null && size <= Pow2(width - 1) ==>
              && t.Valid() && t.Contents() == map[]
              && |t.t0.model| >= size && (|t.t0.model| == 1 || |t.t0.model| < 2 * size)
    ensures t != null && size > Pow2(width - 1) ==> |t.t0.model| == 0
  {
    hide NextPow2, IsPow2;
    if size == 0 || !headerOk {
      return null;
    }
    NextPow2Least(size, width);
    if !bucketsOk {
      return null;
    }
    t := new HashTable(NextPow2(size, width));
  }
}
