/** The sweep in place: it walks chains of the deadline table while deleting from them. */
module ExpirySweep {
  import opened Dictionary
  import opened DictionaryRuns
  import opened DictionaryWalk
  import opened SubTables
  import opened HashTables
  import opened Sweeping
  import opened Walks
  import S = Store
  import DB = Database

  lemma EmptyWalk(db: S.Db, now: int)
    ensures OverdueIn([], now) == {} && S.Forget(db, {}) == db
  {
  }

  lemma ForgetMore(db: S.Db, keys: set<Key>, k: Key)
    ensures S.Forget(S.Forget(db, keys), {k}) == S.Forget(db, keys + {k})
  {
  }

  lemma ForgetAll(db: S.Db, a: set<Key>, b: set<Key>)
    ensures S.Forget(S.Forget(db, a), b) == S.Forget(db, a + b)
  {
  }

  lemma PosShrinks(d: Dict, d': Dict, here: set<Key>)
    requires Dictionary.Valid(d) && Dictionary.Valid(d') && AsMap(d') == AsMap(d) - here
    requires forall k :: k in AsMap(d') ==> k in AsMap(d) && PosMap(d')[k] == PosMap(d)[k]
    ensures PosMap(d') == PosMap(d) - here
  {
    hide Dictionary.Valid, AsMap, PosOf;
  }

  lemma NothingSwept(v: Sweeper, total: nat, now: int)
    requires total > 0
    ensures Swept(v.db, v.pos, v.cursor, 0, total, now) == {}
    ensures S.Forget(v.db, {}) == v.db && v.pos - {} == v.pos
  {
  }

  class ExpirySweep {
    const db: DB.Database
    var cursor: nat

    constructor (db: DB.Database)
      ensures this.db == db && cursor == 0
    {
      this.db := db;
      cursor := 0;
    }

    /** The bucket space of the deadline table. */
    ghost function Buckets(): Table
      reads this, db, db.expires, db.expires.t0, db.expires.t1
    {
      AllBuckets(db.expires.Model())
    }

    /** Visits one entry of a bucket: remembers its successor, then deletes it if it is overdue. */
    method Visit(p: nat, entry: Node, now: int, ghost c: seq<Node>, ghost m: Chain, ghost all: Table,
                 ghost kept: seq<Node>, ghost j: nat)
      returns (next: Node?, deleted: nat, ghost kept': seq<Node>)
      requires db.Valid() && p < db.expires.Total() && Distinct(m)
      requires WalkAt(db.expires, p, c, m, all, kept, j, OverdueIn(m, now)) && j < |c| && entry == c[j]
      modifies db.store.repr, db.expires.repr
      ensures db.Valid() && db.expires.Total() == old(db.expires.Total())
      ensures db.expires.rehashIndex == old(db.expires.rehashIndex)
      ensures fresh(db.store.repr - old(db.store.repr)) && fresh(db.expires.repr - old(db.expires.repr))
      ensures WalkAt(db.expires, p, c, m, all, kept', j + 1, OverdueIn(m, now)) && next == NodeAt(c, j + 1)
      ensures deleted == if Overdue(m[j].value, now) then 1 else 0
      ensures db.Maps() == if Overdue(m[j].value, now) then S.Forget(old(db.Maps()), {m[j].key}) else old(db.Maps())
    {
      hide HashTable.Valid, AsMap, Dictionary.Valid, S.FromBigEndian, HashTable.Chains, AllBuckets, OverdueIn, WalkAt;
      ghost var dead := OverdueIn(m, now);
      AtEntry(db.expires, p, c, m, all, kept, j, dead);
      OverdueKey(m, j, now);
      next := entry.next;
      deleted := 0;
      kept' := kept;
      if |entry.value.bytes| == 8 && S.FromBigEndian(entry.value.bytes) <= now {
        var _ := db.store.DeleteValue(entry.key);
        Drop(db.expires, p, entry, c, m, all, kept, j, dead);
        deleted := 1;
      } else {
        Pass(db.expires, p, c, m, all, kept, j, dead);
        kept' := kept + [entry];
      }
    }

    /** Deletes every entry of bucket p that is past its deadline, from both tables. */
    method SweepBucket(p: nat, now: int) returns (deleted: nat)
      requires db.Valid() && p < db.expires.Total()
      modifies db.store.repr, db.expires.repr
      ensures db.Valid() && db.expires.Total() == old(db.expires.Total())
      ensures db.expires.rehashIndex == old(db.expires.rehashIndex)
      ensures fresh(db.store.repr - old(db.store.repr)) && fresh(db.expires.repr - old(db.expires.repr))
      ensures |old(Buckets())| == old(db.expires.Total())
      ensures var dead := OverdueIn(old(Buckets())[p], now);
              && Buckets() == old(Buckets())[p := Keep(old(Buckets())[p], dead)]
              && db.Maps() == S.Forget(old(db.Maps()), dead) && deleted == |dead|
    {
      hide DB.Database.Maps, HashTable.Valid, AsMap, Dictionary.Valid, OverdueIn, Overdue, WalkAt, AllBuckets, Keep, S.Forget;
      deleted := 0;
      db.expires.Sizes();
      ghost var dead := OverdueIn(Buckets()[p], now);
      var entry;
      ghost var c, m, all;
      entry, c, m, all := Open(db.expires, p, dead);
      ghost var kept, j := [], 0;
      EmptyWalk(db.Maps(), now);
      assert m[..0] == [];
      while entry != null
        invariant db.Valid() && db.expires.Total() == old(db.expires.Total())
        invariant db.expires.rehashIndex == old(db.expires.rehashIndex)
        invariant fresh(db.store.repr - old(db.store.repr)) && fresh(db.expires.repr - old(db.expires.repr))
        invariant j <= |m| && WalkAt(db.expires, p, c, m, all, kept, j, dead) && entry == NodeAt(c, j)
        invariant db.Maps() == S.Forget(old(db.Maps()), OverdueIn(m[..j], now))
        invariant deleted == |OverdueIn(m[..j], now)|
        decreases |m| - j
      {
        var more: nat;
        OverdueSnoc(m, j, now);
        ForgetMore(old(db.Maps()), OverdueIn(m[..j], now), m[j].key);
        entry, more, kept := Visit(p, entry, now, c, m, all, kept, j);
        deleted := deleted + more;
        j := j + 1;
      }
      AtEnd(db.expires, p, c, m, all, kept, dead);
      assert m[..j] == m;
    }

    /** The abstract sweeper this object stands for. */
    ghost function View(): Sweeper
      requires db.Valid()
      reads this, db, db.store, db.expires, db.store.repr, db.expires.repr
    {
      Sweeper(db.Maps(), PosMap(db.expires.Model()), cursor)
    }

    lemma TotalPositive()
      requires db.Valid()
      ensures db.expires.Total() > 0 && PosMap(db.expires.Model()).Keys == db.Maps().expires.Keys
    {
      hide HashTable.Valid, AsMap;
      db.expires.Sizes();
      RehashStepReady(db.expires.Model());
    }

    /** Sweeps the i-th bucket of the window. */
    method SweepWindow(i: nat, total: nat, now: int, ghost v: Sweeper) returns (deleted: nat)
      requires db.Valid() && db.expires.Total() == total > 0 && cursor == v.cursor
      requires v.pos.Keys == v.db.expires.Keys
      requires db.Maps() == S.Forget(v.db, Swept(v.db, v.pos, v.cursor, i, total, now))
      requires PosMap(db.expires.Model()) == v.pos - Swept(v.db, v.pos, v.cursor, i, total, now)
      modifies db.store.repr, db.expires.repr
      ensures db.Valid() && db.expires.Total() == total && db.expires.rehashIndex == old(db.expires.rehashIndex)
      ensures fresh(db.store.repr - old(db.store.repr)) && fresh(db.expires.repr - old(db.expires.repr))
      ensures deleted == |Swept(v.db, v.pos, v.cursor, i + 1, total, now)| - |Swept(v.db, v.pos, v.cursor, i, total, now)|
      ensures db.Maps() == S.Forget(v.db, Swept(v.db, v.pos, v.cursor, i + 1, total, now))
      ensures PosMap(db.expires.Model()) == v.pos - Swept(v.db, v.pos, v.cursor, i + 1, total, now)
    {
      hide HashTable.Valid, AsMap, Dictionary.Valid, PosMap, OverdueIn, Keep, Swept;
      var p := (cursor + i) % total;
      ghost var d := db.expires.Model();
      db.expires.Sizes();
      SweptSnoc(v.db, d, v.pos, v.cursor, i, total, now);
      deleted := SweepBucket(p, now);
      ghost var gone, here := Swept(v.db, v.pos, v.cursor, i, total, now), OverdueIn(AllBuckets(d)[p], now);
      PosAfterBucket(d, db.expires.Model(), p, here);
      ForgetAll(v.db, gone, here);
      PosShrinks(d, db.expires.Model(), here);
      assert v.pos - gone - here == v.pos - (gone + here);
      assert |gone + here| == |gone| + |here|;
    }

    /** One sweep: visits `sample` buckets from the cursor on and advances it past them. */
    method Sweep(sample: nat, now: int) returns (deleted: nat)
      requires db.Valid() && this !in db.store.repr && this !in db.expires.repr
      modifies this, db.store.repr, db.expires.repr
      ensures db.Valid() && db.expires.Total() == old(db.expires.Total()) > 0
      ensures db.expires.rehashIndex == old(db.expires.rehashIndex)
      ensures fresh(db.store.repr - old(db.store.repr)) && fresh(db.expires.repr - old(db.expires.repr))
      ensures View() == SweepStep(old(View()), db.expires.Total(), sample, now)
      ensures deleted == |Swept(old(View()).db, old(View()).pos, old(cursor), sample, db.expires.Total(), now)|
    {
      hide HashTable.Valid, AsMap, Dictionary.Valid, PosMap, Swept, DB.Database.Maps;
      var total := db.expires.Total();
      ghost var v := View();
      TotalPositive();
      deleted := 0;
      NothingSwept(v, total, now);
      for i := 0 to sample
        invariant db.Valid() && db.expires.Total() == total && cursor == old(cursor)
        invariant db.expires.rehashIndex == old(db.expires.rehashIndex)
        invariant fresh(db.store.repr - old(db.store.repr)) && fresh(db.expires.repr - old(db.expires.repr))
        invariant deleted == |Swept(v.db, v.pos, v.cursor, i, total, now)|
        invariant db.Maps() == S.Forget(v.db, Swept(v.db, v.pos, v.cursor, i, total, now))
        invariant PosMap(db.expires.Model()) == v.pos - Swept(v.db, v.pos, v.cursor, i, total, now)
      {
        var more := SweepWindow(i, total, now, v);
        deleted := deleted + more;
      }
      cursor := (cursor + sample) % total;
    }

    /** Every deadline has a bucket of the space that the sweeps go round. */
    lemma PositionsOk()
      requires db.Valid()
      ensures db.expires.Total() > 0 && PosOk(View(), db.expires.Total())
    {
      hide HashTable.Valid, AsMap, Dictionary.Valid;
      TotalPositive();
      db.expires.Sizes();
      forall k | k in View().pos ensures View().pos[k] < db.expires.Total() {
        AsMapLookup(db.expires.Model(), k);
      }
    }

    /** Sweeps in a row: together they are the run of sweeps; none touches a key that is not past its
        deadline, the counts add up, and once they visited as many buckets as there are, every key
        past its deadline when they began is gone from both tables. */
    method SweepRound(sample: nat, times: seq<int>) returns (deleted: nat)
      requires db.Valid() && this !in db.store.repr && this !in db.expires.repr
      modifies this, db.store.repr, db.expires.repr
      ensures db.Valid() && db.expires.Total() == old(db.expires.Total()) > 0
      ensures fresh(db.store.repr - old(db.store.repr)) && fresh(db.expires.repr - old(db.expires.repr))
      ensures View() == SweepRun(old(View()), db.expires.Total(), sample, times)
      ensures deleted == |old(db.Maps()).expires| - |db.Maps().expires|
      ensures forall now :: AtLeast(times, now) && |times| * sample >= db.expires.Total() ==>
                AllGone(old(db.Maps()), db.Maps(), now)
      ensures forall k :: NeverDue(old(db.Maps()), k, times) ==>
                MapLookup(db.Maps().store, k) == MapLookup(old(db.Maps()).store, k)
                && MapLookup(db.Maps().expires, k) == MapLookup(old(db.Maps()).expires, k)
    {
      hide HashTable.Valid, AsMap, Dictionary.Valid, PosMap, Swept, DB.Database.Maps, SweepStep, PosOk;
      var total := db.expires.Total();
      ghost var v := View();
      PositionsOk();
      deleted := 0;
      assert times[0..] == times;
      for i := 0 to |times|
        invariant db.Valid() && db.expires.Total() == total
        invariant this !in db.store.repr && this !in db.expires.repr
        invariant fresh(db.store.repr - old(db.store.repr)) && fresh(db.expires.repr - old(db.expires.repr))
        invariant SweepRun(View(), total, sample, times[i..]) == SweepRun(v, total, sample, times)
        invariant deleted + Deleted(View(), total, sample, times[i..]) == Deleted(v, total, sample, times)
      {
        assert times[i..][1..] == times[i + 1..];
        var more := Sweep(sample, times[i]);
        deleted := deleted + more;
      }
      CountsAddUp(v, total, sample, times);
      RoundOutcome(v, total, sample, times);
    }
  }

  /** Every key past its deadline before has left both tables after. */
  ghost predicate AllGone(before: S.Db, after: S.Db, now: int) {
    forall k :: k in before.expires && S.Expired(before, k, now) ==> k !in after.expires && k !in after.store
  }

  ghost predicate NeverDue(db: S.Db, k: Key, times: seq<int>) {
    forall i :: 0 <= i < |times| ==> !S.Expired(db, k, times[i])
  }

  lemma RoundOutcome(v: Sweeper, total: nat, sample: nat, times: seq<int>)
    requires total > 0 && PosOk(v, total)
    ensures var r := SweepRun(v, total, sample, times).db;
            && (forall now :: AtLeast(times, now) && |times| * sample >= total ==> AllGone(v.db, r, now))
            && (forall k :: NeverDue(v.db, k, times) ==>
                  MapLookup(r.store, k) == MapLookup(v.db.store, k) && MapLookup(r.expires, k) == MapLookup(v.db.expires, k))
  {
    hide SweepRun, PosOk, RunMoves, Undisturbed;
    forall now, k | AtLeast(times, now) && |times| * sample >= total && k in v.db.expires && S.Expired(v.db, k, now)
      ensures IsGone(SweepRun(v, total, sample, times).db, k)
    {
      SweepsAlone(v, total, sample, times, k);
      FullRound(v, total, sample, OnlySweeps(times), now);
    }
    forall k | NeverDue(v.db, k, times)
      ensures var r := SweepRun(v, total, sample, times).db;
              MapLookup(r.store, k) == MapLookup(v.db.store, k) && MapLookup(r.expires, k) == MapLookup(v.db.expires, k)
    {
      RoundSpares(v, total, sample, times, k);
    }
  }
}
