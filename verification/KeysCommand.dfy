/** KEYS in place: it lists the live keys while dropping expired ones from the chains it walks. */
module KeysCommand {
  import opened Common
  import opened Dictionary
  import opened DictionaryRuns
  import opened DictionaryWalk
  import opened SubTables
  import opened HashTables
  import opened Listing
  import opened Walks
  import D = Dictionary
  import S = Store
  import DB = Database
  import E = ExpirySweep
  import G = DictionaryGrowth

  // ---------- What a walk has visited ----------

  /** Keys of the buckets before p, and of the first j entries of bucket p. */
  ghost function Visited(d: Dict, p: nat, j: nat): set<Key>
    requires D.Valid(d)
  {
    set k | k in AsMap(d) && Before(d, k, p, j)
  }

  ghost predicate Before(d: Dict, k: Key, p: nat, j: nat)
    requires D.Valid(d) && k in AsMap(d)
  {
    AsMapLookup(d, k);
    var q := PosOf(d, k);
    q < p || (q == p && IndexOf(AllBuckets(d)[q], k) < j)
  }

  lemma VisitNext(d: Dict, p: nat, j: nat)
    requires D.Valid(d) && p < |AllBuckets(d)| && j < |AllBuckets(d)[p]|
    ensures var k := AllBuckets(d)[p][j].key;
            k in AsMap(d) && k !in Visited(d, p, j) && Visited(d, p, j + 1) == Visited(d, p, j) + {k}
  {
    hide D.Valid, AsMap, IndexOf, PosOf, AllBuckets;
    var k := AllBuckets(d)[p][j].key;
    EntryAt(d, p, j);
    AsMapLookup(d, k);
    forall q | q in AsMap(d) ensures Before(d, q, p, j + 1) <==> Before(d, q, p, j) || q == k {
      AsMapLookup(d, q);
      KeyInBucket(d, q);
      if PosOf(d, q) == p && IndexOf(AllBuckets(d)[p], q) == j {
        assert q == k;
      }
    }
  }

  lemma VisitBucket(d: Dict, p: nat)
    requires D.Valid(d) && p < |AllBuckets(d)|
    ensures Visited(d, p, |AllBuckets(d)[p]|) == Visited(d, p + 1, 0)
  {
    hide D.Valid, AsMap, IndexOf, PosOf, AllBuckets;
    forall k | k in AsMap(d) ensures Before(d, k, p, |AllBuckets(d)[p]|) <==> Before(d, k, p + 1, 0) {
      AsMapLookup(d, k);
      KeyInBucket(d, k);
    }
  }

  lemma VisitAll(d: Dict)
    requires D.Valid(d)
    ensures Visited(d, 0, 0) == {} && Visited(d, |AllBuckets(d)|, 0) == AsMap(d).Keys
  {
    hide D.Valid, AsMap, IndexOf, AllBuckets;
    forall k | k in AsMap(d) ensures Before(d, k, |AllBuckets(d)|, 0) && !Before(d, k, 0, 0) {
      AsMapLookup(d, k);
    }
  }

  // ---------- Progress of the listing ----------

  /** After visiting `seen`: expired keys among them are gone, live ones are listed in order. */
  ghost predicate Progress(before: S.Db, now: int, seen: set<Key>, db: S.Db, order: seq<Key>) {
    && db == S.Forget(before, S.DeadKeys(before, now) * seen)
    && Lists(order, S.LiveKeys(before, now) * seen)
  }

  lemma ProgressStart(before: S.Db, now: int)
    ensures Progress(before, now, {}, before, [])
  {
    assert S.DeadKeys(before, now) * {} == {};
    assert S.LiveKeys(before, now) * {} == {};
  }

  lemma ProgressDead(before: S.Db, now: int, seen: set<Key>, db: S.Db, order: seq<Key>, k: Key)
    requires Progress(before, now, seen, db, order) && k in before.store && k !in seen
    ensures S.Expired(db, k, now) <==> S.Expired(before, k, now)
    ensures S.Expired(before, k, now) ==> Progress(before, now, seen + {k}, S.Forget(db, {k}), order)
  {
    hide Lists;
    var dead, live := S.DeadKeys(before, now), S.LiveKeys(before, now);
    if S.Expired(before, k, now) {
      assert dead * (seen + {k}) == dead * seen + {k};
      assert live * (seen + {k}) == live * seen;
      E.ForgetMore(before, dead * seen, k);
    }
  }

  lemma ProgressLive(before: S.Db, now: int, seen: set<Key>, db: S.Db, order: seq<Key>, k: Key)
    requires Progress(before, now, seen, db, order) && k in before.store && k !in seen && !S.Expired(before, k, now)
    ensures Progress(before, now, seen + {k}, db, order + [k])
  {
    var dead, live := S.DeadKeys(before, now), S.LiveKeys(before, now);
    assert dead * (seen + {k}) == dead * seen;
    assert live * (seen + {k}) == live * seen + {k};
    ListsSnoc(order, live * seen, k);
  }

  lemma ListsSnoc(order: seq<Key>, keys: set<Key>, k: Key)
    requires Lists(order, keys) && k !in keys
    ensures Lists(order + [k], keys + {k})
  {
    var order' := order + [k];
    assert forall i :: 0 <= i < |order| ==> order[i] in order;
    assert forall q :: q in order' <==> q in order || q == k;
  }

  // ---------- The walk ----------

  /** Visits one entry: remembers its successor, drops it if expired, and tells its key otherwise. */
  method Visit(db: DB.Database, p: nat, entry: Node, now: int, ghost c: seq<Node>, ghost m: Chain, ghost all: Table,
               ghost kept: seq<Node>, ghost j: nat, ghost dead: set<Key>)
    returns (next: Node?, dropped: bool, ghost kept': seq<Node>)
    requires db.Valid() && p < db.store.Total()
    requires WalkAt(db.store, p, c, m, all, kept, j, dead) && j < |c| && entry == c[j]
    requires S.Expired(db.Maps(), m[j].key, now) <==> m[j].key in dead
    modifies db.store.repr, db.expires.repr
    ensures db.Valid() && db.store.Total() == old(db.store.Total())
    ensures db.expires.Total() == old(db.expires.Total()) && db.expires.rehashIndex == old(db.expires.rehashIndex)
    ensures fresh(db.store.repr - old(db.store.repr)) && fresh(db.expires.repr - old(db.expires.repr))
    ensures WalkAt(db.store, p, c, m, all, kept', j + 1, dead) && next == NodeAt(c, j + 1)
    ensures entry.key == m[j].key && dropped == (m[j].key in dead)
    ensures db.Maps() == if dropped then S.Forget(old(db.Maps()), {m[j].key}) else old(db.Maps())
  {
    hide HashTable.Valid, AsMap, D.Valid, S.Expired, HashTable.Chains, AllBuckets, WalkAt;
    AtEntry(db.store, p, c, m, all, kept, j, dead);
    next := entry.next;
    dropped := db.IsExpired(entry.key, now);
    kept' := kept;
    if dropped {
      var _ := db.expires.DeleteValue(entry.key);
      Drop(db.store, p, entry, c, m, all, kept, j, dead);
    } else {
      Pass(db.store, p, c, m, all, kept, j, dead);
      kept' := kept + [entry];
    }
  }

  /** Appends the line of a key to the scratch buffer, unless that would break the budget. */
  method AddLine(buf: Bytes, capacity: nat, count: nat, key: Key, ghost order: seq<Key>)
    returns (ok: bool, buf': Bytes, capacity': nat)
    requires buf == Lines(order) && count == |order| && |buf| <= capacity <= S.MAX_LISTING
    ensures ok <==> |Lines(order + [key])| <= S.MAX_LISTING
    ensures ok ==> buf' == Lines(order + [key]) && |buf'| <= capacity' <= S.MAX_LISTING
  {
    hide Lines, Number;
    LinesSnoc(order, key);
    var number := Number(count + 1);
    var lineLen := |number| + |key| + 1;
    buf', capacity' := buf, capacity;
    if lineLen > S.MAX_LISTING - |buf| {
      return false, buf', capacity';
    }
    capacity' := Grow(capacity, |buf| + lineLen);
    buf' := buf + number + key + [NEWLINE];
    assert buf' == buf + Line(count + 1, key);
    ok := true;
  }

  /** Lists the live keys of bucket p, dropping its expired ones. */
  method ListBucket(db: DB.Database, p: nat, now: int, buf: Bytes, capacity: nat, count: nat,
                    ghost before: S.Db, ghost d: Dict, ghost order: seq<Key>)
    returns (ok: bool, buf': Bytes, capacity': nat, count': nat, ghost order': seq<Key>, ghost seen: set<Key>)
    requires db.Valid() && p < db.store.Total()
    requires D.Valid(d) && before.store == AsMap(d) && |AllBuckets(d)| == db.store.Total()
    requires |AllBuckets(db.store.Model())| == |AllBuckets(d)| && AllBuckets(db.store.Model())[p] == AllBuckets(d)[p]
    requires Progress(before, now, Visited(d, p, 0), db.Maps(), order)
    requires buf == Lines(order) && count == |order| && |buf| <= capacity <= S.MAX_LISTING
    modifies db.store.repr, db.expires.repr
    ensures db.Valid() && db.store.Total() == old(db.store.Total())
    ensures db.expires.Total() == old(db.expires.Total()) && db.expires.rehashIndex == old(db.expires.rehashIndex)
    ensures fresh(db.store.repr - old(db.store.repr)) && fresh(db.expires.repr - old(db.expires.repr))
    ensures |AllBuckets(db.store.Model())| == |AllBuckets(d)|
    ensures forall q :: 0 <= q < |AllBuckets(d)| && q != p ==>
              AllBuckets(db.store.Model())[q] == old(AllBuckets(db.store.Model()))[q]
    ensures db.Maps() == S.Forget(before, S.DeadKeys(before, now) * seen)
    ensures ok ==>
              && Progress(before, now, Visited(d, p + 1, 0), db.Maps(), order')
              && buf' == Lines(order') && count' == |order'| && |buf'| <= capacity' <= S.MAX_LISTING
    ensures !ok ==> !S.ListingFits(S.LiveKeys(before, now))
  {
    hide DB.Database.Valid, DB.Database.Maps, HashTable.Valid, AsMap, D.Valid, WalkAt, Keep, Visited, Progress, Lines, AllBuckets, S.ListingFits;
    ghost var dead := S.DeadKeys(before, now);
    ok, buf', capacity', count', order', seen := true, buf, capacity, count, order, Visited(d, p, 0);
    var entry;
    ghost var c, m, all;
    entry, c, m, all := OpenStore(db, p, dead);
    ghost var kept, j := [], 0;
    ProgressForgets(before, now, seen, db.Maps(), order');
    while entry != null
      invariant db.Valid() && db.store.Total() == old(db.store.Total())
      invariant db.expires.Total() == old(db.expires.Total()) && db.expires.rehashIndex == old(db.expires.rehashIndex)
      invariant fresh(db.store.repr - old(db.store.repr)) && fresh(db.expires.repr - old(db.expires.repr))
      invariant j <= |m| && WalkAt(db.store, p, c, m, all, kept, j, dead) && entry == NodeAt(c, j)
      invariant seen == Visited(d, p, j) && Progress(before, now, seen, db.Maps(), order')
      invariant buf' == Lines(order') && count' == |order'| && |buf'| <= capacity' <= S.MAX_LISTING
      decreases |m| - j
    {
      ghost var k := m[j].key;
      VisitNext(d, p, j);
      InDead(before, now, k);
      ProgressDead(before, now, seen, db.Maps(), order', k);
      var current := entry;
      var dropped;
      entry, dropped, kept := Visit(db, p, current, now, c, m, all, kept, j, dead);
      if !dropped {
        ProgressLive(before, now, seen, db.Maps(), order', k);
        ProgressForgets(before, now, seen, db.Maps(), order');
        ProgressForgets(before, now, seen + {k}, db.Maps(), order' + [k]);
        ok, buf', capacity' := AddLine(buf', capacity', count', current.key, order');
        if !ok {
          TooLong(order' + [k], S.LiveKeys(before, now) * (seen + {k}), S.LiveKeys(before, now));
          OthersSame(db.store, p, c, m, all, kept, j + 1, dead);
          return;
        }
        count' := count' + 1;
        order' := order' + [k];
      }
      j := j + 1;
      seen := seen + {k};
    }
    ProgressForgets(before, now, seen, db.Maps(), order');
    OthersSame(db.store, p, c, m, all, kept, j, dead);
    VisitBucket(d, p);
  }

  method OpenStore(db: DB.Database, p: nat, ghost dead: set<Key>)
    returns (entry: Node?, ghost c: seq<Node>, ghost m: Chain, ghost all: Table)
    requires db.Valid() && p < db.store.Total()
    ensures all == AllBuckets(db.store.Model()) && p < |all| && |all| == db.store.Total()
    ensures m == all[p] && |c| == |m| && entry == NodeAt(c, 0)
    ensures WalkAt(db.store, p, c, m, all, [], 0, dead)
  {
    hide HashTable.Valid, AsMap, WalkAt;
    entry, c, m, all := Open(db.store, p, dead);
  }

  lemma ProgressForgets(before: S.Db, now: int, seen: set<Key>, db: S.Db, order: seq<Key>)
    requires Progress(before, now, seen, db, order)
    ensures db == S.Forget(before, S.DeadKeys(before, now) * seen)
    ensures Lists(order, S.LiveKeys(before, now) * seen)
  {
  }

  lemma InDead(db: S.Db, now: int, k: Key)
    ensures k in S.DeadKeys(db, now) <==> k in db.store && S.Expired(db, k, now)
  {
  }

  /** KEYS: every live key once, numbered in the order met, or an error when that is too long. */
  method ListKeys(db: DB.Database, now: int) returns (text: Option<Bytes>, ghost order: seq<Key>, ghost cleaned: set<Key>)
    requires db.Valid()
    modifies db.store.repr, db.expires.repr
    ensures db.Valid() && fresh(db.store.repr - old(db.store.repr)) && fresh(db.expires.repr - old(db.expires.repr))
    ensures var (db', reply) := S.KeysStep(old(db.Maps()), now, cleaned);
            && db.Maps() == db'
            && (text == None <==> reply == S.Error)
            && (text.Some? ==> reply.Listing? && Lists(order, reply.keys) && text.value == Text(order))
    ensures text.Some? ==> Enumerates(text.value, order)
    ensures G.Calm(old(db.Deadlines()), db.Deadlines())
  {
    hide DB.Database.Valid, DB.Database.Maps, DB.Database.Deadlines, G.Calm, HashTable.Valid, AsMap, D.Valid, Visited, Progress, Lines, Enumerates,
         AllBuckets, S.ListingFits;
    ghost var before, d := db.Maps(), db.store.Model();
    StartListing(db, now);
    Shape(db);
    order, cleaned := [], {};
    var total := db.store.Total();
    var buf: Bytes, capacity: nat, count: nat := [], 4096, 0;
    for p := 0 to total
      invariant db.Valid() && db.store.Total() == total
      invariant db.expires.Total() == old(db.expires.Total()) && db.expires.rehashIndex == old(db.expires.rehashIndex)
      invariant fresh(db.store.repr - old(db.store.repr)) && fresh(db.expires.repr - old(db.expires.repr))
      invariant |AllBuckets(db.store.Model())| == |AllBuckets(d)|
      invariant forall q :: p <= q < total ==> AllBuckets(db.store.Model())[q] == AllBuckets(d)[q]
      invariant Progress(before, now, Visited(d, p, 0), db.Maps(), order)
      invariant buf == Lines(order) && count == |order| && |buf| <= capacity <= S.MAX_LISTING
    {
      var ok;
      ok, buf, capacity, count, order, cleaned := ListBucket(db, p, now, buf, capacity, count, before, d, order);
      Shape(db);
      StaysCalm(old(db.Deadlines()), db.Deadlines());
      if !ok {
        return None, order, cleaned;
      }
    }
    Shape(db);
    StaysCalm(old(db.Deadlines()), db.Deadlines());
    EndListing(before, d, now, db.Maps(), order);
    TextEnumerates(order);
    return Some(if |buf| == 0 then [] else buf[..|buf| - 1]), order, cleaned;
  }

  lemma Shape(db: DB.Database)
    requires db.Valid()
    ensures var d := db.Deadlines(); D.Valid(d) && |AllBuckets(d)| == db.expires.Total() && d.rehash == db.expires.rehashIndex
  {
    hide AsMap, D.Valid;
    db.expires.Sizes();
  }

  lemma StaysCalm(d: Dict, d': Dict)
    requires D.Valid(d) && D.Valid(d') && |AllBuckets(d')| == |AllBuckets(d)| && d'.rehash == d.rehash
    ensures G.Calm(d, d')
  {
    hide AsMap;
  }

  lemma StartListing(db: DB.Database, now: int)
    requires db.Valid()
    ensures D.Valid(db.store.Model()) && db.Maps().store == AsMap(db.store.Model())
    ensures |AllBuckets(db.store.Model())| == db.store.Total()
    ensures Visited(db.store.Model(), 0, 0) == {} && Progress(db.Maps(), now, {}, db.Maps(), [])
    ensures Lines([]) == []
  {
    hide HashTable.Valid, AsMap, D.Valid, AllBuckets, Progress, Visited;
    db.store.Sizes();
    VisitAll(db.store.Model());
    ProgressStart(db.Maps(), now);
  }

  lemma EndListing(before: S.Db, d: Dict, now: int, db: S.Db, order: seq<Key>)
    requires D.Valid(d) && before.store == AsMap(d)
    requires Progress(before, now, Visited(d, |AllBuckets(d)|, 0), db, order)
    requires |Lines(order)| <= S.MAX_LISTING
    ensures db == S.Forget(before, S.DeadKeys(before, now)) && Lists(order, S.LiveKeys(before, now))
    ensures S.ListingFits(S.LiveKeys(before, now))
  {
    hide D.Valid, AsMap, AllBuckets, Lists, Lines, S.ListingFits, Visited;
    VisitAll(d);
    assert S.DeadKeys(before, now) * before.store.Keys == S.DeadKeys(before, now);
    assert S.LiveKeys(before, now) * before.store.Keys == S.LiveKeys(before, now);
    FitsByLength(order, S.LiveKeys(before, now));
  }
}
