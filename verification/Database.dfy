/** The command handlers, working in place on the two hash tables of the database. */
module Database {
  import opened Common
  import opened Dictionary
  import opened DictionaryRuns
  import opened HashTables
  import opened Decimal
  import G = DictionaryGrowth
  import S = Store

  class Database {
    const store: HashTable
    const expires: HashTable

    ghost predicate Valid()
      reads this, store, expires, store.repr, expires.repr
    {
      && store.Valid() && expires.Valid()
      && store.repr !! expires.repr
      && this !in store.repr && this !in expires.repr
    }

    /** The database as two maps. */
    ghost function Maps(): S.Db
      reads this, store, store.t0, store.t1, expires, expires.t0, expires.t1
    {
      S.Db(store.Contents(), expires.Contents())
    }

    /** The deadline table as a value. */
    ghost function Deadlines(): Dict
      reads this, expires, expires.t0, expires.t1
    {
      expires.Model()
    }

    constructor (store: HashTable, expires: HashTable)
      requires store.Valid() && expires.Valid() && store.repr !! expires.repr
      ensures Valid() && this.store == store && this.expires == expires
    {
      this.store := store;
      this.expires := expires;
    }

    method IsExpired(key: Key, now: int) returns (r: bool)
      requires Valid()
      ensures r == S.Expired(Maps(), key, now)
    {
      hide HashTable.Valid, AsMap;
      var v := expires.LookupValue(key);
      r := v.Some? && |v.value.bytes| == 8 && S.FromBigEndian(v.value.bytes) <= now;
    }

    /** Drops a key past its deadline from both tables. */
    method CheckAndExpire(key: Key, now: int) returns (dropped: bool)
      requires Valid()
      modifies store.repr, expires.repr
      ensures Valid() && fresh(store.repr - old(store.repr)) && fresh(expires.repr - old(expires.repr))
      ensures Maps() == S.CheckAndExpire(old(Maps()), key, now)
      ensures dropped == S.Expired(old(Maps()), key, now)
      ensures G.Calm(old(Deadlines()), Deadlines())
    {
      hide HashTable.Valid, AsMap, S.Expired, G.Calm;
      G.CalmSelf(Deadlines());
      dropped := IsExpired(key, now);
      if dropped {
        DropExpiry(key);
        DropStore(key);
      }
    }

    method Get(key: Key, now: int) returns (reply: S.Reply)
      requires Valid()
      modifies store.repr, expires.repr
      ensures Valid() && fresh(store.repr - old(store.repr)) && fresh(expires.repr - old(expires.repr))
      ensures (Maps(), reply) == S.GetStep(old(Maps()), now, key)
      ensures G.Calm(old(Deadlines()), Deadlines())
    {
      hide HashTable.Valid, AsMap, S.Expired, G.Calm, Deadlines;
      var dropped := CheckAndExpire(key, now);
      if dropped {
        return S.Error;
      }
      var v := LookupStore(key);
      if v == None {
        return S.Error;
      }
      return S.Data(v.value.bytes);
    }

    // Each table operation, seen as a step on the pair of maps.

    method PutStore(key: Key, v: Value, mem: Alloc) returns (ok: bool)
      requires Valid()
      modifies store.repr
      ensures Valid() && fresh(store.repr - old(store.repr)) && fresh(expires.repr - old(expires.repr))
      ensures ok == S.Put(old(Maps()).store, key, v, mem).1
      ensures Maps() == old(Maps()).(store := S.Put(old(Maps()).store, key, v, mem).0)
      ensures Deadlines() == old(Deadlines())
    {
      hide HashTable.Valid, AsMap;
      ok := store.SetValue(key, v, mem);
    }

    method PutExpiry(key: Key, v: Value, mem: Alloc) returns (ok: bool)
      requires Valid()
      modifies expires.repr
      ensures Valid() && fresh(store.repr - old(store.repr)) && fresh(expires.repr - old(expires.repr))
      ensures ok == S.Put(old(Maps()).expires, key, v, mem).1
      ensures Maps() == old(Maps()).(expires := S.Put(old(Maps()).expires, key, v, mem).0)
      ensures G.Calm(old(Deadlines()), Deadlines())
    {
      hide HashTable.Valid, AsMap, G.Calm;
      ok := expires.SetValue(key, v, mem);
    }

    method DropStore(key: Key)
      requires Valid()
      modifies store.repr
      ensures Valid() && fresh(store.repr - old(store.repr)) && fresh(expires.repr - old(expires.repr))
      ensures Maps() == old(Maps()).(store := old(Maps()).store - {key})
      ensures Deadlines() == old(Deadlines())
    {
      hide HashTable.Valid, AsMap;
      var _ := store.DeleteValue(key);
    }

    method DropExpiry(key: Key)
      requires Valid()
      modifies expires.repr
      ensures Valid() && fresh(store.repr - old(store.repr)) && fresh(expires.repr - old(expires.repr))
      ensures Maps() == old(Maps()).(expires := old(Maps()).expires - {key})
      ensures G.Calm(old(Deadlines()), Deadlines())
    {
      hide HashTable.Valid, AsMap, G.Calm;
      var _ := expires.DeleteValue(key);
    }

    method LookupStore(key: Key) returns (v: Option<Value>)
      requires Valid()
      ensures v == MapLookup(Maps().store, key)
    {
      hide HashTable.Valid, AsMap;
      v := store.LookupValue(key);
    }

    /** SET, with an optional time to live in seconds. */
    method Set(key: Key, bytes: Bytes, ttl: Option<Bytes>, now: int, mem: S.Memory) returns (reply: S.Reply)
      requires Valid() && 0 <= now <= INT64_MAX
      modifies store.repr, expires.repr
      ensures Valid() && fresh(store.repr - old(store.repr)) && fresh(expires.repr - old(expires.repr))
      ensures (Maps(), reply) == S.SetStep(old(Maps()), now, mem, key, bytes, ttl)
      ensures G.Calm(old(Deadlines()), Deadlines())
    {
      hide Database.Valid, Maps, ParseSpec, Deadline, S.Put, S.Undo, S.DeadlineValue, G.Calm, Deadlines;
      G.CalmSelf(Deadlines());
      var deadline: Option<int> := None;
      if ttl.Some? {
        if |ttl.value| > S.MAX_TTL_TEXT {
          return S.Error;
        }
        deadline := ParseDeadlineMs(ttl.value, now);
        if deadline == None {
          return S.Error;
        }
      }
      var parsed := ParseI64(bytes, INT64_MIN, INT64_MAX);
      var value := Value(bytes, if parsed.Some? then IntText else Raw);
      if ttl == None {
        PutFails(Maps().store, key, value, mem.store);
        var ok := PutStore(key, value, mem.store);
        if !ok {
          return S.Error;
        }
        DropExpiry(key);
        return S.Data(bytes);
      }
      DeadlineInt64(ttl.value, now);
      var ok := SetWithDeadline(key, value, deadline.value, mem);
      return if ok then S.Data(bytes) else S.Error;
    }

    lemma DeadlineInt64(s: Bytes, now: int)
      requires 0 <= now <= INT64_MAX
      ensures Deadline(s, now).Some? ==> 0 <= Deadline(s, now).value <= INT64_MAX
    {
    }

    /** Writes a value and its deadline; if the deadline cannot be stored, undoes the value. */
    method SetWithDeadline(key: Key, v: Value, deadline: nat, mem: S.Memory) returns (ok: bool)
      requires Valid()
      modifies store.repr, expires.repr
      ensures Valid() && fresh(store.repr - old(store.repr)) && fresh(expires.repr - old(expires.repr))
      ensures var before := old(Maps());
              var (store', stored) := S.Put(before.store, key, v, mem.store);
              var (expires', dated) := S.Put(before.expires, key, S.DeadlineValue(deadline), mem.expiry);
              && ok == (stored && dated)
              && Maps() == (if !stored then before
                            else if dated then S.Db(store', expires')
                            else S.Undo(before, S.Db(store', expires'), mem, key))
      ensures G.Calm(old(Deadlines()), Deadlines())
    {
      hide Database.Valid, S.Put, S.Undo, S.DeadlineValue, AsMap, HashTable.Valid, G.Calm, Deadlines;
      ghost var before, d := Maps(), Deadlines();
      G.CalmSelf(d);
      DeadlinesMap();
      var oldValue, oldExpiry := Snapshots(key, mem);
      ok := PutStore(key, v, mem.store);
      if !ok {
        PutFails(before.store, key, v, mem.store);
        return false;
      }
      ok := PutExpiry(key, S.DeadlineValue(deadline), mem.expiry);
      if !ok {
        ghost var d1 := Deadlines();
        DeadlinesMap();
        PutFails(before.expires, key, S.DeadlineValue(deadline), mem.expiry);
        RollBack(key, oldValue, oldExpiry, mem, before);
        G.CalmChain(d, d1, Deadlines());
      }
    }

    lemma DeadlinesMap()
      ensures AsMap(Deadlines()) == Maps().expires
    {
    }

    lemma PutFails(m: map<Key, Value>, k: Key, v: Value, mem: Alloc)
      ensures !S.Put(m, k, v, mem).1 ==> S.Put(m, k, v, mem).0 == m
    {
    }

    method Snapshots(key: Key, mem: S.Memory) returns (oldValue: Option<Value>, oldExpiry: Option<Value>)
      requires Valid()
      ensures oldValue == if mem.valueCopy then MapLookup(Maps().store, key) else None
      ensures oldExpiry == if mem.expiryCopy then MapLookup(Maps().expires, key) else None
    {
      hide HashTable.Valid, AsMap;
      oldValue := store.GetValue(key, mem.valueCopy);
      oldExpiry := expires.GetValue(key, mem.expiryCopy);
    }

    method RollBack(key: Key, oldValue: Option<Value>, oldExpiry: Option<Value>, mem: S.Memory, ghost before: S.Db)
      requires Valid()
      requires oldValue == if mem.valueCopy then MapLookup(before.store, key) else None
      requires oldExpiry == if mem.expiryCopy then MapLookup(before.expires, key) else None
      modifies store.repr, expires.repr
      ensures Valid() && fresh(store.repr - old(store.repr)) && fresh(expires.repr - old(expires.repr))
      ensures Maps() == S.Undo(before, old(Maps()), mem, key)
      ensures G.Calm(old(Deadlines()), Deadlines())
    {
      hide Database.Valid, Maps, S.Put, G.Calm, Deadlines;
      if oldValue.Some? {
        var _ := PutStore(key, oldValue.value, mem.undoStore);
      } else {
        DropStore(key);
      }
      if oldExpiry.Some? {
        var _ := PutExpiry(key, oldExpiry.value, mem.undoExpiry);
      } else {
        DropExpiry(key);
      }
    }

    /** INCR, DECR, INCRBY and DECRBY. */
    method Count(cmd: S.Command, now: int, mem: S.Memory) returns (reply: S.Reply)
      requires Valid() && S.IsCounter(cmd)
      modifies store.repr, expires.repr
      ensures Valid() && fresh(store.repr - old(store.repr)) && fresh(expires.repr - old(expires.repr))
      ensures (Maps(), reply) == S.CounterStep(old(Maps()), now, mem, cmd)
      ensures G.Calm(old(Deadlines()), Deadlines())
    {
      hide Database.Valid, Maps, S.Put, S.CheckAndExpire, S.Advance, G.Calm, Deadlines;
      G.CalmSelf(Deadlines());
      var key := cmd.key;
      if (cmd.IncrBy? || cmd.DecrBy?) && !mem.amount {
        return S.Error;
      }
      var _ := CheckAndExpire(key, now);
      var v := LookupStore(key);
      if v == None {
        SeedsKey(Maps().store, key, S.ZERO_TEXT, mem.seed);
        var ok := PutStore(key, S.ZERO_TEXT, mem.seed);
        if !ok {
          return S.Error;
        }
      }
      reply := AdvanceCounter(cmd, mem);
    }

    lemma SeedsKey(m: map<Key, Value>, k: Key, v: Value, mem: Alloc)
      ensures S.Put(m, k, v, mem).1 ==> k in S.Put(m, k, v, mem).0
    {
    }

    method AdvanceCounter(cmd: S.Command, mem: S.Memory) returns (reply: S.Reply)
      requires Valid() && S.IsCounter(cmd) && cmd.key in Maps().store
      modifies store.repr
      ensures Valid() && fresh(store.repr - old(store.repr)) && fresh(expires.repr - old(expires.repr))
      ensures (Maps(), reply) == S.Advance(old(Maps()), cmd, mem)
      ensures Deadlines() == old(Deadlines())
    {
      hide Database.Valid, Maps, S.Put, ParseSpec, ParseCode, S.GuardedAdd, S.GuardedSub, Decimal.IntText, Deadlines;
      var v := LookupStore(cmd.key);
      if v.value.encoding != IntText {
        return S.Error;
      }
      var current := ParseI64(v.value.bytes, INT64_MIN, INT64_MAX);
      if current == None {
        return S.Error;
      }
      var next: Option<int> := None;
      match cmd {
        case Incr(_) =>
          next := if current.value == INT64_MAX then None else Some(current.value + 1);
        case Decr(_) =>
          next := if current.value == INT64_MIN then None else Some(current.value - 1);
        case IncrBy(_, text) =>
          var amount := ParseI64(text, INT64_MIN, INT64_MAX);
          if amount.Some? {
            next := S.GuardedAdd(current.value, amount.value);
          }
        case DecrBy(_, text) =>
          var amount := ParseI64(text, INT64_MIN, INT64_MAX);
          if amount.Some? {
            next := S.GuardedSub(current.value, amount.value);
          }
      }
      if next == None || !mem.text {
        return S.Error;
      }
      var text := Decimal.IntText(next.value);
      var ok := PutStore(cmd.key, Value(text, IntText), mem.store);
      return if ok then S.Data(text) else S.Error;
    }

    method Delete(key: Key) returns (reply: S.Reply)
      requires Valid()
      modifies store.repr, expires.repr
      ensures Valid() && fresh(store.repr - old(store.repr)) && fresh(expires.repr - old(expires.repr))
      ensures Maps() == S.Forget(old(Maps()), {key}) && reply == S.Okay
      ensures G.Calm(old(Deadlines()), Deadlines())
    {
      hide Database.Valid, Maps, G.Calm, Deadlines;
      DropStore(key);
      DropExpiry(key);
      return S.Okay;
    }

    /** EXPIRE looks the key up without checking for expiry first. */
    method Expire(key: Key, seconds: Bytes, now: int, mem: S.Memory) returns (reply: S.Reply)
      requires Valid() && 0 <= now <= INT64_MAX
      modifies expires.repr
      ensures Valid() && fresh(store.repr - old(store.repr)) && fresh(expires.repr - old(expires.repr))
      ensures (Maps(), reply) == S.ExpireStep(old(Maps()), now, mem, key, seconds)
      ensures G.Calm(old(Deadlines()), Deadlines())
    {
      hide Database.Valid, Maps, S.Put, Deadline, S.DeadlineValue, G.Calm, Deadlines;
      G.CalmSelf(Deadlines());
      var v := LookupStore(key);
      if v == None {
        return S.Error;
      }
      if |seconds| > S.MAX_TTL_TEXT {
        return S.Error;
      }
      var deadline := ParseDeadlineMs(seconds, now);
      if deadline == None {
        return S.Error;
      }
      DeadlineInt64(seconds, now);
      var ok := PutExpiry(key, S.DeadlineValue(deadline.value), mem.expiry);
      return if ok then S.Okay else S.Error;
    }

    method Ttl(key: Key, now: int) returns (reply: S.Reply)
      requires Valid()
      modifies store.repr, expires.repr
      ensures Valid() && fresh(store.repr - old(store.repr)) && fresh(expires.repr - old(expires.repr))
      ensures (Maps(), reply) == S.TtlStep(old(Maps()), now, key)
      ensures G.Calm(old(Deadlines()), Deadlines())
    {
      hide HashTable.Valid, AsMap, S.CheckAndExpire, Decimal.IntText, G.Calm, Deadlines;
      var _ := CheckAndExpire(key, now);
      var v := store.LookupValue(key);
      var ttl := -2;
      if v.Some? {
        ttl := GetTtl(key, now);
        if ttl == -2 {
          ttl := -1;
        }
      }
      return S.Data(Decimal.IntText(ttl));
    }

    method GetTtl(key: Key, now: int) returns (ttl: int)
      requires Valid()
      ensures ttl == match S.GetDeadline(Maps(), key)
                     case None => -2
                     case Some(d) => if d - now <= 0 then 0 else (d - now) / 1000
    {
      hide HashTable.Valid, AsMap;
      var v := expires.LookupValue(key);
      if v == None || |v.value.bytes| != 8 {
        return -2;
      }
      var remaining := S.FromBigEndian(v.value.bytes) - now;
      return if remaining <= 0 then 0 else remaining / 1000;
    }

    /** PERSIST drops the deadline, without checking for expiry first. */
    method Persist(key: Key) returns (reply: S.Reply)
      requires Valid()
      modifies expires.repr
      ensures Valid() && fresh(store.repr - old(store.repr)) && fresh(expires.repr - old(expires.repr))
      ensures Maps() == old(Maps()).(expires := old(Maps()).expires - {key}) && reply == S.Okay
      ensures G.Calm(old(Deadlines()), Deadlines())
    {
      hide Database.Valid, Maps, G.Calm, Deadlines;
      DropExpiry(key);
      return S.Okay;
    }
  }
}
