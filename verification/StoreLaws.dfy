/** What clients can rely on across commands: what SET stored is what GET, TTL, the counters and KEYS
    find, until its time is up. */
module StoreLaws {
  import opened Common
  import opened Dictionary
  import opened DictionaryRuns
  import opened Decimal
  import opened Store
  import opened StoreRuns
  import T = Traces

  /** When a command is served, with which memory, and which dead keys an overlong KEYS drops. */
  datatype AnyMoment = At(now: int, mem: Memory, cleaned: set<Key>)

  type Moment = m: AnyMoment | 0 <= m.now <= INT64_MAX witness At(0, PLENTY, {})

  ghost function Do(db: Db, at: Moment, cmd: Command): (Db, Reply) {
    Step(db, at.now, at.mem, at.cleaned, cmd)
  }

  // ---------- Times to live ----------

  /** A time to live is a text of at most 31 bytes that is a decimal without minus sign, in seconds,
      and whose end is an int64 in milliseconds. */
  predicate Accepted(text: Bytes, now: int) {
    var n := TextValue(text);
    |text| <= 31 && n.Some? && !IsNegative(text) && now + 1000 * n.value <= INT64_MAX
  }

  /** When the key is due, in milliseconds. */
  function Due(text: Bytes, now: int): int
    requires TextValue(text).Some?
  {
    now + 1000 * TextValue(text).value
  }

  /** There is memory to store so many bytes under a key: none is needed to replace as many. */
  predicate Room(m: map<Key, Value>, k: Key, length: nat, alloc: Alloc) {
    if k in m then |m[k].bytes| == length || alloc.value else alloc.value && alloc.node
  }

  lemma DueLater(text: Bytes, now: int)
    requires 0 <= now <= INT64_MAX
    ensures TtlDeadline(text, now).Some? <==> Accepted(text, now)
    ensures Accepted(text, now) ==> TtlDeadline(text, now) == Some(Due(text, now)) && now <= Due(text, now) <= INT64_MAX
  {
    hide Horner;
  }

  // ---------- What a key holds ----------

  /** The key holds these bytes, and is due then or never. */
  ghost predicate Holds(db: Db, k: Key, bytes: Bytes, due: Option<int>) {
    k in db.store && db.store[k].bytes == bytes && GetDeadline(db, k) == due
  }

  /** What TTL answers: the whole seconds left, or -1 for a key that is never due. */
  function Left(due: Option<int>, now: int): int {
    if due == None then -1 else (due.value - now) / 1000
  }

  /** Until a key is due, GET answers its bytes and TTL the seconds left; from then on it is gone. */
  lemma HeldIsRead(db: Db, at: Moment, k: Key, bytes: Bytes, due: Option<int>)
    requires Holds(db, k, bytes, due)
    ensures due == None || at.now < due.value ==>
              && Do(db, at, Get(k)).1 == Data(bytes)
              && Do(db, at, Ttl(k)).1 == Data(Decimal.IntText(Left(due, at.now)))
    ensures due.Some? && at.now >= due.value ==>
              Do(db, at, Get(k)).1 == Error && Do(db, at, Ttl(k)).1 == Data(Decimal.IntText(-2))
  {
    hide Decimal.IntText, GetDeadline;
    ForgottenHasNoDeadline(db, k);
  }

  lemma ForgottenHasNoDeadline(db: Db, k: Key)
    ensures GetDeadline(Forget(db, {k}), k) == None
  {
  }

  lemma AbsentIsNotRead(db: Db, at: Moment, k: Key)
    requires k !in db.store && k !in db.expires
    ensures Do(db, at, Get(k)).1 == Error && Do(db, at, Ttl(k)).1 == Data(Decimal.IntText(-2))
  {
    hide Decimal.IntText;
  }

  // ---------- SET ----------

  /** SET answers the value, exactly when its time to live is accepted and there is memory. */
  lemma SetAnswers(db: Db, at: Moment, k: Key, bytes: Bytes, ttl: Option<Bytes>)
    ensures var reply := Do(db, at, SetKey(k, bytes, ttl)).1;
            && (reply == Data(bytes) || reply == Error)
            && (reply == Data(bytes) <==>
                  && Room(db.store, k, |bytes|, at.mem.store)
                  && (ttl.Some? ==> Accepted(ttl.value, at.now) && Room(db.expires, k, 8, at.mem.expiry)))
  {
    hide Accepted, TtlDeadline, BigEndian, ParseSpec;
    if ttl.Some? {
      DueLater(ttl.value, at.now);
    }
  }

  lemma SetHolds(db: Db, at: Moment, k: Key, bytes: Bytes, ttl: Option<Bytes>)
    requires Do(db, at, SetKey(k, bytes, ttl)).1 != Error
    ensures ttl.Some? ==> Accepted(ttl.value, at.now)
    ensures Holds(Do(db, at, SetKey(k, bytes, ttl)).0, k, bytes,
                  if ttl == None then None else Some(Due(ttl.value, at.now)))
  {
    hide Accepted, TtlDeadline, BigEndian, FromBigEndian, ParseSpec;
    if ttl.Some? {
      DueLater(ttl.value, at.now);
      if TtlDeadline(ttl.value, at.now).Some? {
        DeadlineRoundTrip(TtlDeadline(ttl.value, at.now).value);
      }
    }
  }

  /** After a SET that was answered, GET finds exactly the bytes given and TTL the whole seconds left:
      at any time without a time to live, and with one until it is up. */
  lemma SetThenRead(db: Db, at: Moment, k: Key, bytes: Bytes, ttl: Option<Bytes>, later: Moment)
    requires Do(db, at, SetKey(k, bytes, ttl)).1 != Error
    ensures var db' := Do(db, at, SetKey(k, bytes, ttl)).0;
            var get, left := Do(db', later, Get(k)).1, Do(db', later, Ttl(k)).1;
            if ttl == None then get == Data(bytes) && left == Data(Decimal.IntText(-1))
            else
              TextValue(ttl.value).Some? &&
              var due := at.now + 1000 * TextValue(ttl.value).value;
              if later.now < due then get == Data(bytes) && left == Data(Decimal.IntText((due - later.now) / 1000))
              else get == Error && left == Data(Decimal.IntText(-2))
  {
    hide Step, Decimal.IntText, TextValue, Holds;
    SetHolds(db, at, k, bytes, ttl);
    HeldIsRead(Do(db, at, SetKey(k, bytes, ttl)).0, later, k, bytes,
               if ttl == None then None else Some(Due(ttl.value, at.now)));
  }

  // ---------- Counters ----------

  /** The int64 that a text is. */
  function Int64Of(text: Bytes): Option<int> {
    var n := TextValue(text);
    if n.Some? && IsInt64(n.value) then n else None
  }

  /** What a counter command adds: one, minus one, or the number its text is. */
  function Amount(cmd: Command): Option<int>
    requires IsCounter(cmd)
  {
    match cmd
    case Incr(_) => Some(1)
    case Decr(_) => Some(-1)
    case IncrBy(_, text) => Int64Of(text)
    case DecrBy(_, text) => if Int64Of(text) == None then None else Some(-Int64Of(text).value)
  }

  /** A SET stores a number exactly when its bytes are the text of an int64. */
  lemma SetThenCounter(db: Db, at: Moment, k: Key, bytes: Bytes, ttl: Option<Bytes>)
    requires Do(db, at, SetKey(k, bytes, ttl)).1 != Error
    ensures var db', n := Do(db, at, SetKey(k, bytes, ttl)).0, Int64Of(bytes);
            if n.Some? then CounterAt(db', k, n.value) else NoNumber(db', k)
  {
    hide TtlDeadline, BigEndian, Horner;
  }

  /** Before its time is up, a counter command on what SET stored answers the sum of the two numbers,
      and an error when either is none or the sum is no int64. */
  lemma SetThenCount(db: Db, at: Moment, k: Key, bytes: Bytes, ttl: Option<Bytes>, later: Moment, cmd: Command)
    requires Do(db, at, SetKey(k, bytes, ttl)).1 != Error && IsCounter(cmd) && cmd.key == k && later.mem == PLENTY
    requires ttl.Some? && TextValue(ttl.value).Some? ==> later.now < at.now + 1000 * TextValue(ttl.value).value
    ensures var db', n, d := Do(db, at, SetKey(k, bytes, ttl)).0, Int64Of(bytes), Amount(cmd);
            Do(db', later, cmd).1 ==
            if n.Some? && d.Some? && IsInt64(n.value + d.value)
            then Data(Decimal.IntText(n.value + d.value)) else Error
  {
    hide SetStep, CounterStep, Decimal.IntText, TextValue, Holds, CounterAt, NoNumber, GetDeadline;
    var db', n := Do(db, at, SetKey(k, bytes, ttl)).0, Int64Of(bytes);
    var c := Call(later.now, later.mem, cmd);
    SetHolds(db, at, k, bytes, ttl);
    HeldDeadline(db', k, bytes, if ttl == None then None else Some(Due(ttl.value, at.now)));
    SetThenCounter(db, at, k, bytes, ttl);
    if n.Some? {
      CounterStepExact(db', c, n.value);
    } else {
      RefusedStep(db', c);
    }
  }

  lemma HeldDeadline(db: Db, k: Key, bytes: Bytes, due: Option<int>)
    requires Holds(db, k, bytes, due)
    ensures GetDeadline(db, k) == due
  {
  }

  // ---------- EXPIRE, PERSIST and DEL ----------

  /** EXPIRE answers OK exactly when the key is stored, its time to live is accepted and there is
      memory; until the time is up GET then still finds the value, and TTL the seconds left. */
  lemma ExpireThenRead(db: Db, at: Moment, k: Key, text: Bytes, later: Moment)
    ensures var (db', reply) := Do(db, at, Expire(k, text));
            && (reply == Okay || (reply == Error && db' == db))
            && (reply == Okay <==> k in db.store && Accepted(text, at.now) && Room(db.expires, k, 8, at.mem.expiry))
            && (reply == Okay ==>
                  var get, left := Do(db', later, Get(k)).1, Do(db', later, Ttl(k)).1;
                  var due := at.now + 1000 * TextValue(text).value;
                  if later.now < due then
                    get == Data(db.store[k].bytes) && left == Data(Decimal.IntText((due - later.now) / 1000))
                  else get == Error && left == Data(Decimal.IntText(-2)))
  {
    hide TtlDeadline, BigEndian, FromBigEndian, Decimal.IntText, TextValue, GetStep, TtlStep;
    DueLater(text, at.now);
    var (db', reply) := Do(db, at, Expire(k, text));
    if reply == Okay {
      DeadlineRoundTrip(Due(text, at.now));
      HeldIsRead(db', later, k, db.store[k].bytes, Some(Due(text, at.now)));
    }
  }

  /** PERSIST answers OK; a stored key, past its deadline or not, is then never due. */
  lemma PersistThenRead(db: Db, at: Moment, k: Key, later: Moment)
    ensures var (db', reply) := Do(db, at, Persist(k));
            var get, left := Do(db', later, Get(k)).1, Do(db', later, Ttl(k)).1;
            && reply == Okay
            && if k in db.store then get == Data(db.store[k].bytes) && left == Data(Decimal.IntText(-1))
               else get == Error && left == Data(Decimal.IntText(-2))
  {
    hide Decimal.IntText, GetStep, TtlStep;
    var db' := Do(db, at, Persist(k)).0;
    if k in db.store {
      HeldIsRead(db', later, k, db.store[k].bytes, None);
    } else {
      AbsentIsNotRead(db', later, k);
    }
  }

  /** DEL answers OK, and the key is gone. */
  lemma DelThenRead(db: Db, at: Moment, k: Key, later: Moment)
    ensures var (db', reply) := Do(db, at, Del(k));
            && reply == Okay
            && Do(db', later, Get(k)).1 == Error && Do(db', later, Ttl(k)).1 == Data(Decimal.IntText(-2))
  {
    hide Decimal.IntText, GetStep, TtlStep;
    AbsentIsNotRead(Do(db, at, Del(k)).0, later, k);
  }

  /** KEYS lists exactly the keys that GET finds at that time. */
  lemma KeysListsWhatGetFinds(db: Db, at: Moment, k: Key)
    requires Do(db, at, Keys).1.Listing?
    ensures k in Do(db, at, Keys).1.keys <==> Do(db, at, Get(k)).1 != Error
  {
    hide ListingFits, GetDeadline;
  }

  // ---------- Whole runs ----------

  ghost predicate Kept(db: Db, db': Db, k: Key) {
    MapLookup(db'.expires, k) == MapLookup(db.expires, k) && MapLookup(db'.store, k) == MapLookup(db.store, k)
  }

  lemma CounterOthers(db: Db, at: Moment, cmd: Command, k: Key)
    requires IsCounter(cmd) && cmd.key != k
    ensures Kept(db, CounterStep(db, at.now, at.mem, cmd).0, k)
  {
    hide Advance, SeedCounter, FromBigEndian;
    var a1 := CheckAndExpire(db, cmd.key, at.now);
    var (a2, ok) := SeedCounter(a1, cmd.key, at.mem.seed);
    T.SeedAlike(a1, a1, cmd.key, at.mem.seed);
    assert Kept(db, a1, k) && T.SameAt(a1, a2, k);
    if ok {
      T.AdvanceAlike(a2, a2, cmd, at.mem);
      assert T.SameAt(a2, Advance(a2, cmd, at.mem).0, k);
    }
  }

  lemma SetOthers(db: Db, at: Moment, cmd: Command, k: Key)
    requires cmd.SetKey? && cmd.key != k
    ensures Kept(db, SetStep(db, at.now, at.mem, cmd.key, cmd.value, cmd.ttl).0, k)
  {
    T.SetOnlyAt(db, at.now, at.mem, cmd.key, cmd.value, cmd.ttl);
    assert T.SameAt(db, SetStep(db, at.now, at.mem, cmd.key, cmd.value, cmd.ttl).0, k);
  }

  /** A command leaves value and deadline of other keys; only KEYS removes some, past their deadline. */
  lemma StepOthers(db: Db, at: Moment, cmd: Command, k: Key)
    requires cmd.Keys? || cmd.key != k
    ensures var db' := Do(db, at, cmd).0;
            Kept(db, db', k) || (cmd.Keys? && T.Gone(db', k) && Expired(db, k, at.now))
  {
    hide SetStep, CounterStep, TtlDeadline, FromBigEndian, ListingFits;
    if cmd.SetKey? {
      SetOthers(db, at, cmd, k);
    } else if IsCounter(cmd) {
      CounterOthers(db, at, cmd, k);
    }
  }

  /** The run is about other keys, and over before the key is due. */
  ghost predicate Spares(events: seq<T.Event>, k: Key, due: Option<int>) {
    forall e :: e in events ==>
      && 0 <= e.now <= INT64_MAX && (due.Some? ==> e.now < due.value)
      && (e.Request? ==> e.cmd.Keys? || e.cmd.key != k)
  }

  lemma EventKeeps(db: Db, e: T.Event, k: Key, bytes: Bytes, due: Option<int>)
    requires Holds(db, k, bytes, due) && Spares([e], k, due)
    ensures 0 <= e.now <= INT64_MAX && Holds(T.Next(db, e), k, bytes, due)
  {
    hide Step, FromBigEndian;
    assert e in [e];
    if e.Request? {
      StepOthers(db, At(e.now, e.mem, e.cleaned), e.cmd, k);
    }
  }

  /** Whatever commands on other keys and sweeps come in between, a key is read back as it was stored
      until it is due. */
  lemma {:induction false} RunKeeps(db: Db, events: seq<T.Event>, k: Key, bytes: Bytes, due: Option<int>)
    requires Holds(db, k, bytes, due) && Spares(events, k, due)
    ensures Holds(T.After(db, events), k, bytes, due)
    decreases events
  {
    hide Holds, T.Next;
    if events != [] {
      var e, rest := events[0], events[1..];
      EventKeeps(db, e, k, bytes, due);
      RunKeeps(T.Next(db, e), rest, k, bytes, due);
    }
  }

  /** After a SET that was answered and any run of commands on other keys and of sweeps, GET answers
      exactly the bytes given and TTL the seconds left, as long as the time is not up. */
  lemma LastSetIsRead(db: Db, at: Moment, k: Key, bytes: Bytes, ttl: Option<Bytes>, events: seq<T.Event>, later: Moment)
    requires Do(db, at, SetKey(k, bytes, ttl)).1 != Error
    requires ttl.Some? ==> TextValue(ttl.value).Some?
    requires var due := if ttl == None then None else Some(at.now + 1000 * TextValue(ttl.value).value);
             Spares(events, k, due) && (due.Some? ==> later.now < due.value)
    ensures var db' := T.After(Do(db, at, SetKey(k, bytes, ttl)).0, events);
            && Do(db', later, Get(k)).1 == Data(bytes)
            && Do(db', later, Ttl(k)).1 ==
               Data(Decimal.IntText(if ttl == None then -1
                                    else (at.now + 1000 * TextValue(ttl.value).value - later.now) / 1000))
  {
    hide Step, Decimal.IntText, TextValue, Holds, T.After;
    var due := if ttl == None then None else Some(Due(ttl.value, at.now));
    SetHolds(db, at, k, bytes, ttl);
    RunKeeps(Do(db, at, SetKey(k, bytes, ttl)).0, events, k, bytes, due);
    HeldIsRead(T.After(Do(db, at, SetKey(k, bytes, ttl)).0, events), later, k, bytes, due);
  }
}
