/** Sweeps are invisible: they may run anywhere between commands without changing any reply. */
module Traces {
  import opened Common
  import opened Dictionary
  import opened DictionaryRuns
  import opened Decimal
  import opened Store
  import Sweeping

  // ---------- Databases that agree on live keys ----------

  predicate SameAt(a: Db, b: Db, k: Key) {
    MapLookup(a.store, k) == MapLookup(b.store, k) && MapLookup(a.expires, k) == MapLookup(b.expires, k)
  }

  predicate Gone(db: Db, k: Key) {
    k !in db.store && k !in db.expires
  }

  predicate Dead(db: Db, k: Key, now: int) {
    Gone(db, k) || Expired(db, k, now)
  }

  predicate AgreeAt(a: Db, b: Db, k: Key, now: int) {
    SameAt(a, b, k) || (Dead(a, k, now) && Dead(b, k, now))
  }

  /** Every key is stored alike in both, or is gone or past its deadline in both. */
  ghost predicate LiveEqual(a: Db, b: Db, now: int) {
    forall k :: AgreeAt(a, b, k, now)
  }

  lemma LiveEqualLater(a: Db, b: Db, now: int, later: int)
    requires LiveEqual(a, b, now) && now <= later
    ensures LiveEqual(a, b, later)
  {
    forall k ensures AgreeAt(a, b, k, later) {
      assert AgreeAt(a, b, k, now);
    }
  }

  /** A sweep removes keys past their deadline from both tables. */
  function Sweep(db: Db, removed: set<Key>, now: int): Db {
    Forget(db, removed * DeadKeys(db, now))
  }

  /** The rolling sweep of the deadline table is such a sweep, whatever its cursor. */
  lemma RollingSweepIsSweep(s: Sweeping.Sweeper, total: nat, n: nat, now: int)
    requires total > 0 && Sound(s.db)
    ensures Sweeping.SweepStep(s, total, n, now).db ==
            Sweep(s.db, Sweeping.Swept(s.db, s.pos, s.cursor, n, total, now), now)
  {
    hide Sweeping.InWindow;
    var gone := Sweeping.Swept(s.db, s.pos, s.cursor, n, total, now);
    assert gone * DeadKeys(s.db, now) == gone;
  }

  lemma SweepKeepsLive(a: Db, b: Db, removed: set<Key>, now: int, later: int)
    requires LiveEqual(a, b, later) && now <= later
    ensures LiveEqual(Sweep(a, removed, now), b, later)
  {
    var a' := Sweep(a, removed, now);
    forall k ensures AgreeAt(a', b, k, later) {
      assert AgreeAt(a, b, k, later);
    }
  }

  lemma LiveEqualSymmetric(a: Db, b: Db, now: int)
    requires LiveEqual(a, b, now)
    ensures LiveEqual(b, a, now)
  {
    forall k ensures AgreeAt(b, a, k, now) {
      assert AgreeAt(a, b, k, now);
    }
  }

  // ---------- One command on databases that agree ----------

  /** EXPIRE and PERSIST do not check for expiry first: on a key past its deadline they bring it back. */
  predicate Resurrects(db: Db, now: int, cmd: Command)
    requires 0 <= now <= INT64_MAX
  {
    match cmd
    case Persist(k) => Expired(db, k, now)
    case Expire(k, seconds) => Expired(db, k, now) && TtlDeadline(seconds, now).Some?
    case _ => false
  }

  /** SET does not check for expiry either: it may store into a key past its deadline where the
      memory for a new key is refused. */
  predicate Recycles(db: Db, now: int, mem: Memory, cmd: Command)
    requires 0 <= now <= INT64_MAX
  {
    && cmd.SetKey? && cmd.key in db.store && Expired(db, cmd.key, now)
    && (cmd.ttl.Some? ==> TtlDeadline(cmd.ttl.value, now).Some?)
    && (|db.store[cmd.key].bytes| == |cmd.value| || mem.store.value)
    && !(mem.store.value && mem.store.node && (cmd.ttl.Some? ==> mem.expiry.value && mem.expiry.node))
  }

  /** The command makes something of a key past its deadline that it would not make of no key. */
  predicate Disturbs(db: Db, now: int, mem: Memory, cmd: Command)
    requires 0 <= now <= INT64_MAX
  {
    Resurrects(db, now, cmd) || Recycles(db, now, mem, cmd)
  }

  lemma LiveKeysAgree(a: Db, b: Db, now: int)
    requires LiveEqual(a, b, now) && Sound(a) && Sound(b)
    ensures LiveKeys(a, now) == LiveKeys(b, now)
  {
    forall k ensures k in LiveKeys(a, now) <==> k in LiveKeys(b, now) {
      assert AgreeAt(a, b, k, now);
    }
  }

  // ---------- Single-key commands ----------

  ghost predicate OnlyAt(a: Db, a': Db, k: Key) {
    forall q :: q != k ==> SameAt(a, a', q)
  }

  /** Two outcomes of a command on key k: same reply, agreement on k, and nothing else touched. */
  ghost predicate Alike(a: Db, b: Db, k: Key, ra: (Db, Reply), rb: (Db, Reply), now: int) {
    && ra.1 == rb.1
    && AgreeAt(ra.0, rb.0, k, now)
    && OnlyAt(a, ra.0, k) && OnlyAt(b, rb.0, k)
  }

  lemma AlikeAgree(a: Db, b: Db, k: Key, ra: (Db, Reply), rb: (Db, Reply), now: int)
    requires LiveEqual(a, b, now) && Alike(a, b, k, ra, rb, now)
    ensures LiveEqual(ra.0, rb.0, now)
  {
    forall q ensures AgreeAt(ra.0, rb.0, q, now) {
      assert AgreeAt(a, b, q, now);
      if q != k {
        assert SameAt(a, ra.0, q) && SameAt(b, rb.0, q);
      }
    }
  }

  lemma OnlyAtChain(a: Db, b: Db, c: Db, d: Db, k: Key)
    requires OnlyAt(a, b, k) && OnlyAt(b, c, k) && OnlyAt(c, d, k)
    ensures OnlyAt(a, d, k)
  {
    forall q | q != k ensures SameAt(a, d, q) {
      assert SameAt(a, b, q) && SameAt(b, c, q) && SameAt(c, d, q);
    }
  }

  lemma ExpireFirst(a: Db, b: Db, k: Key, now: int)
    requires AgreeAt(a, b, k, now) && Sound(a) && Sound(b)
    ensures SameAt(CheckAndExpire(a, k, now), CheckAndExpire(b, k, now), k)
    ensures OnlyAt(a, CheckAndExpire(a, k, now), k) && OnlyAt(b, CheckAndExpire(b, k, now), k)
  {
  }

  lemma SeedAlike(a: Db, b: Db, k: Key, mem: Alloc)
    requires SameAt(a, b, k)
    ensures var (a', ok) := SeedCounter(a, k, mem); var (b', ok') := SeedCounter(b, k, mem);
            && ok == ok' && SameAt(a', b', k) && OnlyAt(a, a', k) && OnlyAt(b, b', k)
            && (ok ==> k in a'.store && k in b'.store)
  {
  }

  lemma AdvanceAlike(a: Db, b: Db, cmd: Command, mem: Memory)
    requires IsCounter(cmd) && cmd.key in a.store && cmd.key in b.store && SameAt(a, b, cmd.key)
    ensures var ra, rb := Advance(a, cmd, mem), Advance(b, cmd, mem);
            ra.1 == rb.1 && SameAt(ra.0, rb.0, cmd.key) && OnlyAt(a, ra.0, cmd.key) && OnlyAt(b, rb.0, cmd.key)
  {
    hide ParseSpec, Bump, Decimal.IntText;
  }

  lemma Untouched(a: Db, k: Key)
    ensures OnlyAt(a, a, k)
  {
  }

  lemma CounterAlike(a: Db, b: Db, now: int, mem: Memory, cmd: Command)
    requires IsCounter(cmd) && AgreeAt(a, b, cmd.key, now) && Sound(a) && Sound(b)
    ensures Alike(a, b, cmd.key, CounterStep(a, now, mem, cmd), CounterStep(b, now, mem, cmd), now)
  {
    hide Advance, CheckAndExpire, Sound, SeedCounter, OnlyAt;
    var k, a1, b1 := cmd.key, CheckAndExpire(a, cmd.key, now), CheckAndExpire(b, cmd.key, now);
    ExpireFirst(a, b, k, now);
    SeedAlike(a1, b1, k, mem.seed);
    Untouched(a, k);
    Untouched(b, k);
    var (a2, ok) := SeedCounter(a1, k, mem.seed);
    var (b2, _) := SeedCounter(b1, k, mem.seed);
    var a3, b3 := a2, b2;
    if ok {
      AdvanceAlike(a2, b2, cmd, mem);
      a3, b3 := Advance(a2, cmd, mem).0, Advance(b2, cmd, mem).0;
    } else {
      Untouched(a2, k);
      Untouched(b2, k);
    }
    OnlyAtChain(a, a1, a2, a3, k);
    OnlyAtChain(b, b1, b2, b3, k);
  }

  lemma SetOnlyAt(db: Db, now: int, mem: Memory, k: Key, bytes: Bytes, ttl: Option<Bytes>)
    requires 0 <= now <= INT64_MAX
    ensures OnlyAt(db, SetStep(db, now, mem, k, bytes, ttl).0, k)
  {
    hide Encode, TtlDeadline, BigEndian;
  }

  lemma SetSame(a: Db, b: Db, now: int, mem: Memory, k: Key, bytes: Bytes, ttl: Option<Bytes>)
    requires 0 <= now <= INT64_MAX && SameAt(a, b, k)
    ensures var ra, rb := SetStep(a, now, mem, k, bytes, ttl), SetStep(b, now, mem, k, bytes, ttl);
            ra.1 == rb.1 && SameAt(ra.0, rb.0, k)
  {
    hide Encode, TtlDeadline, BigEndian;
  }

  /** What SET makes of a key that is gone or past its deadline, without recycling it. */
  lemma SetDead(db: Db, now: int, mem: Memory, cmd: Command)
    requires 0 <= now <= INT64_MAX && cmd.SetKey? && Sound(db)
    requires Dead(db, cmd.key, now) && !Recycles(db, now, mem, cmd)
    ensures var (db', reply) := SetStep(db, now, mem, cmd.key, cmd.value, cmd.ttl);
            var deadline := if cmd.ttl.Some? then TtlDeadline(cmd.ttl.value, now) else None;
            if (cmd.ttl.Some? ==> deadline.Some? && mem.expiry.value && mem.expiry.node) && mem.store.value && mem.store.node
            then
              && reply == Data(cmd.value) && MapLookup(db'.store, cmd.key) == Some(Encode(cmd.value))
              && MapLookup(db'.expires, cmd.key) == if deadline == None then None else Some(DeadlineValue(deadline.value))
            else reply == Error && Dead(db', cmd.key, now)
  {
    hide Encode, TtlDeadline, BigEndian, FromBigEndian;
    EncodeLength(cmd.value);
  }

  lemma EncodeLength(bytes: Bytes)
    ensures |Encode(bytes).bytes| == |bytes|
  {
  }

  lemma SetAlike(a: Db, b: Db, now: int, mem: Memory, cmd: Command)
    requires 0 <= now <= INT64_MAX && cmd.SetKey?
    requires AgreeAt(a, b, cmd.key, now) && Sound(a) && Sound(b)
    requires !Recycles(a, now, mem, cmd) && !Recycles(b, now, mem, cmd)
    ensures Alike(a, b, cmd.key, SetStep(a, now, mem, cmd.key, cmd.value, cmd.ttl),
                  SetStep(b, now, mem, cmd.key, cmd.value, cmd.ttl), now)
  {
    hide SetStep, Sound, OnlyAt, Recycles, Dead;
    SetOnlyAt(a, now, mem, cmd.key, cmd.value, cmd.ttl);
    SetOnlyAt(b, now, mem, cmd.key, cmd.value, cmd.ttl);
    if SameAt(a, b, cmd.key) {
      SetSame(a, b, now, mem, cmd.key, cmd.value, cmd.ttl);
    } else {
      SetDead(a, now, mem, cmd);
      SetDead(b, now, mem, cmd);
    }
  }

  lemma ReadAlike(a: Db, b: Db, now: int, k: Key)
    requires AgreeAt(a, b, k, now) && Sound(a) && Sound(b)
    ensures Alike(a, b, k, GetStep(a, now, k), GetStep(b, now, k), now)
    ensures Alike(a, b, k, TtlStep(a, now, k), TtlStep(b, now, k), now)
  {
    hide CheckAndExpire, Sound, Decimal.IntText;
    ExpireFirst(a, b, k, now);
  }

  lemma DeleteAlike(a: Db, b: Db, k: Key, now: int)
    ensures Alike(a, b, k, (Forget(a, {k}), Okay), (Forget(b, {k}), Okay), now)
  {
  }

  /** EXPIRE and PERSIST on a key that is not past its deadline in either database. */
  lemma RenewAlike(a: Db, b: Db, now: int, mem: Memory, cmd: Command)
    requires 0 <= now <= INT64_MAX && (cmd.Expire? || cmd.Persist?)
    requires AgreeAt(a, b, cmd.key, now) && Sound(a) && Sound(b)
    requires !Resurrects(a, now, cmd) && !Resurrects(b, now, cmd)
    ensures Alike(a, b, cmd.key, Step(a, now, mem, {}, cmd), Step(b, now, mem, {}, cmd), now)
  {
    hide TtlDeadline, FromBigEndian, BigEndian;
  }

  // ---------- Any command ----------

  lemma KeysAgree(a: Db, b: Db, now: int, ca: set<Key>, cb: set<Key>)
    requires LiveEqual(a, b, now) && Sound(a) && Sound(b)
    ensures KeysStep(a, now, ca).1 == KeysStep(b, now, cb).1
    ensures LiveEqual(KeysStep(a, now, ca).0, KeysStep(b, now, cb).0, now)
  {
    hide ListingFits, Sound;
    LiveKeysAgree(a, b, now);
    var da := if ListingFits(LiveKeys(a, now)) then DeadKeys(a, now) else ca;
    var db := if ListingFits(LiveKeys(b, now)) then DeadKeys(b, now) else cb;
    assert DeadKeys(a, now) * DeadKeys(a, now) == DeadKeys(a, now);
    assert DeadKeys(b, now) * DeadKeys(b, now) == DeadKeys(b, now);
    SweepKeepsLive(a, b, da, now, now);
    LiveEqualSymmetric(Sweep(a, da, now), b, now);
    SweepKeepsLive(b, Sweep(a, da, now), db, now, now);
    LiveEqualSymmetric(Sweep(b, db, now), Sweep(a, da, now), now);
  }

  /** On databases that agree on live keys, a command replies alike and leaves them agreeing. */
  lemma StepAgrees(a: Db, b: Db, now: int, mem: Memory, ca: set<Key>, cb: set<Key>, cmd: Command)
    requires LiveEqual(a, b, now) && Sound(a) && Sound(b) && 0 <= now <= INT64_MAX
    requires !Disturbs(a, now, mem, cmd) && !Disturbs(b, now, mem, cmd)
    ensures Step(a, now, mem, ca, cmd).1 == Step(b, now, mem, cb, cmd).1
    ensures LiveEqual(Step(a, now, mem, ca, cmd).0, Step(b, now, mem, cb, cmd).0, now)
  {
    hide Sound, CounterStep, SetStep, GetStep, TtlStep, ExpireStep, KeysStep, LiveEqual, AgreeAt, Resurrects, Recycles, Alike;
    var ra, rb := Step(a, now, mem, ca, cmd), Step(b, now, mem, cb, cmd);
    if cmd.Keys? {
      KeysAgree(a, b, now, ca, cb);
    } else {
      Instance(a, b, cmd.key, now);
      if IsCounter(cmd) {
        CounterAlike(a, b, now, mem, cmd);
      } else if cmd.SetKey? {
        SetAlike(a, b, now, mem, cmd);
      } else if cmd.Get? || cmd.Ttl? {
        ReadAlike(a, b, now, cmd.key);
      } else if cmd.Del? {
        DeleteAlike(a, b, cmd.key, now);
      } else {
        RenewAlike(a, b, now, mem, cmd);
      }
      AlikeAgree(a, b, cmd.key, ra, rb, now);
      SameReply(a, b, cmd.key, ra, rb, now);
    }
  }

  lemma SameReply(a: Db, b: Db, k: Key, ra: (Db, Reply), rb: (Db, Reply), now: int)
    requires Alike(a, b, k, ra, rb, now)
    ensures ra.1 == rb.1
  {
  }

  lemma Instance(a: Db, b: Db, k: Key, now: int)
    requires LiveEqual(a, b, now)
    ensures AgreeAt(a, b, k, now)
  {
  }

  // ---------- Traces ----------

  /** A request is served at one clock reading, with whatever memory it meets; its `cleaned` matters
      to an overlong KEYS only. */
  datatype Event =
    | Request(now: int, mem: Memory, cmd: Command, cleaned: set<Key>)
    | SweepAt(now: int, removed: set<Key>)

  /** Clock readings never go back, from a first reading on. */
  predicate Ordered(events: seq<Event>, first: int)
    decreases events
  {
    events == [] ||
    (0 <= first <= events[0].now <= INT64_MAX && Ordered(events[1..], events[0].now))
  }

  ghost function Next(db: Db, e: Event): Db
    requires 0 <= e.now <= INT64_MAX
  {
    match e
    case Request(now, mem, cmd, cleaned) => Step(db, now, mem, cleaned, cmd).0
    case SweepAt(now, removed) => Sweep(db, removed, now)
  }

  ghost function Replies(db: Db, events: seq<Event>, first: int): seq<Reply>
    requires Ordered(events, first)
    decreases events
  {
    if events == [] then []
    else
      var e := events[0];
      (if e.Request? then [Step(db, e.now, e.mem, e.cleaned, e.cmd).1] else []) +
      Replies(Next(db, e), events[1..], e.now)
  }

  /** No command of the run makes something of a key past its deadline. */
  ghost predicate NoneDisturbs(db: Db, events: seq<Event>, first: int)
    requires Ordered(events, first)
    decreases events
  {
    events == [] ||
    var e := events[0];
    && (e.Request? ==> !Disturbs(db, e.now, e.mem, e.cmd))
    && NoneDisturbs(Next(db, e), events[1..], e.now)
  }

  function Requests(events: seq<Event>): seq<(int, Memory, Command)>
    decreases events
  {
    if events == [] then []
    else (if events[0].Request? then [(events[0].now, events[0].mem, events[0].cmd)] else []) + Requests(events[1..])
  }

  lemma NextSound(db: Db, e: Event)
    requires Sound(db) && 0 <= e.now <= INT64_MAX
    ensures Sound(Next(db, e))
  {
    hide Step, Sweep, Sound;
    match e
    case Request(now, mem, cmd, cleaned) => StepSound(db, now, mem, cleaned, cmd);
    case SweepAt(now, removed) => SweepSound(db, removed, now);
  }

  lemma SweepSound(db: Db, removed: set<Key>, now: int)
    requires Sound(db)
    ensures Sound(Sweep(db, removed, now))
  {
  }

  // ---------- Reachable states ----------

  ghost function After(db: Db, events: seq<Event>): Db
    requires forall e :: e in events ==> 0 <= e.now <= INT64_MAX
    decreases events
  {
    if events == [] then db else After(Next(db, events[0]), events[1..])
  }

  /** Every state that commands, under any memory, and sweeps can reach from a sound one is sound;
      the empty database is. */
  lemma {:induction false} ReachableSound(db: Db, events: seq<Event>)
    requires Sound(db) && forall e :: e in events ==> 0 <= e.now <= INT64_MAX
    ensures Sound(After(db, events)) && Sound(Db(map[], map[]))
    decreases events
  {
    hide Next;
    if events != [] {
      NextSound(db, events[0]);
      ReachableSound(Next(db, events[0]), events[1..]);
    }
  }

  // ---------- Two runs ----------

  lemma {:induction false} FirstRequestLater(events: seq<Event>, first: int)
    requires Ordered(events, first) && Requests(events) != []
    ensures first <= Requests(events)[0].0
    decreases events
  {
    if events[0].SweepAt? {
      FirstRequestLater(events[1..], events[0].now);
    }
  }

  lemma SweepStep(a: Db, b: Db, e: Event, t: int) returns (later: int)
    requires e.SweepAt? && LiveEqual(a, b, t) && 0 <= e.now <= INT64_MAX
    ensures later == (if e.now <= t then t else e.now)
    ensures LiveEqual(Next(a, e), b, later) && LiveEqual(b, Next(a, e), later)
  {
    hide LiveEqual, Sweep;
    later := if e.now <= t then t else e.now;
    LiveEqualLater(a, b, t, later);
    SweepKeepsLive(a, b, e.removed, e.now, later);
    LiveEqualSymmetric(Next(a, e), b, later);
  }

  /** Two runs that serve the same requests at the same times and with the same memory, with any
      sweeps in between and any leftovers of an overlong KEYS, give the same replies. */
  lemma {:induction false} SweepsInvisible(a: Db, b: Db, u: seq<Event>, v: seq<Event>, tu: int, tv: int, t: int)
    requires Sound(a) && Sound(b) && LiveEqual(a, b, t)
    requires Ordered(u, tu) && Ordered(v, tv) && Requests(u) == Requests(v)
    requires Requests(u) != [] ==> t <= Requests(u)[0].0
    requires NoneDisturbs(a, u, tu) && NoneDisturbs(b, v, tv)
    ensures Replies(a, u, tu) == Replies(b, v, tv)
    decreases |u| + |v|
  {
    hide Sound, Step, LiveEqual, Sweep, Disturbs;
    if u != [] && u[0].SweepAt? {
      var e := u[0];
      NextSound(a, e);
      var later := SweepStep(a, b, e, t);
      if Requests(u) != [] {
        FirstRequestLater(u[1..], e.now);
      }
      SweepsInvisible(Next(a, e), b, u[1..], v, e.now, tv, later);
    } else if v != [] && v[0].SweepAt? {
      var e := v[0];
      NextSound(b, e);
      LiveEqualSymmetric(a, b, t);
      var later := SweepStep(b, a, e, t);
      if Requests(v) != [] {
        FirstRequestLater(v[1..], e.now);
      }
      SweepsInvisible(a, Next(b, e), u, v[1..], tu, e.now, later);
    } else if u != [] && v != [] {
      RequestStep(a, b, u, v, tu, tv, t);
      var e, f := u[0], v[0];
      if Requests(u[1..]) != [] {
        FirstRequestLater(u[1..], e.now);
      }
      SweepsInvisible(Next(a, e), Next(b, f), u[1..], v[1..], e.now, f.now, e.now);
    }
  }

  lemma RequestStep(a: Db, b: Db, u: seq<Event>, v: seq<Event>, tu: int, tv: int, t: int)
    requires Sound(a) && Sound(b) && LiveEqual(a, b, t)
    requires u != [] && v != [] && u[0].Request? && v[0].Request?
    requires Ordered(u, tu) && Ordered(v, tv) && Requests(u) == Requests(v) && t <= Requests(u)[0].0
    requires NoneDisturbs(a, u, tu) && NoneDisturbs(b, v, tv)
    ensures u[0].now == v[0].now && u[0].mem == v[0].mem && u[0].cmd == v[0].cmd && Requests(u[1..]) == Requests(v[1..])
    ensures Step(a, u[0].now, u[0].mem, u[0].cleaned, u[0].cmd).1 == Step(b, v[0].now, v[0].mem, v[0].cleaned, v[0].cmd).1
    ensures LiveEqual(Next(a, u[0]), Next(b, v[0]), u[0].now)
    ensures Sound(Next(a, u[0])) && Sound(Next(b, v[0]))
  {
    hide Sound, Step, LiveEqual, Sweep, Disturbs;
    var e, f := u[0], v[0];
    assert Requests(u)[0] == (e.now, e.mem, e.cmd) && Requests(v)[0] == (f.now, f.mem, f.cmd);
    assert Requests(u)[1..] == Requests(u[1..]) && Requests(v)[1..] == Requests(v[1..]);
    NextSound(a, e);
    NextSound(b, f);
    LiveEqualLater(a, b, t, e.now);
    StepAgrees(a, b, e.now, e.mem, e.cleaned, f.cleaned, e.cmd);
  }

  /** A sweep just before the command leaves its reply and the live data after it as they were. */
  ghost predicate Unseen(db: Db, now: int, mem: Memory, cleaned: set<Key>, cmd: Command, removed: set<Key>)
    requires 0 <= now <= INT64_MAX
  {
    var swept := Step(Sweep(db, removed, now), now, mem, cleaned, cmd);
    var plain := Step(db, now, mem, cleaned, cmd);
    swept.1 == plain.1 && LiveEqual(swept.0, plain.0, now)
  }

  /** With any memory, every possible sweep goes unseen by a command exactly when the command is not
      one that makes something of a key past its deadline. */
  lemma SweepsUnseenIffNotDisturbing(db: Db, now: int, mem: Memory, cleaned: set<Key>, cmd: Command)
    requires Sound(db) && 0 <= now <= INT64_MAX
    ensures (forall removed :: Unseen(db, now, mem, cleaned, cmd, removed)) <==> !Disturbs(db, now, mem, cmd)
  {
    hide Unseen;
    if Resurrects(db, now, cmd) {
      SweepSeen(db, now, mem, cleaned, cmd);
    } else if Recycles(db, now, mem, cmd) {
      RecyclingSeen(db, now, mem, cleaned, cmd);
    } else {
      forall removed ensures Unseen(db, now, mem, cleaned, cmd, removed) {
        SweepUnseen(db, now, mem, cleaned, cmd, removed);
      }
    }
  }

  lemma SweepUnseen(db: Db, now: int, mem: Memory, cleaned: set<Key>, cmd: Command, removed: set<Key>)
    requires Sound(db) && 0 <= now <= INT64_MAX && !Disturbs(db, now, mem, cmd)
    ensures Unseen(db, now, mem, cleaned, cmd, removed)
  {
    hide Sound, Step, LiveEqual, Sweep, Disturbs;
    SelfAgree(db, now);
    SweepKeepsLive(db, db, removed, now, now);
    SweepSound(db, removed, now);
    SweepDisturbsNoMore(db, removed, now, mem, cmd);
    StepAgrees(Sweep(db, removed, now), db, now, mem, cleaned, cleaned, cmd);
  }

  lemma SelfAgree(db: Db, now: int)
    ensures LiveEqual(db, db, now)
  {
  }

  lemma SweepDisturbsNoMore(db: Db, removed: set<Key>, now: int, mem: Memory, cmd: Command)
    requires 0 <= now <= INT64_MAX && !Disturbs(db, now, mem, cmd)
    ensures !Disturbs(Sweep(db, removed, now), now, mem, cmd)
  {
    hide TtlDeadline, FromBigEndian;
  }

  /** EXPIRE then answers error instead of success; PERSIST then leaves the key dead. */
  lemma SweepSeen(db: Db, now: int, mem: Memory, cleaned: set<Key>, cmd: Command)
    requires Sound(db) && 0 <= now <= INT64_MAX && Resurrects(db, now, cmd)
    ensures !Unseen(db, now, mem, cleaned, cmd, {cmd.key})
  {
    hide TtlDeadline, FromBigEndian;
    if cmd.Persist? {
      var swept := Step(Sweep(db, {cmd.key}, now), now, mem, cleaned, cmd);
      var plain := Step(db, now, mem, cleaned, cmd);
      assert !AgreeAt(swept.0, plain.0, cmd.key, now);
    }
  }

  /** SET then answers error instead of success. */
  lemma RecyclingSeen(db: Db, now: int, mem: Memory, cleaned: set<Key>, cmd: Command)
    requires Sound(db) && 0 <= now <= INT64_MAX && Recycles(db, now, mem, cmd)
    ensures !Unseen(db, now, mem, cleaned, cmd, {cmd.key})
  {
    hide TtlDeadline, FromBigEndian, ParseSpec;
  }
}
