/** The database as two maps, and every command as a step on them with one reading of the clock. */
module Store {
  import opened Common
  import opened Dictionary
  import opened DictionaryRuns
  import opened Decimal

  /** Values and deadlines live in separate tables; a deadline is stored as eight big-endian bytes. */
  datatype Db = Db(store: map<Key, Value>, expires: map<Key, Value>)

  datatype Command =
    | SetKey(key: Key, value: Bytes, ttl: Option<Bytes>)
    | Get(key: Key)
    | Incr(key: Key)
    | Decr(key: Key)
    | IncrBy(key: Key, amount: Bytes)
    | DecrBy(key: Key, amount: Bytes)
    | Del(key: Key)
    | Expire(key: Key, seconds: Bytes)
    | Ttl(key: Key)
    | Persist(key: Key)
    | Keys

  datatype Reply = Okay | Error | Data(bytes: Bytes) | Listing(keys: set<Key>)

  /** Outcomes of every allocation one command may ask for. */
  datatype Memory = Memory(
    valueCopy: bool,
    expiryCopy: bool,
    store: Alloc,
    expiry: Alloc,
    undoStore: Alloc,
    undoExpiry: Alloc,
    amount: bool,
    seed: Alloc,
    text: bool)

  const ENOUGH := Alloc(true, true, true)
  const PLENTY := Memory(true, true, ENOUGH, ENOUGH, ENOUGH, ENOUGH, true, ENOUGH, true)

  // ---------- Deadlines as bytes ----------

  function BigEndian(x: nat, n: nat): (b: Bytes)
    ensures |b| == n
  {
    if n == 0 then [] else BigEndian(x / 256, n - 1) + [x % 256]
  }

  function FromBigEndian(b: Bytes): nat {
    if b == [] then 0 else 256 * FromBigEndian(b[..|b| - 1]) + b[|b| - 1]
  }

  function Pow256(n: nat): nat {
    if n == 0 then 1 else 256 * Pow256(n - 1)
  }

  lemma {:induction false} BigEndianRoundTrip(x: nat, n: nat)
    requires x < Pow256(n)
    ensures FromBigEndian(BigEndian(x, n)) == x
  {
    if n > 0 {
      BigEndianRoundTrip(x / 256, n - 1);
      var b := BigEndian(x, n);
      assert b[..|b| - 1] == BigEndian(x / 256, n - 1);
    }
  }

  function DeadlineValue(ms: nat): Value {
    Value(BigEndian(ms, 8), IntText)
  }

  /** Every deadline decodes to the number that was written. */
  lemma DeadlineRoundTrip(ms: nat)
    requires ms <= INT64_MAX
    ensures FromBigEndian(DeadlineValue(ms).bytes) == ms
  {
    assert Pow256(8) == TWO_64;
    BigEndianRoundTrip(ms, 8);
  }

  function GetDeadline(db: Db, k: Key): Option<int> {
    if k in db.expires && |db.expires[k].bytes| == 8 then Some(FromBigEndian(db.expires[k].bytes)) else None
  }

  predicate Expired(db: Db, k: Key, now: int) {
    var d := GetDeadline(db, k);
    d.Some? && d.value <= now
  }

  // ---------- Map steps ----------

  function Put(m: map<Key, Value>, k: Key, v: Value, mem: Alloc): (map<Key, Value>, bool) {
    if SetSucceeds(MapLookup(m, k), v, mem) then (m[k := v], true) else (m, false)
  }

  function Forget(db: Db, keys: set<Key>): Db {
    Db(db.store - keys, db.expires - keys)
  }

  /** Lazy expiry: a key past its deadline leaves both tables. */
  function CheckAndExpire(db: Db, k: Key, now: int): Db {
    if Expired(db, k, now) then Forget(db, {k}) else db
  }

  function Encode(bytes: Bytes): Value {
    Value(bytes, if ParseSpec(bytes, INT64_MIN, INT64_MAX).Some? then IntText else Raw)
  }

  const MAX_TTL_TEXT: nat := 31

  /** Deadline of a TTL text, which must fit the handler's 32-byte buffer. */
  function TtlDeadline(ttl: Bytes, now: int): Option<int>
    requires 0 <= now <= INT64_MAX
  {
    if |ttl| > MAX_TTL_TEXT then None else Deadline(ttl, now)
  }

  // ---------- Commands ----------

  function SetStep(db: Db, now: int, mem: Memory, k: Key, bytes: Bytes, ttl: Option<Bytes>): (Db, Reply)
    requires 0 <= now <= INT64_MAX
  {
    var deadline := if ttl.Some? then TtlDeadline(ttl.value, now) else None;
    if ttl.Some? && deadline == None then (db, Error)
    else
      var (store, ok) := Put(db.store, k, Encode(bytes), mem.store);
      if !ok then (db, Error)
      else if ttl == None then (Db(store, db.expires - {k}), Data(bytes))
      else
        var (expires, ok') := Put(db.expires, k, DeadlineValue(deadline.value), mem.expiry);
        if ok' then (Db(store, expires), Data(bytes))
        else (Undo(db, Db(store, expires), mem, k), Error)
  }

  /** Undoes a SET EX whose deadline could not be stored, from the snapshots taken before it. */
  function Undo(before: Db, db: Db, mem: Memory, k: Key): Db {
    Db(
      if k in before.store && mem.valueCopy then Put(db.store, k, before.store[k], mem.undoStore).0 else db.store - {k},
      if k in before.expires && mem.expiryCopy then Put(db.expires, k, before.expires[k], mem.undoExpiry).0
      else db.expires - {k})
  }

  function GetStep(db: Db, now: int, k: Key): (Db, Reply) {
    var db' := CheckAndExpire(db, k, now);
    (db', match MapLookup(db'.store, k) case Some(v) => Data(v.bytes) case None => Error)
  }

  /** Sum of a counter and an amount, refused by the handlers' overflow guards. */
  function GuardedAdd(current: int, amount: int): Option<int> {
    if (amount > 0 && current > INT64_MAX - amount) || (amount < 0 && current < INT64_MIN - amount) then None
    else Some(current + amount)
  }

  function GuardedSub(current: int, amount: int): Option<int> {
    if (amount > 0 && current < INT64_MIN + amount) || (amount < 0 && current > INT64_MAX + amount) then None
    else Some(current - amount)
  }

  predicate IsCounter(cmd: Command) {
    cmd.Incr? || cmd.Decr? || cmd.IncrBy? || cmd.DecrBy?
  }

  /** What a counter command makes of the current number. */
  function Bump(cmd: Command, current: int): Option<int>
    requires IsCounter(cmd)
  {
    match cmd
    case Incr(_) => if current == INT64_MAX then None else Some(current + 1)
    case Decr(_) => if current == INT64_MIN then None else Some(current - 1)
    case IncrBy(_, text) =>
      var amount := ParseSpec(text, INT64_MIN, INT64_MAX);
      if amount == None then None else GuardedAdd(current, amount.value)
    case DecrBy(_, text) =>
      var amount := ParseSpec(text, INT64_MIN, INT64_MAX);
      if amount == None then None else GuardedSub(current, amount.value)
  }

  const ZERO_TEXT: Value := Value([ZERO], IntText)

  /** An absent counter starts as the text "0". */
  function SeedCounter(db: Db, k: Key, mem: Alloc): (Db, bool) {
    if k in db.store then (db, true)
    else
      var (store, ok) := Put(db.store, k, ZERO_TEXT, mem);
      (db.(store := store), ok)
  }

  /** Replaces the text of an existing counter by that of its new value. */
  function Advance(db: Db, cmd: Command, mem: Memory): (Db, Reply)
    requires IsCounter(cmd)
    requires cmd.key in db.store
  {
    var v := db.store[cmd.key];
    var current := ParseSpec(v.bytes, INT64_MIN, INT64_MAX);
    var next := if v.encoding != IntText || current == None then None else Bump(cmd, current.value);
    if next == None || !mem.text then (db, Error)
    else
      var text := Decimal.IntText(next.value);
      var (store, ok) := Put(db.store, cmd.key, Value(text, IntText), mem.store);
      (db.(store := store), if ok then Data(text) else Error)
  }

  function CounterStep(db: Db, now: int, mem: Memory, cmd: Command): (Db, Reply)
    requires IsCounter(cmd)
  {
    if (cmd.IncrBy? || cmd.DecrBy?) && !mem.amount then (db, Error)
    else
      var (db, seeded) := SeedCounter(CheckAndExpire(db, cmd.key, now), cmd.key, mem.seed);
      if !seeded then (db, Error) else Advance(db, cmd, mem)
  }

  function ExpireStep(db: Db, now: int, mem: Memory, k: Key, ttl: Bytes): (Db, Reply)
    requires 0 <= now <= INT64_MAX
  {
    var deadline := TtlDeadline(ttl, now);
    if k !in db.store || deadline == None then (db, Error)
    else
      var (expires, ok) := Put(db.expires, k, DeadlineValue(deadline.value), mem.expiry);
      (db.(expires := expires), if ok then Okay else Error)
  }

  /** Remaining whole seconds; -1 without a deadline, -2 without the key. */
  function Remaining(db: Db, k: Key, now: int): int {
    if k !in db.store then -2
    else
      match GetDeadline(db, k)
      case None => -1
      case Some(d) => if d - now <= 0 then 0 else (d - now) / 1000
  }

  function TtlStep(db: Db, now: int, k: Key): (Db, Reply) {
    var db' := CheckAndExpire(db, k, now);
    (db', Data(Decimal.IntText(Remaining(db', k, now))))
  }

  // ---------- KEYS ----------

  function LiveKeys(db: Db, now: int): set<Key> {
    set k | k in db.store && !Expired(db, k, now)
  }

  function DeadKeys(db: Db, now: int): set<Key> {
    set k | k in db.store && Expired(db, k, now)
  }

  const MAX_LISTING: nat := 65500

  /** Length of the first n line numbers, each followed by ") " and a newline. */
  function Numbering(n: nat): nat {
    if n == 0 then 0 else Numbering(n - 1) + |NatText(n)| + 3
  }

  ghost function TotalLength(keys: set<Key>): nat
    decreases |keys|
  {
    if keys == {} then 0
    else
      var k :| k in keys;
      |k| + TotalLength(keys - {k})
  }

  ghost predicate ListingFits(keys: set<Key>) {
    Numbering(|keys|) + TotalLength(keys) <= MAX_LISTING
  }

  /** A listing that fits drops every expired key on the way; one that does not may stop anywhere,
      having dropped only those of `cleaned`. */
  ghost function KeysStep(db: Db, now: int, cleaned: set<Key>): (Db, Reply) {
    if ListingFits(LiveKeys(db, now)) then (Forget(db, DeadKeys(db, now)), Listing(LiveKeys(db, now)))
    else (Forget(db, cleaned * DeadKeys(db, now)), Error)
  }

  ghost function Step(db: Db, now: int, mem: Memory, cleaned: set<Key>, cmd: Command): (Db, Reply)
    requires 0 <= now <= INT64_MAX
  {
    match cmd
    case SetKey(k, v, ttl) => SetStep(db, now, mem, k, v, ttl)
    case Get(k) => GetStep(db, now, k)
    case Incr(_) => CounterStep(db, now, mem, cmd)
    case Decr(_) => CounterStep(db, now, mem, cmd)
    case IncrBy(_, _) => CounterStep(db, now, mem, cmd)
    case DecrBy(_, _) => CounterStep(db, now, mem, cmd)
    case Del(k) => (Forget(db, {k}), Okay)
    case Expire(k, ttl) => ExpireStep(db, now, mem, k, ttl)
    case Ttl(k) => TtlStep(db, now, k)
    case Persist(k) => (db.(expires := db.expires - {k}), Okay)
    case Keys => KeysStep(db, now, cleaned)
  }

  // ---------- The invariant of every reachable database ----------

  predicate GoodValue(v: Value) {
    v.encoding == IntText ==> ParseSpec(v.bytes, INT64_MIN, INT64_MAX).Some?
  }

  predicate GoodDeadline(v: Value) {
    |v.bytes| == 8 && v.encoding == IntText && FromBigEndian(v.bytes) <= INT64_MAX
  }

  /** Only stored keys have deadlines, every deadline is eight bytes that decode to an int64, and
      every value marked as a number parses as one. */
  ghost predicate Sound(db: Db) {
    && db.expires.Keys <= db.store.Keys
    && (forall k :: k in db.store ==> GoodValue(db.store[k]))
    && (forall k :: k in db.expires ==> GoodDeadline(db.expires[k]))
  }

  lemma ZeroParses()
    ensures GoodValue(ZERO_TEXT)
  {
    var s: Bytes := [ZERO];
    assert Digits(s) == s;
    assert Horner(0, s) == 0 by {
      assert s[1..] == [];
      assert Horner(0, []) == 0;
    }
  }

  lemma AdvanceSound(db: Db, cmd: Command, mem: Memory)
    requires Sound(db) && IsCounter(cmd) && cmd.key in db.store
    ensures Sound(Advance(db, cmd, mem).0)
  {
    hide ParseSpec, Bump, Decimal.IntText, FromBigEndian;
    var v := db.store[cmd.key];
    ParsedInRange(v.bytes);
    var current := ParseSpec(v.bytes, INT64_MIN, INT64_MAX);
    if current.Some? {
      BumpInRange(cmd, current.value);
      var next := Bump(cmd, current.value);
      if next.Some? {
        IntTextParses(next.value);
      }
    }
  }

  lemma CounterStepSound(db: Db, now: int, mem: Memory, cmd: Command)
    requires Sound(db) && IsCounter(cmd)
    ensures Sound(CounterStep(db, now, mem, cmd).0)
  {
    hide ParseSpec, Advance, FromBigEndian;
    ZeroParses();
    var (db1, seeded) := SeedCounter(CheckAndExpire(db, cmd.key, now), cmd.key, mem.seed);
    assert Sound(db1);
    if seeded {
      AdvanceSound(db1, cmd, mem);
    }
  }

  lemma ParsedInRange(s: Bytes)
    ensures var r := ParseSpec(s, INT64_MIN, INT64_MAX); r.Some? ==> IsInt64(r.value)
  {
  }

  lemma IntTextParses(n: int)
    requires IsInt64(n)
    ensures ParseSpec(Decimal.IntText(n), INT64_MIN, INT64_MAX) == Some(n)
  {
    PrintThenParse(n);
    ParseIsExact(Decimal.IntText(n), INT64_MIN, INT64_MAX);
  }

  lemma BumpInRange(cmd: Command, n: int)
    requires IsInt64(n) && IsCounter(cmd)
    ensures Bump(cmd, n).Some? ==> IsInt64(Bump(cmd, n).value)
  {
  }

  lemma SetStepSound(db: Db, now: int, mem: Memory, k: Key, bytes: Bytes, ttl: Option<Bytes>)
    requires Sound(db) && 0 <= now <= INT64_MAX
    ensures Sound(SetStep(db, now, mem, k, bytes, ttl).0)
  {
    hide ParseSpec, FromBigEndian, BigEndian, Deadline;
    assert GoodValue(Encode(bytes));
    if ttl.Some? {
      DeadlineIsGood(ttl.value, now);
    }
  }

  lemma DeadlineIsGood(ttl: Bytes, now: int)
    requires 0 <= now <= INT64_MAX
    ensures var d := TtlDeadline(ttl, now); d.Some? ==> now <= d.value <= INT64_MAX && GoodDeadline(DeadlineValue(d.value))
  {
    var d := TtlDeadline(ttl, now);
    if d.Some? {
      DeadlineRoundTrip(d.value);
    }
  }

  /** Every command keeps the database sound, whatever memory it is refused. */
  lemma StepSound(db: Db, now: int, mem: Memory, cleaned: set<Key>, cmd: Command)
    requires Sound(db) && 0 <= now <= INT64_MAX
    ensures Sound(Step(db, now, mem, cleaned, cmd).0)
  {
    hide ParseSpec, FromBigEndian, BigEndian, Deadline, ListingFits, CounterStep, SetStep;
    match cmd {
      case SetKey(k, v, ttl) => SetStepSound(db, now, mem, k, v, ttl);
      case Incr(_) => CounterStepSound(db, now, mem, cmd);
      case Decr(_) => CounterStepSound(db, now, mem, cmd);
      case IncrBy(_, _) => CounterStepSound(db, now, mem, cmd);
      case DecrBy(_, _) => CounterStepSound(db, now, mem, cmd);
      case Expire(_, ttl) => DeadlineIsGood(ttl, now);
      case _ =>
    }
  }
}
