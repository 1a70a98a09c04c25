/** What SET and the counters do to the store: all or nothing, and exact over whole runs. */
module StoreRuns {
  import opened Common
  import opened Dictionary
  import opened DictionaryRuns
  import opened Decimal
  import opened Store

  // ---------- SET is all or nothing ----------

  /** The one path on which SET EX has already written the value when it fails. */
  predicate FailsLate(db: Db, now: int, mem: Memory, k: Key, bytes: Bytes, ttl: Option<Bytes>)
    requires 0 <= now <= INT64_MAX
  {
    && ttl.Some? && TtlDeadline(ttl.value, now).Some?
    && SetSucceeds(MapLookup(db.store, k), Encode(bytes), mem.store)
    && k !in db.expires && !(mem.expiry.value && mem.expiry.node)
  }

  /** The previous value can be put back: there was none, or it was copied and fits or has memory. */
  predicate Restorable(db: Db, mem: Memory, k: Key, bytes: Bytes) {
    k in db.store ==> mem.valueCopy && (|db.store[k].bytes| == |bytes| || mem.undoStore.value)
  }

  /** A SET that replies with an error leaves both tables as they were, except exactly when it
      fails after writing a value that it then cannot restore. */
  lemma SetAllOrNothing(db: Db, now: int, mem: Memory, k: Key, bytes: Bytes, ttl: Option<Bytes>)
    requires Sound(db) && 0 <= now <= INT64_MAX
    ensures var (db', reply) := SetStep(db, now, mem, k, bytes, ttl);
            reply == Error ==> (db' == db <==> (FailsLate(db, now, mem, k, bytes, ttl) ==> Restorable(db, mem, k, bytes)))
  {
    hide ParseSpec, TtlDeadline, FromBigEndian;
    var (db', reply) := SetStep(db, now, mem, k, bytes, ttl);
    if reply == Error && FailsLate(db, now, mem, k, bytes, ttl) {
      var store := db.store[k := Encode(bytes)];
      if k in db.store {
        assert store[k := db.store[k]] == db.store;
      } else {
        assert store - {k} == db.store;
      }
      assert db.expires - {k} == db.expires;
    }
  }

  /** SET EX of a stored key, refused the snapshot and the memory for the deadline, loses the key. */
  lemma FailedSetLosesKey(k: Key)
    ensures var mem := PLENTY.(valueCopy := false, expiry := Alloc(false, false, false));
            SetStep(Db(map[k := Value([65], Raw)], map[]), 0, mem, k, [66, 66], Some([ZERO])) == (Db(map[], map[]), Error)
  {
    ZeroIsZero();
    var text: Bytes := [ZERO];
    assert Digits(text) == text && text[1..] == [] && Horner(0, []) == 0;
  }

  // ---------- Counters ----------

  /** The amount a counter command asks to add, if its text is a number. */
  function Delta(cmd: Command): Option<int>
    requires IsCounter(cmd)
  {
    match cmd
    case Incr(_) => Some(1)
    case Decr(_) => Some(-1)
    case IncrBy(_, text) => ParseSpec(text, INT64_MIN, INT64_MAX)
    case DecrBy(_, text) =>
      var amount := ParseSpec(text, INT64_MIN, INT64_MAX);
      if amount == None then None else Some(-amount.value)
  }

  /** A counter over unbounded integers that accepts an amount when the exact sum is an int64. */
  function CounterSpec(current: int, cmd: Command): Option<int>
    requires IsCounter(cmd)
  {
    var d := Delta(cmd);
    if d.Some? && IsInt64(current + d.value) then Some(current + d.value) else None
  }

  /** The overflow guards refuse a well-formed amount exactly when the exact result leaves int64. */
  lemma GuardsAreExact(cmd: Command, current: int)
    requires IsCounter(cmd) && IsInt64(current)
    ensures Bump(cmd, current) == CounterSpec(current, cmd)
  {
    hide TextValue;
  }

  /** The guards themselves stay within int64. */
  lemma GuardsDoNotOverflow(amount: int)
    requires IsInt64(amount)
    ensures amount > 0 ==> IsInt64(INT64_MAX - amount) && IsInt64(INT64_MIN + amount)
    ensures amount < 0 ==> IsInt64(INT64_MIN - amount) && IsInt64(INT64_MAX + amount)
  {
  }

  /** The key holds a number, or nothing at all, in which case it counts as zero. */
  predicate CounterAt(db: Db, k: Key, current: int) {
    && IsInt64(current)
    && if k in db.store then db.store[k].encoding == IntText && ParseSpec(db.store[k].bytes, INT64_MIN, INT64_MAX) == Some(current)
       else current == 0
  }

  /** A counter command, with the clock reading and the memory it meets. */
  datatype Call = Call(now: int, mem: Memory, cmd: Command)

  /** A refusal, or the exact new value; and, where memory suffices, refused only when there is no
      exact new value. */
  predicate AnsweredExactly(current: int, c: Call, reply: Reply)
    requires IsCounter(c.cmd)
  {
    var next := CounterSpec(current, c.cmd);
    && (reply == Error || (next.Some? && reply == Data(Decimal.IntText(next.value))))
    && (c.mem == PLENTY ==> (reply == Error <==> next == None))
  }

  /** INCRBY and DECRBY give up before they look at the key when the amount cannot be copied. */
  predicate ReadsKey(c: Call) {
    (c.cmd.IncrBy? || c.cmd.DecrBy?) ==> c.mem.amount
  }

  /** The call finds the key past its deadline, and drops it. */
  predicate Lapses(deadline: Option<int>, c: Call) {
    ReadsKey(c) && deadline.Some? && deadline.value <= c.now
  }

  lemma CounterStepExact(db: Db, c: Call, current: int)
    requires IsCounter(c.cmd) && CounterAt(db, c.cmd.key, current) && !Lapses(GetDeadline(db, c.cmd.key), c)
    ensures var (db', reply) := CounterStep(db, c.now, c.mem, c.cmd); var k := c.cmd.key;
            && AnsweredExactly(current, c, reply) && db'.expires == db.expires && db'.store - {k} == db.store - {k}
            && (reply == Error ==> CounterAt(db', k, current) && (k in db.store ==> db' == db))
            && (reply != Error ==>
                  && CounterAt(db', k, CounterSpec(current, c.cmd).value)
                  && k in db'.store && db'.store[k].bytes == Decimal.IntText(CounterSpec(current, c.cmd).value))
  {
    hide ParseSpec, Horner, CounterSpec, Bump, Decimal.IntText, GetDeadline;
    GuardsAreExact(c.cmd, current);
    BumpInRange(c.cmd, current);
    ZeroIsZero();
    if Bump(c.cmd, current).Some? {
      IntTextParses(Bump(c.cmd, current).value);
    }
  }

  /** A call that finds the key past its deadline does what it would do had the key never been. */
  lemma LapseRestarts(db: Db, c: Call)
    requires IsCounter(c.cmd) && Lapses(GetDeadline(db, c.cmd.key), c)
    ensures var gone := Forget(db, {c.cmd.key});
            && CounterStep(db, c.now, c.mem, c.cmd) == CounterStep(gone, c.now, c.mem, c.cmd)
            && CounterAt(gone, c.cmd.key, 0) && GetDeadline(gone, c.cmd.key) == None
  {
    hide Advance, SeedCounter;
  }

  /** A refused counter command leaves the store as it was exactly when it gave up before looking
      at the key, or found it live, or found nothing and could not create it. Otherwise it has
      dropped an expired key, or created the key as "0". */
  lemma RefusalLeavesStore(db: Db, c: Call)
    requires IsCounter(c.cmd) && Sound(db)
    ensures var (db', reply) := CounterStep(db, c.now, c.mem, c.cmd); var k := c.cmd.key;
            reply == Error ==>
              && (db' == db <==>
                    !ReadsKey(c) ||
                    (!Expired(db, k, c.now) && (k in db.store || !(c.mem.seed.value && c.mem.seed.node))))
              && (db' != db ==>
                    db' == (if c.mem.seed.value && c.mem.seed.node
                            then var gone := Forget(db, {k}); gone.(store := gone.store[k := ZERO_TEXT])
                            else Forget(db, {k})))
  {
    hide ParseSpec, FromBigEndian, Bump;
    var k := c.cmd.key;
    if k !in db.store {
      assert Forget(db, {k}) == db;
    }
  }

  /** INCRBY by something that is no number creates an absent key and replies error. */
  lemma RefusedAmountCreatesKey(k: Key)
    ensures CounterStep(Db(map[], map[]), 0, PLENTY, IncrBy(k, [MINUS])) == (Db(map[k := ZERO_TEXT], map[]), Error)
  {
    ZeroIsZero();
    assert Digits([MINUS]) == [];
  }

  lemma ZeroIsZero()
    ensures ParseSpec([ZERO], INT64_MIN, INT64_MAX) == Some(0)
  {
    var s: Bytes := [ZERO];
    assert Digits(s) == s && s[1..] == [];
    assert Horner(0, []) == 0;
  }

  predicate CallsOn(k: Key, calls: seq<Call>) {
    forall c :: c in calls ==> IsCounter(c.cmd) && c.cmd.key == k
  }

  /** The first call that finds the key past its deadline, or the number of calls. */
  function FirstLapse(deadline: Option<int>, calls: seq<Call>): (i: nat)
    ensures i <= |calls|
    decreases calls
  {
    if calls == [] || Lapses(deadline, calls[0]) then 0 else 1 + FirstLapse(deadline, calls[1..])
  }

  lemma {:induction false} NoDeadlineNoLapse(calls: seq<Call>)
    ensures FirstLapse(None, calls) == |calls|
    decreases calls
  {
    if calls != [] {
      NoDeadlineNoLapse(calls[1..]);
    }
  }

  function RunCounters(db: Db, calls: seq<Call>): (Db, seq<Reply>)
    requires forall c :: c in calls ==> IsCounter(c.cmd)
    decreases calls
  {
    if calls == [] then (db, [])
    else
      var (db1, r) := CounterStep(db, calls[0].now, calls[0].mem, calls[0].cmd);
      var (db2, rest) := RunCounters(db1, calls[1..]);
      (db2, [r] + rest)
  }

  /** The amount a call added, read off its answer. */
  function Added(c: Call, reply: Reply): int
    requires IsCounter(c.cmd)
  {
    var d := Delta(c.cmd);
    if reply != Error && d.Some? then d.value else 0
  }

  /** Net sum of the amounts that were accepted. */
  function NetSum(calls: seq<Call>, replies: seq<Reply>): int
    requires |replies| == |calls| && forall c :: c in calls ==> IsCounter(c.cmd)
    decreases calls
  {
    if calls == [] then 0 else Added(calls[0], replies[0]) + NetSum(calls[1..], replies[1..])
  }

  /** Every answer is exact for the value reached by the amounts accepted before it. */
  predicate AllAnsweredExactly(current: int, calls: seq<Call>, replies: seq<Reply>)
    requires |replies| == |calls| && forall c :: c in calls ==> IsCounter(c.cmd)
    decreases calls
  {
    calls == [] ||
    (AnsweredExactly(current, calls[0], replies[0])
     && AllAnsweredExactly(current + Added(calls[0], replies[0]), calls[1..], replies[1..]))
  }

  predicate AllRefused(replies: seq<Reply>) {
    forall i :: 0 <= i < |replies| ==> replies[i] == Error
  }

  lemma RefusedSplit(r: Reply, rest: seq<Reply>)
    ensures AllRefused([r] + rest) <==> r == Error && AllRefused(rest)
  {
    var all := [r] + rest;
    assert all[0] == r;
    assert forall i :: 0 < i < |all| ==> all[i] == rest[i - 1];
    if AllRefused(all) {
      forall i | 0 <= i < |rest| ensures rest[i] == Error {
        assert rest[i] == all[i + 1];
      }
    }
  }

  /** From a start, the calls left the key at the start plus the net sum of what was accepted: in
      canonical text once anything was, and untouched where nothing was. */
  ghost predicate Counted(db: Db, db': Db, k: Key, start: int, calls: seq<Call>, replies: seq<Reply>)
    requires |replies| == |calls| && forall c :: c in calls ==> IsCounter(c.cmd)
  {
    && AllAnsweredExactly(start, calls, replies)
    && CounterAt(db', k, start + NetSum(calls, replies))
    && db'.expires == db.expires && db'.store - {k} == db.store - {k}
    && (!AllRefused(replies) ==> k in db'.store && db'.store[k].bytes == Decimal.IntText(start + NetSum(calls, replies)))
    && (AllRefused(replies) ==> NetSum(calls, replies) == 0 && (k in db.store ==> db' == db))
  }

  /** Before the first call past the key's deadline the calls count from the given start; that call
      drops the key, and from there on they count from zero. */
  ghost predicate CountedRun(db: Db, k: Key, calls: seq<Call>, start: int)
    requires CallsOn(k, calls)
  {
    var (db', replies) := RunCounters(db, calls);
    var i := FirstLapse(GetDeadline(db, k), calls);
    && |replies| == |calls|
    && AllAnsweredExactly(start, calls[..i], replies[..i])
    && (if i == |calls| then Counted(db, db', k, start, calls, replies)
        else Counted(Forget(db, {k}), db', k, 0, calls[i..], replies[i..]))
  }

  /** Over any run of counter commands on a key, with any clock and any memory, each is answered
      with the exact new value or refused, and where memory suffices it is refused only if that
      value leaves int64 or its amount is no number. The key ends holding the start plus the net
      sum of what was accepted; the first call past its deadline restarts the count at zero,
      without a deadline. */
  lemma {:induction false} CounterRun(db: Db, k: Key, calls: seq<Call>, current: int)
    requires CallsOn(k, calls) && CounterAt(db, k, current)
    ensures CountedRun(db, k, calls, current)
    decreases |calls|, GetDeadline(db, k).Some?
  {
    hide CounterStep, CounterAt, CountedRun, Lapses, GetDeadline, AnsweredExactly, CounterSpec;
    if calls == [] {
      RunNone(db, k, current);
    } else if Lapses(GetDeadline(db, k), calls[0]) {
      LapseRestarts(db, calls[0]);
      SomeIfLapses(GetDeadline(db, k), calls[0]);
      CounterRun(Forget(db, {k}), k, calls, 0);
      RunLapsed(db, k, calls, current);
    } else {
      var c := calls[0];
      var (db1, r) := CounterStep(db, c.now, c.mem, c.cmd);
      CounterStepExact(db, c, current);
      AnswerAdds(current, c, r);
      CounterRun(db1, k, calls[1..], current + Added(c, r));
      RunFront(db, k, calls, current);
    }
  }

  /** The key holds something that is no number. */
  ghost predicate NoNumber(db: Db, k: Key) {
    k in db.store && forall n :: IsInt64(n) ==> !CounterAt(db, k, n)
  }

  /** On a key that holds no number every counter command is refused and changes nothing, up to the
      first call past the key's deadline; that call drops the key, and from there on they count
      from zero. */
  ghost predicate RefusedRun(db: Db, k: Key, calls: seq<Call>)
    requires CallsOn(k, calls)
  {
    var (db', replies) := RunCounters(db, calls);
    var i := FirstLapse(GetDeadline(db, k), calls);
    && |replies| == |calls| && AllRefused(replies[..i])
    && (if i == |calls| then db' == db
        else Counted(Forget(db, {k}), db', k, 0, calls[i..], replies[i..]))
  }

  lemma RefusedStep(db: Db, c: Call)
    requires IsCounter(c.cmd) && NoNumber(db, c.cmd.key) && !Lapses(GetDeadline(db, c.cmd.key), c)
    ensures CounterStep(db, c.now, c.mem, c.cmd) == (db, Error)
  {
    hide Bump, Decimal.IntText, GetDeadline;
    var v := db.store[c.cmd.key];
    var n := ParseSpec(v.bytes, INT64_MIN, INT64_MAX);
    ParsedInRange(v.bytes);
    assert v.encoding == IntText && n.Some? ==> CounterAt(db, c.cmd.key, n.value);
  }

  lemma {:induction false} NoNumberRun(db: Db, k: Key, calls: seq<Call>)
    requires CallsOn(k, calls) && NoNumber(db, k)
    ensures RefusedRun(db, k, calls)
    decreases calls
  {
    hide CounterStep, CounterAt, NoNumber, Counted, Lapses, GetDeadline;
    if calls != [] {
      var c := calls[0];
      if Lapses(GetDeadline(db, k), c) {
        LapseRestarts(db, c);
        CounterRun(Forget(db, {k}), k, calls, 0);
        NoDeadlineNoLapse(calls);
        var replies := RunCounters(db, calls).1;
        assert calls[0..] == calls && replies[0..] == replies;
      } else {
        RefusedStep(db, c);
        NoNumberRun(db, k, calls[1..]);
        var rest := RunCounters(db, calls[1..]).1;
        var i := FirstLapse(GetDeadline(db, k), calls);
        RefusedSplit(Error, rest[..i - 1]);
        assert ([Error] + rest)[..i] == [Error] + rest[..i - 1];
        assert calls[1..][i - 1..] == calls[i..] && rest[i - 1..] == ([Error] + rest)[i..];
      }
    }
  }

  lemma RunNone(db: Db, k: Key, start: int)
    requires CounterAt(db, k, start)
    ensures CountedRun(db, k, [], start)
  {
  }

  lemma RunLapsed(db: Db, k: Key, calls: seq<Call>, start: int)
    requires calls != [] && CallsOn(k, calls) && Lapses(GetDeadline(db, k), calls[0])
    requires CountedRun(Forget(db, {k}), k, calls, 0)
    ensures CountedRun(db, k, calls, start)
  {
    hide CounterStep, Counted, Lapses, GetDeadline;
    LapseRestarts(db, calls[0]);
    NoDeadlineNoLapse(calls);
    var replies := RunCounters(db, calls).1;
    assert calls[..0] == [] && replies[..0] == [] && calls[0..] == calls && replies[0..] == replies;
  }

  lemma RunFront(db: Db, k: Key, calls: seq<Call>, start: int)
    requires calls != [] && CallsOn(k, calls) && CounterAt(db, k, start) && !Lapses(GetDeadline(db, k), calls[0])
    requires var (db1, r) := CounterStep(db, calls[0].now, calls[0].mem, calls[0].cmd);
             CountedRun(db1, k, calls[1..], start + Added(calls[0], r))
    ensures CountedRun(db, k, calls, start)
  {
    hide CounterStep, CounterAt, Counted, AllAnsweredExactly, Lapses, GetDeadline, AnsweredExactly, CounterSpec, Added;
    var c := calls[0];
    var (db1, r) := CounterStep(db, c.now, c.mem, c.cmd);
    var (db', rest) := RunCounters(db1, calls[1..]);
    var i := FirstLapse(GetDeadline(db, k), calls);
    CounterStepExact(db, c, start);
    AnswerAdds(start, c, r);
    SameDeadline(db, db1, k);
    AnsweredFront(start, calls, r, rest, i);
    if i == |calls| {
      CountedFront(db, db1, db', k, start, calls, r, rest);
    } else {
      assert calls[1..][i - 1..] == calls[i..] && rest[i - 1..] == ([r] + rest)[i..];
      SameForgotten(db, db1, k);
    }
  }

  lemma SomeIfLapses(deadline: Option<int>, c: Call)
    requires Lapses(deadline, c)
    ensures deadline.Some?
  {
  }

  lemma AnsweredFront(start: int, calls: seq<Call>, r: Reply, rest: seq<Reply>, i: nat)
    requires calls != [] && |rest| == |calls| - 1 && 0 < i <= |calls| && forall c :: c in calls ==> IsCounter(c.cmd)
    requires AnsweredExactly(start, calls[0], r)
    requires AllAnsweredExactly(start + Added(calls[0], r), calls[1..][..i - 1], rest[..i - 1])
    ensures AllAnsweredExactly(start, calls[..i], ([r] + rest)[..i])
  {
    hide AnsweredExactly, Added;
    assert calls[..i][1..] == calls[1..][..i - 1] && ([r] + rest)[..i][1..] == rest[..i - 1];
  }

  lemma CountedFront(db: Db, db1: Db, db': Db, k: Key, start: int, calls: seq<Call>, r: Reply, rest: seq<Reply>)
    requires calls != [] && |rest| == |calls| - 1 && CallsOn(k, calls)
    requires AnsweredExactly(start, calls[0], r) && db1.expires == db.expires && db1.store - {k} == db.store - {k}
    requires r == Error ==> (k in db.store ==> db1 == db)
    requires r != Error ==> k in db1.store && db1.store[k].bytes == Decimal.IntText(start + Added(calls[0], r))
    requires Counted(db1, db', k, start + Added(calls[0], r), calls[1..], rest)
    ensures Counted(db, db', k, start, calls, [r] + rest)
  {
    hide AnsweredExactly, Delta, CounterAt, Decimal.IntText;
    assert ([r] + rest)[1..] == rest;
    RefusedSplit(r, rest);
    AnswerAdds(start, calls[0], r);
  }

  lemma SameForgotten(db: Db, db1: Db, k: Key)
    requires db1.expires == db.expires && db1.store - {k} == db.store - {k}
    ensures Forget(db1, {k}) == Forget(db, {k})
  {
  }

  lemma AnswerAdds(current: int, c: Call, reply: Reply)
    requires IsCounter(c.cmd) && AnsweredExactly(current, c, reply)
    ensures reply != Error ==> CounterSpec(current, c.cmd) == Some(current + Added(c, reply))
    ensures reply == Error ==> Added(c, reply) == 0
  {
  }

  lemma SameDeadline(db: Db, db1: Db, k: Key)
    requires db1.expires == db.expires
    ensures GetDeadline(db1, k) == GetDeadline(db, k)
  {
  }
}
