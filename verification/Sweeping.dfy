/** The rolling sweep: which keys one sweep removes, and what a round of sweeps covers. */
module Sweeping {
  import opened Common
  import opened Bits
  import opened Dictionary
  import opened DictionaryRuns
  import opened DictionaryWalk
  import opened Store

  // ---------- One bucket ----------

  predicate Overdue(v: Value, now: int) {
    |v.bytes| == 8 && FromBigEndian(v.bytes) <= now
  }

  ghost function OverdueIn(c: Chain, now: int): set<Key> {
    set j | 0 <= j < |c| && Overdue(c[j].value, now) :: c[j].key
  }

  lemma OverdueKey(c: Chain, j: nat, now: int)
    requires j < |c| && Distinct(c)
    ensures c[j].key in OverdueIn(c, now) <==> Overdue(c[j].value, now)
  {
  }

  lemma OverdueSnoc(c: Chain, j: nat, now: int)
    requires j < |c| && Distinct(c)
    ensures Overdue(c[j].value, now) ==>
              && c[j].key !in OverdueIn(c[..j], now)
              && OverdueIn(c[..j + 1], now) == OverdueIn(c[..j], now) + {c[j].key}
    ensures !Overdue(c[j].value, now) ==> OverdueIn(c[..j + 1], now) == OverdueIn(c[..j], now)
  {
    var l, m := c[..j], c[..j + 1];
    assert forall i :: 0 <= i < j ==> l[i] == m[i] == c[i];
    assert m[j] == c[j];
  }

  // ---------- One sweep ----------

  /** The bucket of every key of a table. */
  ghost function PosMap(d: Dict): map<Key, nat>
    requires Valid(d)
  {
    map k | k in AsMap(d) :: (AsMapLookup(d, k); PosOf(d, k))
  }

  /** Position p is one of the n buckets from the cursor on, wrapping around. */
  ghost predicate InWindow(p: nat, cursor: nat, n: nat, total: nat)
    requires total > 0
  {
    exists i :: 0 <= i < n && WindowAt(cursor, i, total) == p
  }

  function WindowAt(cursor: nat, i: nat, total: nat): (p: nat)
    requires total > 0
    ensures p < total
  {
    (cursor + i) % total
  }

  /** Keys past their deadline whose bucket the sweep visits. */
  ghost function Swept(db: Db, pos: map<Key, nat>, cursor: nat, n: nat, total: nat, now: int): set<Key>
    requires total > 0
  {
    set k | k in db.expires && k in pos && Expired(db, k, now) && InWindow(pos[k], cursor, n, total)
  }

  /** Database, buckets and cursor after a sweep of n buckets. */
  datatype Sweeper = Sweeper(db: Db, pos: map<Key, nat>, cursor: nat)

  ghost function SweepStep(s: Sweeper, total: nat, n: nat, now: int): Sweeper
    requires total > 0
  {
    var gone := Swept(s.db, s.pos, s.cursor, n, total, now);
    Sweeper(Forget(s.db, gone), s.pos - gone, (s.cursor + n) % total)
  }

  ghost function SweepRun(s: Sweeper, total: nat, n: nat, times: seq<int>): Sweeper
    requires total > 0
    decreases times
  {
    if times == [] then s else SweepRun(SweepStep(s, total, n, times[0]), total, n, times[1..])
  }

  // ---------- From buckets to keys ----------

  lemma HasPos(d: Dict, k: Key, p: nat)
    requires Valid(d) && p < |AllBuckets(d)| && Has(AllBuckets(d)[p], k)
    ensures k in AsMap(d) && Lookup(d, k).Some? && PosOf(d, k) == p && PosMap(d)[k] == p
    ensures AsMap(d)[k] == AllBuckets(d)[p][IndexOf(AllBuckets(d)[p], k)].value
  {
    EntryAt(d, p, IndexOf(AllBuckets(d)[p], k));
    AsMapLookup(d, k);
  }

  /** Sweeping a bucket leaves every remaining key where it was. */
  lemma PosAfterBucket(d: Dict, d': Dict, p: nat, dead: set<Key>)
    requires Valid(d) && Valid(d') && p < |AllBuckets(d)|
    requires AllBuckets(d') == AllBuckets(d)[p := Keep(AllBuckets(d)[p], dead)]
    ensures forall k :: k in AsMap(d') ==> k in AsMap(d) && PosMap(d')[k] == PosMap(d)[k]
  {
    hide Valid, AsMap, IndexOf, Keep, PosOf, AllBuckets;
    forall k | k in AsMap(d') ensures k in AsMap(d) && PosMap(d')[k] == PosMap(d)[k] {
      AsMapLookup(d', k);
      KeyInBucket(d', k);
      var q := PosOf(d', k);
      if q == p {
        KeepWithin(AllBuckets(d)[p], dead, k);
      }
      HasPos(d, k, q);
      HasPos(d', k, q);
    }
  }

  /** The overdue entries of a bucket are the keys past their deadline that belong there. */
  lemma OverdueIsExpired(d: Dict, p: nat, now: int)
    requires Valid(d) && p < |AllBuckets(d)|
    ensures forall k :: k in OverdueIn(AllBuckets(d)[p], now) <==>
                        k in AsMap(d) && Overdue(AsMap(d)[k], now) && PosMap(d)[k] == p
  {
    hide Valid, AsMap, IndexOf, PosOf, AllBuckets, Overdue;
    var c := AllBuckets(d)[p];
    forall k
      ensures k in OverdueIn(c, now) <==> k in AsMap(d) && Overdue(AsMap(d)[k], now) && PosMap(d)[k] == p
    {
      if k in OverdueIn(c, now) {
        var j :| 0 <= j < |c| && Overdue(c[j].value, now) && c[j].key == k;
        EntryAt(d, p, j);
        HasPos(d, k, p);
      } else if k in AsMap(d) && PosMap(d)[k] == p {
        AsMapLookup(d, k);
        KeyInBucket(d, k);
        HasPos(d, k, p);
      }
    }
  }

  /** One more bucket of the window adds the keys that are past their deadline there. */
  lemma SweptSnoc(db: Db, d: Dict, pos: map<Key, nat>, cursor: nat, i: nat, total: nat, now: int)
    requires total > 0 && Valid(d) && total == |AllBuckets(d)|
    requires pos.Keys == db.expires.Keys
    requires var gone := Swept(db, pos, cursor, i, total, now);
             AsMap(d) == db.expires - gone && PosMap(d) == pos - gone
    ensures var gone := Swept(db, pos, cursor, i, total, now);
            var here := OverdueIn(AllBuckets(d)[WindowAt(cursor, i, total)], now);
            gone !! here && Swept(db, pos, cursor, i + 1, total, now) == gone + here
  {
    hide Valid, AsMap, PosMap, AllBuckets, OverdueIn;
    var p := WindowAt(cursor, i, total);
    OverdueIsExpired(d, p, now);
    var gone, more := Swept(db, pos, cursor, i, total, now), Swept(db, pos, cursor, i + 1, total, now);
    forall k ensures k in more <==> k in gone || k in OverdueIn(AllBuckets(d)[p], now) {
      if k in db.expires {
        WindowGrows(pos[k], cursor, i, total);
      }
    }
  }

  lemma WindowGrows(q: nat, cursor: nat, i: nat, total: nat)
    requires total > 0
    ensures InWindow(q, cursor, i + 1, total) <==> InWindow(q, cursor, i, total) || q == WindowAt(cursor, i, total)
  {
    if InWindow(q, cursor, i + 1, total) {
      var x :| 0 <= x < i + 1 && WindowAt(cursor, x, total) == q;
      assert x < i ==> InWindow(q, cursor, i, total);
    }
    assert InWindow(WindowAt(cursor, i, total), cursor, i + 1, total);
  }

  // ---------- A round of sweeps ----------

  /** How far ahead of the cursor a bucket lies. */
  function Ahead(p: nat, cursor: nat, total: nat): nat
    requires p < total
  {
    var c := cursor % total;
    if p >= c then p - c else p + total - c
  }

  lemma ModSmall(x: int, t: nat)
    requires 0 <= x < t
    ensures x % t == x
  {
  }

  lemma ModShift(c: nat, i: nat, t: nat)
    requires t > 0
    ensures (c + i) % t == (c % t + i) % t
  {
    var q, r := c / t, c % t;
    var q', r' := (r + i) / t, (r + i) % t;
    assert c == q * t + r;
    assert r + i == q' * t + r';
    assert c + i == (q + q') * t + r';
    DivModUnique(c + i, t, q + q', r');
  }

  lemma AheadInWindow(p: nat, cursor: nat, n: nat, total: nat)
    requires p < total
    ensures Ahead(p, cursor, total) < n ==> InWindow(p, cursor, n, total)
  {
    var a := Ahead(p, cursor, total);
    ModShift(cursor, a, total);
    var c := cursor % total;
    if p >= c {
      ModSmall(c + a, total);
    } else {
      assert c + a == 1 * total + p;
      DivModUnique(c + a, total, 1, p);
    }
    assert WindowAt(cursor, a, total) == p;
  }

  lemma AheadAfter(p: nat, cursor: nat, n: nat, total: nat)
    requires p < total && n <= Ahead(p, cursor, total)
    ensures Ahead(p, (cursor + n) % total, total) == Ahead(p, cursor, total) - n
  {
    ModShift(cursor, n, total);
    var c := cursor % total;
    ModSmall((c + n) % total, total);
    if c + n < total {
      ModSmall(c + n, total);
    } else {
      assert c + n == 1 * total + (c + n - total);
      DivModUnique(c + n, total, 1, c + n - total);
    }
  }

  predicate AtLeast(times: seq<int>, now: int) {
    forall i :: 0 <= i < |times| ==> times[i] >= now
  }

  ghost predicate PosOk(s: Sweeper, total: nat) {
    s.pos.Keys == s.db.expires.Keys && forall k :: k in s.pos ==> s.pos[k] < total
  }

  // ---------- Commands between the sweeps ----------

  /** What happens in turn: a sweep, or whatever commands do to the database in between. */
  datatype Move = SweepAt(now: int) | Between(db: Db, pos: map<Key, nat>)

  ghost function AfterMove(s: Sweeper, total: nat, n: nat, m: Move): Sweeper
    requires total > 0
  {
    match m
    case SweepAt(now) => SweepStep(s, total, n, now)
    case Between(db, pos) => Sweeper(db, pos, s.cursor)
  }

  ghost function RunMoves(s: Sweeper, total: nat, n: nat, moves: seq<Move>): Sweeper
    requires total > 0
    decreases moves
  {
    if moves == [] then s else RunMoves(AfterMove(s, total, n, moves[0]), total, n, moves[1..])
  }

  function Sweeps(moves: seq<Move>): nat
    decreases moves
  {
    if moves == [] then 0 else (if moves[0].SweepAt? then 1 else 0) + Sweeps(moves[1..])
  }

  predicate SweepsFrom(moves: seq<Move>, now: int) {
    forall i :: 0 <= i < |moves| && moves[i].SweepAt? ==> moves[i].now >= now
  }

  ghost predicate IsGone(db: Db, k: Key) {
    k !in db.expires && k !in db.store
  }

  /** Between sweeps the key goes, or its deadline and its bucket stay. */
  ghost predicate LeavesAlone(s: Sweeper, m: Move, k: Key) {
    m.Between? ==>
      IsGone(m.db, k) ||
      (k in s.db.expires && k in m.db.expires && m.db.expires[k] == s.db.expires[k]
       && k in s.pos && k in m.pos && m.pos[k] == s.pos[k])
  }

  ghost predicate Undisturbed(s: Sweeper, total: nat, n: nat, moves: seq<Move>, k: Key)
    requires total > 0
    decreases moves
  {
    moves == [] ||
    (LeavesAlone(s, moves[0], k) && Undisturbed(AfterMove(s, total, n, moves[0]), total, n, moves[1..], k))
  }

  lemma {:induction false} StaysGone(s: Sweeper, total: nat, n: nat, moves: seq<Move>, k: Key)
    requires total > 0 && IsGone(s.db, k) && Undisturbed(s, total, n, moves, k)
    ensures IsGone(RunMoves(s, total, n, moves).db, k)
    decreases moves
  {
    if moves != [] {
      StaysGone(AfterMove(s, total, n, moves[0]), total, n, moves[1..], k);
    }
  }

  /** One sweep reaches the key and removes it, or comes nearer to it. */
  lemma SweepNears(s: Sweeper, total: nat, n: nat, now: int, k: Key)
    requires total > 0 && k in s.db.expires && k in s.pos && s.pos[k] < total && Expired(s.db, k, now)
    ensures var s1 := SweepStep(s, total, n, now); var a := Ahead(s.pos[k], s.cursor, total);
            if a < n then IsGone(s1.db, k)
            else
              IsGone(s1.db, k) ||
              (k in s1.db.expires && s1.db.expires[k] == s.db.expires[k] && k in s1.pos && s1.pos[k] == s.pos[k]
               && Ahead(s1.pos[k], s1.cursor, total) == a - n)
  {
    var p := s.pos[k];
    if Ahead(p, s.cursor, total) < n {
      AheadInWindow(p, s.cursor, n, total);
    } else {
      AheadAfter(p, s.cursor, n, total);
    }
  }

  /** Enough sweeps to reach the bucket of a key past its deadline remove it from both tables,
      whatever commands do to other keys in between. */
  lemma {:induction false} RoundCovers(s: Sweeper, total: nat, n: nat, moves: seq<Move>, now: int, k: Key)
    requires total > 0 && SweepsFrom(moves, now) && Undisturbed(s, total, n, moves, k)
    requires k in s.db.expires && k in s.pos && s.pos[k] < total && Expired(s.db, k, now)
    requires Sweeps(moves) * n > Ahead(s.pos[k], s.cursor, total)
    ensures IsGone(RunMoves(s, total, n, moves).db, k)
    decreases moves
  {
    hide SweepStep, Ahead;
    var m, rest := moves[0], moves[1..];
    var s1 := AfterMove(s, total, n, m);
    assert forall i :: 0 <= i < |rest| ==> rest[i] == moves[i + 1];
    if m.SweepAt? {
      ExpiredLater(s.db, k, now, m.now);
      SweepNears(s, total, n, m.now, k);
      assert Sweeps(moves) * n == Sweeps(rest) * n + n;
    }
    if IsGone(s1.db, k) {
      StaysGone(s1, total, n, rest, k);
    } else {
      RoundCovers(s1, total, n, rest, now, k);
    }
  }

  lemma ExpiredLater(db: Db, k: Key, now: int, later: int)
    requires Expired(db, k, now) && now <= later
    ensures Expired(db, k, later)
  {
  }

  /** A round of sweeps that together visit as many buckets as there are removes, from both tables,
      every key past its deadline when it began that the commands in between leave alone. */
  lemma FullRound(s: Sweeper, total: nat, n: nat, moves: seq<Move>, now: int)
    requires total > 0 && PosOk(s, total) && SweepsFrom(moves, now) && Sweeps(moves) * n >= total
    ensures var r := RunMoves(s, total, n, moves).db;
            forall k :: k in s.db.expires && Expired(s.db, k, now) && Undisturbed(s, total, n, moves, k) ==> IsGone(r, k)
  {
    hide RunMoves, Undisturbed, SweepsFrom;
    var r := RunMoves(s, total, n, moves).db;
    forall k | k in s.db.expires && Expired(s.db, k, now) && Undisturbed(s, total, n, moves, k) ensures IsGone(r, k) {
      RoundCovers(s, total, n, moves, now, k);
    }
  }

  /** Any operation on another key of the deadline table leaves a key alone, unless a resize is in
      flight. */
  lemma OpLeavesAlone(s: Sweeper, d: Dict, op: Op, store: map<Key, Value>, k: Key)
    requires Valid(d) && !d.Rehashing() && s.db.expires == AsMap(d) && s.pos == PosMap(d)
    requires op.key != k && k in AsMap(d)
    ensures var d' := Apply(d, op).0; Valid(d')
    ensures var d' := Apply(d, op).0; LeavesAlone(s, Between(Db(store, AsMap(d')), PosMap(d')), k)
  {
    hide Valid, AsMap, PosOf, Set, Delete;
    ApplyRefines(d, op);
    AsMapLookup(d, k);
    PosMapAt(d, k);
    var d' := Apply(d, op).0;
    AsMapLookup(d', k);
    if op.OpSet? {
      SetKeepsPos(d, op.key, op.value, op.mem, k);
      PosMapAt(d', k);
    } else if op.OpDelete? {
      DeleteKeepsPos(d, op.key, k);
      PosMapAt(d', k);
    }
  }

  /** Sweeps alone, as moves. */
  function OnlySweeps(times: seq<int>): seq<Move> {
    seq(|times|, i requires 0 <= i < |times| => SweepAt(times[i]))
  }

  lemma {:induction false} SweepsAlone(s: Sweeper, total: nat, n: nat, times: seq<int>, k: Key)
    requires total > 0
    ensures RunMoves(s, total, n, OnlySweeps(times)) == SweepRun(s, total, n, times)
    ensures Sweeps(OnlySweeps(times)) == |times| && Undisturbed(s, total, n, OnlySweeps(times), k)
    decreases times
  {
    hide SweepStep;
    if times != [] {
      assert OnlySweeps(times)[1..] == OnlySweeps(times[1..]);
      SweepsAlone(SweepStep(s, total, n, times[0]), total, n, times[1..], k);
    }
  }

  // ---------- A round that misses a key ----------

  /** While no other key is due and the sweeps have not come round to this one, nothing changes but
      the cursor. */
  lemma {:induction false} QuietSweeps(s: Sweeper, total: nat, times: seq<int>, k: Key)
    requires total > 0 && k in s.pos && s.pos[k] < total && |times| <= Ahead(s.pos[k], s.cursor, total)
    requires forall q, i :: q in s.db.expires && q != k && 0 <= i < |times| ==> !Expired(s.db, q, times[i])
    ensures RunMoves(s, total, 1, OnlySweeps(times)) == Sweeper(s.db, s.pos, if times == [] then s.cursor else (s.cursor + |times|) % total)
    decreases times
  {
    if times != [] {
      var s1 := SweepStep(s, total, 1, times[0]);
      OutOfWindow(s.pos[k], s.cursor, total);
      assert Swept(s.db, s.pos, s.cursor, 1, total, times[0]) == {};
      assert Forget(s.db, {}) == s.db && s.pos - {} == s.pos;
      AheadAfter(s.pos[k], s.cursor, 1, total);
      var rest := times[1..];
      assert forall i :: 0 <= i < |rest| ==> rest[i] == times[i + 1];
      QuietSweeps(s1, total, rest, k);
      assert OnlySweeps(times)[1..] == OnlySweeps(rest);
      ModShift(s.cursor + 1, |rest|, total);
      ModSmall((s.cursor + 1) % total, total);
    }
  }

  lemma OutOfWindow(p: nat, cursor: nat, total: nat)
    requires p < total && Ahead(p, cursor, total) > 0
    ensures !InWindow(p, cursor, 1, total)
  {
    assert WindowAt(cursor, 0, total) == cursor % total;
  }

  lemma {:induction false} RunConcat(s: Sweeper, total: nat, n: nat, a: seq<Move>, b: seq<Move>)
    requires total > 0
    ensures RunMoves(s, total, n, a + b) == RunMoves(RunMoves(s, total, n, a), total, n, b)
    ensures Sweeps(a + b) == Sweeps(a) + Sweeps(b)
    decreases a
  {
    if a == [] {
      assert a + b == b;
    } else {
      RunConcat(AfterMove(s, total, n, a[0]), total, n, a[1..], b);
      assert (a + b)[1..] == a[1..] + b;
    }
  }

  /** A key that moves, just before the sweep of its bucket, to one the round has swept, is missed. */
  lemma MovedKeyMissed(s: Sweeper, total: nat, times: seq<int>, m: Move, last: int, q: Key, r: nat)
    requires r + 1 < total == |times| + 1 && s.cursor == r + 1 && q in s.pos && s.pos[q] == r
    requires m.Between? && q in m.db.expires && (q in m.pos ==> m.pos[q] != r)
    requires forall x, i :: x in s.db.expires && x != q && 0 <= i < |times| ==> !Expired(s.db, x, times[i])
    ensures var moves := OnlySweeps(times) + [m, SweepAt(last)];
            Sweeps(moves) == total && MapLookup(RunMoves(s, total, 1, moves).db.expires, q) == Some(m.db.expires[q])
  {
    hide SweepStep, Expired, OnlySweeps, Ahead;
    AheadAll(r, total);
    QuietSweeps(s, total, times, q);
    SweepsAlone(s, total, 1, times, q);
    RunConcat(s, total, 1, OnlySweeps(times), [m, SweepAt(last)]);
    BackAt(r, total);
    TwoMoves(Sweeper(s.db, s.pos, r), total, m, last);
    LastSweep(Sweeper(m.db, m.pos, r), total, last, q, r);
  }

  lemma TwoMoves(s: Sweeper, total: nat, m: Move, last: int)
    requires total > 0 && m.Between?
    ensures Sweeps([m, SweepAt(last)]) == 1
    ensures RunMoves(s, total, 1, [m, SweepAt(last)]) == SweepStep(Sweeper(m.db, m.pos, s.cursor), total, 1, last)
  {
    hide SweepStep;
    var moves := [m, SweepAt(last)];
    var s1 := Sweeper(m.db, m.pos, s.cursor);
    assert moves[1..] == [SweepAt(last)] && [SweepAt(last)][1..] == [];
    assert Sweeps([]) == 0;
    assert RunMoves(s1, total, 1, [SweepAt(last)]) == RunMoves(SweepStep(s1, total, 1, last), total, 1, []);
  }

  /** Between the last two sweeps of a round, a set of another key during a resize moves the bucket
      the round has not reached yet to one that it has: the round misses a key past its deadline. */
  lemma RoundMisses(store: map<Key, Value>, d: Dict, q: Key, k: Key, v: Value, mem: Alloc, times: seq<int>, last: int)
    requires Valid(d) && d.Rehashing() && d.rehash < |d.t0| - 1 && Has(d.t0[d.rehash], q) && k != q
    requires |times| == |d.t0| + |d.t1| - 1
    requires forall x, i :: x in AsMap(d) && x != q && 0 <= i < |times| ==> !Expired(Db(store, AsMap(d)), x, times[i])
    ensures var d' := Set(d, k, v, mem).0; Valid(d') && q in AsMap(d) && |d'.t0| == |d.t0| && |d'.t1| == |d.t1|
    ensures var d' := Set(d, k, v, mem).0; var total := |d.t0| + |d.t1|;
            var moves := OnlySweeps(times) + [Between(Db(store, AsMap(d')), PosMap(d')), SweepAt(last)];
            && Sweeps(moves) == total
            && MapLookup(RunMoves(Sweeper(Db(store, AsMap(d)), PosMap(d), d.rehash + 1), total, 1, moves).db.expires, q)
               == Some(AsMap(d)[q])
  {
    hide AsMap, PosMap, PosOf, Set, RunMoves, Sweeps, Expired, OnlySweeps, TableOk, Count, TableLookup, IndexOf;
    SetMovesBucket(d, k, v, mem, q);
    var d', r := Set(d, k, v, mem).0, d.rehash as nat;
    PosMapAt(d, q);
    PosMapAt(d', q);
    var s := Sweeper(Db(store, AsMap(d)), PosMap(d), r + 1);
    var m := Between(Db(store, AsMap(d')), PosMap(d'));
    MovedKeyMissed(s, |d.t0| + |d.t1|, times, m, last, q, r);
  }

  lemma PosMapAt(d: Dict, q: Key)
    requires Valid(d) && Lookup(d, q).Some?
    ensures q in AsMap(d) && q in PosMap(d) && PosMap(d)[q] == PosOf(d, q) && Lookup(d, q) == Some(AsMap(d)[q])
  {
    AsMapLookup(d, q);
  }

  lemma AheadAll(r: nat, total: nat)
    requires r + 1 < total
    ensures Ahead(r, r + 1, total) == total - 1
  {
    ModSmall(r + 1, total);
  }

  lemma BackAt(r: nat, total: nat)
    requires r < total
    ensures (r + 1 + (total - 1)) % total == r
  {
    assert r + total == 1 * total + r;
    DivModUnique(r + total, total, 1, r);
  }

  lemma LastSweep(s: Sweeper, total: nat, now: int, q: Key, r: nat)
    requires r < total && s.cursor == r && q in s.db.expires && (q in s.pos ==> s.pos[q] != r)
    ensures MapLookup(SweepStep(s, total, 1, now).db.expires, q) == Some(s.db.expires[q])
  {
    ModSmall(r, total);
    assert WindowAt(r, 0, total) == r;
  }

  /** No sweep of the run removes a key before its deadline, nor a key without one. */
  lemma {:induction false} RoundSpares(s: Sweeper, total: nat, n: nat, times: seq<int>, k: Key)
    requires total > 0
    requires forall i :: 0 <= i < |times| ==> !Expired(s.db, k, times[i])
    ensures var r := SweepRun(s, total, n, times).db;
            MapLookup(r.store, k) == MapLookup(s.db.store, k) && MapLookup(r.expires, k) == MapLookup(s.db.expires, k)
    decreases times
  {
    if times != [] {
      assert !Expired(s.db, k, times[0]);
      var s1 := SweepStep(s, total, n, times[0]);
      forall i | 0 <= i < |times[1..]| ensures !Expired(s1.db, k, times[1..][i]) {
        assert !Expired(s.db, k, times[i + 1]);
      }
      RoundSpares(s1, total, n, times[1..], k);
    }
  }

  /** Number of keys the sweeps of a run report as deleted. */
  ghost function Deleted(s: Sweeper, total: nat, n: nat, times: seq<int>): nat
    requires total > 0
    decreases times
  {
    if times == [] then 0
    else |Swept(s.db, s.pos, s.cursor, n, total, times[0])| + Deleted(SweepStep(s, total, n, times[0]), total, n, times[1..])
  }

  /** The reported counts add up to the deadlines that are gone. */
  lemma {:induction false} CountsAddUp(s: Sweeper, total: nat, n: nat, times: seq<int>)
    requires total > 0
    ensures Deleted(s, total, n, times) == |s.db.expires| - |SweepRun(s, total, n, times).db.expires|
    decreases times
  {
    if times != [] {
      var gone := Swept(s.db, s.pos, s.cursor, n, total, times[0]);
      var s1 := SweepStep(s, total, n, times[0]);
      assert s1.db.expires.Keys == s.db.expires.Keys - gone;
      assert |s.db.expires.Keys - gone| == |s.db.expires.Keys| - |gone|;
      CountsAddUp(s1, total, n, times[1..]);
    }
  }
}
