/** A round of sweeps with commands in between, on the tables themselves. */
module Rounds {
  import opened Dictionary
  import opened DictionaryRuns
  import opened HashTables
  import opened Sweeping
  import opened Server
  import opened StoreLaws
  import E = ExpirySweep
  import DB = Database
  import S = Store

  /** What the event loop does in turn: the timer's sweep, or a command. */
  datatype Turn = Timer(now: int) | Serve(cmd: S.Command, env: Env)

  function Timers(turns: seq<Turn>): nat
    decreases turns
  {
    if turns == [] then 0 else (if turns[0].Timer? then 1 else 0) + Timers(turns[1..])
  }

  predicate TimersFrom(turns: seq<Turn>, now: int) {
    forall i :: 0 <= i < |turns| && turns[i].Timer? ==> turns[i].now >= now
  }

  /** No command of the run is about the key; KEYS is about none. */
  predicate Unnamed(turns: seq<Turn>, k: Key) {
    forall i :: 0 <= i < |turns| && turns[i].Serve? ==> turns[i].cmd.Keys? || turns[i].cmd.key != k
  }

  // ---------- What a command does to the deadlines ----------

  /** A command sets at most one deadline. */
  lemma StepGrows(db: S.Db, env: Env, cleaned: set<Key>, cmd: S.Command)
    ensures |S.Step(db, env.now, env.mem, cleaned, cmd).0.expires| <= |db.expires| + 1
  {
    var db' := S.Step(db, env.now, env.mem, cleaned, cmd).0;
    var one: set<Key> := if cmd.Keys? then {} else {cmd.key};
    StepKeys(db, env, cleaned, cmd);
    SubsetSize(db'.expires.Keys, db.expires.Keys + one);
  }

  lemma StepKeys(db: S.Db, env: Env, cleaned: set<Key>, cmd: S.Command)
    ensures var db' := S.Step(db, env.now, env.mem, cleaned, cmd).0;
            db'.expires.Keys <= db.expires.Keys + (if cmd.Keys? then {} else {cmd.key})
  {
    hide S.Step;
    var db' := S.Step(db, env.now, env.mem, cleaned, cmd).0;
    forall k | k in db'.expires && (cmd.Keys? || k != cmd.key) ensures k in db.expires {
      StepOthers(db, At(env.now, env.mem, cleaned), cmd, k);
    }
  }

  lemma {:induction false} SubsetSize(a: set<Key>, b: set<Key>)
    requires a <= b
    ensures |a| <= |b|
    decreases a
  {
    if a != {} {
      var k :| k in a;
      SubsetSize(a - {k}, b - {k});
    }
  }

  // ---------- Turns as moves ----------

  /** Without a resize before and after, and with the table's size kept, a key that keeps its deadline
      keeps its bucket. */
  lemma SameBucket(d: Dict, d': Dict, k: Key)
    requires Valid(d) && Valid(d') && !d.Rehashing() && !d'.Rehashing() && |d'.t0| == |d.t0|
    requires k in AsMap(d) && k in AsMap(d')
    ensures k in PosMap(d) && k in PosMap(d') && PosMap(d')[k] == PosMap(d)[k]
  {
    hide TableOk, Count, Slot, AsMap;
    AsMapLookup(d, k);
    AsMapLookup(d', k);
  }

  /** A command about other keys leaves a key alone, as long as the deadline table is not resizing. */
  lemma ServeLeavesAlone(s: Sweeper, d: Dict, d': Dict, env: Env, cleaned: set<Key>, cmd: S.Command, k: Key)
    requires Valid(d) && Valid(d') && !d.Rehashing() && !d'.Rehashing() && |d'.t0| == |d.t0|
    requires s.db.expires == AsMap(d) && s.pos == PosMap(d)
    requires S.Step(s.db, env.now, env.mem, cleaned, cmd).0.expires == AsMap(d')
    requires (cmd.Keys? || cmd.key != k) && (k in s.db.expires || IsGone(s.db, k))
    ensures var db' := S.Step(s.db, env.now, env.mem, cleaned, cmd).0;
            LeavesAlone(s, Between(db', PosMap(d')), k) && (k in db'.expires || IsGone(db', k))
  {
    hide Valid, AsMap, PosMap, S.Step;
    StepOthers(s.db, At(env.now, env.mem, cleaned), cmd, k);
    if k in AsMap(d) && k in AsMap(d') {
      SameBucket(d, d', k);
    }
  }

  /** The deadline table is a single one with room for the deadlines still to come. */
  ghost predicate Roomy(db: DB.Database, turns: nat)
    reads db, db.store, db.store.t0, db.store.t1, db.expires, db.expires.t0, db.expires.t1
  {
    !db.Deadlines().Rehashing() && |db.Maps().expires| + turns < |db.Deadlines().t0|
  }

  /** The database after a command, whichever dead keys an overlong KEYS drops. */
  ghost predicate Ran(db: S.Db, db': S.Db, cmd: S.Command, env: Env) {
    exists cleaned :: db' == S.Step(db, env.now, env.mem, cleaned, cmd).0
  }

  /** The moves are the turns: a sweep for the timer, and for a command what it makes of the database. */
  ghost predicate Told(s: Sweeper, total: nat, n: nat, turns: seq<Turn>, moves: seq<Move>)
    requires total > 0
    decreases turns
  {
    if turns == [] then moves == []
    else
      && moves != []
      && (match turns[0]
          case Timer(now) => moves[0] == SweepAt(now)
          case Serve(cmd, env) => moves[0].Between? && Ran(s.db, moves[0].db, cmd, env))
      && Told(AfterMove(s, total, n, moves[0]), total, n, turns[1..], moves[1..])
  }

  /** Serves one command between sweeps. */
  method ServeTurn(w: E.ExpirySweep, cmd: S.Command, env: Env, ghost left: nat) returns (ghost m: Move)
    requires w.db.Valid() && w !in w.db.store.repr && w !in w.db.expires.repr && Roomy(w.db, left + 1)
    modifies w.db.store.repr, w.db.expires.repr
    ensures w.db.Valid() && w !in w.db.store.repr && w !in w.db.expires.repr && Roomy(w.db, left)
    ensures fresh(w.db.store.repr - old(w.db.store.repr)) && fresh(w.db.expires.repr - old(w.db.expires.repr))
    ensures w.db.expires.Total() == old(w.db.expires.Total())
    ensures m.Between? && w.View() == Sweeper(m.db, m.pos, old(w.View()).cursor) && Ran(old(w.View()).db, m.db, cmd, env)
    ensures forall k :: (cmd.Keys? || cmd.key != k) && (k in old(w.View()).db.expires || IsGone(old(w.View()).db, k)) ==>
              LeavesAlone(old(w.View()), m, k) && (k in m.db.expires || IsGone(m.db, k))
  {
    hide HashTable.Valid, AsMap, Dictionary.Valid, PosMap, S.Step, LeavesAlone;
    ghost var s, d := w.View(), w.db.Deadlines();
    Single(w.db);
    var response;
    ghost var cleaned, order;
    response, cleaned, order := RunCommand(w.db, cmd, env);
    StepGrows(s.db, env, cleaned, cmd);
    Single(w.db);
    m := Between(w.db.Maps(), PosMap(w.db.Deadlines()));
    forall k | (cmd.Keys? || cmd.key != k) && (k in s.db.expires || IsGone(s.db, k))
      ensures LeavesAlone(s, m, k) && (k in m.db.expires || IsGone(m.db, k))
    {
      ServeLeavesAlone(s, d, w.db.Deadlines(), env, cleaned, cmd, k);
    }
  }

  lemma Single(db: DB.Database)
    requires db.Valid()
    ensures Valid(db.Deadlines()) && AsMap(db.Deadlines()) == db.Maps().expires
    ensures !db.Deadlines().Rehashing() ==> db.expires.Total() == |db.Deadlines().t0|
  {
    hide AsMap;
    db.expires.Sizes();
  }

  /** Sweeps once, when the timer fires. */
  method SweepTurn(w: E.ExpirySweep, sample: nat, now: int, ghost left: nat) returns (deleted: nat)
    requires w.db.Valid() && w !in w.db.store.repr && w !in w.db.expires.repr && Roomy(w.db, left + 1)
    modifies w, w.db.store.repr, w.db.expires.repr
    ensures w.db.Valid() && w !in w.db.store.repr && w !in w.db.expires.repr && Roomy(w.db, left)
    ensures fresh(w.db.store.repr - old(w.db.store.repr)) && fresh(w.db.expires.repr - old(w.db.expires.repr))
    ensures w.db.expires.Total() == old(w.db.expires.Total()) > 0
    ensures w.View() == SweepStep(old(w.View()), w.db.expires.Total(), sample, now)
    ensures forall k :: k in old(w.View()).db.expires || IsGone(old(w.View()).db, k) ==>
              k in w.View().db.expires || IsGone(w.View().db, k)
  {
    hide HashTable.Valid, AsMap, Dictionary.Valid, PosMap, SweepStep;
    ghost var s := w.View();
    Single(w.db);
    deleted := w.Sweep(sample, now);
    Single(w.db);
    SweepShrinks(s, w.db.expires.Total(), sample, now);
  }

  lemma SweepShrinks(s: Sweeper, total: nat, n: nat, now: int)
    requires total > 0
    ensures var s1 := SweepStep(s, total, n, now);
            && |s1.db.expires| <= |s.db.expires|
            && forall k :: k in s.db.expires || IsGone(s.db, k) ==> k in s1.db.expires || IsGone(s1.db, k)
  {
    hide Swept;
    var s1 := SweepStep(s, total, n, now);
    SubsetSize(s1.db.expires.Keys, s.db.expires.Keys);
  }

  /** Runs the turns, and tells them as moves of the sweeper. */
  method RunTurns(w: E.ExpirySweep, sample: nat, turns: seq<Turn>) returns (ghost moves: seq<Move>)
    requires w.db.Valid() && w !in w.db.store.repr && w !in w.db.expires.repr && Roomy(w.db, |turns|)
    modifies w, w.db.store.repr, w.db.expires.repr
    ensures w.db.Valid() && fresh(w.db.store.repr - old(w.db.store.repr)) && fresh(w.db.expires.repr - old(w.db.expires.repr))
    ensures w.db.expires.Total() == old(w.db.expires.Total()) > 0
    ensures w.View() == RunMoves(old(w.View()), w.db.expires.Total(), sample, moves)
    ensures Told(old(w.View()), w.db.expires.Total(), sample, turns, moves)
    ensures Sweeps(moves) == Timers(turns) && forall now :: TimersFrom(turns, now) ==> SweepsFrom(moves, now)
    ensures forall k :: Unnamed(turns, k) && (k in old(w.View()).db.expires || IsGone(old(w.View()).db, k)) ==>
              Undisturbed(old(w.View()), w.db.expires.Total(), sample, moves, k)
    decreases turns
  {
    hide HashTable.Valid, AsMap, Dictionary.Valid, PosMap, SweepStep, LeavesAlone, IsGone, DB.Database.Maps, DB.Database.Deadlines, Roomy, Unnamed, TimersFrom, SweepsFrom, Ran;
    w.TotalPositive();
    if turns == [] {
      NoMoves();
      return [];
    }
    ghost var m, s, total := SweepAt(0), w.View(), w.db.expires.Total();
    match turns[0] {
      case Timer(now) =>
        m := SweepAt(now);
        var _ := SweepTurn(w, sample, now, |turns| - 1);
      case Serve(cmd, env) =>
        m := ServeTurn(w, cmd, env, |turns| - 1);
    }
    ghost var s1 := w.View();
    ghost var later := RunTurns(w, sample, turns[1..]);
    moves := [m] + later;
    assert moves[1..] == later;
    forall now | TimersFrom(turns, now) ensures SweepsFrom(moves, now) {
      FromFront(turns, m, later, now);
    }
    forall k | Unnamed(turns, k) && (k in s.db.expires || IsGone(s.db, k)) ensures Undisturbed(s, total, sample, moves, k) {
      UnnamedFront(turns, k);
      SweepLeavesAlone(s, m, k);
      assert LeavesAlone(s, m, k) && Undisturbed(s1, total, sample, later, k);
    }
  }

  lemma NoMoves()
    ensures forall now :: SweepsFrom([], now)
  {
  }

  lemma FromFront(turns: seq<Turn>, m: Move, later: seq<Move>, now: int)
    requires turns != [] && TimersFrom(turns, now) && (m.SweepAt? ==> turns[0] == Timer(m.now))
    requires TimersFrom(turns[1..], now) ==> SweepsFrom(later, now)
    ensures SweepsFrom([m] + later, now)
  {
    assert forall i :: 0 <= i < |turns[1..]| ==> turns[1..][i] == turns[i + 1];
    assert TimersFrom(turns[1..], now);
  }

  lemma UnnamedFront(turns: seq<Turn>, k: Key)
    requires turns != [] && Unnamed(turns, k)
    ensures Unnamed(turns[1..], k) && (turns[0].Serve? ==> turns[0].cmd.Keys? || turns[0].cmd.key != k)
  {
    assert forall i :: 0 <= i < |turns[1..]| ==> turns[1..][i] == turns[i + 1];
  }

  lemma SweepLeavesAlone(s: Sweeper, m: Move, k: Key)
    ensures m.SweepAt? ==> LeavesAlone(s, m, k)
  {
  }

  /** Commands and sweeps in any order: as long as the deadline table is not resizing and has room,
      sweeps that together visit as many buckets as there are remove, from both tables, every key
      past its deadline at the start that no command in between is about. */
  method ServeRound(w: E.ExpirySweep, sample: nat, turns: seq<Turn>) returns (ghost moves: seq<Move>)
    requires w.db.Valid() && w !in w.db.store.repr && w !in w.db.expires.repr && Roomy(w.db, |turns|)
    modifies w, w.db.store.repr, w.db.expires.repr
    ensures w.db.Valid() && fresh(w.db.store.repr - old(w.db.store.repr)) && fresh(w.db.expires.repr - old(w.db.expires.repr))
    ensures w.db.expires.Total() == old(w.db.expires.Total()) > 0
    ensures Told(old(w.View()), w.db.expires.Total(), sample, turns, moves)
    ensures w.View() == RunMoves(old(w.View()), w.db.expires.Total(), sample, moves)
    ensures forall k, now ::
              && k in old(w.db.Maps()).expires && S.Expired(old(w.db.Maps()), k, now)
              && Unnamed(turns, k) && TimersFrom(turns, now) && Timers(turns) * sample >= w.db.expires.Total()
              ==> IsGone(w.db.Maps(), k)
  {
    hide HashTable.Valid, AsMap, Dictionary.Valid, PosMap, RunMoves, Undisturbed, SweepsFrom, TimersFrom, Unnamed, Roomy, PosOk, S.Expired, IsGone, Told;
    ghost var s := w.View();
    w.PositionsOk();
    moves := RunTurns(w, sample, turns);
    ghost var total := w.db.expires.Total();
    forall k, now |
      && k in s.db.expires && S.Expired(s.db, k, now)
      && Unnamed(turns, k) && TimersFrom(turns, now) && Timers(turns) * sample >= total
      ensures IsGone(w.db.Maps(), k)
    {
      FullRound(s, total, sample, moves, now);
    }
  }
}
