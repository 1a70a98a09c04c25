/** What all clients and the timer did to the database, in the order it happened. */
module Histories {
  import opened Common
  import opened Connections
  import opened Dictionary
  import opened Protocol
  import opened Server
  import S = Store
  import T = Traces

  type ClientId = nat

  /** Something that touched the database: a frame served for a client, or a sweep that cleared
      some keys. */
  datatype Event = Served(client: ClientId, exchange: Exchange) | Cleared(before: S.Db, now: int, keys: set<Key>)

  function Before(e: Event): S.Db {
    if e.Served? then e.exchange.before else e.before
  }

  function After(e: Event): S.Db {
    if e.Served? then e.exchange.after else S.Forget(e.before, e.keys)
  }

  /** The exchange is what the command semantics prescribe; the sweep took keys past their deadline. */
  ghost predicate Right(e: Event) {
    match e
    case Served(_, x) => Correct(x)
    case Cleared(db, now, keys) => 0 <= now <= INT64_MAX && forall k :: k in keys ==> k in db.expires && S.Expired(db, k, now)
  }

  /** Each event is right and finds the database as the one before left it, from the first state to
      the last. */
  ghost predicate Flows(history: seq<Event>, first: S.Db, last: S.Db)
    decreases history
  {
    if history == [] then first == last
    else
      var e := history[|history| - 1];
      Right(e) && After(e) == last && Flows(history[..|history| - 1], first, Before(e))
  }

  /** The exchanges of one client. */
  function LogOf(history: seq<Event>, id: ClientId): seq<Exchange>
    decreases history
  {
    if history == [] then []
    else
      var e := history[|history| - 1];
      LogOf(history[..|history| - 1], id) + (if e.Served? && e.client == id then [e.exchange] else [])
  }

  function ServedAll(id: ClientId, log: seq<Exchange>): seq<Event> {
    seq(|log|, i requires 0 <= i < |log| => Served(id, log[i]))
  }

  lemma FlowsSnoc(history: seq<Event>, first: S.Db, e: Event)
    requires Flows(history, first, Before(e)) && Right(e)
    ensures Flows(history + [e], first, After(e))
  {
    assert (history + [e])[..|history|] == history;
  }

  lemma LogSnoc(history: seq<Event>, e: Event, id: ClientId)
    ensures LogOf(history + [e], id) == LogOf(history, id) + (if e.Served? && e.client == id then [e.exchange] else [])
  {
    assert (history + [e])[..|history|] == history;
  }

  /** A client that was never served has no log. */
  lemma {:induction false} LogOfStranger(history: seq<Event>, id: ClientId)
    requires forall e :: e in history && e.Served? ==> e.client != id
    ensures LogOf(history, id) == []
    decreases history
  {
    if history != [] {
      assert history[|history| - 1] in history;
      LogOfStranger(history[..|history| - 1], id);
    }
  }

  /** A stretch of exchanges of one client extends the history and that client's log. */
  lemma {:induction false} Extends(history: seq<Event>, first: S.Db, id: ClientId, log: seq<Exchange>, from: nat,
                                   last: S.Db, now: S.Db)
    requires Flows(history, first, last) && Threaded(log, from, last, now) && AllCorrect(log)
    ensures var all := history + ServedAll(id, log[from..]);
            && Flows(all, first, now)
            && LogOf(all, id) == LogOf(history, id) + log[from..]
            && forall other :: other != id ==> LogOf(all, other) == LogOf(history, other)
    decreases |log| - from
  {
    hide Correct, Flows, LogOf;
    if from == |log| {
      assert history + ServedAll(id, []) == history;
      assert LogOf(history, id) + [] == LogOf(history, id);
    } else {
      var e := Served(id, log[from]);
      FlowsSnoc(history, first, e);
      Extends(history + [e], first, id, log, from + 1, log[from].after, now);
      assert history + [e] + ServedAll(id, log[from + 1..]) == history + ServedAll(id, log[from..]);
      LogSnoc(history, e, id);
      assert LogOf(history, id) + [log[from]] + log[from + 1..] == LogOf(history, id) + log[from..];
      forall other | other != id ensures LogOf(history + [e], other) == LogOf(history, other) {
        LogSnoc(history, e, other);
      }
    }
  }

  // ---------- The trace of a history ----------

  /** What an event is to the store: a request, a sweep, or nothing. */
  function TraceOfEvent(e: Event): seq<T.Event> {
    match e
    case Served(_, x) =>
      if !KeyInside(x.frame) then []
      else
        (match ParseFrame(x.frame)
         case Good(Run(cmd)) => [T.Request(x.env.now, x.env.mem, cmd, x.cleaned)]
         case _ => [])
    case Cleared(_, now, keys) => [T.SweepAt(now, keys)]
  }

  function TraceOf(history: seq<Event>): seq<T.Event>
    decreases history
  {
    if history == [] then []
    else TraceOf(history[..|history| - 1]) + TraceOfEvent(history[|history| - 1])
  }

  ghost predicate Timely(events: seq<T.Event>) {
    forall e :: e in events ==> 0 <= e.now <= INT64_MAX
  }

  lemma {:induction false} AfterSnoc(db: S.Db, events: seq<T.Event>, e: T.Event)
    requires Timely(events) && 0 <= e.now <= INT64_MAX
    ensures Timely(events + [e]) && T.After(db, events + [e]) == T.Next(T.After(db, events), e)
    decreases events
  {
    if events == [] {
      assert [] + [e] == [e];
    } else {
      AfterSnoc(T.Next(db, events[0]), events[1..], e);
      assert (events + [e])[1..] == events[1..] + [e];
    }
  }

  /** An event does to the database what its trace says. */
  lemma EventIsTrace(e: Event, first: S.Db, events: seq<T.Event>)
    requires Right(e) && S.Sound(Before(e)) && Timely(events) && T.After(first, events) == Before(e)
    ensures Timely(events + TraceOfEvent(e)) && T.After(first, events + TraceOfEvent(e)) == After(e)
  {
    hide ParseFrame, S.Step, S.Sound, T.After, KeyInside;
    var more := TraceOfEvent(e);
    if more == [] {
      assert events + more == events;
    } else {
      AfterSnoc(first, events, more[0]);
      if e.Cleared? {
        ClearedIsSweep(e);
      }
    }
  }

  lemma ClearedIsSweep(e: Event)
    requires e.Cleared? && Right(e) && S.Sound(e.before)
    ensures T.Sweep(e.before, e.keys, e.now) == After(e)
  {
    assert e.keys * S.DeadKeys(e.before, e.now) == e.keys;
  }

  /** The database of the whole server is at all times what the requests of all clients and the
      sweeps, in the order of the history, make of the first one; and it is sound. */
  lemma {:induction false} HistoryIsTrace(history: seq<Event>, first: S.Db, last: S.Db)
    requires Flows(history, first, last) && S.Sound(first)
    ensures Timely(TraceOf(history)) && last == T.After(first, TraceOf(history)) && S.Sound(last)
    decreases history
  {
    hide S.Sound, Right, TraceOfEvent, T.After;
    if history == [] {
      NoEvents(first);
    } else {
      var e := history[|history| - 1];
      HistoryIsTrace(history[..|history| - 1], first, Before(e));
      EventIsTrace(e, first, TraceOf(history[..|history| - 1]));
      T.ReachableSound(first, TraceOf(history));
    }
  }

  lemma NoEvents(db: S.Db)
    ensures T.After(db, []) == db
  {
  }
}
