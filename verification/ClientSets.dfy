/** All connections of the server over their one database. */
module ClientSets {
  import opened Common
  import opened Connections
  import opened Framing
  import opened Histories
  import opened Protocol
  import opened Server
  import opened Sweeping
  import opened WriteQueues
  import DB = Database
  import E = ExpirySweep
  import S = Store
  import T = Traces

  /** Two connections share no state but the database. */
  ghost predicate Apart(a: Connection, b: Connection)
    reads a.queue, b.queue
  {
    && a != b && a.buffer != b.buffer && a.queue != b.queue && a.queue.wbuf != b.queue.wbuf
    && a.buffer != b.queue.wbuf && b.buffer != a.queue.wbuf
  }

  /** What a connection owns is out of reach of another one and of the database. */
  ghost predicate Outside(o: Connection, c: Connection)
    reads o.queue, c.queue, c.db, c.db.store, c.db.expires
  {
    && o !in c.db.store.repr && o.buffer !in c.db.store.repr && o.queue !in c.db.store.repr && o.queue.wbuf !in c.db.store.repr
    && o !in c.db.expires.repr && o.buffer !in c.db.expires.repr && o.queue !in c.db.expires.repr && o.queue.wbuf !in c.db.expires.repr
    && Apart(o, c)
  }

  /** Nothing the connection owns has changed. */
  twostate predicate Same(c: Connection)
    reads c, c.buffer, c.queue, c.queue.wbuf
  {
    unchanged(c) && unchanged(c.buffer) && unchanged(c.queue) && unchanged(c.queue.wbuf)
  }

  /** A connection stays in step while others use the database. */
  twostate lemma StillValid(c: Connection)
    requires old(c.Valid()) && c.db.Valid()
    requires Same(c)
    requires fresh(c.db.store.repr - old(c.db.store.repr)) && fresh(c.db.expires.repr - old(c.db.expires.repr))
    ensures c.Valid()
  {
    hide DB.Database.Valid, SplitStream, FramesOf, ResponsesOf, AllCorrect;
  }

  lemma Parts(c: Connection)
    requires c.Valid()
    ensures c.Separate() && c.queue.Valid() && !c.queue.failed && c.db.Valid()
  {
    hide DB.Database.Valid, WriteQueue.Valid, SplitStream;
  }

  /** A flush that did not fail leaves the connection in step. */
  twostate lemma StillInStep(c: Connection)
    requires old(c.Valid()) && c.db.Valid() && unchanged(c) && unchanged(c.buffer) && c.queue.Valid() && !c.queue.failed
    requires c.queue.queued == old(c.queue.queued) && c.queue.wbuf == old(c.queue.wbuf)
    requires c.db.store.repr == old(c.db.store.repr) && c.db.expires.repr == old(c.db.expires.repr)
    ensures c.Valid()
  {
    hide DB.Database.Valid, SplitStream, FramesOf, ResponsesOf, AllCorrect, WriteQueue.Valid;
  }

  /** The frames already served had their keys inside, so only those to come matter. */
  lemma KeysStayInside(c: Connection, chunk: Bytes)
    requires c.Valid() && KeysInside(SplitStream(c.Pending() + chunk).frames)
    ensures var r, all := SplitStream(c.Pending() + chunk), SplitStream(c.received + chunk);
            KeysInside(all.frames) && all.oversize == r.oversize && all.rest == r.rest
  {
    hide SplitStream, KeyInside, DB.Database.Valid, WriteQueue.Valid;
    Resume(c.received, chunk);
    var more := SplitStream(c.Pending() + chunk).frames;
    var frames := FramesOf(c.log) + more;
    forall i | 0 <= i < |frames| ensures KeyInside(frames[i]) {
      if i < |c.log| {
        InsideIfCorrect(c.log[i]);
      } else {
        assert frames[i] == more[i - |c.log|];
      }
    }
  }

  lemma InsideIfCorrect(x: Exchange)
    requires Correct(x)
    ensures KeyInside(x.frame)
  {
    hide KeyInside;
  }

  class ClientSet {
    const db: DB.Database
    const sweeper: E.ExpirySweep
    ghost const first: S.Db
    var links: map<ClientId, Connection>
    /** Connections are numbered as they come. */
    var next: ClientId
    ghost var history: seq<Event>

    /** What all clients and the timer did to the database is one history, in the order it happened. */
    ghost predicate Shared()
      reads *
    {
      && db.Valid() && sweeper.db == db
      && this !in db.store.repr && this !in db.expires.repr && sweeper !in db.store.repr && sweeper !in db.expires.repr
      && Flows(history, first, db.Maps())
    }

    /** A client is in step with its own stream, and its log is its part of the history. */
    ghost predicate Live(id: ClientId)
      requires id in links
      reads *
    {
      links[id].Valid() && links[id].log == LogOf(history, id)
    }

    ghost predicate Numbered()
      reads this
    {
      && (forall id :: id in links ==> id < next)
      && (forall e :: e in history && e.Served? ==> e.client < next)
    }

    ghost predicate AllApart()
      reads *
    {
      && (forall id :: id in links ==> links[id].db == db)
      && (forall i, j :: i in links && j in links && i != j ==> Apart(links[i], links[j]))
    }

    /** Every client but the broken ones is live. */
    ghost predicate Ok(broken: set<ClientId>)
      reads *
    {
      Shared() && Numbered() && AllApart() && forall id :: id in links && id !in broken ==> Live(id)
    }

    constructor (db: DB.Database)
      requires db.Valid()
      ensures Ok({}) && this.db == db && links == map[] && history == [] && first == db.Maps()
    {
      this.db := db;
      sweeper := new E.ExpirySweep(db);
      first := db.Maps();
      links := map[];
      next := 0;
      history := [];
    }

    /** A client sends bytes: its complete frames are served. */
    method Receive(id: ClientId, c: Connection, chunk: Bytes, env: nat -> Env, allocOk: nat -> bool) returns (ok: bool)
      requires Ok({}) && id in links && links[id] == c && |chunk| <= BUFFER_SIZE - c.used
      requires KeysInside(SplitStream(c.Pending() + chunk).frames)
      modifies this`history, c, c.buffer, c.queue, c.queue.wbuf, db.store.repr, db.expires.repr
      ensures Ok(if ok then {} else {id}) && old(history) <= history && links == old(links)
      ensures var split := SplitStream(old(c.Pending()) + chunk);
              && (ok <==> !split.oversize && !c.queue.failed)
              && (ok ==> c.Pending() == split.rest)
      ensures c.received == old(c.received) + chunk
    {
      hide Connection.Valid, DB.Database.Valid, DB.Database.Maps, SplitStream, AllCorrect, Flows, LogOf, KeysInside, Threaded,
           Connection.Pending, Shared, Numbered, AllApart, Live, Ok;
      ghost var log, before := c.log, db.Maps();
      Ready(id);
      Outsiders(id);
      KeysStayInside(c, chunk);
      ok := c.Receive(chunk, env, allocOk);
      if ok {
        RestPending(c);
      }
      Record(id, log, before);
      forall other | other in links && other != id ensures Same(links[other]) {
        assert old(Outside(links[other], c));
      }
      Settle(id);
      if ok {
        Mend(id);
      }
    }

    /** After a successful read the buffer holds what is left of the stream. */
    lemma RestPending(c: Connection)
      requires c.Valid()
      ensures c.Pending() == SplitStream(c.received).rest
    {
      hide DB.Database.Valid, WriteQueue.Valid, SplitStream, FramesOf;
    }

    /** What a client can rely on before it is served. */
    lemma Ready(id: ClientId)
      requires Ok({}) && id in links
      ensures links[id].Valid() && links[id].db == db && links[id].log == LogOf(history, id) && Flows(history, first, db.Maps())
      ensures this !in db.store.repr && this !in db.expires.repr && Numbered()
    {
      hide Connection.Valid, DB.Database.Valid, Flows, LogOf;
      assert Live(id);
    }

    lemma Outsiders(id: ClientId)
      requires Ok({}) && id in links
      ensures forall other :: other in links && other != id ==> Outside(links[other], links[id])
    {
      hide DB.Database.Valid, SplitStream, WriteQueue.Valid, Connection.InStep, Flows, LogOf;
      forall other | other in links && other != id ensures Outside(links[other], links[id]) {
        assert Live(other) && Apart(links[other], links[id]);
      }
    }

    /** Connections stay apart when one of them replaces its response buffer by a new one. */
    twostate lemma StillApart(id: ClientId)
      requires old(AllApart()) && links == old(links)
      requires forall other :: other in links && other != id ==> Same(links[other])
      requires id in links ==> links[id].queue.wbuf == old(links[id].queue.wbuf) || fresh(links[id].queue.wbuf)
      ensures AllApart()
    {
      forall i, j | i in links && j in links && i != j ensures Apart(links[i], links[j]) {
        assert old(Apart(links[i], links[j]));
      }
    }

    /** Enters what a client has just been served into the history. */
    ghost method Record(id: ClientId, log: seq<Exchange>, before: S.Db)
      requires id in links && log <= links[id].log && Threaded(links[id].log, |log|, before, db.Maps()) && AllCorrect(links[id].log)
      requires Flows(history, first, before) && LogOf(history, id) == log
      modifies this`history
      ensures old(history) <= history && Flows(history, first, db.Maps()) && LogOf(history, id) == links[id].log
      ensures forall other :: other != id ==> LogOf(history, other) == LogOf(old(history), other)
      ensures old(Numbered()) ==> Numbered()
    {
      hide DB.Database.Maps, Flows, LogOf, Threaded, AllCorrect;
      var all := links[id].log;
      Extends(history, first, id, all, |log|, before, db.Maps());
      assert log + all[|log|..] == all;
      history := history + ServedAll(id, all[|log|..]);
    }

    /** Serving one client leaves the others live. */
    twostate lemma OthersLive(id: ClientId)
      requires old(Ok({})) && links == old(links) && db.Valid()
      requires forall other :: other in links && other != id ==> LogOf(history, other) == LogOf(old(history), other)
      requires forall other :: other in links && other != id ==> Same(links[other])
      requires fresh(db.store.repr - old(db.store.repr)) && fresh(db.expires.repr - old(db.expires.repr))
      ensures forall other :: other in links && other != id ==> Live(other)
    {
      hide Connection.Valid, DB.Database.Valid, LogOf;
      forall other | other in links && other != id ensures Live(other) {
        assert old(Live(other));
        StillValid(links[other]);
      }
    }

    lemma Mend(id: ClientId)
      requires Ok({id}) && (id in links ==> links[id].Valid() && links[id].log == LogOf(history, id))
      ensures Ok({})
    {
      hide Connection.Valid, LogOf, Shared, AllApart;
    }

    /** All is well, but perhaps for the served client, once its exchanges are in the history. */
    twostate lemma Settle(id: ClientId)
      requires old(Ok({})) && links == old(links) && db.Valid() && Flows(history, first, db.Maps()) && Numbered()
      requires forall other :: other in links && other != id ==> LogOf(history, other) == LogOf(old(history), other)
      requires forall other :: other in links && other != id ==> Same(links[other])
      requires fresh(db.store.repr - old(db.store.repr)) && fresh(db.expires.repr - old(db.expires.repr))
      requires id in links ==> links[id].queue.wbuf == old(links[id].queue.wbuf) || fresh(links[id].queue.wbuf)
      ensures Ok({id})
    {
      hide Connection.Valid, DB.Database.Valid, Flows, LogOf, Apart;
      StillApart(id);
      OthersLive(id);
    }

    /** The socket of a client can take bytes again. */
    method Flush(id: ClientId, c: Connection)
      requires Ok({}) && id in links && links[id] == c
      modifies c.queue, c.queue.wbuf
      ensures Ok(if c.queue.failed then {id} else {})
      ensures c.queue.queued == old(c.queue.queued)
      ensures |old(c.queue.sent)| + Min(old(c.queue.used), Offered(old(c.queue.socket))) <= |c.queue.queued|
      ensures c.queue.sent == c.queue.queued[..|old(c.queue.sent)| + Min(old(c.queue.used), Offered(old(c.queue.socket)))]
    {
      hide Connection.Valid, DB.Database.Valid, DB.Database.Maps, Flows, LogOf, WriteQueue.Valid,
           Shared, Numbered, AllApart, Live, Ok;
      Ready(id);
      Outsiders(id);
      Parts(c);
      c.queue.Flush();
      forall other | other in links && other != id ensures Same(links[other]) {
        assert old(Outside(links[other], c));
      }
      Settle(id);
      if !c.queue.failed {
        StillInStep(c);
        Mend(id);
      }
    }

    /** The timer sweeps some buckets of the deadline table. */
    method Sweep(sample: nat, now: int) returns (deleted: nat)
      requires Ok({}) && 0 <= now <= INT64_MAX
      modifies this`history, sweeper, db.store.repr, db.expires.repr
      ensures Ok({}) && |history| == |old(history)| + 1 && old(history) <= history && links == old(links)
      ensures var e := history[|history| - 1]; e.Cleared? && e.now == now && deleted == |e.keys|
      ensures db.expires.Total() > 0 && sweeper.View() == SweepStep(old(sweeper.View()), db.expires.Total(), sample, now)
    {
      hide Connection.Valid, DB.Database.Valid, DB.Database.Maps, Flows, LogOf, AllApart, Live,
           Numbered, Shared, Ok, SweepStep, Swept;
      Aside();
      ghost var v := sweeper.View();
      deleted := sweeper.Sweep(sample, now);
      RecordSweep(v, sample, db.expires.Total(), now);
      forall other | other in links && other != next ensures Same(links[other]) {
        assert old(links[other].Separate());
      }
      Settle(next);
      Mend(next);
    }

    /** What the timer can rely on before it sweeps. */
    lemma Aside()
      requires Ok({})
      ensures db.Valid() && Flows(history, first, db.Maps()) && Numbered() && sweeper.db == db
      ensures this !in db.store.repr && this !in db.expires.repr && sweeper !in db.store.repr && sweeper !in db.expires.repr
      ensures next !in links && forall id :: id in links ==> links[id].db == db && links[id].Separate()
    {
      hide Connection.Valid, DB.Database.Valid, Flows, LogOf, Apart, Connection.Separate;
      forall id | id in links ensures links[id].Separate() {
        assert Live(id);
        Parts(links[id]);
      }
    }

    /** Enters a sweep into the history. */
    ghost method RecordSweep(v: Sweeper, sample: nat, total: nat, now: int)
      requires 0 <= now <= INT64_MAX && total > 0 && Flows(history, first, v.db)
      requires SweepStep(v, total, sample, now).db == db.Maps()
      modifies this`history
      ensures history == old(history) + [Cleared(v.db, now, Swept(v.db, v.pos, v.cursor, sample, total, now))]
      ensures Flows(history, first, db.Maps())
      ensures forall id :: LogOf(history, id) == LogOf(old(history), id)
      ensures old(Numbered()) ==> Numbered()
    {
      hide DB.Database.Maps, Flows, LogOf;
      var e := Cleared(v.db, now, Swept(v.db, v.pos, v.cursor, sample, total, now));
      FlowsSnoc(history, first, e);
      forall id ensures LogOf(history + [e], id) == LogOf(history, id) {
        LogSnoc(history, e, id);
      }
      history := history + [e];
    }

    /** A client connects. */
    method Attach(socket: seq<SendOutcome>) returns (id: ClientId)
      requires Ok({})
      modifies this`links, this`next
      ensures Ok({}) && id !in old(links) && links.Keys == old(links).Keys + {id}
      ensures forall other :: other in old(links) ==> links[other] == old(links)[other]
      ensures links[id].received == [] && links[id].log == [] && links[id].queue.socket == socket
    {
      hide Connection.Valid, DB.Database.Valid, DB.Database.Maps, Flows, LogOf, WriteQueue.Valid, Connection.Separate;
      id := next;
      var c := new Connection(db, socket);
      LogOfStranger(history, id);
      links := links[id := c];
      next := next + 1;
    }

    /** A client leaves, or is dropped after a failure. */
    method Detach(id: ClientId)
      requires Ok({}) || Ok({id})
      modifies this`links
      ensures Ok({}) && links == old(links) - {id}
    {
      hide Connection.Valid, DB.Database.Valid, Flows, LogOf, Apart;
      links := links - {id};
    }

    /** A client sends bytes, and is dropped when serving them fails. */
    method OnReadable(id: ClientId, c: Connection, chunk: Bytes, env: nat -> Env, allocOk: nat -> bool) returns (ok: bool)
      requires Ok({}) && id in links && links[id] == c && |chunk| <= BUFFER_SIZE - c.used
      requires KeysInside(SplitStream(c.Pending() + chunk).frames)
      modifies this`history, this`links, c, c.buffer, c.queue, c.queue.wbuf, db.store.repr, db.expires.repr
      ensures Ok({}) && old(history) <= history && links == if ok then old(links) else old(links) - {id}
      ensures ok <==> !SplitStream(old(c.Pending()) + chunk).oversize && !c.queue.failed
    {
      hide Ok, Connection.Pending, SplitStream, KeysInside;
      ok := Receive(id, c, chunk, env, allocOk);
      if !ok {
        Detach(id);
      }
    }

    /** The database is what the requests of all clients and the sweeps made of the first one, in one
        order; each client's bytes split into the frames of its part of that history, in order, and
        what it was sent is the beginning of their responses. */
    lemma InOneOrder(id: ClientId)
      requires Ok({}) && id in links && S.Sound(first)
      ensures Timely(TraceOf(history)) && db.Maps() == T.After(first, TraceOf(history)) && S.Sound(db.Maps())
      ensures var log, c := LogOf(history, id), links[id];
              && SplitStream(c.received) == Split(FramesOf(log), c.Pending(), false)
              && AllCorrect(log) && c.queue.sent <= ResponsesOf(log)
    {
      hide DB.Database.Valid, DB.Database.Maps, Flows, LogOf, SplitStream, FramesOf, ResponsesOf, AllCorrect,
           S.Sound, AllApart, T.After, TraceOf, Timely;
      assert Live(id);
      HistoryIsTrace(history, first, db.Maps());
    }
  }
}
