/** A client connection end to end: bytes received, frames served, response bytes sent. */
module Connections {
  import opened Common
  import opened Buffers
  import opened Protocol
  import opened Framing
  import opened WriteQueues
  import opened Server
  import R = Responses
  import S = Store
  import DB = Database

  /** The response bytes of an exchange. */
  function ResponseBytes(x: Exchange): Bytes {
    if x.response == None then [] else R.EncodeResponse(x.response.value)
  }

  function FramesOf(log: seq<Exchange>): seq<Bytes> {
    seq(|log|, i requires 0 <= i < |log| => log[i].frame)
  }

  function ResponsesOf(log: seq<Exchange>): Bytes {
    if log == [] then [] else ResponsesOf(log[..|log| - 1]) + ResponseBytes(log[|log| - 1])
  }

  lemma ResponsesSnoc(log: seq<Exchange>, x: Exchange)
    ensures ResponsesOf(log + [x]) == ResponsesOf(log) + ResponseBytes(x)
    ensures FramesOf(log + [x]) == FramesOf(log) + [x.frame]
  {
    assert (log + [x])[..|log|] == log;
  }

  ghost predicate AllCorrect(log: seq<Exchange>) {
    forall i :: 0 <= i < |log| ==> Correct(log[i])
  }

  /** Exchanges from one on see the database one after the other, from its first to its last state. */
  ghost predicate Threaded(log: seq<Exchange>, from: nat, first: S.Db, last: S.Db) {
    && from <= |log|
    && (forall i :: from <= i < |log| - 1 ==> log[i].after == log[i + 1].before)
    && if from == |log| then first == last else log[from].before == first && log[|log| - 1].after == last
  }

  lemma NothingYet()
    ensures AllCorrect([]) && ResponsesOf([]) == []
  {
  }

  ghost predicate KeysInside(frames: seq<Bytes>) {
    forall i :: 0 <= i < |frames| ==> KeyInside(frames[i])
  }

  // ---------- Progress of the frame loop ----------

  /** Since log0, the frames of the first pos bytes of the data were served, one after the other. */
  ghost predicate Served(log0: seq<Exchange>, log: seq<Exchange>, data: Bytes, pos: nat, first: S.Db, now: S.Db) {
    && pos <= |data| && log0 <= log
    && AllCorrect(log) && Threaded(log, |log0|, first, now)
    && var added := FramesOf(log[|log0|..]); var left := SplitStream(data[pos..]);
       SplitStream(data) == left.(frames := added + left.frames)
  }

  lemma ServedNone(log: seq<Exchange>, data: Bytes, now: S.Db)
    requires AllCorrect(log)
    ensures Served(log, log, data, 0, now, now)
  {
    assert data[0..] == data && log[|log|..] == [] && FramesOf([]) == [];
    assert [] + SplitStream(data).frames == SplitStream(data).frames;
  }

  /** The frame at pos is the next of the split. */
  lemma NextOfSplit(added: seq<Bytes>, data: Bytes, pos: nat, n: nat)
    requires pos <= |data| && SplitStream(data) == SplitStream(data[pos..]).(frames := added + SplitStream(data[pos..]).frames)
    requires 2 <= n <= |data| - pos && n == FrameLength(data[pos..]) <= BUFFER_SIZE
    ensures var frame := data[pos..pos + n]; var rest := SplitStream(data[pos + n..]);
            && |added| < |SplitStream(data).frames| && SplitStream(data).frames[|added|] == frame
            && SplitStream(data) == rest.(frames := (added + [frame]) + rest.frames)
  {
    hide SplitStream, FrameLength;
    var left, frame := data[pos..], data[pos..pos + n];
    SplitOne(left);
    assert left[..n] == frame && left[n..] == data[pos + n..];
    var rest := SplitStream(data[pos + n..]);
    assert added + ([frame] + rest.frames) == (added + [frame]) + rest.frames;
  }

  lemma NextIsInside(log0: seq<Exchange>, log: seq<Exchange>, data: Bytes, pos: nat, first: S.Db, now: S.Db, n: nat)
    requires Served(log0, log, data, pos, first, now) && KeysInside(SplitStream(data).frames)
    requires 2 <= n <= |data| - pos && n == FrameLength(data[pos..]) <= BUFFER_SIZE
    ensures KeyInside(data[pos..pos + n])
  {
    hide KeyInside, Correct, SplitStream, FrameLength;
    NextOfSplit(FramesOf(log[|log0|..]), data, pos, n);
  }

  lemma LogNext(log: seq<Exchange>, from: nat, first: S.Db, x: Exchange)
    requires AllCorrect(log) && Threaded(log, from, first, x.before) && Correct(x)
    ensures AllCorrect(log + [x]) && Threaded(log + [x], from, first, x.after)
  {
    hide Correct;
    assert forall i :: 0 <= i < |log| ==> (log + [x])[i] == log[i];
  }

  lemma ServedNext(log0: seq<Exchange>, log: seq<Exchange>, data: Bytes, pos: nat, first: S.Db, n: nat,
                   x: Exchange)
    requires Served(log0, log, data, pos, first, x.before)
    requires 2 <= n <= |data| - pos && n == FrameLength(data[pos..]) <= BUFFER_SIZE
    requires Correct(x) && x.frame == data[pos..pos + n]
    ensures Served(log0, log + [x], data, pos + n, first, x.after)
  {
    hide Correct, SplitStream, FrameLength, FramesOf, AllCorrect, Threaded;
    LogNext(log, |log0|, first, x);
    var added, log' := FramesOf(log[|log0|..]), log + [x];
    NextOfSplit(added, data, pos, n);
    assert log'[|log0|..] == log[|log0|..] + [x];
    ResponsesSnoc(log[|log0|..], x);
  }

  lemma ServedSoFar(log0: seq<Exchange>, log: seq<Exchange>, data: Bytes, pos: nat, first: S.Db, now: S.Db)
    requires Served(log0, log, data, pos, first, now)
    ensures AllCorrect(log) && log0 <= log && Threaded(log, |log0|, first, now)
    ensures FramesOf(log) <= FramesOf(log0) + SplitStream(data).frames
    ensures SplitStream(data).oversize == SplitStream(data[pos..]).oversize
    ensures SplitStream(data[pos..]).frames == [] ==> FramesOf(log) == FramesOf(log0) + SplitStream(data).frames
    ensures SplitStream(data[pos..]) == Split([], data[pos..], false) ==>
              && SplitStream(data).rest == data[pos..] && |data[pos..]| < BUFFER_SIZE
  {
    hide SplitStream, AllCorrect, Threaded;
    var added := FramesOf(log[|log0|..]);
    assert FramesOf(log) == FramesOf(log0) + added;
    var left := SplitStream(data[pos..]);
    assert FramesOf(log0) + (added + left.frames) == FramesOf(log) + left.frames;
  }

  lemma Resume(received: Bytes, chunk: Bytes)
    requires !SplitStream(received).oversize
    ensures var r := SplitStream(received); var r' := SplitStream(r.rest + chunk);
            SplitStream(received + chunk) == r'.(frames := r.frames + r'.frames)
  {
    SplitResumes(received, chunk);
  }

  lemma KeysInsideTail(a: seq<Bytes>, b: seq<Bytes>)
    requires KeysInside(a + b)
    ensures KeysInside(b)
  {
    forall i | 0 <= i < |b| ensures KeyInside(b[i]) {
      assert b[i] == (a + b)[|a| + i];
    }
  }

  class Connection {
    const buffer: array<byte>
    var used: nat
    const queue: WriteQueue
    const db: DB.Database
    /** Every byte received, and every frame served with its response. */
    ghost var received: Bytes
    ghost var log: seq<Exchange>

    /** The bytes of the buffer. */
    ghost function Pending(): Bytes
      reads this, buffer
    {
      if used <= buffer.Length then buffer[..used] else []
    }

    ghost predicate Separate()
      reads this, queue, db, db.store, db.expires
    {
      && this !in db.store.repr && queue !in db.store.repr && buffer !in db.store.repr && queue.wbuf !in db.store.repr
      && this !in db.expires.repr && queue !in db.expires.repr && buffer !in db.expires.repr && queue.wbuf !in db.expires.repr
      && buffer != queue.wbuf && buffer.Length == BUFFER_SIZE
    }

    /** While nothing failed: the frames served are those of the stream received, the buffer holds
        what is left of it, and the response bytes sent and queued are those frames' responses. */
    ghost predicate InStep()
      reads this, buffer, queue
      requires used <= buffer.Length
    {
      && SplitStream(received) == Split(FramesOf(log), buffer[..used], false)
      && queue.queued == ResponsesOf(log)
      && AllCorrect(log)
    }

    ghost predicate Valid()
      reads this, buffer, queue, queue.wbuf, db, db.store, db.expires, db.store.repr, db.expires.repr
    {
      && db.Valid() && queue.Valid() && !queue.failed && Separate()
      && used < BUFFER_SIZE
      && InStep()
    }

    constructor (db: DB.Database, socket: seq<SendOutcome>)
      requires db.Valid()
      ensures Valid() && this.db == db && received == [] && log == [] && queue.socket == socket
      ensures fresh(buffer) && fresh(queue) && fresh(queue.wbuf)
    {
      hide DB.Database.Valid, AllCorrect;
      this.db := db;
      buffer := new byte[BUFFER_SIZE](_ => 0);
      queue := new WriteQueue(socket);
      used := 0;
      received := [];
      log := [];
      new;
      assert buffer[..0] == [];
      assert FramesOf([]) == [];
      NothingYet();
    }

    /** Serves one frame and queues its response. */
    method ServeOne(frame: Bytes, env: Env, allocOk: bool) returns (ok: bool, ghost x: Exchange)
      requires db.Valid() && queue.Valid() && !queue.failed && Separate() && KeyInside(frame)
      requires queue.queued == ResponsesOf(log)
      modifies this`log, queue, queue.wbuf, db.store.repr, db.expires.repr
      ensures db.Valid() && queue.Valid() && Separate()
      ensures fresh(db.store.repr - old(db.store.repr)) && fresh(db.expires.repr - old(db.expires.repr))
      ensures queue.wbuf == old(queue.wbuf) || fresh(queue.wbuf)
      ensures ok == !queue.failed && log == old(log) + [x] && Correct(x) && x.frame == frame
      ensures x.before == old(db.Maps()) && x.after == db.Maps()
      ensures ok ==> queue.queued == ResponsesOf(log)
      ensures old(queue.sent) <= queue.sent
      ensures Eager(old(queue.socket)) ==> Eager(queue.socket) && |queue.socket| + 1 >= |old(queue.socket)|
    {
      hide Eager, DB.Database.Valid, DB.Database.Maps, WriteQueue.Valid, Correct, R.EncodeResponse, ResponsesOf, FramesOf;
      var response;
      response, x := ServeFrame(db, frame, env);
      ResponsesSnoc(log, x);
      log := log + [x];
      if response.Some? {
        queue.SendResponse(response.value, allocOk);
      }
      ok := !queue.failed;
    }

    /** Serves the complete frames of the buffer from the front, and tells where it stopped. */
    method ServeAll(env: nat -> Env, allocOk: nat -> bool) returns (ok: bool, pos: nat)
      requires db.Valid() && queue.Valid() && !queue.failed && Separate() && used <= BUFFER_SIZE
      requires queue.queued == ResponsesOf(log) && AllCorrect(log)
      requires KeysInside(SplitStream(buffer[..used]).frames)
      modifies this`log, queue, queue.wbuf, db.store.repr, db.expires.repr
      ensures db.Valid() && queue.Valid() && Separate() && pos <= used
      ensures fresh(db.store.repr - old(db.store.repr)) && fresh(db.expires.repr - old(db.expires.repr))
      ensures queue.wbuf == old(queue.wbuf) || fresh(queue.wbuf)
      ensures old(queue.sent) <= queue.sent
      ensures Served(old(log), log, buffer[..used], pos, old(db.Maps()), db.Maps())
      ensures !queue.failed ==> queue.queued == ResponsesOf(log) && SplitStream(buffer[pos..used]).frames == []
      ensures ok ==> !queue.failed && SplitStream(buffer[pos..used]) == Split([], buffer[pos..used], false)
      ensures !ok ==> queue.failed || SplitStream(buffer[pos..used]).oversize
      ensures |old(log)| <= |log|
      ensures Eager(old(queue.socket)) ==> Eager(queue.socket) && |queue.socket| + |log| >= |old(queue.socket)| + |old(log)|
    {
      hide Eager, DB.Database.Valid, DB.Database.Maps, WriteQueue.Valid, Correct, AllCorrect, ResponsesOf, Served, SplitStream, FrameLength, KeyInside;
      ghost var data := buffer[..used];
      pos := 0;
      var count: nat := 0;
      ServedNone(log, data, db.Maps());
      while true
        invariant pos <= used && buffer[..used] == data
        invariant db.Valid() && queue.Valid() && !queue.failed && Separate()
        invariant fresh(db.store.repr - old(db.store.repr)) && fresh(db.expires.repr - old(db.expires.repr))
        invariant queue.wbuf == old(queue.wbuf) || fresh(queue.wbuf)
        invariant queue.queued == ResponsesOf(log) && old(queue.sent) <= queue.sent
        invariant Served(old(log), log, data, pos, old(db.Maps()), db.Maps())
        invariant |old(log)| <= |log|
        invariant Eager(old(queue.socket)) ==> Eager(queue.socket) && |queue.socket| + |log| >= |old(queue.socket)| + |old(log)|
        decreases used - pos
      {
        var n, stop := NextFrame(pos);
        if stop.Some? {
          return stop.value, pos;
        }
        var frame := buffer[pos..pos + n];
        Slices(pos, n);
        NextIsInside(old(log), log, data, pos, old(db.Maps()), db.Maps(), n);
        ghost var log1 := log;
        var fine;
        ghost var x;
        fine, x := ServeOne(frame, env(count), allocOk(count));
        ServedNext(old(log), log1, data, pos, old(db.Maps()), n, x);
        pos := pos + n;
        count := count + 1;
        if !fine {
          return false, pos;
        }
      }
    }

    lemma Slices(pos: nat, n: nat)
      requires pos + n <= used <= buffer.Length
      ensures buffer[pos..pos + n] == buffer[..used][pos..pos + n] && buffer[..used][pos..] == buffer[pos..used]
    {
      var all, part, rest := buffer[..used], buffer[pos..pos + n], buffer[pos..used];
      assert forall i :: 0 <= i < |part| ==> part[i] == buffer[pos + i] == all[pos + i];
      assert forall i :: 0 <= i < |rest| ==> rest[i] == buffer[pos + i] == all[pos + i];
    }

    /** Looks at the header of the frame at pos: its length, or why to stop there. */
    method NextFrame(pos: nat) returns (n: nat, stop: Option<bool>)
      requires pos <= used <= buffer.Length
      ensures stop == None ==>
                2 <= n <= used - pos && n == FrameLength(buffer[pos..used]) <= BUFFER_SIZE
      ensures stop == Some(true) ==> SplitStream(buffer[pos..used]) == Split([], buffer[pos..used], false)
      ensures stop == Some(false) ==> SplitStream(buffer[pos..used]) == Split([], buffer[pos..used], true)
    {
      ghost var left := buffer[pos..used];
      n := 0;
      if used - pos < 2 {
        return n, Some(true);
      }
      var coreLen := 256 * (buffer[pos] as int) + buffer[pos + 1] as int;
      n := 2 + coreLen;
      assert n == FrameLength(left);
      if n > BUFFER_SIZE {
        return n, Some(false);
      }
      if used - pos < n {
        return n, Some(true);
      }
      return n, None;
    }

    /** Serves every complete frame of the buffer, then moves the unparsed remainder to the front
        and flushes the responses. */
    method TryProcessFrames(env: nat -> Env, allocOk: nat -> bool) returns (ok: bool)
      requires db.Valid() && queue.Valid() && !queue.failed && Separate() && used <= BUFFER_SIZE
      requires queue.queued == ResponsesOf(log) && AllCorrect(log)
      requires KeysInside(SplitStream(buffer[..used]).frames)
      modifies this`used, this`log, buffer, queue, queue.wbuf, db.store.repr, db.expires.repr
      ensures db.Valid() && queue.Valid() && Separate()
      ensures fresh(db.store.repr - old(db.store.repr)) && fresh(db.expires.repr - old(db.expires.repr))
      ensures queue.wbuf == old(queue.wbuf) || fresh(queue.wbuf)
      ensures AllCorrect(log) && old(log) <= log && Threaded(log, |old(log)|, old(db.Maps()), db.Maps())
      ensures FramesOf(log) <= FramesOf(old(log)) + SplitStream(old(buffer[..used])).frames
      ensures old(queue.sent) <= queue.sent
      ensures !queue.failed ==>
                && FramesOf(log) == FramesOf(old(log)) + SplitStream(old(buffer[..used])).frames
                && queue.queued == ResponsesOf(log)
      ensures ok <==> !queue.failed && !SplitStream(old(buffer[..used])).oversize
      ensures ok ==> used < BUFFER_SIZE && buffer[..used] == SplitStream(old(buffer[..used])).rest
      ensures ok && Eager(old(queue.socket)) && |old(queue.socket)| > |log| - |old(log)| ==> queue.sent == queue.queued
    {
      hide Eager, DB.Database.Valid, DB.Database.Maps, WriteQueue.Valid, Correct, AllCorrect, Threaded, ResponsesOf, Served, SplitStream, FramesOf;
      ghost var data := buffer[..used];
      var pos;
      ok, pos := ServeAll(env, allocOk);
      assert buffer[pos..used] == data[pos..];
      ServedSoFar(old(log), log, data, pos, old(db.Maps()), db.Maps());
      if !ok {
        if !queue.failed {
          used := 0;
        }
        return;
      }
      ok := Finish(pos);
    }

    /** Moves the unparsed remainder to the front and flushes the responses. */
    method Finish(pos: nat) returns (ok: bool)
      requires queue.Valid() && !queue.failed && pos <= used <= buffer.Length && buffer != queue.wbuf
      modifies this`used, buffer, queue, queue.wbuf
      ensures queue.Valid() && queue.wbuf == old(queue.wbuf) && queue.queued == old(queue.queued)
      ensures ok == !queue.failed && old(queue.sent) <= queue.sent
      ensures used == old(used) - pos && buffer[..used] == old(buffer[pos..used])
      ensures Eager(old(queue.socket)) && old(queue.socket) != [] ==> ok && queue.sent == queue.queued
    {
      hide WriteQueue.Valid, Eager;
      ghost var rest := buffer[pos..used];
      if pos > 0 {
        var remain := used - pos;
        ShiftToFront(buffer, pos, remain);
        used := remain;
      }
      assert buffer[..used] == rest;
      if queue.used > 0 {
        queue.Flush();
      }
      ok := !queue.failed;
      if ok && queue.used == 0 {
        AllSent();
      }
    }

    /** An empty queue has sent everything. */
    lemma AllSent()
      requires queue.Valid() && !queue.failed && queue.used == 0
      ensures queue.sent == queue.queued
    {
      assert queue.wbuf[..0] == [];
    }

    /** One read from the socket: a chunk that fits the free space, then the frames it completes. */
    method Receive(chunk: Bytes, env: nat -> Env, allocOk: nat -> bool) returns (ok: bool)
      requires Valid() && |chunk| <= BUFFER_SIZE - used
      requires KeysInside(SplitStream(received + chunk).frames)
      modifies this`used, this`log, this`received, buffer, queue, queue.wbuf, db.store.repr, db.expires.repr
      ensures received == old(received) + chunk && db.Valid() && queue.Valid()
      ensures queue.wbuf == old(queue.wbuf) || fresh(queue.wbuf)
      ensures fresh(db.store.repr - old(db.store.repr)) && fresh(db.expires.repr - old(db.expires.repr))
      ensures ok ==> Valid()
      ensures ok <==> !queue.failed && !SplitStream(received).oversize
      ensures AllCorrect(log) && old(log) <= log && Threaded(log, |old(log)|, old(db.Maps()), db.Maps())
      ensures FramesOf(log) <= SplitStream(received).frames
      ensures !queue.failed ==> FramesOf(log) == SplitStream(received).frames && queue.queued == ResponsesOf(log)
      ensures ok && Eager(old(queue.socket)) && |old(queue.socket)| > |log| - |old(log)| ==> queue.sent == ResponsesOf(log)
    {
      hide Eager, DB.Database.Valid, DB.Database.Maps, WriteQueue.Valid, Correct, AllCorrect, Threaded, ResponsesOf, SplitStream, FramesOf, KeyInside;
      ghost var rest := buffer[..used];
      Resume(received, chunk);
      Write(buffer, used, chunk);
      used := used + |chunk|;
      received := received + chunk;
      assert buffer[..used] == rest + chunk;
      KeysInsideTail(FramesOf(log), SplitStream(rest + chunk).frames);
      ok := TryProcessFrames(env, allocOk);
    }
  }
}
