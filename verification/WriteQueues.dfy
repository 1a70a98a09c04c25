/** The growable queue of response bytes of a client, drained by partial sends. */
module WriteQueues {
  import opened Common
  import opened Buffers
  import opened Responses

  const INITIAL_CAPACITY: nat := 65536
  const MAX_CAPACITY: nat := 1048576

  /** What one call of send may do: take some bytes (or none), block, be interrupted, or break. */
  datatype SendOutcome = Accepts(n: nat) | WouldBlock | Interrupted | Broken

  /** How many bytes the socket takes before it blocks, breaks or takes none. */
  function Offered(socket: seq<SendOutcome>): nat
    decreases socket
  {
    if socket == [] then 0
    else
      match socket[0]
      case Accepts(n) => if n == 0 then 0 else n + Offered(socket[1..])
      case Interrupted => Offered(socket[1..])
      case WouldBlock => 0
      case Broken => 0
  }

  /** What then stops it, if anything but a lack of outcomes does. */
  function StoppedBy(socket: seq<SendOutcome>): Option<SendOutcome>
    decreases socket
  {
    if socket == [] then None
    else if socket[0] == Interrupted || (socket[0].Accepts? && socket[0].n > 0) then StoppedBy(socket[1..])
    else Some(socket[0])
  }

  lemma FirstSend(socket: seq<SendOutcome>)
    ensures socket == [] ==> Offered(socket) == 0 && StoppedBy(socket) == None
    ensures socket != [] ==>
              var o, rest := socket[0], socket[1..];
              if o == Interrupted || (o.Accepts? && o.n > 0) then
                Offered(socket) == (if o.Accepts? then o.n else 0) + Offered(rest) && StoppedBy(socket) == StoppedBy(rest)
              else Offered(socket) == 0 && StoppedBy(socket) == Some(o)
  {
  }

  /** A socket that takes something on every send, in as many sends as it has outcomes. */
  lemma {:induction false} EagerTakesAll(socket: seq<SendOutcome>)
    requires forall o :: o in socket ==> o.Accepts? && o.n > 0
    ensures Offered(socket) >= |socket|
    decreases socket
  {
    if socket != [] {
      assert socket[0] in socket;
      EagerTakesAll(socket[1..]);
    }
  }

  /** Every send takes all it is given. */
  ghost predicate Eager(socket: seq<SendOutcome>) {
    forall o :: o in socket ==> o.Accepts? && o.n >= MAX_CAPACITY
  }

  class WriteQueue {
    var wbuf: array<byte>
    var used: nat
    var failed: bool
    /** What send will answer, call by call; once exhausted it would block. */
    var socket: seq<SendOutcome>
    /** Every response byte queued so far, and every byte the socket took. */
    ghost var queued: Bytes
    ghost var sent: Bytes

    ghost predicate Valid()
      reads this, wbuf
    {
      && 0 < wbuf.Length <= MAX_CAPACITY
      && used <= wbuf.Length
      && sent <= queued
      && (!failed ==> queued == sent + wbuf[..used])
    }

    constructor (socket: seq<SendOutcome>)
      ensures Valid() && fresh(wbuf) && queued == [] && used == 0 && !failed && this.socket == socket
    {
      wbuf := new byte[INITIAL_CAPACITY](_ => 0);
      used := 0;
      failed := false;
      this.socket := socket;
      queued := [];
      sent := [];
    }

    /** Sends until the queue is empty or the socket stops taking bytes; off bytes were taken. */
    method Drain() returns (off: nat)
      requires Valid() && !failed
      modifies this`used, this`failed, this`socket, this`sent
      ensures old(sent) <= sent <= queued
      ensures failed ==> Broken in old(socket)
      ensures !failed ==> off <= used == old(used) && queued == sent + wbuf[off..used]
      ensures used <= old(used)
      ensures |sent| == |old(sent)| + Min(old(used), Offered(old(socket)))
      ensures failed <==> Offered(old(socket)) < old(used) && StoppedBy(old(socket)) == Some(Broken)
      ensures Eager(old(socket)) ==> Eager(socket) && |socket| + 1 >= |old(socket)|
      ensures Eager(old(socket)) && old(socket) != [] ==> !failed && off == used
    {
      hide Offered, StoppedBy;
      off := 0;
      while off < used
        invariant off <= used == old(used) && !failed
        invariant queued == sent + wbuf[off..used] && old(sent) <= sent
        invariant forall o :: o in socket ==> o in old(socket)
        invariant |sent| == |old(sent)| + off
        invariant off < used ==> off + Offered(socket) == Offered(old(socket)) && StoppedBy(socket) == StoppedBy(old(socket))
        invariant off == used ==> Offered(old(socket)) >= used
        invariant Eager(old(socket)) ==> |socket| + 1 >= |old(socket)| && (off == used || socket == old(socket))
        decreases |socket|
      {
        FirstSend(socket);
        if socket == [] {
          break;
        }
        var outcome := socket[0];
        assert outcome in old(socket);
        socket := socket[1..];
        match outcome {
          case Accepts(n) =>
            if n == 0 {
              break;
            }
            var k := if n <= used - off then n else used - off;
            SplitRest(sent, off, k);
            sent := sent + wbuf[off..off + k];
            off := off + k;
          case WouldBlock =>
            break;
          case Interrupted =>
          case Broken =>
            assert queued[..|sent|] == sent;
            used := 0;
            failed := true;
            return;
        }
      }
    }

    lemma SplitRest(before: Bytes, off: nat, k: nat)
      requires off + k <= used <= wbuf.Length
      ensures before + wbuf[off..used] == (before + wbuf[off..off + k]) + wbuf[off + k..used]
    {
      assert wbuf[off..used] == wbuf[off..off + k] + wbuf[off + k..used];
    }

    /** Sends what the socket takes, then moves the rest of the queue to the front. */
    method Flush()
      requires Valid()
      modifies this`used, this`failed, this`socket, this`sent, wbuf
      ensures Valid() && wbuf == old(wbuf) && old(sent) <= sent
      ensures !failed ==> used <= old(used)
      ensures failed ==> old(failed) || Broken in old(socket)
      ensures old(failed) ==> failed
      ensures !old(failed) ==> (failed <==> Offered(old(socket)) < old(used) && StoppedBy(old(socket)) == Some(Broken))
      ensures !old(failed) ==> |old(sent)| + Min(old(used), Offered(old(socket))) <= |queued|
      ensures !old(failed) ==> sent == queued[..|old(sent)| + Min(old(used), Offered(old(socket)))]
      ensures !failed && Offered(old(socket)) >= old(used) ==> used == 0 && sent == queued
      ensures Eager(old(socket)) ==> Eager(socket) && |socket| + 1 >= |old(socket)|
      ensures Eager(old(socket)) && old(socket) != [] && !old(failed) ==> !failed && used == 0
    {
      if used == 0 || failed {
        return;
      }
      var off := Drain();
      if failed {
        return;
      }
      var remaining := used - off;
      ShiftToFront(wbuf, off, remaining);
      used := remaining;
    }

    /** Makes room for len more bytes, flushing and growing as needed. */
    method Reserve(len: nat, allocOk: bool) returns (ok: bool)
      requires Valid()
      modifies this`wbuf, this`used, this`failed, this`socket, this`sent, wbuf
      ensures Valid() && (wbuf == old(wbuf) || fresh(wbuf)) && old(sent) <= sent
      ensures ok <==> !failed
      ensures ok ==> used + len <= wbuf.Length || len == 0
      ensures old(failed) ==> failed
      ensures failed ==> old(failed) || Broken in old(socket) || !allocOk || old(used) + len > MAX_CAPACITY
      ensures old(!failed && used + len <= wbuf.Length) ==>
                !failed && wbuf == old(wbuf) && used == old(used) && socket == old(socket)
      ensures Eager(old(socket)) ==> Eager(socket) && |socket| + 1 >= |old(socket)|
    {
      if failed {
        return false;
      }
      if len == 0 {
        return true;
      }
      if len > MAX_CAPACITY - used {
        failed := true;
        return false;
      }
      if used + len <= wbuf.Length {
        return true;
      }
      if used > 0 {
        Flush();
      }
      if failed {
        return false;
      }
      var needed := used + len;
      if needed <= wbuf.Length {
        return true;
      }
      var capacity := wbuf.Length;
      while capacity < needed && capacity < MAX_CAPACITY
        invariant wbuf.Length <= capacity <= MAX_CAPACITY
      {
        capacity := if capacity > MAX_CAPACITY / 2 then MAX_CAPACITY else 2 * capacity;
      }
      if !allocOk {
        failed := true;
        return false;
      }
      Grow(capacity);
      return true;
    }

    /** Moves the queue into a larger buffer. */
    method Grow(capacity: nat)
      requires Valid() && !failed && wbuf.Length <= capacity <= MAX_CAPACITY
      modifies this`wbuf
      ensures Valid() && fresh(wbuf) && wbuf.Length == capacity
    {
      var bigger := new byte[capacity](i => 0);
      forall i | 0 <= i < wbuf.Length {
        bigger[i] := wbuf[i];
      }
      assert bigger[..used] == wbuf[..used];
      wbuf := bigger;
    }

    /** Appends bytes for which room was reserved. */
    method AppendReserved(data: Bytes)
      requires Valid() && !failed && used + |data| <= wbuf.Length
      modifies this`used, this`queued, wbuf
      ensures Valid() && !failed && queued == old(queued) + data && used == old(used) + |data|
    {
      Write(wbuf, used, data);
      used := used + |data|;
      queued := queued + data;
    }

    method Append(data: Bytes, allocOk: bool)
      requires Valid()
      modifies this, wbuf
      ensures Valid() && (wbuf == old(wbuf) || fresh(wbuf)) && old(sent) <= sent
      ensures queued == if failed then old(queued) else old(queued) + data
      ensures old(failed) ==> failed
      ensures old(!failed && used + |data| <= wbuf.Length) ==>
                !failed && wbuf == old(wbuf) && used == old(used) + |data| && socket == old(socket)
      ensures failed ==> old(failed) || Broken in old(socket) || !allocOk || old(used) + |data| > MAX_CAPACITY
      ensures Eager(old(socket)) ==> Eager(socket) && |socket| + 1 >= |old(socket)|
    {
      var ok := Reserve(|data|, allocOk);
      if !ok {
        return;
      }
      if |data| == 0 {
        return;
      }
      AppendReserved(data);
    }

    /** Queues one response. Its frame is queued whole or, if the queue fails, not at all. */
    method SendResponse(r: Response, allocOk: bool)
      requires Valid()
      modifies this, wbuf
      ensures Valid() && (wbuf == old(wbuf) || fresh(wbuf)) && old(sent) <= sent
      ensures queued == if failed then old(queued) else old(queued) + EncodeResponse(r)
      ensures old(failed) ==> failed
      ensures failed ==> old(failed) || Broken in old(socket) || !allocOk || old(used) + |EncodeResponse(r)| > MAX_CAPACITY
      ensures Eager(old(socket)) ==> Eager(socket) && |socket| + 1 >= |old(socket)|
    {
      hide WriteQueue.Valid, EncodeResponse, Header;
      if !HasPayload(r) || !Fits(r) {
        Append(EncodeResponse(r), allocOk);
        return;
      }
      EncodesAs(r);
      var header := Header(r);
      var ok := Reserve(|header| + |r.bytes|, allocOk);
      if !ok {
        return;
      }
      ghost var q := queued;
      assert q + header + r.bytes == q + (header + r.bytes);
      Append(header, allocOk);
      Append(r.bytes, allocOk);
    }
  }
}
