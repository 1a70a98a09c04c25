/** The io_uring event loop: one-shot poll operations outstanding against the live clients. */
module Dispatcher {
  import opened Common
  import opened Framing
  import ClientLists

  const MIN_QUEUE_DEPTH: nat := 256
  const MAX_QUEUE_DEPTH: nat := 32768
  const QUEUE_HEADROOM: nat := 8
  const DEFAULT_MAX_CLIENTS: nat := 128
  const DISCONNECTED_MAX: nat := 0x7fff_ffff

  function QueueDepth(maxClients: nat): nat {
    var max := if maxClients == 0 then DEFAULT_MAX_CLIENTS else maxClients;
    if max > MAX_QUEUE_DEPTH - QUEUE_HEADROOM then MAX_QUEUE_DEPTH
    else if max + QUEUE_HEADROOM < MIN_QUEUE_DEPTH then MIN_QUEUE_DEPTH
    else max + QUEUE_HEADROOM
  }

  /** The depth leaves the headroom beside the clients, or is the largest allowed; none smaller does. */
  lemma DepthIsLeast(maxClients: nat, depth: nat)
    requires maxClients > 0 && MIN_QUEUE_DEPTH <= depth <= MAX_QUEUE_DEPTH
    requires depth >= maxClients + QUEUE_HEADROOM || depth == MAX_QUEUE_DEPTH
    ensures MIN_QUEUE_DEPTH <= QueueDepth(maxClients) <= depth
    ensures QueueDepth(maxClients) >= maxClients + QUEUE_HEADROOM || QueueDepth(maxClients) == MAX_QUEUE_DEPTH
  {
  }

  /** The most clients for which the queue depth exceeds the operations outstanding. */
  const DEEPEST: nat := MAX_QUEUE_DEPTH - 3

  /** The count of disconnected clients stops at the largest value its field holds. */
  function OneMore(disconnected: nat): (r: nat)
    ensures disconnected <= r <= disconnected + 1 && (disconnected < 0x7fff_ffff ==> r == disconnected + 1)
  {
    if disconnected < DISCONNECTED_MAX then disconnected + 1 else disconnected
  }

  type ClientId = nat

  datatype Op = AcceptReady | TimerReady | ReadReady(client: ClientId) | WriteReady(client: ClientId)

  /** What an operation waits on behalf of: the listener, the timer, or one client. */
  datatype Slot = Listener | Timer | Client(id: ClientId)

  function SlotOf(op: Op): Slot {
    match op
    case AcceptReady => Listener
    case TimerReady => Timer
    case ReadReady(c) => Client(c)
    case WriteReady(c) => Client(c)
  }

  /** A connected client: unparsed input, bytes of queued responses, and the write-interest flag. */
  datatype Conn = Conn(input: Bytes, queued: nat, writeRegistered: bool)

  function OpFor(id: ClientId, conn: Conn): Op {
    if conn.queued > 0 then WriteReady(id) else ReadReady(id)
  }

  /** No complete frame waits in the input, which leaves room to read more. */
  ghost predicate Drained(input: Bytes) {
    SplitStream(input) == Split([], input, false)
  }

  // ---------- What the environment does ----------

  /** One submission: refused for lack of memory or queue space, queued but not submitted, or done. */
  datatype Submission = Refused | NotSubmitted | Submitted

  datatype Accepted = Incoming(allocOk: bool, listOk: bool) | AcceptInterrupted | NoneLeft

  /** One recv; a chunk comes with what serving its frames leaves: a failed write, or queued bytes. */
  datatype Received = Chunk(bytes: Bytes, writeOk: bool, queued: nat) | Eof | RecvInterrupted | RecvAgain | RecvBroken

  datatype Flushed = Flushed(ok: bool, remaining: nat)

  /** Everything the system calls made while handling one completion will answer. */
  datatype Completion = Completion(
    failed: bool,
    signal: bool,
    accepts: seq<Accepted>,
    recvs: seq<Received>,
    flush: Flushed)

  /** What waiting for a completion gives: any outstanding operation may be the next to complete. */
  datatype Wakeup = Interrupted(signal: bool) | WaitFailed | Completed(index: nat, completion: Completion)

  lemma {:induction false} RestIsDrained(s: Bytes)
    requires !SplitStream(s).oversize
    ensures Drained(SplitStream(s).rest)
    decreases |s|
  {
    if |s| >= 2 && FrameLength(s) <= |s| {
      SplitOne(s);
      RestIsDrained(s[FrameLength(s)..]);
    }
  }

  lemma EmptyIsDrained()
    ensures Drained([])
  {
  }

  // ---------- What reading does to a client ----------

  /** What one recv delivers into the room left. */
  function Fitting(input: Bytes, bytes: Bytes): (b: Bytes)
    ensures b <= bytes && (|input| <= BUFFER_SIZE ==> |b| == Min(|bytes|, BUFFER_SIZE - |input|))
  {
    if |input| + |bytes| <= BUFFER_SIZE then bytes
    else if |input| <= BUFFER_SIZE then bytes[..BUFFER_SIZE - |input|]
    else []
  }

  /** The client after reading until the socket would block; None when it is dropped. */
  function AfterRead(conn: Conn, recvs: seq<Received>): Option<Conn>
    decreases |recvs|
  {
    if |conn.input| >= BUFFER_SIZE then None
    else if recvs == [] then Some(conn)
    else
      match recvs[0]
      case RecvAgain => Some(conn)
      case RecvInterrupted => AfterRead(conn, recvs[1..])
      case Eof => None
      case RecvBroken => None
      case Chunk(bytes, writeOk, queued) =>
        var split := SplitStream(conn.input + Fitting(conn.input, bytes));
        if bytes == [] || split.oversize || !writeOk then None
        else AfterRead(conn.(input := split.rest, queued := queued), recvs[1..])
  }

  /** The bytes that reading takes off the socket. */
  function Taken(input: Bytes, recvs: seq<Received>): Bytes
    decreases |recvs|
  {
    if recvs == [] then []
    else
      match recvs[0]
      case RecvInterrupted => Taken(input, recvs[1..])
      case Chunk(bytes, writeOk, _) =>
        var b := Fitting(input, bytes);
        var split := SplitStream(input + b);
        b + (if bytes == [] || split.oversize || !writeOk then [] else Taken(split.rest, recvs[1..]))
      case _ => []
  }

  lemma ReadStep(conn: Conn, recvs: seq<Received>)
    requires |conn.input| < BUFFER_SIZE
    ensures recvs == [] || recvs[0] == RecvAgain ==> AfterRead(conn, recvs) == Some(conn) && Taken(conn.input, recvs) == []
    ensures recvs != [] && (recvs[0] == Eof || recvs[0] == RecvBroken) ==>
              AfterRead(conn, recvs) == None && Taken(conn.input, recvs) == []
    ensures recvs != [] && recvs[0] == RecvInterrupted ==>
              && AfterRead(conn, recvs) == AfterRead(conn, recvs[1..])
              && Taken(conn.input, recvs) == Taken(conn.input, recvs[1..])
    ensures recvs != [] && recvs[0].Chunk? ==>
              var b := Fitting(conn.input, recvs[0].bytes);
              var split := SplitStream(conn.input + b);
              if recvs[0].bytes == [] then AfterRead(conn, recvs) == None && Taken(conn.input, recvs) == []
              else if split.oversize || !recvs[0].writeOk then AfterRead(conn, recvs) == None && Taken(conn.input, recvs) == b
              else
                && AfterRead(conn, recvs) == AfterRead(conn.(input := split.rest, queued := recvs[0].queued), recvs[1..])
                && Taken(conn.input, recvs) == b + Taken(split.rest, recvs[1..])
  {
    hide SplitStream;
    if recvs != [] && recvs[0].Chunk? {
      var b := Fitting(conn.input, recvs[0].bytes);
      assert b + [] == b;
    }
  }

  // ---------- What reading means ----------

  /** The end of the stream, an error, or a response that could not be written. */
  predicate Ends(r: Received) {
    r.Eof? || r.RecvBroken? || (r.Chunk? && (r.bytes == [] || !r.writeOk))
  }

  /** How many reads are made before one would block. */
  function Reads(recvs: seq<Received>): (n: nat)
    ensures n <= |recvs| && RecvAgain !in recvs[..n] && (n == |recvs| || recvs[n] == RecvAgain)
    decreases recvs
  {
    if recvs == [] || recvs[0] == RecvAgain then 0
    else
      var n := 1 + Reads(recvs[1..]);
      assert recvs[..n] == [recvs[0]] + recvs[1..][..n - 1];
      n
  }

  ghost predicate Quits(recvs: seq<Received>) {
    exists i :: 0 <= i < Reads(recvs) && Ends(recvs[i])
  }

  /** All the bytes that some reads deliver. */
  function Delivered(recvs: seq<Received>): Bytes
    decreases recvs
  {
    if recvs == [] then [] else (if recvs[0].Chunk? then recvs[0].bytes else []) + Delivered(recvs[1..])
  }

  /** No read delivers more than there is room for, as the system call guarantees. */
  ghost predicate WithinRoom(input: Bytes, recvs: seq<Received>) {
    forall i :: 0 <= i < |recvs| && recvs[i].Chunk? ==>
      var split := SplitStream(input + Delivered(recvs[..i]));
      split.oversize || |split.rest| + |recvs[i].bytes| <= BUFFER_SIZE
  }

  /** The response bytes queued after some reads: what the last chunk served left. */
  function QueuedAfter(queued: nat, recvs: seq<Received>): nat
    decreases recvs
  {
    if recvs == [] then queued else QueuedAfter(if recvs[0].Chunk? then recvs[0].queued else queued, recvs[1..])
  }

  lemma {:induction false} QueuedIsLast(conn: Conn, recvs: seq<Received>)
    ensures var after := AfterRead(conn, recvs);
            after.Some? ==> after.value.queued == QueuedAfter(conn.queued, recvs[..Reads(recvs)])
    decreases |recvs|
  {
    hide SplitStream;
    var n := Reads(recvs);
    if n > 0 {
      assert recvs[..n][1..] == recvs[1..][..n - 1];
      if recvs[0].RecvInterrupted? {
        QueuedIsLast(conn, recvs[1..]);
      } else if recvs[0].Chunk? {
        var split := SplitStream(conn.input + Fitting(conn.input, recvs[0].bytes));
        QueuedIsLast(conn.(input := split.rest, queued := recvs[0].queued), recvs[1..]);
      }
    }
  }

  lemma QuitsFirst(recvs: seq<Received>)
    ensures Quits(recvs) <==> recvs != [] && recvs[0] != RecvAgain && (Ends(recvs[0]) || Quits(recvs[1..]))
  {
    if recvs != [] && recvs[0] != RecvAgain {
      if Quits(recvs) {
        var i :| 0 <= i < Reads(recvs) && Ends(recvs[i]);
        assert i > 0 ==> recvs[i] == recvs[1..][i - 1];
      }
      if Quits(recvs[1..]) {
        var i :| 0 <= i < Reads(recvs[1..]) && Ends(recvs[1..][i]);
        assert recvs[1..][i] == recvs[i + 1];
      }
    }
  }

  lemma DeliveredFirst(recvs: seq<Received>, n: nat)
    requires 0 < n <= |recvs|
    ensures Delivered(recvs[..n]) == (if recvs[0].Chunk? then recvs[0].bytes else []) + Delivered(recvs[1..][..n - 1])
  {
    assert recvs[..n][1..] == recvs[1..][..n - 1];
  }

  lemma WithinRoomFirst(input: Bytes, recvs: seq<Received>)
    requires recvs != [] && WithinRoom(input, recvs) && Drained(input)
    ensures recvs[0].RecvInterrupted? ==> WithinRoom(input, recvs[1..])
    ensures recvs[0].Chunk? ==>
              && Fitting(input, recvs[0].bytes) == recvs[0].bytes
              && var split := SplitStream(input + recvs[0].bytes); !split.oversize ==> WithinRoom(split.rest, recvs[1..])
  {
    hide SplitStream;
    assert recvs[..0] == [] && input + Delivered([]) == input;
    var first := if recvs[0].Chunk? then recvs[0].bytes else [];
    var split := SplitStream(input + first);
    if !split.oversize && (recvs[0].Chunk? || recvs[0].RecvInterrupted?) {
      assert input + [] == input;
      forall i | 0 <= i < |recvs| - 1 && recvs[1..][i].Chunk?
        ensures var s := SplitStream(split.rest + Delivered(recvs[1..][..i]));
                s.oversize || |s.rest| + |recvs[1..][i].bytes| <= BUFFER_SIZE
      {
        DeliveredFirst(recvs, i + 1);
        var more := Delivered(recvs[1..][..i]);
        assert input + Delivered(recvs[..i + 1]) == (input + first) + more;
        SplitResumes(input + first, more);
        assert recvs[1..][i] == recvs[i + 1];
      }
    }
  }

  /** A client is dropped exactly when a read ends it or the bytes taken announce a frame too large;
      otherwise it is left with the incomplete frame at the end of the stream. */
  lemma {:induction false} ReadsAreSplit(conn: Conn, recvs: seq<Received>)
    requires Drained(conn.input)
    ensures var split := SplitStream(conn.input + Taken(conn.input, recvs)); var after := AfterRead(conn, recvs);
            && (after == None <==> Quits(recvs) || split.oversize)
            && (after.Some? ==> after.value.input == split.rest && after.value.writeRegistered == conn.writeRegistered)
    decreases |recvs|
  {
    hide SplitStream, Quits;
    QuitsFirst(recvs);
    assert conn.input + [] == conn.input;
    if recvs != [] && recvs[0].RecvInterrupted? {
      ReadsAreSplit(conn, recvs[1..]);
    } else if recvs != [] && recvs[0].Chunk? {
      var b := Fitting(conn.input, recvs[0].bytes);
      var a := conn.input + b;
      assert a + [] == a && b + [] == b;
      if !SplitStream(a).oversize && !Ends(recvs[0]) {
        var next := conn.(input := SplitStream(a).rest, queued := recvs[0].queued);
        var more := Taken(next.input, recvs[1..]);
        assert conn.input + Taken(conn.input, recvs) == a + more;
        RestIsDrained(a);
        ReadsAreSplit(next, recvs[1..]);
        SplitResumes(a, more);
      }
    }
  }

  /** Everything delivered before a read would block is taken, unless the client is dropped first; it is
      dropped exactly when a read ends it or those bytes announce a frame too large. */
  lemma {:induction false} TakesAll(conn: Conn, recvs: seq<Received>)
    requires Drained(conn.input) && WithinRoom(conn.input, recvs)
    ensures var all := Delivered(recvs[..Reads(recvs)]); var after := AfterRead(conn, recvs);
            && (after == None <==> Quits(recvs) || SplitStream(conn.input + all).oversize)
            && (after.Some? ==> Taken(conn.input, recvs) == all)
    decreases |recvs|
  {
    hide SplitStream, Quits, WithinRoom;
    QuitsFirst(recvs);
    var n := Reads(recvs);
    if n == 0 {
      assert recvs[..0] == [] && conn.input + [] == conn.input;
    } else {
      WithinRoomFirst(conn.input, recvs);
      DeliveredFirst(recvs, n);
      var rest := Delivered(recvs[1..][..n - 1]);
      if recvs[0].RecvInterrupted? {
        TakesAll(conn, recvs[1..]);
        assert [] + rest == rest;
      } else if recvs[0].Chunk? && !Ends(recvs[0]) {
        var a := conn.input + recvs[0].bytes;
        assert conn.input + Delivered(recvs[..n]) == a + rest;
        if SplitStream(a).oversize {
          OversizeStays(a, rest);
        } else {
          var next := conn.(input := SplitStream(a).rest, queued := recvs[0].queued);
          RestIsDrained(a);
          TakesAll(next, recvs[1..]);
          SplitResumes(a, rest);
        }
      }
    }
  }

  /** Two client tables that agree on everyone else. */
  ghost predicate SameButFor(id: ClientId, a: map<ClientId, Conn>, b: map<ClientId, Conn>) {
    forall c :: c != id ==> (c in a <==> c in b) && (c in a ==> a[c] == b[c])
  }

  lemma SameChain(id: ClientId, a: map<ClientId, Conn>, b: map<ClientId, Conn>, c: map<ClientId, Conn>)
    requires SameButFor(id, a, b) && SameButFor(id, b, c)
    ensures SameButFor(id, a, c)
  {
  }

  lemma SameUpdate(id: ClientId, a: map<ClientId, Conn>, conn: Conn)
    ensures SameButFor(id, a, a) && SameButFor(id, a[id := conn], a)
  {
  }

  /** New clients start out fresh and are numbered on; nothing else changes. */
  ghost predicate Joined(a: map<ClientId, Conn>, b: map<ClientId, Conn>, heard: map<ClientId, Bytes>,
                         heard': map<ClientId, Bytes>, from: ClientId, to: ClientId)
  {
    && from <= to
    && (forall c: ClientId :: from <= c < to ==> c in b && b[c] == Conn([], 0, false) && c in heard' && heard'[c] == [])
    && (forall c: ClientId :: !(from <= c < to) ==> (c in a <==> c in b) && (c in a ==> a[c] == b[c]))
    && (forall c: ClientId :: !(from <= c < to) ==> (c in heard <==> c in heard') && (c in heard ==> heard[c] == heard'[c]))
  }

  lemma JoinedNone(conns: map<ClientId, Conn>, heard: map<ClientId, Bytes>, nextId: ClientId)
    ensures Joined(conns, conns, heard, heard, nextId, nextId)
  {
  }

  lemma JoinedChain(a: map<ClientId, Conn>, b: map<ClientId, Conn>, c: map<ClientId, Conn>, h0: map<ClientId, Bytes>,
                    h1: map<ClientId, Bytes>, h2: map<ClientId, Bytes>, n0: ClientId, n1: ClientId, n2: ClientId)
    requires Joined(a, b, h0, h1, n0, n1) && Joined(b, c, h1, h2, n1, n2)
    ensures Joined(a, c, h0, h2, n0, n2)
  {
  }

  /** How many connections could be listed before none is left to accept. */
  function Welcome(accepts: seq<Accepted>): nat
    decreases accepts
  {
    if accepts == [] || accepts[0] == NoneLeft then 0
    else (if accepts[0] == Incoming(true, true) then 1 else 0) + Welcome(accepts[1..])
  }

  lemma {:induction false} AllWelcome(n: nat)
    ensures Welcome(seq(n, i => Incoming(true, true))) == n
  {
    if n > 0 {
      AllWelcome(n - 1);
      assert seq(n, i => Incoming(true, true))[1..] == seq(n - 1, i => Incoming(true, true));
    }
  }

  // ---------- Sequences without repeats ----------

  ghost predicate DistinctSlots(ops: seq<Op>) {
    forall i, j :: 0 <= i < j < |ops| ==> SlotOf(ops[i]) != SlotOf(ops[j])
  }

  ghost function SlotsOf(ops: seq<Op>): set<Slot> {
    set i | 0 <= i < |ops| :: SlotOf(ops[i])
  }

  ghost predicate DistinctIds(ids: seq<ClientId>) {
    forall i, j :: 0 <= i < j < |ids| ==> ids[i] != ids[j]
  }

  ghost function ClientSlots(ids: seq<ClientId>): set<Slot> {
    set i | 0 <= i < |ids| :: Client(ids[i])
  }

  lemma {:induction false} CountSlots(ops: seq<Op>)
    requires DistinctSlots(ops)
    ensures |SlotsOf(ops)| == |ops|
  {
    if ops != [] {
      var l, op := ops[..|ops| - 1], ops[|ops| - 1];
      CountSlots(l);
      assert ops == l + [op];
      assert SlotsOf(ops) == SlotsOf(l) + {SlotOf(op)};
    }
  }

  lemma {:induction false} CountClients(ids: seq<ClientId>)
    requires DistinctIds(ids)
    ensures |ClientSlots(ids)| == |ids|
  {
    if ids != [] {
      var l, id := ids[..|ids| - 1], ids[|ids| - 1];
      CountClients(l);
      assert ids == l + [id];
      assert ClientSlots(ids) == ClientSlots(l) + {Client(id)};
    }
  }

  lemma SlotsAdd(ops: seq<Op>, op: Op)
    requires DistinctSlots(ops) && SlotOf(op) !in SlotsOf(ops)
    ensures DistinctSlots([op] + ops) && SlotsOf([op] + ops) == SlotsOf(ops) + {SlotOf(op)}
  {
    var all := [op] + ops;
    assert all[0] == op && forall i :: 0 < i < |all| ==> all[i] == ops[i - 1];
    assert forall i :: 0 <= i < |ops| ==> ops[i] == all[i + 1];
  }

  lemma SlotsRemove(ops: seq<Op>, i: nat)
    requires DistinctSlots(ops) && i < |ops|
    ensures var l := ops[..i] + ops[i + 1..];
            DistinctSlots(l) && SlotsOf(l) == SlotsOf(ops) - {SlotOf(ops[i])} && SlotOf(ops[i]) in SlotsOf(ops)
            && forall op :: op in l <==> op in ops && op != ops[i]
  {
    hide SlotOf;
    var l := ops[..i] + ops[i + 1..];
    assert forall j :: 0 <= j < |l| ==> l[j] == ops[if j < i then j else j + 1];
    assert forall j :: 0 <= j < i ==> ops[j] == l[j];
    assert forall j :: i < j < |ops| ==> ops[j] == l[j - 1];
    forall s ensures s in SlotsOf(l) <==> s in SlotsOf(ops) && s != SlotOf(ops[i]) {
      if s in SlotsOf(ops) && s != SlotOf(ops[i]) {
        var j :| 0 <= j < |ops| && SlotOf(ops[j]) == s;
        assert l[if j < i then j else j - 1] == ops[j];
      }
    }
  }

  lemma IdsAdd(ids: seq<ClientId>, id: ClientId)
    requires DistinctIds(ids) && id !in ids
    ensures DistinctIds(ids + [id]) && ClientSlots(ids + [id]) == ClientSlots(ids) + {Client(id)}
  {
    var all := ids + [id];
    assert forall i :: 0 <= i < |ids| ==> all[i] == ids[i];
    assert all[|ids|] == id;
  }

  lemma IdsRemove(ids: seq<ClientId>, i: nat)
    requires DistinctIds(ids) && i < |ids|
    ensures var l := ids[..i] + ids[i + 1..];
            DistinctIds(l) && ClientSlots(l) == ClientSlots(ids) - {Client(ids[i])} && ids[i] !in l
            && forall x :: x in l <==> x in ids && x != ids[i]
  {
    var l := ids[..i] + ids[i + 1..];
    assert forall j :: 0 <= j < |l| ==> l[j] == ids[if j < i then j else j + 1];
    assert forall j :: 0 <= j < |ids| && j != i ==> ids[j] == l[if j < i then j else j - 1];
  }

  // ---------- What the loop keeps ----------

  /** Every slot that should have an operation outstanding. */
  ghost function Owed(timer: bool, clients: seq<ClientId>): set<Slot> {
    {Listener} + (if timer then {Timer} else {}) + ClientSlots(clients)
  }

  /** Exactly one operation is tracked per slot owed, except for the missing ones. */
  ghost predicate Tracked(ops: seq<Op>, owed: set<Slot>, missing: set<Slot>) {
    DistinctSlots(ops) && SlotsOf(ops) == owed - missing
  }

  /** The client list has no repeats and holds the live clients, none with a frame left to serve. */
  ghost predicate Listed(clients: seq<ClientId>, conns: map<ClientId, Conn>, nextId: ClientId) {
    && DistinctIds(clients)
    && (forall id :: id in conns <==> id in clients)
    && (forall id :: id in conns ==> id < nextId && Drained(conns[id].input))
  }

  /** Every live client's input is what is left of all the bytes heard from it. */
  ghost predicate Followed(conns: map<ClientId, Conn>, heard: map<ClientId, Bytes>) {
    forall id :: id in conns ==>
      id in heard && !SplitStream(heard[id]).oversize && conns[id].input == SplitStream(heard[id]).rest
  }

  lemma FollowedUpdate(conns: map<ClientId, Conn>, heard: map<ClientId, Bytes>, id: ClientId, conn: Conn)
    requires Followed(conns, heard) && id in conns && conn.input == conns[id].input
    ensures Followed(conns[id := conn], heard)
  {
    hide SplitStream;
  }

  lemma FollowedNew(conns: map<ClientId, Conn>, heard: map<ClientId, Bytes>, id: ClientId)
    requires Followed(conns, heard) && id !in conns
    ensures Followed(conns[id := Conn([], 0, false)], heard[id := []])
  {
  }

  lemma FollowedDrop(conns: map<ClientId, Conn>, heard: map<ClientId, Bytes>, id: ClientId)
    requires Followed(conns, heard)
    ensures Followed(conns - {id}, heard)
  {
    hide SplitStream;
  }

  /** More bytes from a client leave it with what is left of all of them. */
  lemma FollowedMore(conns: map<ClientId, Conn>, heard: map<ClientId, Bytes>, id: ClientId, bytes: Bytes, conn: Conn)
    requires Followed(conns, heard) && id in conns
    requires var split := SplitStream(conns[id].input + bytes); !split.oversize && conn.input == split.rest
    ensures Followed(conns[id := conn], heard[id := heard[id] + bytes])
  {
    hide SplitStream;
    SplitResumes(heard[id], bytes);
  }

  /** What a completed operation was, and what the system calls made for it answered. */
  type Handled = (Op, Completion)

  /** The completion ends the client: it failed, a read ended it, or its responses could not be sent. */
  ghost predicate Departs(h: Handled, id: ClientId) {
    || (h.0 == ReadReady(id) && (h.1.failed || Quits(h.1.recvs)))
    || (h.0 == WriteReady(id) && (h.1.failed || !h.1.flush.ok))
  }

  /** The client has been ended by a completion, or has announced a frame too large. */
  ghost predicate Departed(handled: seq<Handled>, heard: Bytes, id: ClientId) {
    SplitStream(heard).oversize || exists n :: 0 <= n < |handled| && Departs(handled[n], id)
  }

  /** The clients still listed are exactly those admitted that have not departed. */
  ghost predicate AllAccounted(conns: map<ClientId, Conn>, nextId: ClientId, heard: map<ClientId, Bytes>, handled: seq<Handled>) {
    && (forall id: ClientId :: id in heard <==> id < nextId)
    && (forall id :: id in conns ==> id < nextId)
    && (forall id: ClientId :: id < nextId ==> (id in conns <==> !Departed(handled, heard[id], id)))
    && (forall h :: h in handled && (h.0.ReadReady? || h.0.WriteReady?) ==> h.0.client < nextId)
  }

  lemma DepartedNext(handled: seq<Handled>, h: Handled, heard: Bytes, id: ClientId)
    ensures Departed(handled + [h], heard, id) <==> Departed(handled, heard, id) || Departs(h, id)
  {
    hide SplitStream, Departs;
    var all := handled + [h];
    assert all[|handled|] == h && forall n :: 0 <= n < |handled| ==> all[n] == handled[n];
  }

  /** A completion for one client accounts for that client. */
  lemma AccountClient(conns: map<ClientId, Conn>, conns': map<ClientId, Conn>, nextId: ClientId, heard: map<ClientId, Bytes>,
                      heard': map<ClientId, Bytes>, handled: seq<Handled>, h: Handled, id: ClientId)
    requires AllAccounted(conns, nextId, heard, handled) && id in conns && (h.0 == ReadReady(id) || h.0 == WriteReady(id))
    requires SameButFor(id, conns', conns) && id in heard' && heard' == heard[id := heard'[id]]
    requires id in conns' <==> !SplitStream(heard'[id]).oversize && !Departs(h, id)
    ensures AllAccounted(conns', nextId, heard', handled + [h])
  {
    hide SplitStream, Quits;
    forall x: ClientId | x < nextId ensures x in conns' <==> !Departed(handled + [h], heard'[x], x) {
      DepartedNext(handled, h, heard'[x], x);
    }
  }

  /** A completion of the listener or the timer accounts for the clients that joined. */
  lemma AccountOthers(conns: map<ClientId, Conn>, conns': map<ClientId, Conn>, nextId: ClientId, nextId': ClientId,
                      heard: map<ClientId, Bytes>, heard': map<ClientId, Bytes>, handled: seq<Handled>, h: Handled)
    requires AllAccounted(conns, nextId, heard, handled) && (h.0 == AcceptReady || h.0 == TimerReady)
    requires Joined(conns, conns', heard, heard', nextId, nextId')
    ensures AllAccounted(conns', nextId', heard', handled + [h])
  {
    EmptyIsDrained();
    hide SplitStream, Quits;
    forall x: ClientId | x < nextId' ensures x in conns' <==> !Departed(handled + [h], heard'[x], x) {
      DepartedNext(handled, h, heard'[x], x);
    }
  }

  /** What a read completion leaves of a client, in terms of the bytes heard from it so far and now. */
  ghost predicate ReadDone(id: ClientId, c: Completion, conn: Conn, conns: map<ClientId, Conn>, before: Bytes, after: Bytes) {
    var all := Delivered(c.recvs[..Reads(c.recvs)]);
    && (id in conns <==> !c.failed && !Quits(c.recvs) && !SplitStream(after).oversize)
    && (id in conns ==>
          && conns[id].input == SplitStream(after).rest
          && conns[id].queued == QueuedAfter(conn.queued, c.recvs[..Reads(c.recvs)]))
    && (WithinRoom(conn.input, c.recvs) ==>
          && (id in conns <==> !c.failed && !Quits(c.recvs) && !SplitStream(before + all).oversize)
          && (id in conns ==> after == before + all))
  }

  lemma ReadMeans(id: ClientId, c: Completion, conn: Conn, conns: map<ClientId, Conn>, before: Bytes, after: Bytes)
    requires !SplitStream(before).oversize && conn.input == SplitStream(before).rest && Drained(conn.input)
    requires after == before + if c.failed then [] else Taken(conn.input, c.recvs)
    requires var result := if c.failed then None else AfterRead(conn, c.recvs);
             (id in conns <==> result.Some?) && (id in conns ==> conns[id].(writeRegistered := false) == result.value)
    ensures ReadDone(id, c, conn, conns, before, after)
  {
    hide SplitStream, Quits, WithinRoom, Taken, AfterRead, Drained;
    if !c.failed {
      ReadsAreSplit(conn, c.recvs);
      QueuedIsLast(conn, c.recvs);
      SplitResumes(before, Taken(conn.input, c.recvs));
      if WithinRoom(conn.input, c.recvs) {
        TakesAll(conn, c.recvs);
        SplitResumes(before, Delivered(c.recvs[..Reads(c.recvs)]));
      }
    }
  }

  /** Every client that is not missing waits for what its state calls for. */
  ghost predicate Armed(conns: map<ClientId, Conn>, ops: seq<Op>, missing: set<Slot>) {
    forall id :: id in conns && Client(id) !in missing ==>
      OpFor(id, conns[id]) in ops && conns[id].writeRegistered == (conns[id].queued > 0)
  }

  lemma TrackedAdd(ops: seq<Op>, owed: set<Slot>, missing: set<Slot>, op: Op, left: set<Slot>)
    requires Tracked(ops, owed, missing) && SlotOf(op) in owed && SlotOf(op) in missing
    requires left == missing - {SlotOf(op)}
    ensures Tracked([op] + ops, owed, left)
  {
    SlotsAdd(ops, op);
  }

  lemma TrackedRemove(ops: seq<Op>, owed: set<Slot>, i: nat)
    requires Tracked(ops, owed, {}) && i < |ops|
    ensures Tracked(ops[..i] + ops[i + 1..], owed, {SlotOf(ops[i])})
  {
    SlotsRemove(ops, i);
  }

  lemma ListedUpdate(clients: seq<ClientId>, conns: map<ClientId, Conn>, nextId: ClientId, id: ClientId, conn: Conn)
    requires Listed(clients, conns, nextId) && id in conns && Drained(conn.input)
    ensures Listed(clients, conns[id := conn], nextId)
  {
    hide Drained;
  }

  lemma ListedDrained(clients: seq<ClientId>, conns: map<ClientId, Conn>, nextId: ClientId, id: ClientId)
    requires Listed(clients, conns, nextId) && id in conns
    ensures Drained(conns[id].input) && id in clients && DistinctIds(clients)
  {
    hide Drained;
  }

  lemma ArmOne(conns: map<ClientId, Conn>, ops: seq<Op>, id: ClientId)
    requires id in conns && Armed(conns, ops, {Client(id)})
    ensures var conn := conns[id];
            Armed(conns[id := conn.(writeRegistered := conn.queued > 0)], [OpFor(id, conn)] + ops, {})
  {
    var all := [OpFor(id, conns[id])] + ops;
    assert all[0] in all;
    assert forall op :: op in ops ==> op in all;
  }

  lemma ArmedAdd(conns: map<ClientId, Conn>, ops: seq<Op>, missing: set<Slot>, op: Op)
    requires Armed(conns, ops, missing)
    ensures Armed(conns, [op] + ops, missing)
  {
    assert forall o :: o in ops ==> o in [op] + ops;
  }

  lemma ArmedRemove(conns: map<ClientId, Conn>, ops: seq<Op>, i: nat)
    requires Armed(conns, ops, {}) && i < |ops| && DistinctSlots(ops)
    ensures Armed(conns, ops[..i] + ops[i + 1..], {SlotOf(ops[i])})
  {
    SlotsRemove(ops, i);
  }

  lemma ArmedUpdate(conns: map<ClientId, Conn>, ops: seq<Op>, id: ClientId, conn: Conn)
    requires Armed(conns, ops, {Client(id)})
    ensures Armed(conns[id := conn], ops, {Client(id)})
  {
  }

  class Dispatcher {
    const maxClients: nat
    const timer: bool
    /** Tracked operations, newest first, and their count. */
    var ops: seq<Op>
    var outstanding: nat
    /** The client list, its count, and the clients themselves. */
    var clients: seq<ClientId>
    var numClients: nat
    var conns: map<ClientId, Conn>
    var nextId: ClientId
    /** Clients dropped so far. */
    var disconnected: nat
    var shutdown: bool
    /** All bytes taken from each client ever admitted, and all completions handled. */
    ghost var heard: map<ClientId, Bytes>
    ghost var handled: seq<Handled>
    /** Outcomes of the submissions to come; once exhausted they succeed. */
    var kernel: seq<Submission>

    /** Exactly one operation is outstanding per slot owed, except for the missing ones, and every
        client's operation fits its state. */
    ghost predicate Valid(missing: set<Slot>)
      reads this`ops, this`outstanding, this`clients, this`numClients, this`conns, this`nextId, this`heard
      ensures Valid(missing) ==> numClients == |clients| <= maxClients
    {
      && outstanding == |ops| && numClients == |clients| <= maxClients
      && Tracked(ops, Owed(timer, clients), missing)
      && Listed(clients, conns, nextId)
      && Armed(conns, ops, missing)
      && Followed(conns, heard)
    }

    ghost predicate Accounted()
      reads this`conns, this`nextId, this`heard, this`handled
    {
      AllAccounted(conns, nextId, heard, handled)
    }

    /** What holds at every loop head, in terms of the lists and flags themselves. */
    ghost predicate InOrder()
      reads this
    {
      && outstanding == |ops| == 1 + (if timer then 1 else 0) + |clients|
      && AcceptReady in ops && (TimerReady in ops <==> timer)
      && (forall i, j :: 0 <= i < j < |ops| ==> SlotOf(ops[i]) != SlotOf(ops[j]))
      && (forall id :: ReadReady(id) in ops || WriteReady(id) in ops <==> id in clients)
      && numClients == |clients| <= maxClients
      && (maxClients <= DEEPEST ==> outstanding < QueueDepth(maxClients))
      && (forall id :: id in clients ==> id in conns)
      && (forall id :: id in clients ==>
            && (WriteReady(id) in ops <==> conns[id].queued > 0)
            && (conns[id].writeRegistered <==> conns[id].queued > 0)
            && Drained(conns[id].input))
    }

    /** One accept, one timer operation if there is a timer, and one operation per listed client,
        which fits the client's state; no operation names a client that was dropped. */
    lemma Consequences()
      requires Valid({})
      ensures InOrder()
    {
      hide Drained;
      CountOwed();
      SlotsCover();
      forall id ensures ReadReady(id) in ops || WriteReady(id) in ops <==> id in clients {
        if ReadReady(id) in ops {
          SlotIsOwed(ReadReady(id));
        } else if WriteReady(id) in ops {
          SlotIsOwed(WriteReady(id));
        }
      }
      forall id | id in clients ensures WriteReady(id) in ops <==> conns[id].queued > 0 {
        if WriteReady(id) in ops {
          SlotIsOwed(WriteReady(id));
        }
      }
    }

    lemma CountOwed()
      requires Valid({})
      ensures |ops| == 1 + (if timer then 1 else 0) + |clients|
    {
      hide Drained;
      CountSlots(ops);
      CountClients(clients);
      var fixed: set<Slot> := {Listener} + (if timer then {Timer} else {});
      assert fixed !! ClientSlots(clients);
      assert Owed(timer, clients) - {} == fixed + ClientSlots(clients);
      assert |fixed + ClientSlots(clients)| == |fixed| + |ClientSlots(clients)|;
    }

    lemma SlotsCover()
      requires Valid({})
      ensures AcceptReady in ops && (TimerReady in ops <==> timer)
    {
      hide Drained;
      assert Listener in SlotsOf(ops);
      var i :| 0 <= i < |ops| && SlotOf(ops[i]) == Listener;
      assert ops[i] == AcceptReady;
      if timer {
        assert Timer in SlotsOf(ops);
        var j :| 0 <= j < |ops| && SlotOf(ops[j]) == Timer;
        assert ops[j] == TimerReady;
      } else if TimerReady in ops {
        SlotIsOwed(TimerReady);
        assert false;
      }
    }

    constructor (maxClients: nat, timer: bool, kernel: seq<Submission>)
      ensures this.maxClients == maxClients && this.timer == timer && this.kernel == kernel
      ensures ops == [] && clients == [] && numClients == 0 && conns == map[] && !shutdown
      ensures Valid({Listener, Timer}) && Accounted() && handled == []
    {
      this.maxClients, this.timer, this.kernel := maxClients, timer, kernel;
      ops, outstanding, clients, numClients, conns, nextId, shutdown, disconnected := [], 0, [], 0, map[], 0, false, 0;
      heard, handled := map[], [];
      new;
      assert SlotsOf([]) == {} && ClientSlots([]) == {};
    }

    // ---------- Tracking operations ----------

    /** Submits a poll operation. A failure may leave it tracked, but then the loop ends. */
    method Submit(op: Op) returns (ok: bool)
      modifies this`ops, this`outstanding, this`kernel
      ensures ok ==> ops == [op] + old(ops) && outstanding == old(outstanding) + 1
      ensures old(kernel) == [] ==> ok && kernel == []
    {
      var outcome := if kernel == [] then Submitted else kernel[0];
      kernel := if kernel == [] then [] else kernel[1..];
      if outcome == Refused {
        return false;
      }
      ops := [op] + ops;
      outstanding := outstanding + 1;
      return outcome == Submitted;
    }

    /** Takes a completed operation off the tracked list. */
    method Untrack(i: nat) returns (op: Op)
      requires Valid({}) && i < |ops|
      modifies this`ops, this`outstanding
      ensures op == old(ops)[i] && Valid({SlotOf(op)})
      ensures op.ReadReady? || op.WriteReady? ==>
                op.client in clients && op.client in conns && op == OpFor(op.client, conns[op.client])
      ensures op.ReadReady? ==> !conns[op.client].writeRegistered
      ensures op.TimerReady? ==> timer
    {
      hide Listed, Armed, Tracked, Owed;
      op := ops[i];
      TrackedRemove(ops, Owed(timer, clients), i);
      DistinctTracked();
      ArmedRemove(conns, ops, i);
      SlotIsOwed(op);
      ops := ops[..i] + ops[i + 1..];
      outstanding := outstanding - 1;
    }

    lemma DistinctTracked()
      requires Valid({})
      ensures DistinctSlots(ops)
    {
      hide Listed, Armed, Owed;
    }

    lemma SlotIsOwed(op: Op)
      requires Valid({}) && op in ops
      ensures SlotOf(op) in Owed(timer, clients)
      ensures op.TimerReady? ==> timer
      ensures op.ReadReady? || op.WriteReady? ==> op.client in clients && op.client in conns && op == OpFor(op.client, conns[op.client])
      ensures op.ReadReady? ==> !conns[op.client].writeRegistered
    {
      hide Drained;
      var i :| 0 <= i < |ops| && ops[i] == op;
      assert SlotOf(ops[i]) in SlotsOf(ops);
      if op.ReadReady? || op.WriteReady? {
        var id := op.client;
        assert Client(id) in ClientSlots(clients);
        var j :| 0 <= j < |ops| && ops[j] == OpFor(id, conns[id]);
        assert SlotOf(ops[i]) == SlotOf(ops[j]);
      }
    }

    /** Rearms the listener or the timer. */
    method Rearm(op: Op) returns (ok: bool)
      requires (op == AcceptReady || (op == TimerReady && timer)) && Valid({SlotOf(op)})
      modifies this`ops, this`outstanding, this`kernel
      ensures ok ==> Valid({})
      ensures old(kernel) == [] ==> ok && kernel == []
    {
      hide Listed, Armed, Tracked;
      TrackedAdd(ops, Owed(timer, clients), {SlotOf(op)}, op, {});
      ArmedAdd(conns, ops, {SlotOf(op)}, op);
      NoClientMissing(SlotOf(op), op);
      ok := Submit(op);
    }

    lemma NoClientMissing(slot: Slot, op: Op)
      requires !slot.Client? && Armed(conns, [op] + ops, {slot})
      ensures Armed(conns, [op] + ops, {})
    {
    }

    /** Arms a client: for writing while responses are queued, for reading otherwise. */
    method RearmClient(id: ClientId) returns (ok: bool)
      requires id in conns && Valid({Client(id)}) && !conns[id].writeRegistered
      modifies this`ops, this`outstanding, this`kernel, this`conns
      ensures ok ==> Valid({})
      ensures old(kernel) == [] ==> ok && kernel == []
      ensures conns == old(conns)[id := old(conns[id]).(writeRegistered := ok && old(conns[id]).queued > 0)]
    {
      hide Listed, Armed, Tracked, Owed, Followed;
      var op := OpFor(id, conns[id]);
      FollowedUpdate(conns, heard, id, conns[id].(writeRegistered := conns[id].queued > 0));
      ListedDrained(clients, conns, nextId, id);
      ClientIsOwed(id);
      ArmOne(conns, ops, id);
      ListedUpdate(clients, conns, nextId, id, conns[id].(writeRegistered := conns[id].queued > 0));
      TrackedAdd(ops, Owed(timer, clients), {Client(id)}, op, {});
      assert conns[id := conns[id]] == conns;
      ok := Submit(op);
      if ok && op.WriteReady? {
        conns := conns[id := conns[id].(writeRegistered := true)];
      }
    }

    lemma ClientIsOwed(id: ClientId)
      requires id in clients
      ensures Client(id) in Owed(timer, clients)
    {
      var i :| 0 <= i < |clients| && clients[i] == id;
      assert Client(clients[i]) in ClientSlots(clients);
    }

    /** Takes a client out of the list, closes it and counts it. */
    method Unlist(id: ClientId)
      requires id in clients && DistinctIds(clients) && numClients == |clients|
      modifies this`clients, this`numClients, this`conns, this`disconnected
      ensures disconnected == OneMore(old(disconnected))
      ensures DistinctIds(clients) && ClientSlots(clients) == old(ClientSlots(clients)) - {Client(id)}
      ensures clients == ClientLists.Without(old(clients), id)
      ensures forall c :: c in clients <==> c in old(clients) && c != id
      ensures numClients == |clients| == old(numClients) - 1 && conns == old(conns) - {id}
    {
      var i := 0;
      while clients[i] != id
        invariant 0 <= i < |clients| && id !in clients[..i]
        decreases |clients| - i
      {
        i := i + 1;
      }
      IdsRemove(clients, i);
      ClientLists.WithoutAt(clients, id, i);
      clients := clients[..i] + clients[i + 1..];
      numClients := numClients - 1;
      conns := conns - {id};
      disconnected := OneMore(disconnected);
    }

    /** Drops a client whose operation has completed. */
    method DropClient(id: ClientId)
      requires id in conns && Valid({Client(id)})
      modifies this`clients, this`numClients, this`conns, this`disconnected
      ensures Valid({}) && id !in conns && SameButFor(id, conns, old(conns))
      ensures disconnected == OneMore(old(disconnected))
    {
      hide Drained, Tracked, Armed, Followed;
      DropKeeps(id);
      FollowedDrop(conns, heard, id);
      Unlist(id);
    }

    lemma DropKeeps(id: ClientId)
      requires id in conns && Valid({Client(id)})
      ensures forall owed :: owed == Owed(timer, clients) - {Client(id)} ==> Tracked(ops, owed, {})
      ensures Armed(conns - {id}, ops, {})
    {
      hide Listed;
    }

    // ---------- Completions ----------

    /** Lists a new client, not armed yet. */
    method Enlist() returns (id: ClientId)
      requires Valid({Listener}) && numClients < maxClients
      modifies this`clients, this`numClients, this`conns, this`nextId, this`heard
      ensures id == old(nextId) && nextId == id + 1 && heard == old(heard)[id := []] && Valid({Listener, Client(id)})
      ensures id !in old(conns) && conns == old(conns)[id := Conn([], 0, false)]
      ensures clients == old(clients) + [id] && numClients == |clients| && DistinctIds(clients)
      ensures numClients == old(numClients) + 1
      ensures DistinctSlots(ops) && Client(id) !in SlotsOf(ops)
    {
      hide Drained, Tracked, Armed, ClientSlots, Followed;
      id := nextId;
      NotYetOwed(id);
      IdsAdd(clients, id);
      EmptyIsDrained();
      EnlistKeeps(id);
      FollowedNew(conns, heard, id);
      nextId := nextId + 1;
      clients := clients + [id];
      conns := conns[id := Conn([], 0, false)];
      heard := heard[id := []];
      numClients := numClients + 1;
      assert forall c :: c in clients <==> c in old(clients) || c == id;
    }

    lemma EnlistKeeps(id: ClientId)
      requires Valid({Listener}) && Client(id) !in ClientSlots(clients)
      ensures forall owed :: owed == Owed(timer, clients) + {Client(id)} ==> Tracked(ops, owed, {Listener, Client(id)})
      ensures Armed(conns[id := Conn([], 0, false)], ops, {Listener, Client(id)})
      ensures DistinctSlots(ops) && Client(id) !in SlotsOf(ops)
    {
      hide Listed;
    }

    lemma NotYetOwed(id: ClientId)
      requires Valid({Listener}) && id == nextId
      ensures id !in clients && id !in conns && Client(id) !in ClientSlots(clients)
    {
    }

    /** Arms a client just listed for reading. */
    method ArmNew(id: ClientId) returns (ok: bool)
      requires id in conns && conns[id] == Conn([], 0, false) && Valid({Listener, Client(id)})
      requires DistinctSlots(ops) && Client(id) !in SlotsOf(ops)
      modifies this`ops, this`outstanding, this`kernel
      ensures ok ==> Valid({Listener})
      ensures old(kernel) == [] ==> ok && kernel == []
    {
      hide Listed, Armed, Tracked, Owed;
      ListedDrained(clients, conns, nextId, id);
      ClientIsOwed(id);
      TrackedAdd(ops, Owed(timer, clients), {Listener, Client(id)}, ReadReady(id), {Listener});
      ArmNewKeeps(id);
      ok := Submit(ReadReady(id));
    }

    lemma ArmNewKeeps(id: ClientId)
      requires id in conns && conns[id] == Conn([], 0, false) && Armed(conns, ops, {Listener, Client(id)})
      ensures Armed(conns, [ReadReady(id)] + ops, {Listener})
    {
      ArmedAdd(conns, ops, {Listener, Client(id)}, ReadReady(id));
      assert ([ReadReady(id)] + ops)[0] == ReadReady(id);
    }

    /** Admits one accepted connection and arms it for reading; a full server rejects and counts it. */
    method Admit(allocOk: bool, listOk: bool) returns (ok: bool)
      requires Valid({Listener})
      modifies this`ops, this`outstanding, this`kernel, this`clients, this`numClients, this`conns,
        this`disconnected, this`nextId, this`heard
      ensures ok ==> Valid({Listener})
      ensures old(kernel) == [] ==> ok && kernel == []
      ensures ok ==> clients == (if allocOk && listOk && old(numClients) < maxClients then old(clients) + [old(nextId)]
                                 else old(clients))
      ensures ok ==> Joined(old(conns), conns, old(heard), heard, old(nextId), nextId)
      ensures ok ==> disconnected == if old(numClients) < maxClients then old(disconnected) else OneMore(old(disconnected))
    {
      hide Dispatcher.Valid, SplitStream;
      if !(maxClients > 0 && numClients < maxClients) {
        disconnected := OneMore(disconnected);
        return true;
      }
      if !allocOk || !listOk {
        return true;
      }
      var id := Enlist();
      ok := ArmNew(id);
      if !ok {
        Unlist(id);
      }
    }

    /** The listener is ready: admits what can be accepted, then rearms the listener. */
    method HandleAccept(failed: bool, accepts: seq<Accepted>, signal: bool) returns (ok: bool)
      requires Valid({Listener})
      modifies this`ops, this`outstanding, this`kernel, this`clients, this`numClients, this`conns,
        this`disconnected, this`nextId, this`shutdown, this`heard
      ensures shutdown == (old(shutdown) || signal)
      ensures ok && !shutdown ==> Valid({})
      ensures ok ==> old(clients) <= clients && Joined(old(conns), conns, old(heard), heard, old(nextId), nextId)
      ensures ok ==> numClients == Min(old(numClients) + Welcome(accepts), maxClients)
      ensures failed && !old(shutdown) ==> !ok
      ensures old(kernel) == [] ==> kernel == [] && (ok || (failed && !old(shutdown)))
    {
      hide Dispatcher.Valid, SplitStream, Joined;
      JoinedNone(conns, heard, nextId);
      if failed && !shutdown {
        shutdown := signal;
        return false;
      }
      var left := accepts;
      while left != []
        invariant Valid({Listener}) && shutdown == old(shutdown)
        invariant old(kernel) == [] ==> kernel == []
        invariant old(clients) <= clients && Joined(old(conns), conns, old(heard), heard, old(nextId), nextId)
        invariant Min(numClients + Welcome(left), maxClients) == Min(old(numClients) + Welcome(accepts), maxClients)
        decreases |left|
      {
        var a := left[0];
        left := left[1..];
        match a {
          case NoneLeft => break;
          case AcceptInterrupted =>
          case Incoming(allocOk, listOk) =>
            ghost var conns1, heard1, next1 := conns, heard, nextId;
            ok := Admit(allocOk, listOk);
            if !ok {
              shutdown := shutdown || signal;
              return false;
            }
            JoinedChain(old(conns), conns1, conns, old(heard), heard1, heard, old(nextId), next1, nextId);
        }
      }
      shutdown := shutdown || signal;
      if shutdown {
        return true;
      }
      ok := Rearm(AcceptReady);
    }

    /** The timer fired: its expirations are swept, and the timer is rearmed. */
    method HandleTimer(failed: bool, signal: bool) returns (ok: bool)
      requires Valid({Timer}) && timer
      modifies this`ops, this`outstanding, this`kernel, this`shutdown
      ensures shutdown == (old(shutdown) || signal)
      ensures ok && !shutdown ==> Valid({})
      ensures failed && !old(shutdown) ==> !ok
      ensures old(kernel) == [] ==> kernel == [] && (ok || (failed && !old(shutdown)))
    {
      hide Dispatcher.Valid;
      if failed && !shutdown {
        shutdown := shutdown || signal;
        return false;
      }
      shutdown := shutdown || signal;
      if shutdown {
        return true;
      }
      ok := Rearm(TimerReady);
    }

    /** Serves what one chunk completes; false when the client must be dropped. */
    method TakeChunk(id: ClientId, bytes: Bytes, writeOk: bool, queued: nat) returns (keep: bool)
      requires id in conns && id in heard && Valid({Client(id)}) && !conns[id].writeRegistered
      modifies this`conns, this`heard
      ensures id in conns && Valid({Client(id)}) && SameButFor(id, conns, old(conns))
      ensures heard == if keep then old(heard)[id := old(heard[id]) + bytes] else old(heard)
      ensures var split := SplitStream(old(conns[id]).input + bytes);
              keep == (!split.oversize && writeOk) &&
              conns[id] == if keep then old(conns[id]).(input := split.rest, queued := queued) else old(conns[id])
    {
      hide SplitStream, Armed, Tracked, Listed, Drained, Followed;
      var conn := conns[id];
      var split := SplitStream(conn.input + bytes);
      if split.oversize || !writeOk {
        return false;
      }
      var after := conn.(input := split.rest, queued := queued);
      RestIsDrained(conn.input + bytes);
      ListedUpdate(clients, conns, nextId, id, after);
      ArmedUpdate(conns, ops, id, after);
      FollowedMore(conns, heard, id, bytes, after);
      conns := conns[id := after];
      heard := heard[id := heard[id] + bytes];
      return true;
    }

    static lemma Regroup(a: Bytes, b: Bytes, c: Bytes)
      ensures a + (b + c) == (a + b) + c && a + b + [] == a + b
    {
    }

    /** Notes bytes taken from a client that was dropped for them. */
    ghost method Note(id: ClientId, bytes: Bytes)
      requires Valid({}) && id !in conns && id in heard
      modifies this`heard
      ensures Valid({}) && heard == old(heard)[id := old(heard[id]) + bytes]
    {
      hide SplitStream, Armed, Tracked, Listed;
      heard := heard[id := heard[id] + bytes];
    }

    lemma IsHeard(id: ClientId)
      requires id in conns && Valid({Client(id)})
      ensures id in heard && !SplitStream(heard[id]).oversize && conns[id].input == SplitStream(heard[id]).rest
      ensures Drained(conns[id].input)
    {
      hide SplitStream, Armed, Tracked, Drained;
    }

    /** A client is readable: reads until it would block, serving frames, then arms it again; or
        drops it. Its buffer always has room for the next read. */
    method HandleRead(id: ClientId, failed: bool, recvs: seq<Received>) returns (ok: bool)
      requires id in conns && id in heard && Valid({Client(id)}) && !conns[id].writeRegistered
      modifies this`ops, this`outstanding, this`kernel, this`clients, this`numClients, this`conns, this`disconnected, this`heard
      ensures ok ==> Valid({})
      ensures old(kernel) == [] ==> ok && kernel == []
      ensures SameButFor(id, conns, old(conns))
      ensures disconnected == if id in conns then old(disconnected) else OneMore(old(disconnected))
      ensures heard == old(heard)[id := old(heard[id]) + if failed then [] else Taken(old(conns[id]).input, recvs)]
      ensures var after := if failed then None else AfterRead(old(conns[id]), recvs);
              (id in conns <==> after.Some?) &&
              (id in conns ==> conns[id].(writeRegistered := false) == after.value)
    {
      hide Dispatcher.Valid, Drained, SplitStream, AfterRead, Taken, Fitting, SameButFor, OneMore;
      SameUpdate(id, conns, conns[id]);
      if failed {
        assert heard[id] + [] == heard[id];
        DropClient(id);
        return true;
      }
      var left := recvs;
      while true
        invariant id in conns && id in heard && Valid({Client(id)}) && !conns[id].writeRegistered
        invariant SameButFor(id, conns, old(conns)) && disconnected == old(disconnected)
        invariant old(kernel) == [] ==> kernel == []
        invariant AfterRead(conns[id], left) == AfterRead(old(conns[id]), recvs)
        invariant heard == old(heard)[id := heard[id]]
        invariant heard[id] + Taken(conns[id].input, left) == old(heard[id]) + Taken(old(conns[id]).input, recvs)
        decreases |left|
      {
        RoomToRead(id);
        ReadStep(conns[id], left);
        ghost var now := conns;
        assert heard[id] + [] == heard[id];
        var r := if left == [] then RecvAgain else left[0];
        match r {
          case Chunk(bytes, writeOk, queued) =>
            var b := Fitting(conns[id].input, bytes);
            if bytes == [] {
              DropClient(id);
              SameChain(id, conns, now, old(conns));
              return true;
            }
            ghost var split := SplitStream(conns[id].input + b);
            Regroup(heard[id], b, if split.oversize || !writeOk then [] else Taken(split.rest, left[1..]));
            var keep := TakeChunk(id, b, writeOk, queued);
            SameChain(id, conns, now, old(conns));
            if !keep {
              now := conns;
              DropClient(id);
              SameChain(id, conns, now, old(conns));
              Note(id, b);
              return true;
            }
          case Eof =>
            DropClient(id);
            SameChain(id, conns, now, old(conns));
            return true;
          case RecvInterrupted =>
          case RecvAgain =>
            ok := RearmClient(id);
            SameUpdate(id, now, conns[id]);
            SameChain(id, conns, now, old(conns));
            return;
          case RecvBroken =>
            DropClient(id);
            SameChain(id, conns, now, old(conns));
            return true;
        }
        left := left[1..];
      }
    }

    /** The drop for a full buffer is never reached. */
    lemma RoomToRead(id: ClientId)
      requires id in conns && Valid({Client(id)})
      ensures |conns[id].input| < BUFFER_SIZE
    {
    }

    /** Clears the write interest and stores what flushing left queued. */
    method AfterFlush(id: ClientId, remaining: nat)
      requires id in conns && Valid({Client(id)})
      modifies this`conns
      ensures id in conns && Valid({Client(id)}) && SameButFor(id, conns, old(conns))
      ensures conns[id] == old(conns[id]).(writeRegistered := false, queued := Min(remaining, old(conns[id]).queued))
    {
      hide Armed, Tracked, Listed, Followed;
      var conn := conns[id].(writeRegistered := false, queued := Min(remaining, conns[id].queued));
      ListedDrained(clients, conns, nextId, id);
      ListedUpdate(clients, conns, nextId, id, conn);
      ArmedUpdate(conns, ops, id, conn);
      FollowedUpdate(conns, heard, id, conn);
      conns := conns[id := conn];
    }

    /** A client is writable: flushes its responses, then arms it for whichever it needs. */
    method HandleWrite(id: ClientId, failed: bool, flush: Flushed) returns (ok: bool)
      requires id in conns && Valid({Client(id)})
      modifies this`ops, this`outstanding, this`kernel, this`clients, this`numClients, this`conns, this`disconnected
      ensures ok ==> Valid({})
      ensures old(kernel) == [] ==> ok && kernel == []
      ensures SameButFor(id, conns, old(conns))
      ensures disconnected == if id in conns then old(disconnected) else OneMore(old(disconnected))
      ensures id in conns <==> !failed && flush.ok
      ensures id in conns ==> conns[id].queued == Min(flush.remaining, old(conns[id]).queued)
                              && conns[id].input == old(conns[id]).input
    {
      hide Dispatcher.Valid, Drained;
      if failed || !flush.ok {
        DropClient(id);
        return true;
      }
      AfterFlush(id, flush.remaining);
      ok := RearmClient(id);
    }

    /** Dispatches the completion of the i-th outstanding operation. A read or write completion keeps or
        drops the client it names, as its answers say, and no other; a timer completion concerns no
        client; an accept completion only adds clients. */
    method HandleCqe(i: nat, c: Completion) returns (ok: bool)
      requires Valid({}) && Accounted() && i < |ops| && !shutdown
      modifies this
      ensures shutdown == c.signal && handled == old(handled) + [(old(ops)[i], c)]
      ensures ok && !shutdown ==> Valid({})
      ensures ok ==> Accounted()
      ensures old(ops)[i] == AcceptReady && ok ==>
                && old(clients) <= clients && Joined(old(conns), conns, old(heard), heard, old(nextId), nextId)
                && numClients == Min(old(numClients) + Welcome(c.accepts), maxClients)
      ensures old(ops)[i] == TimerReady ==>
                && clients == old(clients) && conns == old(conns) && heard == old(heard)
                && nextId == old(nextId) && disconnected == old(disconnected)
      ensures forall id :: old(ops)[i] == ReadReady(id) || old(ops)[i] == WriteReady(id) ==>
                && id in old(conns) && id in old(heard) && id in heard
                && SameButFor(id, conns, old(conns)) && heard == old(heard)[id := heard[id]] && nextId == old(nextId)
                && disconnected == if id in conns then old(disconnected) else OneMore(old(disconnected))
      ensures forall id :: old(ops)[i] == ReadReady(id) ==>
                ReadDone(id, c, old(conns)[id], conns, old(heard)[id], heard[id])
      ensures forall id :: old(ops)[i] == WriteReady(id) ==>
                && heard == old(heard) && (id in conns <==> !c.failed && c.flush.ok)
                && (id in conns ==> conns[id].input == old(conns)[id].input
                                    && conns[id].queued == Min(c.flush.remaining, old(conns)[id].queued))
      ensures old(kernel) == [] ==> kernel == [] && (ok <==> !c.failed || (old(ops)[i] != AcceptReady && old(ops)[i] != TimerReady))
    {
      hide Dispatcher.Valid, AllAccounted, ReadDone, SplitStream, Quits, SameButFor, Joined, OneMore, Drained;
      JoinedNone(conns, heard, nextId);
      ghost var h := (ops[i], c);
      var op := Untrack(i);
      match op {
        case AcceptReady =>
          ok := HandleAccept(c.failed, c.accepts, c.signal);
          if ok {
            AccountOthers(old(conns), conns, old(nextId), nextId, old(heard), heard, handled, h);
          }
        case TimerReady =>
          ok := HandleTimer(c.failed, c.signal);
          AccountOthers(old(conns), conns, old(nextId), nextId, old(heard), heard, handled, h);
        case ReadReady(id) =>
          IsHeard(id);
          ok := CompleteRead(id, c);
        case WriteReady(id) =>
          IsHeard(id);
          ok := CompleteWrite(id, c);
      }
      handled := handled + [h];
    }

    /** A read completed: what it leaves of the client, and the account for it. */
    method CompleteRead(id: ClientId, c: Completion) returns (ok: bool)
      requires id in conns && id in heard && Valid({Client(id)}) && !conns[id].writeRegistered && Accounted()
      modifies this`ops, this`outstanding, this`kernel, this`clients, this`numClients, this`conns, this`disconnected, this`heard,
        this`shutdown
      ensures shutdown == c.signal && (ok ==> Valid({}))
      ensures old(kernel) == [] ==> ok && kernel == []
      ensures id in heard && SameButFor(id, conns, old(conns)) && heard == old(heard)[id := heard[id]]
      ensures disconnected == if id in conns then old(disconnected) else OneMore(old(disconnected))
      ensures ReadDone(id, c, old(conns)[id], conns, old(heard)[id], heard[id])
      ensures AllAccounted(conns, nextId, heard, handled + [(ReadReady(id), c)])
    {
      hide Dispatcher.Valid, AllAccounted, ReadDone, SplitStream, Quits, SameButFor, Drained, Departs;
      IsHeard(id);
      ok := HandleRead(id, c.failed, c.recvs);
      shutdown := c.signal;
      ReadMeans(id, c, old(conns)[id], conns, old(heard)[id], heard[id]);
      KeptIffStays(id, c, old(conns)[id], conns, old(heard)[id], heard[id]);
      AccountClient(old(conns), conns, nextId, old(heard), heard, handled, (ReadReady(id), c), id);
    }

    method CompleteWrite(id: ClientId, c: Completion) returns (ok: bool)
      requires id in conns && id in heard && Valid({Client(id)}) && Accounted()
      modifies this`ops, this`outstanding, this`kernel, this`clients, this`numClients, this`conns, this`disconnected, this`shutdown
      ensures shutdown == c.signal && (ok ==> Valid({}))
      ensures old(kernel) == [] ==> ok && kernel == []
      ensures SameButFor(id, conns, old(conns)) && heard == heard[id := heard[id]]
      ensures disconnected == if id in conns then old(disconnected) else OneMore(old(disconnected))
      ensures id in conns <==> !c.failed && c.flush.ok
      ensures id in conns ==> conns[id].input == old(conns)[id].input
                              && conns[id].queued == Min(c.flush.remaining, old(conns)[id].queued)
      ensures AllAccounted(conns, nextId, heard, handled + [(WriteReady(id), c)])
    {
      hide Dispatcher.Valid, AllAccounted, SplitStream, Quits, SameButFor;
      IsHeard(id);
      ok := HandleWrite(id, c.failed, c.flush);
      shutdown := c.signal;
      assert heard == heard[id := heard[id]];
      AccountClient(old(conns), conns, nextId, old(heard), heard, handled, (WriteReady(id), c), id);
    }

    lemma KeptIffStays(id: ClientId, c: Completion, conn: Conn, kept: map<ClientId, Conn>, before: Bytes, after: Bytes)
      requires ReadDone(id, c, conn, kept, before, after)
      ensures id in kept <==> !SplitStream(after).oversize && !Departs((ReadReady(id), c), id)
    {
      hide SplitStream, Quits, WithinRoom;
    }

    /** Arms the listener, and the timer if there is one, before the loop. */
    method Start() returns (ok: bool)
      requires Valid({Listener, Timer}) && ops == [] && clients == []
      modifies this`ops, this`outstanding, this`kernel
      ensures ok ==> Valid({}) && ops == if timer then [TimerReady, AcceptReady] else [AcceptReady]
      ensures old(kernel) == [] ==> ok && kernel == []
    {
      hide Drained;
      SlotsAdd([], AcceptReady);
      ok := Submit(AcceptReady);
      if ok && timer {
        SlotsAdd(ops, TimerReady);
        ok := Submit(TimerReady);
      }
    }

    /** The loop: waits for any outstanding operation to complete, until told to stop or a handler
        gives up. At every loop head the operations outstanding are exactly those owed, and a client
        has left exactly by the end of its stream, an error, a failed write or a frame too large. */
    method Run(wakeups: seq<Wakeup>) returns (status: bool)
      requires Valid({}) && Accounted() && !shutdown
      modifies this
      ensures status && !shutdown ==> Valid({}) && InOrder()
      ensures status ==> Accounted()
      ensures old(handled) <= handled
      ensures status && !shutdown ==> Answers(handled[|old(handled)|..]) == CompletionsIn(wakeups)
      ensures old(kernel) == [] && Smooth(wakeups) ==> status && !shutdown
    {
      hide Dispatcher.Valid, InOrder, AllAccounted, ReadDone, SplitStream, Answers, Joined, SameButFor, OneMore, Welcome;
      status := true;
      var left := wakeups;
      Consequences();
      assert handled[|old(handled)|..] == [];
      NoAnswers();
      while !shutdown && left != []
        invariant !shutdown ==> Valid({}) && InOrder()
        invariant Accounted() && old(handled) <= handled && status
        invariant Answers(handled[|old(handled)|..]) + CompletionsIn(left) == CompletionsIn(wakeups)
        invariant old(kernel) == [] && Smooth(wakeups) ==> kernel == [] && !shutdown && Smooth(left)
        decreases |left|
      {
        var w := left[0];
        assert w in left && forall x :: x in left[1..] ==> x in left;
        left := left[1..];
        match w {
          case WaitFailed =>
            status := false;
            break;
          case Interrupted(signal) =>
            shutdown := signal;
          case Completed(i, c) =>
            ghost var since := handled[|old(handled)|..];
            status := Dispatch(i, c);
            NextAnswer(since, handled[|handled| - 1]);
            assert handled[|old(handled)|..] == since + [handled[|handled| - 1]];
            if !status {
              break;
            }
        }
        if !shutdown {
          Consequences();
        }
      }
    }

    /** Handles the completion of any of the outstanding operations. */
    method Dispatch(i: nat, c: Completion) returns (ok: bool)
      requires Valid({}) && InOrder() && Accounted() && !shutdown
      modifies this
      ensures shutdown == c.signal && (ok && !shutdown ==> Valid({})) && (ok ==> Accounted())
      ensures |handled| == |old(handled)| + 1 && old(handled) <= handled
      ensures handled[|old(handled)|].0 in old(ops) && handled[|old(handled)|].1 == c
      ensures old(kernel) == [] && !c.failed ==> ok && kernel == []
    {
      hide Dispatcher.Valid, InOrder, AllAccounted, ReadDone, SplitStream, Joined, SameButFor;
      SomeOutstanding();
      ok := HandleCqe(i % |ops|, c);
    }

    lemma SomeOutstanding()
      requires InOrder()
      ensures |ops| > 0
    {
    }
  }

  /** What the system calls answered for the completions handled. */
  function Answers(handled: seq<Handled>): seq<Completion> {
    seq(|handled|, n requires 0 <= n < |handled| => handled[n].1)
  }

  lemma NoAnswers()
    ensures Answers([]) == []
  {
  }

  lemma NextAnswer(handled: seq<Handled>, h: Handled)
    ensures Answers(handled + [h]) == Answers(handled) + [h.1]
  {
  }

  function CompletionsIn(wakeups: seq<Wakeup>): seq<Completion>
    decreases wakeups
  {
    if wakeups == [] then []
    else (if wakeups[0].Completed? then [wakeups[0].completion] else []) + CompletionsIn(wakeups[1..])
  }

  /** Nothing fails, and no signal asks the loop to stop. */
  predicate Smooth(wakeups: seq<Wakeup>) {
    forall w :: w in wakeups ==>
      match w
      case Interrupted(signal) => !signal
      case WaitFailed => false
      case Completed(_, c) => !c.failed && !c.signal
  }

  /** With a timer, a server that fills up has more operations outstanding than the queue is deep,
      exactly when it admits more clients than DEEPEST. */
  method FillToCapacity(max: nat) returns (d: Dispatcher)
    requires max > 0
    ensures fresh(d) && d.Valid({}) && d.InOrder() && d.timer && d.maxClients == max
    ensures d.outstanding == max + 2
    ensures d.outstanding < QueueDepth(max) <==> max <= DEEPEST
  {
    hide Dispatcher.Valid, AllAccounted, SplitStream;
    d := new Dispatcher(max, true, []);
    var ok := d.Start();
    var rush := seq(max, i => Incoming(true, true));
    AllWelcome(max);
    ok := d.HandleCqe(1, Completion(false, false, rush, [], Flushed(true, 0)));
    d.Consequences();
  }
}
