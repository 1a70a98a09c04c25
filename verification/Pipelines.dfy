/** The client side of a pipeline: counting response frames as their bytes come in. */
module Pipelines {
  import opened Common
  import opened Buffers
  import opened Framing
  import opened Responses

  /** The frames of a split from the n-th on. */
  function After(split: Split, n: nat): Split
    requires n <= |split.frames|
  {
    split.(frames := split.frames[n..])
  }

  lemma AfterNone(split: Split)
    ensures After(split, 0) == split
  {
  }

  /** Taking the first frame off a stream takes the first frame off its split. */
  lemma TakeFrame(all: Split, got: nat, s: Bytes, n: nat)
    requires got <= |all.frames| && SplitStream(s) == After(all, got)
    requires 2 <= n <= |s| && n == FrameLength(s) <= BUFFER_SIZE
    ensures got < |all.frames| && all.frames[got] == s[..n] && SplitStream(s[n..]) == After(all, got + 1)
    ensures all.frames[..got + 1] == all.frames[..got] + [s[..n]]
  {
    hide SplitStream, FrameLength;
    SplitOne(s);
    assert all.frames[got..][0] == s[..n] && all.frames[got..][1..] == all.frames[got + 1..];
    assert SplitStream(s[n..]).frames == SplitStream(s).frames[1..];
  }

  lemma HeaderStays(a: Bytes, b: Bytes)
    requires |a| >= 2
    ensures FrameLength(a + b) == FrameLength(a)
  {
  }

  lemma NoFrameLeft(s: Bytes)
    requires |s| < 2 || FrameLength(s) > BUFFER_SIZE || |s| < FrameLength(s)
    ensures SplitStream(s).frames == [] && SplitStream(s).oversize == (|s| >= 2 && FrameLength(s) > BUFFER_SIZE)
  {
  }

  class Receiver {
    const buffer: array<byte>
    var used: nat
    /** Length of the frame at the front of the buffer, or -1 while it is unknown. */
    var need: int
    /** The bytes still to come, and how many of them each recv may deliver; 0 stands for an error
        or a timeout, and so does the end of the list. */
    var stream: Bytes
    var sizes: seq<nat>

    ghost predicate Valid()
      reads this, buffer
    {
      && buffer.Length == BUFFER_SIZE && used <= BUFFER_SIZE
      && (need == -1 || (used >= 2 && need == FrameLength(buffer[..used]) <= BUFFER_SIZE))
    }

    /** Every byte not consumed yet. */
    ghost function Pending(): Bytes
      requires used <= buffer.Length
      reads this, buffer
    {
      buffer[..used] + stream
    }

    constructor (stream: Bytes, sizes: seq<nat>)
      ensures Valid() && fresh(buffer) && this.stream == stream && this.sizes == sizes && Pending() == stream
    {
      buffer := new byte[BUFFER_SIZE](_ => 0);
      used, need := 0, -1;
      this.stream, this.sizes := stream, sizes;
      new;
      assert buffer[..0] + stream == stream;
    }

    /** Drops the complete frame at the front. */
    method Consume()
      requires Valid() && 2 <= need <= used
      modifies this`used, this`need, buffer
      ensures Valid() && used == old(used - need)
      ensures 2 <= old(need) <= |old(Pending())| && Pending() == old(Pending())[old(need)..]
    {
      var n, remain := need, used - need;
      if remain > 0 {
        ShiftToFront(buffer, n, remain);
      }
      used := remain;
      need := -1;
      assert buffer[..used] == old(buffer[need..used]);
    }

    /** Reads more bytes behind the ones buffered; false on an error or a timeout. */
    method Fill() returns (ok: bool)
      requires Valid() && used < BUFFER_SIZE
      modifies this`used, this`stream, this`sizes, buffer
      ensures Valid() && Pending() == old(Pending())
      ensures ok == (old(sizes) != [] && old(sizes)[0] > 0 && old(stream) != [])
      ensures ok ==> sizes == old(sizes)[1..] && |stream| < |old(stream)|
      ensures forall n :: n in sizes ==> n in old(sizes)
      ensures !ok ==> stream == old(stream) && used == old(used) && buffer[..used] == old(buffer[..used])
    {
      if sizes == [] {
        return false;
      }
      var space := BUFFER_SIZE - used;
      var n := Min(Min(sizes[0], space), |stream|);
      sizes := sizes[1..];
      if n == 0 {
        return false;
      }
      ghost var was := buffer[..used];
      Write(buffer, used, stream[..n]);
      assert was + stream == buffer[..used + n] + stream[n..];
      if used >= 2 {
        HeaderStays(was, stream[..n]);
      }
      used := used + n;
      stream := stream[n..];
      return true;
    }

    /** Learns the length of the frame at the front; false when no buffer can hold it. */
    method Measure() returns (ok: bool)
      requires Valid() && used >= 2
      modifies this`need
      ensures ok == (FrameLength(Pending()) <= BUFFER_SIZE)
      ensures ok ==> Valid() && 2 <= need == FrameLength(Pending())
    {
      HeaderStays(buffer[..used], stream);
      if need < 0 {
        need := 2 + (256 * (buffer[0] as int) + buffer[1] as int);
        if need > BUFFER_SIZE {
          return false;
        }
      }
      return true;
    }

    /** Consumes complete frames of the buffer, up to count; lost when the next one is too large. */
    method Parse(count: nat, ghost all: Split, ghost start: nat) returns (got: nat, lost: bool)
      requires Valid() && start <= |all.frames| && SplitStream(Pending()) == After(all, start)
      modifies this`used, this`need, buffer
      ensures got <= count && start + got <= |all.frames|
      ensures lost ==> got < count && start + got == |all.frames| && all.oversize && used == 0 && need == -1
      ensures !lost ==> Valid() && SplitStream(Pending()) == After(all, start + got)
      ensures !lost && got < count ==>
                used < BUFFER_SIZE && (used < 2 || (FrameLength(Pending()) <= BUFFER_SIZE && used < FrameLength(Pending())))
    {
      hide SplitStream, FrameLength, After;
      got, lost := 0, false;
      while got < count && used >= 2
        invariant Valid() && got <= count && start + got <= |all.frames|
        invariant SplitStream(Pending()) == After(all, start + got)
        decreases used
      {
        var ok := Measure();
        if !ok {
          NoFrameLeft(Pending());
          EmptyAfter(all, start + got);
          used, need := 0, -1;
          return got, true;
        }
        if used < need {
          return;
        }
        TakeFrame(all, start + got, Pending(), need);
        Consume();
        got := got + 1;
      }
    }

    /** Receives up to count response frames. Whatever the sizes of the reads, the frames received
        are the first ones of the stream; fewer than count come only when a header announces a frame
        too large, or a read fails and no frame is complete in the buffer; and none is missed while
        reads keep delivering. */
    method ReceiveResponses(count: nat) returns (got: nat, lost: bool)
      requires Valid()
      modifies this, buffer
      ensures var all := SplitStream(old(Pending()));
              && got <= count && got <= |all.frames|
              && (lost ==> got < count && got == |all.frames| && all.oversize && used == 0 && need == -1)
              && (!lost ==> Valid() && SplitStream(Pending()) == After(all, got))
              && (!lost && got < count ==> SplitStream(buffer[..used]).frames == [])
              && (Delivering(old(sizes)) && |old(sizes)| >= |old(stream)| ==> got == Min(count, |all.frames|))
    {
      hide SplitStream, FrameLength, After;
      ghost var all := SplitStream(Pending());
      AfterNone(all);
      got, lost := 0, false;
      while got < count
        invariant Valid() && got <= count && got <= |all.frames| && SplitStream(Pending()) == After(all, got)
        invariant Delivering(old(sizes)) ==> Delivering(sizes)
        invariant |old(sizes)| >= |old(stream)| ==> |sizes| >= |stream|
        decreases |stream|, count - got
      {
        var n;
        n, lost := Parse(count - got, all, got);
        got := got + n;
        if lost {
          return;
        }
        if got >= count {
          break;
        }
        Stopped(all, got);
        assert sizes != [] ==> sizes[0] in sizes;
        var ok := Fill();
        if !ok {
          return;
        }
      }
    }

    lemma Stopped(all: Split, got: nat)
      requires Valid() && got <= |all.frames| && SplitStream(Pending()) == After(all, got)
      requires used < 2 || used < FrameLength(Pending())
      ensures stream == [] ==> got == |all.frames|
      ensures SplitStream(buffer[..used]).frames == []
    {
      hide SplitStream;
      if used >= 2 {
        HeaderStays(buffer[..used], stream);
      }
      NoFrameLeft(buffer[..used]);
      if stream == [] {
        NoFrameLeft(Pending());
      }
    }
  }

  lemma EmptyAfter(all: Split, n: nat)
    requires n <= |all.frames| && After(all, n).frames == []
    ensures n == |all.frames| && all.oversize == After(all, n).oversize
  {
  }

  ghost predicate Delivering(sizes: seq<nat>) {
    forall n :: n in sizes ==> n > 0
  }

  // ---------- The server's responses as a stream ----------

  function ResponseStream(rs: seq<Response>): Bytes {
    if rs == [] then [] else EncodeResponse(rs[0]) + ResponseStream(rs[1..])
  }

  function ResponseFrames(rs: seq<Response>): seq<Bytes> {
    seq(|rs|, i requires 0 <= i < |rs| => EncodeResponse(rs[i]))
  }

  predicate Receivable(r: Response) {
    |EncodeResponse(r)| <= BUFFER_SIZE
  }

  lemma EmptyStream()
    ensures SplitStream(ResponseStream([])) == Split([], [], false) && ResponseFrames([]) == []
  {
  }

  lemma FrameOfResponse(r: Response)
    ensures FrameLength(EncodeResponse(r)) == |EncodeResponse(r)|
  {
    hide EncodeResponse;
    ResponseFrameLength(r);
  }

  /** The client sees one frame per response, unless one is too large for its buffer. */
  lemma {:induction false} ResponsesSplit(rs: seq<Response>)
    ensures (forall i :: 0 <= i < |rs| ==> Receivable(rs[i])) <==> !SplitStream(ResponseStream(rs)).oversize
    ensures (forall i :: 0 <= i < |rs| ==> Receivable(rs[i])) ==>
              SplitStream(ResponseStream(rs)) == Split(ResponseFrames(rs), [], false)
  {
    hide EncodeResponse, SplitStream, FrameLength;
    if rs == [] {
      EmptyStream();
    } else {
      var f, more := EncodeResponse(rs[0]), ResponseStream(rs[1..]);
      FrameOfResponse(rs[0]);
      HeaderStays(f, more);
      ResponsesSplit(rs[1..]);
      if Receivable(rs[0]) {
        SplitOne(f + more);
        assert (f + more)[..|f|] == f && (f + more)[|f|..] == more;
        assert ResponseFrames(rs) == [f] + ResponseFrames(rs[1..]);
      } else {
        NoFrameLeft(f + more);
      }
    }
  }
}
