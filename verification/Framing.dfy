/** Splitting a byte stream into length-prefixed frames, however it is cut into reads. */
module Framing {
  import opened Common
  import opened Protocol

  const BUFFER_SIZE: nat := 65536

  /** The complete frames of a stream, the bytes left over, and whether they start with the
      header of a frame that no buffer can hold. */
  datatype Split = Split(frames: seq<Bytes>, rest: Bytes, oversize: bool)

  function FrameLength(s: Bytes): nat
    requires |s| >= 2
  {
    2 + ReadU16(s, 0)
  }

  function SplitStream(s: Bytes): (r: Split)
    ensures |r.rest| <= |s|
    ensures !r.oversize ==> |r.rest| < BUFFER_SIZE
    decreases |s|
  {
    if |s| < 2 then Split([], s, false)
    else if FrameLength(s) > BUFFER_SIZE then Split([], s, true)
    else if |s| < FrameLength(s) then Split([], s, false)
    else
      var n := FrameLength(s);
      var r := SplitStream(s[n..]);
      r.(frames := [s[..n]] + r.frames)
  }

  lemma SplitOne(s: Bytes)
    requires |s| >= 2 && FrameLength(s) <= BUFFER_SIZE && FrameLength(s) <= |s|
    ensures var n := FrameLength(s); var r := SplitStream(s[n..]);
            SplitStream(s) == r.(frames := [s[..n]] + r.frames)
  {
  }

  lemma NotOversize(s: Bytes)
    requires !SplitStream(s).oversize
    ensures |s| >= 2 ==> FrameLength(s) <= BUFFER_SIZE
    ensures |s| < 2 || |s| < FrameLength(s) ==> SplitStream(s) == Split([], s, false)
  {
  }

  /** Splitting can stop anywhere and go on with what was left over: the frames of a stream do not
      depend on how it is cut, up to the first oversize header. */
  lemma {:induction false} SplitResumes(a: Bytes, b: Bytes)
    requires !SplitStream(a).oversize
    ensures var r := SplitStream(a); var r' := SplitStream(r.rest + b);
            SplitStream(a + b) == r'.(frames := r.frames + r'.frames)
    decreases |a|
  {
    hide SplitStream;
    NotOversize(a);
    if |a| >= 2 && |a| >= FrameLength(a) {
      var n := FrameLength(a);
      assert FrameLength(a + b) == n;
      assert (a + b)[n..] == a[n..] + b && (a + b)[..n] == a[..n];
      SplitOne(a);
      SplitResumes(a[n..], b);
      SplitOne(a + b);
      var r := SplitStream(a[n..]);
      var r' := SplitStream(r.rest + b);
      assert [a[..n]] + (r.frames + r'.frames) == ([a[..n]] + r.frames) + r'.frames;
    } else {
      var r' := SplitStream(a + b);
      assert [] + r'.frames == r'.frames;
    }
  }

  /** An oversize header stops the split for good. */
  lemma {:induction false} OversizeStays(a: Bytes, b: Bytes)
    requires SplitStream(a).oversize
    ensures SplitStream(a + b).oversize && SplitStream(a + b).frames == SplitStream(a).frames
    decreases |a|
  {
    assert FrameLength(a + b) == FrameLength(a);
    if FrameLength(a) <= BUFFER_SIZE {
      var n := FrameLength(a);
      assert (a + b)[n..] == a[n..] + b && (a + b)[..n] == a[..n];
      SplitOne(a);
      OversizeStays(a[n..], b);
      SplitOne(a + b);
    }
  }

  function Concat(parts: seq<Bytes>): Bytes {
    if parts == [] then [] else Concat(parts[..|parts| - 1]) + parts[|parts| - 1]
  }

  lemma ConcatSnoc(parts: seq<Bytes>, p: Bytes)
    ensures Concat(parts + [p]) == Concat(parts) + p
  {
    assert (parts + [p])[..|parts|] == parts;
  }

  lemma {:induction false} ConcatFront(p: Bytes, parts: seq<Bytes>)
    ensures Concat([p] + parts) == p + Concat(parts)
    decreases parts
  {
    if parts == [] {
      assert [p] + parts == [] + [p];
      ConcatSnoc([], p);
    } else {
      var l, q := parts[..|parts| - 1], parts[|parts| - 1];
      assert [p] + parts == ([p] + l) + [q];
      ConcatSnoc([p] + l, q);
      ConcatFront(p, l);
    }
  }

  /** Nothing is lost or invented: the frames and the rest are the stream. */
  lemma {:induction false} SplitIsComplete(s: Bytes)
    ensures Concat(SplitStream(s).frames) + SplitStream(s).rest == s
    decreases |s|
  {
    if |s| >= 2 && FrameLength(s) <= BUFFER_SIZE && FrameLength(s) <= |s| {
      var n := FrameLength(s);
      SplitOne(s);
      SplitIsComplete(s[n..]);
      ConcatFront(s[..n], SplitStream(s[n..]).frames);
    }
  }

  /** A request from a builder is one frame of the stream exactly when its core is short of the
      largest length a prefix can announce. */
  lemma BuiltFrameSplits(r: Request, more: Bytes)
    requires Sendable(r)
    ensures var f := Frame(RequestCore(r)); var s := SplitStream(f + more);
            if |RequestCore(r)| < MAX_U16 then s == SplitStream(more).(frames := [f] + SplitStream(more).frames)
            else s.oversize && s.frames == []
  {
    FrameHead(r);
    var f := Frame(RequestCore(r));
    assert ReadU16(f + more, 0) == ReadU16(f, 0);
    if |RequestCore(r)| < MAX_U16 {
      assert (f + more)[|f|..] == more && (f + more)[..|f|] == f;
      SplitOne(f + more);
    }
  }

  /** The largest PING that can be built is refused as too large. */
  lemma LargestPingRefused()
    ensures var r := Ping(seq(MAX_U16 - 3, _ => 0));
            Sendable(r) && |RequestCore(r)| == MAX_U16 && SplitStream(Frame(RequestCore(r))).oversize
  {
    var r := Ping(seq(MAX_U16 - 3, _ => 0));
    LastField(r.payload);
    assert RequestFields(r) == [r.payload];
    BuiltFrameSplits(r, []);
    assert Frame(RequestCore(r)) + [] == Frame(RequestCore(r));
  }
}
