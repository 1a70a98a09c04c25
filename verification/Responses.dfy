/** Response frames: how the server writes them and how the client reads them back. */
module Responses {
  import opened Common
  import opened Protocol

  const STATUS_SUCCESS: byte := 1
  const STATUS_FAILURE: byte := 0

  datatype Response =
    | Okay
    | Failure
    | Value(bytes: Bytes)
    | Pong(bytes: Bytes)
    | Report(bytes: Bytes)
    | KeyList(bytes: Bytes)

  predicate HasPayload(r: Response) {
    r.Value? || r.Pong? || r.Report? || r.KeyList?
  }

  function Tag(r: Response): byte {
    match r
    case Okay => STATUS_SUCCESS
    case Failure => STATUS_FAILURE
    case Value(_) => STATUS_SUCCESS
    case Pong(_) => CMD_PING
    case Report(_) => CMD_INFO
    case KeyList(_) => CMD_KEYS
  }

  /** A payload that a two-byte core length can carry. */
  predicate Fits(r: Response) {
    HasPayload(r) ==> |r.bytes| + 3 <= MAX_U16
  }

  /** Header of a response with a payload: core length, tag, payload length. */
  function Header(r: Response): Bytes
    requires HasPayload(r)
  {
    U16(|r.bytes| + 3) + [Tag(r)] + U16(|r.bytes|)
  }

  /** The frame written for a response; one whose payload is too long is answered as a failure. */
  function EncodeResponse(r: Response): (f: Bytes)
    ensures 3 <= |f| <= MAX_U16 + 2
  {
    if !Fits(r) then [0, 1, STATUS_FAILURE]
    else if HasPayload(r) then Header(r) + r.bytes
    else [0, 1, Tag(r)]
  }

  lemma EncodesAs(r: Response)
    requires HasPayload(r) && Fits(r)
    ensures EncodeResponse(r) == Header(r) + r.bytes && |EncodeResponse(r)| == |Header(r)| + |r.bytes|
  {
  }

  function DecodePayload(f: Bytes, frameLen: nat, coreLen: nat): Option<Bytes>
    requires frameLen <= |f|
  {
    if coreLen < 3 || frameLen < 5 then None
    else
      var n := ReadU16(f, 3);
      if n != coreLen - 3 || frameLen < 5 + n then None else Some(f[5..5 + n])
  }

  function DecodeResponse(f: Bytes): Option<Response> {
    if |f| < 3 || |f| < ReadU16(f, 0) + 2 then None
    else
      var coreLen, total := ReadU16(f, 0), ReadU16(f, 0) + 2;
      if coreLen == 1 then
        if f[2] == STATUS_FAILURE then Some(Failure)
        else if f[2] == STATUS_SUCCESS then Some(Okay)
        else None
      else
        var p := DecodePayload(f, total, coreLen);
        if p == None then None
        else if f[2] == STATUS_SUCCESS then Some(Value(p.value))
        else if f[2] == CMD_PING then Some(Pong(p.value))
        else if f[2] == CMD_INFO then Some(Report(p.value))
        else if f[2] == CMD_KEYS then Some(KeyList(p.value))
        else None
  }

  /** The client recovers the kind and payload of every frame the server writes, and the server
      writes a failure exactly when the payload cannot be framed. */
  lemma ResponseRoundTrip(r: Response)
    ensures DecodeResponse(EncodeResponse(r)) == Some(if Fits(r) then r else Failure)
  {
    var f := EncodeResponse(r);
    if Fits(r) && HasPayload(r) {
      var n := |r.bytes|;
      assert f[0..2] == U16(n + 3) && f[3..5] == U16(n);
      U16RoundTrip(n + 3, f, 0);
      U16RoundTrip(n, f, 3);
      assert f[5..5 + n] == r.bytes;
    } else {
      assert ReadU16(f, 0) == 1;
    }
  }

  /** On the wire: the length of the rest in network byte order, then zero for a failure, one for a
      success, or the number of the command for PING, INFO and KEYS. */
  lemma ResponseLayout(r: Response)
    ensures var f := EncodeResponse(r);
            && 256 * (f[0] as int) + f[1] as int == |f| - 2
            && f[2] == if r == Failure || !Fits(r) then 0
                       else if r.Pong? then 5
                       else if r.Report? then 7
                       else if r.KeyList? then 13
                       else 1
  {
    ResponseFrameLength(r);
  }

  /** A response frame is exactly one frame of the stream: its prefix counts the rest of it. */
  lemma ResponseFrameLength(r: Response)
    ensures |EncodeResponse(r)| == 2 + ReadU16(EncodeResponse(r), 0)
  {
    var f := EncodeResponse(r);
    if Fits(r) && HasPayload(r) {
      assert f[0..2] == U16(|r.bytes| + 3);
      U16RoundTrip(|r.bytes| + 3, f, 0);
    }
  }
}
