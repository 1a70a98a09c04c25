/** Request frames: their layout and the parsers of the handlers. */
module Protocol {
  import opened Common
  import opened Store

  const MAX_U16: nat := 65535

  function U16(n: nat): (b: Bytes)
    ensures |b| == 2
  {
    [(n / 256) % 256, n % 256]
  }

  function ReadU16(b: Bytes, i: nat): (n: nat)
    requires i + 2 <= |b|
    ensures n <= MAX_U16
  {
    256 * (b[i] as int) + b[i + 1] as int
  }

  lemma U16RoundTrip(n: nat, b: Bytes, i: nat)
    requires n <= MAX_U16 && i + 2 <= |b| && b[i..i + 2] == U16(n)
    ensures ReadU16(b, i) == n
  {
    assert b[i] == b[i..i + 2][0] && b[i + 1] == b[i..i + 2][1];
  }

  // ---------- Requests ----------

  const CMD_SET: byte := 1
  const CMD_GET: byte := 2
  const CMD_INCR: byte := 3
  const CMD_INCR_BY: byte := 4
  const CMD_PING: byte := 5
  const CMD_DECR: byte := 6
  const CMD_INFO: byte := 7
  const CMD_DECR_BY: byte := 8
  const CMD_DEL: byte := 9
  const CMD_EXPIRE: byte := 10
  const CMD_TTL: byte := 11
  const CMD_PERSIST: byte := 12
  const CMD_KEYS: byte := 13

  datatype Request = Run(cmd: Command) | Ping(payload: Bytes) | Info

  /** What a server makes of a frame: no reply at all, an error reply, or a request. */
  datatype Parsed = Silent | Bad | Good(request: Request)

  function RequestId(r: Request): byte {
    match r
    case Ping(_) => CMD_PING
    case Info => CMD_INFO
    case Run(SetKey(_, _, _)) => CMD_SET
    case Run(Get(_)) => CMD_GET
    case Run(Incr(_)) => CMD_INCR
    case Run(Decr(_)) => CMD_DECR
    case Run(IncrBy(_, _)) => CMD_INCR_BY
    case Run(DecrBy(_, _)) => CMD_DECR_BY
    case Run(Del(_)) => CMD_DEL
    case Run(Expire(_, _)) => CMD_EXPIRE
    case Run(Ttl(_)) => CMD_TTL
    case Run(Persist(_)) => CMD_PERSIST
    case Run(Keys) => CMD_KEYS
  }

  /** The length-prefixed fields a builder writes after the command byte. */
  function RequestFields(r: Request): seq<Bytes> {
    match r
    case Ping(payload) => [payload]
    case Info => []
    case Run(SetKey(k, v, None)) => [k, v]
    case Run(SetKey(k, v, Some(ttl))) => [k, v, ttl]
    case Run(IncrBy(k, a)) => [k, a]
    case Run(DecrBy(k, a)) => [k, a]
    case Run(Expire(k, s)) => [k, s]
    case Run(Keys) => []
    case Run(cmd) => [cmd.key]
  }

  function EncodeFields(fields: seq<Bytes>): Bytes {
    if fields == [] then [] else U16(|fields[0]|) + fields[0] + EncodeFields(fields[1..])
  }

  function RequestCore(r: Request): Bytes {
    [RequestId(r)] + EncodeFields(RequestFields(r))
  }

  function Frame(core: Bytes): Bytes {
    U16(|core|) + core
  }

  // ---------- Parsing in the handlers ----------

  /** A frame whose key field, in the handlers that do not check it, lies inside the frame. */
  predicate KeyInside(f: Bytes) {
    |f| >= 5 && f[2] in {CMD_GET, CMD_INCR, CMD_DECR, CMD_DEL, CMD_TTL, CMD_PERSIST} ==>
      5 + ReadU16(f, 3) <= |f|
  }

  function ParseSet(f: Bytes): Option<Command> {
    if |f| < 5 || |f| < ReadU16(f, 0) + 2 then None
    else
      var coreLen, keyLen := ReadU16(f, 0), ReadU16(f, 3);
      var afterKey := 5 + keyLen;
      if 3 + keyLen > coreLen || afterKey + 2 > |f| then None
      else
        var valueLen := ReadU16(f, afterKey);
        var end := afterKey + 2 + valueLen;
        var payload := 5 + keyLen + valueLen;
        if payload > coreLen || end > |f| then None
        else
          var key, value := f[5..afterKey], f[afterKey + 2..end];
          if payload == coreLen then Some(SetKey(key, value, None))
          else if end + 2 > |f| || end + 2 + ReadU16(f, end) > |f| then None
          else Some(SetKey(key, value, Some(f[end + 2..end + 2 + ReadU16(f, end)])))
  }

  /** GET, INCR, DECR, DEL, TTL and PERSIST: the advertised length must match the frame. */
  function ParseKey(f: Bytes): Option<Bytes>
    requires |f| >= 5 ==> 5 + ReadU16(f, 3) <= |f|
  {
    if |f| < 5 || |f| - 2 != ReadU16(f, 0) then None else Some(f[5..5 + ReadU16(f, 3)])
  }

  /** INCRBY, DECRBY and EXPIRE: a key and one more field; only EXPIRE tolerates extra bytes. */
  function ParseTwo(f: Bytes, exact: bool): Option<(Bytes, Bytes)> {
    if |f| < 5 then None
    else
      var pos := 5 + ReadU16(f, 3);
      if pos + 2 > |f| || pos + 2 + ReadU16(f, pos) > |f| then None
      else if (if exact then |f| - 2 != ReadU16(f, 0) else |f| - 2 < ReadU16(f, 0)) then None
      else Some((f[5..pos], f[pos + 2..pos + 2 + ReadU16(f, pos)]))
  }

  function Keyed(k: Option<Bytes>, make: Bytes -> Command): Parsed {
    if k == None then Bad else Good(Run(make(k.value)))
  }

  function Paired(p: Option<(Bytes, Bytes)>, make: (Bytes, Bytes) -> Command): Parsed {
    if p == None then Bad else Good(Run(make(p.value.0, p.value.1)))
  }

  /** Dispatch on the command byte; a frame without one, or with an unknown one, gets no reply. */
  function ParseFrame(f: Bytes): Parsed
    requires KeyInside(f)
  {
    if |f| < 3 then Silent
    else
      match f[2]
      case 1 => var c := ParseSet(f); if c == None then Bad else Good(Run(c.value))
      case 2 => Keyed(ParseKey(f), k => Get(k))
      case 3 => if |f| >= 5 && ReadU16(f, 3) < 1 then Bad else Keyed(ParseKey(f), k => Incr(k))
      case 4 => Paired(ParseTwo(f, true), (k, a) => IncrBy(k, a))
      case 5 =>
        if |f| < 5 || |f| - 2 != ReadU16(f, 0) || 5 + ReadU16(f, 3) > |f| then Bad
        else Good(Ping(f[5..5 + ReadU16(f, 3)]))
      case 6 => Keyed(ParseKey(f), k => Decr(k))
      case 7 => Good(Info)
      case 8 => Paired(ParseTwo(f, true), (k, a) => DecrBy(k, a))
      case 9 => Keyed(ParseKey(f), k => Del(k))
      case 10 => Paired(ParseTwo(f, false), (k, s) => Expire(k, s))
      case 11 => Keyed(ParseKey(f), k => Ttl(k))
      case 12 => Keyed(ParseKey(f), k => Persist(k))
      case 13 => if |f| == 3 && ReadU16(f, 0) == 1 then Good(Run(Keys)) else Bad
      case _ => Silent
  }

  // ---------- Requests round trip ----------

  /** What a builder can be given: fields short enough for one frame, and a key to increment. */
  predicate Sendable(r: Request) {
    |RequestCore(r)| <= MAX_U16 && r != Run(Incr([]))
  }

  lemma FieldAt(prefix: Bytes, field: Bytes, rest: Bytes)
    requires |field| <= MAX_U16
    ensures var f := prefix + (U16(|field|) + field + rest);
            && |f| == |prefix| + 2 + |field| + |rest|
            && ReadU16(f, |prefix|) == |field|
            && f[|prefix| + 2..|prefix| + 2 + |field|] == field
            && f == (prefix + U16(|field|) + field) + rest
  {
    var f := prefix + (U16(|field|) + field + rest);
    assert f[|prefix|..|prefix| + 2] == U16(|field|);
    U16RoundTrip(|field|, f, |prefix|);
  }

  lemma FrameHead(r: Request)
    requires |RequestCore(r)| <= MAX_U16
    ensures var f := Frame(RequestCore(r));
            && |f| >= 3 && ReadU16(f, 0) == |f| - 2 && f[2] == RequestId(r)
            && f == (U16(|f| - 2) + [RequestId(r)]) + EncodeFields(RequestFields(r))
  {
    var f := Frame(RequestCore(r));
    assert f[0..2] == U16(|RequestCore(r)|);
    U16RoundTrip(|RequestCore(r)|, f, 0);
  }

  /** On the wire: the length of the rest in network byte order, then the number of the command. */
  lemma RequestLayout(r: Request)
    requires Sendable(r)
    ensures var f := Frame(RequestCore(r));
            && |f| >= 3 && 256 * (f[0] as int) + f[1] as int == |f| - 2
            && f[2] == match r
                       case Ping(_) => 5
                       case Info => 7
                       case Run(cmd) =>
                         match cmd
                         case SetKey(_, _, _) => 1
                         case Get(_) => 2
                         case Incr(_) => 3
                         case IncrBy(_, _) => 4
                         case Decr(_) => 6
                         case DecrBy(_, _) => 8
                         case Del(_) => 9
                         case Expire(_, _) => 10
                         case Ttl(_) => 11
                         case Persist(_) => 12
                         case Keys => 13
  {
    FrameHead(r);
  }

  lemma {:induction false} FieldsLength(fields: seq<Bytes>, i: nat)
    requires i < |fields|
    ensures |fields[i]| <= |EncodeFields(fields)|
  {
    if i > 0 {
      FieldsLength(fields[1..], i - 1);
    }
  }

  lemma OneField(r: Request, a: Bytes)
    requires |RequestCore(r)| <= MAX_U16 && RequestFields(r) == [a]
    ensures var f := Frame(RequestCore(r));
            |f| == 5 + |a| && ReadU16(f, 0) == |f| - 2 && f[2] == RequestId(r) && ReadU16(f, 3) == |a| && f[5..] == a
  {
    FrameHead(r);
    var f := Frame(RequestCore(r));
    assert EncodeFields([a]) == U16(|a|) + a + [] by {
      assert [a][1..] == [];
      assert EncodeFields([]) == [];
    }
    FieldAt(U16(|f| - 2) + [RequestId(r)], a, []);
  }

  lemma TwoFields(r: Request, a: Bytes, b: Bytes, rest: seq<Bytes>)
    requires |RequestCore(r)| <= MAX_U16 && RequestFields(r) == [a, b] + rest
    ensures var f := Frame(RequestCore(r)); var pos := 5 + |a|;
            && |f| == 7 + |a| + |b| + |EncodeFields(rest)|
            && ReadU16(f, 0) == |f| - 2 && f[2] == RequestId(r)
            && ReadU16(f, 3) == |a| && f[5..pos] == a
            && ReadU16(f, pos) == |b| && f[pos + 2..pos + 2 + |b|] == b
            && f[pos + 2 + |b|..] == EncodeFields(rest)
  {
    FrameHead(r);
    var f := Frame(RequestCore(r));
    var fields := [a, b] + rest;
    FieldsLength(fields, 0);
    FieldsLength(fields, 1);
    assert fields[1..] == [b] + rest && ([b] + rest)[1..] == rest;
    var tail := EncodeFields(rest);
    assert EncodeFields(fields) == U16(|a|) + a + (U16(|b|) + b + tail);
    var head := U16(|f| - 2) + [RequestId(r)];
    FieldAt(head, a, U16(|b|) + b + tail);
    FieldAt(head + U16(|a|) + a, b, tail);
  }

  lemma SetRoundTrip(r: Request)
    requires Sendable(r) && r.Run? && r.cmd.SetKey?
    ensures ParseSet(Frame(RequestCore(r))) == Some(r.cmd)
  {
    hide EncodeFields;
    var f := Frame(RequestCore(r));
    var k, v := r.cmd.key, r.cmd.value;
    match r.cmd.ttl {
      case None =>
        TwoFields(r, k, v, []);
        NoFields();
      case Some(ttl) =>
        TwoFields(r, k, v, [ttl]);
        LastField(ttl);
        var end := 7 + |k| + |v|;
        FieldsLength([k, v, ttl], 2);
        assert f[end..] == U16(|ttl|) + ttl;
        assert f[end..end + 2] == f[end..][..2] == U16(|ttl|);
        U16RoundTrip(|ttl|, f, end);
        assert |f| == end + 2 + |ttl|;
        assert f[end + 2..end + 2 + |ttl|] == f[end..][2..] == ttl;
        assert r.cmd == SetKey(k, v, Some(ttl));
    }
  }

  lemma NoFields()
    ensures EncodeFields([]) == []
  {
  }

  lemma LastField(a: Bytes)
    ensures EncodeFields([a]) == U16(|a|) + a
  {
    assert [a][1..] == [];
    assert EncodeFields([]) == [];
  }

  /** Every handler recovers exactly the fields given to the builder of its command. */
  lemma RequestRoundTrip(r: Request)
    requires Sendable(r)
    ensures KeyInside(Frame(RequestCore(r)))
    ensures ParseFrame(Frame(RequestCore(r))) == Good(r)
  {
    hide EncodeFields, ParseSet;
    var fields := RequestFields(r);
    FrameHead(r);
    if |fields| == 0 {
      NoFields();
    } else if |fields| == 1 {
      OneField(r, fields[0]);
    } else if r.Run? && r.cmd.SetKey? {
      SetRoundTrip(r);
    } else {
      assert fields == [fields[0], fields[1]] + [];
      TwoFields(r, fields[0], fields[1], []);
      NoFields();
    }
  }
}
