/** The client's request builders, which write a fresh buffer at computed offsets. */
module Builders {
  import opened Common
  import opened Buffers
  import opened Protocol

  /** Writes a field behind its two-byte length, and returns the offset after it. */
  method WriteField(buf: array<byte>, at: nat, field: Bytes) returns (next: nat)
    requires at + 2 + |field| <= buf.Length
    modifies buf
    ensures next == at + 2 + |field|
    ensures buf[..] == old(buf[..])[..at] + (U16(|field|) + field) + old(buf[..])[next..]
  {
    ghost var was := buf[..];
    Write(buf, at, U16(|field|));
    Write(buf, at + 2, field);
    next := at + 2 + |field|;
    WritesJoin(was, at, U16(|field|), field);
  }

  lemma WritesJoin(was: Bytes, at: nat, a: Bytes, b: Bytes)
    requires at + |a| + |b| <= |was|
    ensures var once := was[..at] + a + was[at + |a|..];
            once[..at + |a|] + b + once[at + |a| + |b|..] == was[..at] + (a + b) + was[at + |a| + |b|..]
  {
  }

  lemma {:induction false} EncodeSnoc(fields: seq<Bytes>, i: nat)
    requires i < |fields|
    ensures EncodeFields(fields[..i + 1]) == EncodeFields(fields[..i]) + (U16(|fields[i]|) + fields[i])
    decreases i
  {
    if i == 0 {
      LastField(fields[0]);
      NoFields();
      assert fields[..1] == [fields[0]] && fields[..0] == [];
    } else {
      EncodeSnoc(fields[1..], i - 1);
      assert fields[..i + 1][1..] == fields[1..][..i] && fields[..i][1..] == fields[1..][..i - 1];
    }
  }

  lemma {:induction false} EncodePrefix(fields: seq<Bytes>, i: nat)
    requires i <= |fields|
    ensures |EncodeFields(fields[..i])| <= |EncodeFields(fields)|
    decreases |fields| - i
  {
    if i < |fields| {
      EncodePrefix(fields, i + 1);
      EncodeSnoc(fields, i);
    } else {
      assert fields[..i] == fields;
    }
  }

  /** Writes fields one after the other, from an offset on. */
  method WriteFields(buf: array<byte>, at: nat, fields: seq<Bytes>)
    requires at + |EncodeFields(fields)| == buf.Length
    modifies buf
    ensures buf[..] == old(buf[..at]) + EncodeFields(fields)
  {
    hide EncodeFields, U16;
    var pos := at;
    NoFields();
    for i := 0 to |fields|
      invariant pos == at + |EncodeFields(fields[..i])| && pos <= buf.Length
      invariant buf[..pos] == old(buf[..at]) + EncodeFields(fields[..i])
    {
      EncodePrefix(fields, i + 1);
      EncodeSnoc(fields, i);
      pos := WriteField(buf, pos, fields[i]);
    }
    assert fields[..|fields|] == fields;
  }

  /** Builds the frame of a request: core length, command byte, then each field. Null when the
      buffer cannot be allocated. */
  method Build(r: Request, allocOk: bool) returns (buf: array?<byte>)
    ensures buf == null <==> !allocOk
    ensures buf != null ==> fresh(buf) && buf[..] == Frame(RequestCore(r))
  {
    hide EncodeFields, U16, RequestFields, RequestId;
    var coreLen := |RequestCore(r)|;
    if !allocOk {
      return null;
    }
    buf := new byte[2 + coreLen](_ => 0);
    Write(buf, 0, U16(coreLen));
    Write(buf, 2, [RequestId(r)]);
    WriteFields(buf, 3, RequestFields(r));
  }
}
