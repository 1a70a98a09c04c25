/** A request from the client's builder to the client's decoder: what its answer means. */
module Service {
  import opened Common
  import opened Connections
  import opened Decimal
  import opened Dictionary
  import opened Listing
  import opened Protocol
  import opened Server
  import opened StoreLaws
  import R = Responses
  import S = Store
  import T = Traces

  /** What the client makes of the bytes it gets for a request. */
  function Answer(x: Exchange): Option<R.Response> {
    R.DecodeResponse(ResponseBytes(x))
  }

  /** The server served exactly the frame that the builder made of the request. */
  ghost predicate Serves(x: Exchange, r: Request) {
    Sendable(r) && x.frame == Frame(RequestCore(r)) && Correct(x)
  }

  /** The payload, or a failure when it is too long for one frame. */
  function Framed(r: R.Response): R.Response
    requires R.HasPayload(r)
  {
    if |r.bytes| <= 65532 then r else R.Failure
  }

  lemma Decoded(x: Exchange)
    requires x.response.Some?
    ensures Answer(x) == Some(if R.HasPayload(x.response.value) then Framed(x.response.value) else x.response.value)
  {
    hide R.EncodeResponse, R.DecodeResponse;
    R.ResponseRoundTrip(x.response.value);
  }

  /** PING is answered by its payload and INFO by the report, and neither touches the database. */
  lemma EchoAnswered(x: Exchange, r: Request)
    requires Serves(x, r) && !r.Run?
    ensures x.after == x.before
    ensures Answer(x) == Some(if r.Ping? then R.Pong(r.payload) else Framed(R.Report(x.env.report)))
  {
    hide ParseFrame, Answer;
    RequestRoundTrip(r);
    Decoded(x);
    if r.Ping? {
      LastField(r.payload);
    }
  }

  /** A command is run on the database, and its answer tells its reply: a failure exactly for an error
      or for a payload that no frame can carry, and for KEYS the numbered list of the keys. */
  lemma CommandAnswered(x: Exchange, cmd: S.Command)
    requires Serves(x, Run(cmd))
    ensures var (db', reply) := Do(x.before, At(x.env.now, x.env.mem, x.cleaned), cmd);
            && x.after == db'
            && match reply
               case Okay => Answer(x) == Some(R.Okay)
               case Error => Answer(x) == Some(R.Failure)
               case Data(bytes) => Answer(x) == Some(Framed(R.Value(bytes)))
               case Listing(keys) =>
                 && Lists(x.order, keys) && Answer(x).Some? && Answer(x).value.KeyList?
                 && Enumerates(Answer(x).value.bytes, x.order)
  {
    hide ParseFrame, Answer, S.SetStep, S.CounterStep, S.GetStep, S.TtlStep, S.ExpireStep, S.ListingFits, Text, Lists, Enumerates;
    RequestRoundTrip(Run(cmd));
    Decoded(x);
    var reply := Do(x.before, At(x.env.now, x.env.mem, x.cleaned), cmd).1;
    if reply.Listing? {
      OnlyKeysLists(x, cmd);
      TextEnumerates(x.order);
      TextLength(x.order, reply.keys);
    }
  }

  lemma OnlyKeysLists(x: Exchange, cmd: S.Command)
    requires Do(x.before, At(x.env.now, x.env.mem, x.cleaned), cmd).1.Listing?
    ensures S.ListingFits(Do(x.before, At(x.env.now, x.env.mem, x.cleaned), cmd).1.keys)
  {
    hide S.Put, S.CheckAndExpire, S.TtlDeadline, S.Bump;
  }

  lemma TextLength(order: seq<Key>, keys: set<Key>)
    requires Lists(order, keys) && S.ListingFits(keys)
    ensures |Text(order)| <= S.MAX_LISTING
  {
    hide S.ListingFits, Lines;
    FitsByLength(order, keys);
  }

  /** A frame that its handler cannot read is answered by a failure, and one that no handler is for
      by nothing; neither touches the database. */
  lemma Unreadable(x: Exchange)
    requires Correct(x) && !ParseFrame(x.frame).Good?
    ensures x.after == x.before
    ensures |x.frame| >= 3 && 1 <= x.frame[2] <= 13 ==> Answer(x) == Some(R.Failure)
    ensures |x.frame| < 3 || !(1 <= x.frame[2] <= 13) ==> ResponseBytes(x) == []
  {
    hide ParseFrame, Answer;
    OneResponse(x);
    if x.response.Some? {
      Decoded(x);
    }
  }

  /** Once a SET was answered by its value, whatever commands on other keys and sweeps come in between,
      a GET is answered by exactly those bytes as long as the time to live is not up. */
  lemma SetThenGet(x: Exchange, y: Exchange, k: Key, bytes: Bytes, ttl: Option<Bytes>, events: seq<T.Event>)
    requires Serves(x, Run(S.SetKey(k, bytes, ttl))) && Serves(y, Run(S.Get(k)))
    requires Answer(x) != Some(R.Failure)
    requires ttl.Some? ==> TextValue(ttl.value).Some?
    requires var due := if ttl == None then None else Some(x.env.now + 1000 * TextValue(ttl.value).value);
             Spares(events, k, due) && (due.Some? ==> y.env.now < due.value) && y.before == T.After(x.after, events)
    ensures Answer(x) == Some(R.Value(bytes)) && Answer(y) == Some(R.Value(bytes))
  {
    hide Correct, Answer, Do, TextValue, T.After, Spares, EncodeFields;
    var at, later := At(x.env.now, x.env.mem, x.cleaned), At(y.env.now, y.env.mem, y.cleaned);
    CommandAnswered(x, S.SetKey(k, bytes, ttl));
    CommandAnswered(y, S.Get(k));
    SetAnswers(x.before, at, k, bytes, ttl);
    LastSetIsRead(x.before, at, k, bytes, ttl, events, later);
    ValueFits(k, bytes, ttl);
  }

  lemma ValueFits(k: Key, bytes: Bytes, ttl: Option<Bytes>)
    requires Sendable(Run(S.SetKey(k, bytes, ttl)))
    ensures |bytes| <= 65532
  {
    var fields := RequestFields(Run(S.SetKey(k, bytes, ttl)));
    assert fields[1] == bytes;
    var rest := EncodeFields(fields[1..]);
    assert |EncodeFields(fields)| == 2 + |k| + |rest|;
  }
}
