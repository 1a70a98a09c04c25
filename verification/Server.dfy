/** Serving one frame: parse it, run its command on the database, shape the response. */
module Server {
  import opened Common
  import opened Dictionary
  import opened Protocol
  import opened Listing
  import S = Store
  import R = Responses
  import DB = Database
  import G = DictionaryGrowth
  import K = KeysCommand

  /** What the outside world supplies to one command: the clock, the allocator, the INFO text. */
  datatype AnyEnv = AnyEnv(now: int, mem: S.Memory, report: Bytes)

  type Env = e: AnyEnv | 0 <= e.now <= INT64_MAX witness AnyEnv(0, S.PLENTY, [])

  function Render(reply: S.Reply): R.Response
    requires !reply.Listing?
  {
    match reply
    case Okay => R.Okay
    case Error => R.Failure
    case Data(b) => R.Value(b)
  }

  /** One frame served: the database before and after, and the response if there was one. `cleaned`
      and `order` tell which expired keys a KEYS dropped and in which order it listed the others. */
  datatype Exchange = Exchange(
    frame: Bytes,
    env: Env,
    before: S.Db,
    after: S.Db,
    response: Option<R.Response>,
    cleaned: set<Key>,
    order: seq<Key>)

  /** The exchange is what the command semantics prescribe. */
  ghost predicate Correct(x: Exchange) {
    && KeyInside(x.frame)
    && match ParseFrame(x.frame)
       case Silent => x.response == None && x.after == x.before
       case Bad => x.response == Some(R.Failure) && x.after == x.before
       case Good(Ping(payload)) => x.response == Some(R.Pong(payload)) && x.after == x.before
       case Good(Info) => x.response == Some(R.Report(x.env.report)) && x.after == x.before
       case Good(Run(cmd)) =>
         var (db', reply) := S.Step(x.before, x.env.now, x.env.mem, x.cleaned, cmd);
         && x.after == db'
         && if reply.Listing? then x.response == Some(R.KeyList(Text(x.order))) && Lists(x.order, reply.keys)
            else x.response == Some(Render(reply))
  }

  /** Runs a command on the tables. */
  method RunCommand(db: DB.Database, cmd: S.Command, env: Env)
    returns (response: R.Response, ghost cleaned: set<Key>, ghost order: seq<Key>)
    requires db.Valid()
    modifies db.store.repr, db.expires.repr
    ensures db.Valid() && fresh(db.store.repr - old(db.store.repr)) && fresh(db.expires.repr - old(db.expires.repr))
    ensures var (db', reply) := S.Step(old(db.Maps()), env.now, env.mem, cleaned, cmd);
            && db.Maps() == db'
            && if reply.Listing? then response == R.KeyList(Text(order)) && Lists(order, reply.keys)
               else response == Render(reply)
    ensures G.Calm(old(db.Deadlines()), db.Deadlines())
  {
    hide DB.Database.Valid, DB.Database.Maps, DB.Database.Deadlines, G.Calm, S.SetStep, S.CounterStep, S.GetStep, S.TtlStep, S.ExpireStep, Text, Lists;
    cleaned, order := {}, [];
    var reply: S.Reply;
    match cmd {
      case SetKey(k, v, ttl) => reply := db.Set(k, v, ttl, env.now, env.mem);
      case Get(k) => reply := db.Get(k, env.now);
      case Incr(_) => reply := db.Count(cmd, env.now, env.mem);
      case Decr(_) => reply := db.Count(cmd, env.now, env.mem);
      case IncrBy(_, _) => reply := db.Count(cmd, env.now, env.mem);
      case DecrBy(_, _) => reply := db.Count(cmd, env.now, env.mem);
      case Del(k) => reply := db.Delete(k);
      case Expire(k, s) => reply := db.Expire(k, s, env.now, env.mem);
      case Ttl(k) => reply := db.Ttl(k, env.now);
      case Persist(k) => reply := db.Persist(k);
      case Keys =>
        var text;
        text, order, cleaned := K.ListKeys(db, env.now);
        return if text == None then R.Failure else R.KeyList(text.value), cleaned, order;
    }
    NoListing(old(db.Maps()), env, cmd);
    response := Render(reply);
  }

  lemma NoListing(db: S.Db, env: Env, cmd: S.Command)
    requires !cmd.Keys?
    ensures !S.Step(db, env.now, env.mem, {}, cmd).1.Listing?
  {
    hide S.Put, S.CheckAndExpire, S.TtlDeadline, S.Bump;
  }

  /** Dispatches one complete frame. */
  method ServeFrame(db: DB.Database, frame: Bytes, env: Env) returns (response: Option<R.Response>, ghost x: Exchange)
    requires db.Valid() && KeyInside(frame)
    modifies db.store.repr, db.expires.repr
    ensures db.Valid() && fresh(db.store.repr - old(db.store.repr)) && fresh(db.expires.repr - old(db.expires.repr))
    ensures Correct(x) && x.frame == frame && x.env == env && x.response == response
    ensures x.before == old(db.Maps()) && x.after == db.Maps()
  {
    hide DB.Database.Valid, DB.Database.Maps, S.Step, ParseFrame, Text, Lists;
    response := None;
    ghost var cleaned: set<Key>, order: seq<Key> := {}, [];
    match ParseFrame(frame) {
      case Silent =>
      case Bad => response := Some(R.Failure);
      case Good(Ping(payload)) => response := Some(R.Pong(payload));
      case Good(Info) => response := Some(R.Report(env.report));
      case Good(Run(cmd)) =>
        var r;
        r, cleaned, order := RunCommand(db, cmd, env);
        response := Some(r);
    }
    x := Exchange(frame, env, old(db.Maps()), db.Maps(), response, cleaned, order);
  }

  /** A frame with a registered command byte gets exactly one response; others get none. */
  lemma OneResponse(x: Exchange)
    requires Correct(x)
    ensures x.response.Some? <==> |x.frame| >= 3 && CMD_SET <= x.frame[2] <= CMD_KEYS
  {
    hide S.Step, ParseSet, ParseKey, ParseTwo, Text, Lists;
  }
}
