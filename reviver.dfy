/**
 The stored-message reviver of src/messagereviver.cpp: a class whose event
 handlers poll a connection's stored-message tokens until they settle and
 then expunge the ones already in history and deliver the rest.
 */
module RTComLogger {
  import opened Wrappers
  import opened Settling
  import opened BuryRevive

  /** A D-Bus object path; the reviver keys baselines by it. */
  type Path = string

  /** The identity of a pending D-Bus call (a QDBusPendingCallWatcher). */
  type CallId = nat

  /** A Qt timer id; startTimer gives 0 when it fails. */
  type TimerId = int

  /** A Telepathy connection; `handle` stands for the pointer's identity. */
  datatype Connection = Connection(handle: nat, objectPath: Path)

  /**
   What the surrounding system answers at the moment an event is handled:
   whether a connection is still valid, whether it exposes the
   StoredMessages interface, and whether the history store holds a token.
   */
  datatype Env = Env(valid: Connection -> bool, storedIf: Connection -> bool, inHistory: Token -> bool)

  /** A reply to the StoredMessages property read: an error or the token list. */
  datatype Reply = Failed(name: string, message: string) | Tokens(list: seq<Token>)

  /** Requests the reviver sends out. */
  datatype Effect =
    | GetStoredMessages(call: CallId, conn: Connection)     // the property read of fetchMessages
    | Expunge(conn: Connection, tokens: seq<Token>)          // ExpungeMessages(toBury)
    | Deliver(conn: Connection, tokens: seq<Token>)          // DeliverStoredMessages(toRevive)
    | KillTimer(timer: TimerId)

  /** The requests of lines 153-161 for the lists built by the foreach loop. */
  function Requests(c: Connection, toBury: seq<Token>, toRevive: seq<Token>, hasInterface: bool): seq<Effect>
  {
    if !hasInterface then []
    else
      (if toBury != [] then [Expunge(c, toBury)] else []) +
      (if toRevive != [] then [Deliver(c, toRevive)] else [])
  }

  /** `acts` is what handleMessages may issue for connection `c` and the settled tokens. */
  ghost predicate IssuedFor(c: Connection, settled: set<Token>, env: Env, acts: seq<Effect>)
  {
    exists toBury, toRevive ::
      Enumerates(toBury, Buried(settled, env.inHistory)) &&
      Enumerates(toRevive, Revived(settled, env.inHistory)) &&
      acts == Requests(c, toBury, toRevive, env.storedIf(c))
  }

  /** The shape of the requests for given lists: an expunge, then a deliver, each for `c`, none empty. */
  lemma RequestsShape(c: Connection, toBury: seq<Token>, toRevive: seq<Token>, hasInterface: bool)
    ensures !hasInterface ==> Requests(c, toBury, toRevive, hasInterface) == []
    ensures |Requests(c, toBury, toRevive, hasInterface)| <= 2
    ensures var acts := Requests(c, toBury, toRevive, hasInterface);
            forall i :: 0 <= i < |acts| ==>
              (acts[i] == Expunge(c, toBury) && toBury != []) ||
              (acts[i] == Deliver(c, toRevive) && toRevive != [])
    ensures var acts := Requests(c, toBury, toRevive, hasInterface);
            |acts| == 2 ==> acts[0].Expunge? && acts[1].Deliver?
    ensures var acts := Requests(c, toBury, toRevive, hasInterface);
            hasInterface && toBury != [] ==> acts[0] == Expunge(c, toBury)
    ensures var acts := Requests(c, toBury, toRevive, hasInterface);
            hasInterface && toRevive != [] ==> acts[|acts| - 1] == Deliver(c, toRevive)
  {
  }

  /**
   What the requests of a decision mean: at most an expunge then a deliver,
   both for `c`, none without the interface or for an empty list; expunged
   tokens are settled and in history, delivered ones settled and not in
   history, and with the interface every settled token is in one request.
   */
  lemma IssuedForMeans(c: Connection, settled: set<Token>, env: Env, acts: seq<Effect>)
    requires IssuedFor(c, settled, env, acts)
    ensures !env.storedIf(c) ==> acts == []
    ensures |acts| <= 2
    ensures forall i :: 0 <= i < |acts| ==> (acts[i].Expunge? || acts[i].Deliver?) && acts[i].conn == c && acts[i].tokens != []
    ensures |acts| == 2 ==> acts[0].Expunge? && acts[1].Deliver?
    ensures forall i, t :: 0 <= i < |acts| && acts[i].Expunge? && t in acts[i].tokens ==> t in settled && env.inHistory(t)
    ensures forall i, t :: 0 <= i < |acts| && acts[i].Deliver? && t in acts[i].tokens ==> t in settled && !env.inHistory(t)
    ensures env.storedIf(c) ==> forall t :: t in settled ==> exists i :: 0 <= i < |acts| && t in acts[i].tokens
  {
    var toBury, toRevive :|
      Enumerates(toBury, Buried(settled, env.inHistory)) &&
      Enumerates(toRevive, Revived(settled, env.inHistory)) &&
      acts == Requests(c, toBury, toRevive, env.storedIf(c));
    RequestsShape(c, toBury, toRevive, env.storedIf(c));
    if env.storedIf(c) {
      forall t | t in settled
        ensures exists i :: 0 <= i < |acts| && t in acts[i].tokens
      {
        if env.inHistory(t) {
          assert t in toBury;
          assert t in acts[0].tokens;
        } else {
          assert t in toRevive;
          assert t in acts[|acts| - 1].tokens;
        }
      }
    }
  }

  /**
   A decision over one settled token that history does not hold, on a
   connection with the interface, is one deliver request of that token.
   */
  lemma SingleTokenDecision(c: Connection, t: Token, env: Env, acts: seq<Effect>)
    requires IssuedFor(c, {t}, env, acts)
    requires env.storedIf(c) && !env.inHistory(t)
    ensures acts == [Deliver(c, [t])]
  {
    var toBury, toRevive :|
      Enumerates(toBury, Buried({t}, env.inHistory)) &&
      Enumerates(toRevive, Revived({t}, env.inHistory)) &&
      acts == Requests(c, toBury, toRevive, env.storedIf(c));
    assert Buried({t}, env.inHistory) == {};
    assert Revived({t}, env.inHistory) == {t};
    EnumerationLength(toBury, {});
    EnumerationLength(toRevive, {t});
    assert toBury == [];
    assert toRevive[0] in toRevive;
    assert toRevive == [t];
    assert acts == [] + [Deliver(c, [t])];
  }

  /** The value QHash::take gives for a path: its baseline, or the empty set. */
  function BaselineOf(baselines: map<Path, set<Token>>, p: Path): set<Token>
  {
    if p in baselines then baselines[p] else {}
  }

  class MessageReviver {
    /** m_Connections: the connection each pending property read was issued for. */
    var pending: map<CallId, Connection>
    /** m_MessageTokens: the baseline token set of each connection path. */
    var baseline: map<Path, set<Token>>
    /** m_TimerConnections: the connection each running re-poll timer belongs to. */
    var timers: map<TimerId, Connection>
    /** The next fresh watcher identity. */
    var nextCall: CallId
    /** Every request sent so far, in order. */
    ghost var log: seq<Effect>

    /**
     Pending call ids are fresh below nextCall, every stored baseline is
     non-empty (so an empty take result means "no baseline"), and only
     successfully started timers are recorded.
     */
    ghost predicate Valid()
      reads this
    {
      (forall call :: call in pending ==> call < nextCall) &&
      (forall p :: p in baseline ==> baseline[p] != {}) &&
      (forall id :: id in timers ==> id > 0)
    }

    constructor ()
      ensures Valid()
      ensures pending == map[] && baseline == map[] && timers == map[] && nextCall == 0 && log == []
    {
      pending, baseline, timers := map[], map[], map[];
      nextCall := 0;
      log := [];
    }

    /** onConnectionReady (lines 47-54): start a cycle for a usable connection. */
    method OnConnectionReady(connection: Option<Connection>, env: Env)
      requires Valid()
      modifies this
      ensures Valid()
      ensures baseline == old(baseline) && timers == old(timers)
      ensures if connection.Some? && env.valid(connection.value) && env.storedIf(connection.value) then
                pending == old(pending)[old(nextCall) := connection.value] &&
                old(nextCall) !in old(pending) &&
                nextCall == old(nextCall) + 1 &&
                log == old(log) + [GetStoredMessages(old(nextCall), connection.value)]
              else
                pending == old(pending) && nextCall == old(nextCall) && log == old(log)
    {
      if connection.Some? && env.valid(connection.value) && env.storedIf(connection.value) {
        FetchMessages(connection.value);
      }
    }

    /** fetchMessages (lines 56-69): issue the property read and remember its connection. */
    method FetchMessages(c: Connection)
      requires Valid()
      modifies this
      ensures Valid()
      ensures old(nextCall) !in old(pending)
      ensures pending == old(pending)[old(nextCall) := c] && nextCall == old(nextCall) + 1
      ensures baseline == old(baseline) && timers == old(timers)
      ensures log == old(log) + [GetStoredMessages(old(nextCall), c)]
    {
      var call := nextCall;
      nextCall := nextCall + 1;
      pending := pending[call := c];
      log := log + [GetStoredMessages(call, c)];
    }

    /**
     onGetStoredMessages (lines 71-119): the reply to call `call` arrived.
     `newTimer` is what startTimer returns if it is reached: a fresh timer id,
     or 0 when Qt could not start one.
     */
    method OnGetStoredMessages(call: CallId, reply: Reply, env: Env, newTimer: TimerId)
      requires Valid()
      // line 83 dereferences the taken connection before the null check of line 86
      requires reply.Failed? || call in pending
      requires newTimer <= 0 || newTimer !in timers
      modifies this
      ensures Valid()
      ensures pending == old(pending) - {call} && nextCall == old(nextCall)
      // an error reply leaves the baseline and timers alone and sends nothing
      ensures reply.Failed? ==> baseline == old(baseline) && timers == old(timers) && log == old(log)
      // a connection gone invalid loses its baseline and gets nothing sent
      ensures reply.Tokens? && !env.valid(old(pending)[call]) ==>
                baseline == old(baseline) - {old(pending)[call].objectPath} &&
                timers == old(timers) && log == old(log)
      // otherwise the settle rule decides
      ensures reply.Tokens? && env.valid(old(pending)[call]) ==>
                var c := old(pending)[call];
                match Poll(BaselineOf(old(baseline), c.objectPath), TokenSet(reply.list))
                case Drop =>
                  baseline == old(baseline) - {c.objectPath} && timers == old(timers) && log == old(log)
                case Rearm(b) =>
                  baseline == old(baseline)[c.objectPath := b] && log == old(log) &&
                  timers == (if newTimer > 0 then old(timers)[newTimer := c] else old(timers))
                case Resolve(s) =>
                  baseline == old(baseline) - {c.objectPath} && timers == old(timers) &&
                  |old(log)| <= |log| && log[..|old(log)|] == old(log) &&
                  IssuedFor(c, s, env, log[|old(log)|..])
    {
      var connection := if call in pending then Some(pending[call]) else None;
      pending := pending - {call};
      if reply.Failed? {
        return;
      }
      var c := connection.value;
      var currentTokens := TokenSet(reply.list);
      var initialTokens := BaselineOf(baseline, c.objectPath);
      baseline := baseline - {c.objectPath};

      if !env.valid(c) {
        return;
      }
      assert baseline == old(baseline) - {c.objectPath};
      SettleOrDecide(c, initialTokens, currentTokens, env, newTimer);
    }

    /**
     Lines 91-116 of onGetStoredMessages, after the baseline of `c`'s path has
     been taken out as `initialTokens`: keep a narrowed baseline and start the
     re-poll timer, drop the cycle, or store the settled baseline and decide.
     */
    method SettleOrDecide(c: Connection, initialTokens: set<Token>, currentTokens: set<Token>, env: Env, newTimer: TimerId)
      requires Valid()
      requires c.objectPath !in baseline
      requires newTimer <= 0 || newTimer !in timers
      modifies this
      ensures Valid()
      ensures pending == old(pending) && nextCall == old(nextCall)
      ensures match Poll(initialTokens, currentTokens)
              case Drop =>
                baseline == old(baseline) && timers == old(timers) && log == old(log)
              case Rearm(b) =>
                baseline == old(baseline)[c.objectPath := b] && log == old(log) &&
                timers == (if newTimer > 0 then old(timers)[newTimer := c] else old(timers))
              case Resolve(s) =>
                baseline == old(baseline) && timers == old(timers) &&
                |old(log)| <= |log| && log[..|old(log)|] == old(log) &&
                IssuedFor(c, s, env, log[|old(log)|..])
    {
      ghost var verdict := Poll(initialTokens, currentTokens);
      var tokens := initialTokens;
      var modified := false;
      if tokens == {} {
        tokens := currentTokens;
        modified := true;
      } else {
        var setSize := |tokens|;
        tokens := tokens * currentTokens;
        modified := setSize != |tokens|;
      }

      if modified {
        if tokens != {} {
          assert verdict == Rearm(tokens);
          baseline := baseline[c.objectPath := tokens];
          if newTimer > 0 {
            timers := timers[newTimer := c];
          }
        } else {
          assert verdict == Drop;
        }
      } else if tokens != {} {
        assert verdict == Resolve(tokens);
        baseline := baseline[c.objectPath := tokens];
        HandleMessages(c, env);
        assert baseline == old(baseline);
      }
    }

    /** timerEvent (lines 121-129): drop the timer's entry, re-poll a still valid connection, kill the timer. */
    method TimerEvent(id: TimerId, env: Env)
      requires Valid()
      modifies this
      ensures Valid()
      ensures timers == old(timers) - {id} && baseline == old(baseline)
      ensures if id in old(timers) && env.valid(old(timers)[id]) then
                pending == old(pending)[old(nextCall) := old(timers)[id]] &&
                old(nextCall) !in old(pending) &&
                nextCall == old(nextCall) + 1 &&
                log == old(log) + [GetStoredMessages(old(nextCall), old(timers)[id]), KillTimer(id)]
              else
                pending == old(pending) && nextCall == old(nextCall) && log == old(log) + [KillTimer(id)]
    {
      var connection := if id in timers then Some(timers[id]) else None;
      timers := timers - {id};
      if connection.Some? && env.valid(connection.value) {
        FetchMessages(connection.value);
      }
      log := log + [KillTimer(id)];
    }

    /**
     handleMessages (lines 131-162): take the connection's settled baseline,
     split it by the history lookup and send the expunge and deliver requests.
     */
    method HandleMessages(c: Connection, env: Env)
      requires Valid()
      modifies this
      ensures Valid()
      ensures baseline == old(baseline) - {c.objectPath}
      ensures pending == old(pending) && timers == old(timers) && nextCall == old(nextCall)
      ensures |old(log)| <= |log| && log[..|old(log)|] == old(log)
      ensures IssuedFor(c, BaselineOf(old(baseline), c.objectPath), env, log[|old(log)|..])
    {
      var messageTokens := BaselineOf(baseline, c.objectPath);
      baseline := baseline - {c.objectPath};
      var toBury, toRevive := Partition(messageTokens, env.inHistory);
      ghost var before := log;
      if env.storedIf(c) {
        if toBury != [] {
          log := log + [Expunge(c, toBury)];
        }
        if toRevive != [] {
          log := log + [Deliver(c, toRevive)];
        }
      }
      assert log == before + Requests(c, toBury, toRevive, env.storedIf(c));
      assert log[|before|..] == Requests(c, toBury, toRevive, env.storedIf(c));
    }
  }
  /**
   A baseline outlives a failed read (lines 74-80): after a ready event, a
   read of {A}, the timer and an error reply, the baseline {A} is still
   stored for the object path, with no read or timer outstanding.
   */
  method StaleBaselineAfterFailedRead(env: Env, first: Connection) returns (r: MessageReviver)
    requires env.valid(first) && env.storedIf(first)
    ensures fresh(r) && r.Valid() && r.nextCall == 2
    ensures r.baseline == map[first.objectPath := {"A"}] && r.timers == map[] && r.pending == map[]
  {
    r := new MessageReviver();
    r.OnConnectionReady(Some(first), env);
    assert r.pending == map[0 := first];
    r.OnGetStoredMessages(0, Tokens(["A"]), env, 1);
    assert TokenSet(["A"]) == {"A"};
    assert r.baseline == map[first.objectPath := {"A"}] && r.timers == map[1 := first];
    r.TimerEvent(1, env);
    assert r.pending == map[1 := first];
    r.OnGetStoredMessages(1, Failed("org.freedesktop.DBus.Error.Failed", ""), env, 0);
  }

  /**
   A later cycle on the same object path compares its first read with that
   stale baseline: a new connection that reads {A} once settles at once and
   delivers A, with no timer and no second read.
   */
  method StaleBaselineScenario() returns (r: MessageReviver)
    ensures r.baseline == map[] && r.timers == map[] && r.pending == map[]
    ensures |r.log| > 0
    ensures r.log[|r.log| - 1] == Deliver(Connection(1, "/conn"), ["A"])
  {
    var env := Env(c => true, c => true, t => false);
    var second := Connection(1, "/conn");
    r := StaleBaselineAfterFailedRead(env, Connection(0, "/conn"));
    r.OnConnectionReady(Some(second), env);
    assert r.pending == map[2 := second];
    ghost var before := r.log;
    assert BaselineOf(r.baseline, "/conn") == {"A"};
    assert TokenSet(["A"]) == {"A"};
    r.OnGetStoredMessages(2, Tokens(["A"]), env, 2);
    ghost var acts := r.log[|before|..];
    SingleTokenDecision(second, "A", env, acts);
  }
}
