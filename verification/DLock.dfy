/** The Redis lock: SET NX with an expiry, and owner-checked unlock and refresh scripts.
    Time is Redis's, in milliseconds. */
module DLock {
  import opened Wrappers

  /** Whole milliseconds; the client library takes zero for "no expiry". */
  type Expiry = e: nat | e > 0 witness 1

  datatype Error = LockNotObtained | LockNotHeld | RedisFailure

  /** Who has the key, and the last millisecond in which that is so. */
  datatype Hold = Hold(value: string, expire: nat)

  /** The key, the caller's flag and the answer after one operation. */
  datatype LockResult = LockResult(hold: Option<Hold>, locked: bool, err: Option<Error>)

  function Holder(h: Option<Hold>, now: nat): Option<Hold> {
    if h.Some? && now <= h.value.expire then h else None
  }

  // ---------- what the operations do to a visible key ----------

  function TryLockSpec(h: Option<Hold>, now: nat, value: string, expiry: Expiry, locked: bool): LockResult {
    if h.None? then LockResult(Some(Hold(value, now + expiry)), true, None) else LockResult(h, locked, Some(LockNotObtained))
  }

  function UnlockSpec(h: Option<Hold>, value: string, locked: bool): LockResult {
    if locked && h.Some? && h.value.value == value then LockResult(None, false, None)
    else LockResult(h, locked, Some(LockNotHeld))
  }

  function RefreshSpec(h: Option<Hold>, now: nat, value: string, expiry: Expiry, locked: bool): LockResult {
    if locked && h.Some? && h.value.value == value then LockResult(Some(Hold(value, now + expiry)), locked, None)
    else LockResult(h, locked, Some(LockNotHeld))
  }

  /** What the caller ends up with when the request behaves like this. */
  function Through(net: Net, h: Option<Hold>, locked: bool, o: LockResult): LockResult {
    match net
    case Answered => o
    case NotSent => LockResult(h, locked, Some(RedisFailure))
    case ReplyLost => LockResult(o.hold, locked, Some(RedisFailure))
  }

  // ---------- the objects ----------

  class RedisServer {
    var now: nat
    var keys: map<string, Hold>

    constructor ()
      ensures now == 0 && keys == map[]
    {
      now, keys := 0, map[];
    }

    function View(key: string): Option<Hold>
      reads this
    {
      Holder(if key in keys then Some(keys[key]) else None, now)
    }

    method SetNX(key: string, value: string, expiry: Expiry) returns (set_: bool)
      modifies this`keys
      ensures set_ == old(View(key)).None?
      ensures keys == if set_ then old(keys)[key := Hold(value, now + expiry)] else old(keys)
    {
      set_ := View(key).None?;
      if set_ {
        keys := keys[key := Hold(value, now + expiry)];
      }
    }

    method UnlockScript(key: string, value: string) returns (n: int)
      modifies this`keys
      ensures n == (if old(View(key)).Some? && old(View(key)).value.value == value then 1 else 0)
      ensures keys == if n == 1 then old(keys) - {key} else old(keys)
    {
      var got := View(key);
      if got.Some? && got.value.value == value {
        keys := keys - {key};
        return 1;
      }
      return 0;
    }

    method RefreshScript(key: string, value: string, expiry: Expiry) returns (n: int)
      modifies this`keys
      ensures n == (if old(View(key)).Some? && old(View(key)).value.value == value then 1 else 0)
      ensures keys == if n == 1 then old(keys)[key := Hold(value, now + expiry)] else old(keys)
    {
      var got := View(key);
      if got.Some? && got.value.value == value {
        keys := keys[key := Hold(got.value.value, now + expiry)];
        return 1;
      }
      return 0;
    }
  }

  class DLock {
    const key: string
    const value: string
    const expiry: Expiry
    var locked: bool

    constructor (key: string, value: string, expiry: Expiry)
      ensures this.key == key && this.value == value && this.expiry == expiry && !locked
    {
      this.key, this.value, this.expiry, locked := key, value, expiry, false;
    }

    method TryLock(redis: RedisServer, net: Net) returns (err: Option<Error>)
      modifies this`locked, redis`keys
      ensures LockResult(redis.View(key), locked, err) ==
              Through(net, old(redis.View(key)), old(locked),
                      TryLockSpec(old(redis.View(key)), redis.now, value, expiry, old(locked)))
      ensures redis.keys - {key} == old(redis.keys) - {key}
      ensures var free := key !in old(redis.keys) || old(redis.keys)[key].expire < redis.now;
              && redis.keys == (if free && !net.NotSent? then old(redis.keys)[key := Hold(value, redis.now + expiry)]
                                else old(redis.keys))
              && err == (if !net.Answered? then Some(RedisFailure) else if free then None else Some(LockNotObtained))
              && locked == (old(locked) || (free && net.Answered?))
    {
      if net.NotSent? {
        return Some(RedisFailure);
      }
      var set_ := redis.SetNX(key, value, expiry);
      if net.ReplyLost? {
        return Some(RedisFailure);
      }
      if set_ {
        locked := true;
        return None;
      }
      return Some(LockNotObtained);
    }

    /** Without the flag Redis is not asked at all. */
    method Unlock(redis: RedisServer, net: Net) returns (err: Option<Error>)
      modifies this`locked, redis`keys
      ensures var o := UnlockSpec(old(redis.View(key)), value, old(locked));
              LockResult(redis.View(key), locked, err) ==
              if old(locked) then Through(net, old(redis.View(key)), old(locked), o) else o
      ensures redis.keys - {key} == old(redis.keys) - {key}
      ensures var mine := && old(locked) && key in old(redis.keys) && old(redis.keys)[key].value == value
                          && redis.now <= old(redis.keys)[key].expire;
              && redis.keys == (if mine && !net.NotSent? then old(redis.keys) - {key} else old(redis.keys))
              && err == (if old(locked) && !net.Answered? then Some(RedisFailure)
                         else if mine then None else Some(LockNotHeld))
              && locked == (old(locked) && !(mine && net.Answered?))
    {
      if !locked {
        return Some(LockNotHeld);
      }
      if net.NotSent? {
        return Some(RedisFailure);
      }
      var n := redis.UnlockScript(key, value);
      if net.ReplyLost? {
        return Some(RedisFailure);
      }
      if n == 1 {
        locked := false;
        return None;
      }
      return Some(LockNotHeld);
    }

    method Refresh(redis: RedisServer, net: Net) returns (err: Option<Error>)
      modifies redis`keys
      ensures var o := RefreshSpec(old(redis.View(key)), redis.now, value, expiry, locked);
              LockResult(redis.View(key), locked, err) ==
              if locked then Through(net, old(redis.View(key)), locked, o) else o
      ensures redis.keys - {key} == old(redis.keys) - {key}
      ensures var mine := && locked && key in old(redis.keys) && old(redis.keys)[key].value == value
                          && redis.now <= old(redis.keys)[key].expire;
              && redis.keys == (if mine && !net.NotSent? then old(redis.keys)[key := Hold(value, redis.now + expiry)]
                                else old(redis.keys))
              && err == (if locked && !net.Answered? then Some(RedisFailure)
                         else if mine then None else Some(LockNotHeld))
    {
      if !locked {
        return Some(LockNotHeld);
      }
      if net.NotSent? {
        return Some(RedisFailure);
      }
      var n := redis.RefreshScript(key, value, expiry);
      if net.ReplyLost? {
        return Some(RedisFailure);
      }
      if n == 1 {
        return None;
      }
      return Some(LockNotHeld);
    }

    /** Retries until the context ends. `world` is, for each attempt, what becomes of the request and what
        everybody else has made of Redis. The lock is obtained at the first attempt that is answered and
        finds the key free, or not at all. */
    method Lock(redis: RedisServer, world: seq<(Net, nat, map<string, Hold>)>) returns (obtained: bool, attempts: nat)
      modifies this`locked, redis
      ensures attempts <= |world|
      ensures forall i | 0 <= i < attempts - (if obtained then 1 else 0) ::
                !world[i].0.Answered? || !Free(world[i].1, world[i].2)
      ensures obtained ==>
                && attempts > 0 && world[attempts - 1].0.Answered? && Free(world[attempts - 1].1, world[attempts - 1].2)
                && locked && redis.View(key) == Some(Hold(value, world[attempts - 1].1 + expiry))
                && redis.keys - {key} == world[attempts - 1].2 - {key}
      ensures !obtained ==> attempts == |world| && locked == old(locked)
    {
      attempts := 0;
      while attempts < |world|
        invariant attempts <= |world| && locked == old(locked)
        invariant forall i | 0 <= i < attempts :: !world[i].0.Answered? || !Free(world[i].1, world[i].2)
      {
        redis.now, redis.keys := world[attempts].1, world[attempts].2;
        var err := TryLock(redis, world[attempts].0);
        attempts := attempts + 1;
        if err.None? {
          return true, attempts;
        }
      }
      return false, attempts;
    }

    predicate Free(now: nat, keys: map<string, Hold>) {
      Holder(if key in keys then Some(keys[key]) else None, now).None?
    }
  }
}

/** Any number of clients with different values on one key, and replies that may get lost. */
module DLockSafety {
  import opened Wrappers
  import opened DLock

  /** `last`: when this client was last told that it took or refreshed the lock.
      `gone`: an unlock of its own has removed the key since, unknown to it.
      `extra`: a lock or refresh of its own has set the key since, unknown to it. */
  datatype Client = Client(value: string, expiry: Expiry, locked: bool, last: Option<nat>, gone: bool, extra: bool)
  datatype Sys = Sys(now: nat, hold: Option<Hold>, clients: seq<Client>)

  datatype Action =
    | Wait(dt: nat)
    | TryLock(c: nat, answered: bool)
    | Unlock(c: nat, answered: bool)
    | Refresh(c: nat, answered: bool)

  predicate Enabled(s: Sys, a: Action) { a.Wait? || a.c < |s.clients| }

  /** What the operation does to the key, and answers if the answer arrives. */
  function Outcome(s: Sys, a: Action): LockResult
    requires Enabled(s, a) && !a.Wait?
  {
    var c, h := s.clients[a.c], Holder(s.hold, s.now);
    match a
    case TryLock(_, _) => TryLockSpec(h, s.now, c.value, c.expiry, c.locked)
    case Unlock(_, _) => UnlockSpec(h, c.value, c.locked)
    case Refresh(_, _) => RefreshSpec(h, s.now, c.value, c.expiry, c.locked)
  }

  predicate Effective(s: Sys, a: Action)
    requires Enabled(s, a)
  {
    !a.Wait? && Outcome(s, a).err.None?
  }

  /** The client is told that it has the lock for another full expiry. */
  predicate Gains(s: Sys, a: Action, c: nat)
    requires Enabled(s, a)
  {
    (a.TryLock? || a.Refresh?) && a.c == c && a.answered && Effective(s, a)
  }

  predicate Releases(s: Sys, a: Action, c: nat)
    requires Enabled(s, a)
  {
    a.Unlock? && a.c == c && Effective(s, a)
  }

  function Told(s: Sys, a: Action): Client
    requires Enabled(s, a) && !a.Wait?
  {
    var o, c := Outcome(s, a), s.clients[a.c];
    if !Effective(s, a) then c
    else if a.answered then
      c.(locked := o.locked, last := if a.Unlock? then c.last else Some(s.now), gone := false, extra := false)
    else c.(gone := a.Unlock?, extra := !a.Unlock?)
  }

  function Next(s: Sys, a: Action): Sys
    requires Enabled(s, a)
  {
    if a.Wait? then s.(now := s.now + a.dt)
    else Sys(s.now, Outcome(s, a).hold, s.clients[a.c := Told(s, a)])
  }

  /** A request that is sent takes its client and the key where one call of the lock object takes them; one that
      is not sent leaves both alone. */
  lemma StepIsCall(s: Sys, a: Action, net: Net)
    requires Enabled(s, a) && !a.Wait? && (a.answered <==> net.Answered?)
    ensures var h, c, told := Holder(s.hold, s.now), s.clients[a.c], Next(s, a).clients[a.c];
            var r := Through(net, h, c.locked, Outcome(s, a));
            if net.NotSent? then r == LockResult(h, c.locked, Some(RedisFailure))
            else
              && r.hold == Next(s, a).hold && r.locked == told.locked
              && (r.err == None <==> Effective(s, a) && a.answered)
              && (r.err == None && !a.Unlock? ==> told == c.(locked := true, last := Some(s.now), gone := false, extra := false))
              && (r.err == None && a.Unlock? ==> told == c.(locked := false, gone := false, extra := false))
              && (r.err != None && !Effective(s, a) ==> told == c)
              && (r.err != None && Effective(s, a) ==> told == c.(gone := a.Unlock?, extra := !a.Unlock?))
  {
  }

  predicate Holds(s: Sys, c: nat)
    requires c < |s.clients|
  {
    Holder(s.hold, s.now).Some? && Holder(s.hold, s.now).value.value == s.clients[c].value
  }

  /** Going by its own flag and its own clock, the client has the lock. */
  predicate Believes(s: Sys, c: nat)
    requires c < |s.clients|
  {
    var cl := s.clients[c];
    cl.locked && cl.last.Some? && s.now <= cl.last.value + cl.expiry
  }

  predicate Distinct(clients: seq<Client>) {
    forall i, j | 0 <= i < j < |clients| :: clients[i].value != clients[j].value
  }

  /** A client that believes to have the lock has it unless its own unlock went unnoticed; a client that
      has it believes so unless its own lock or refresh went unnoticed. */
  ghost predicate ClientOk(s: Sys, c: nat)
    requires c < |s.clients|
  {
    var cl := s.clients[c];
    && (cl.last.Some? ==> cl.last.value <= s.now)
    && (cl.locked ==> cl.last.Some?)
    && (cl.gone ==> !Holds(s, c))
    && (Believes(s, c) && !cl.gone ==> Holds(s, c) && Holder(s.hold, s.now).value.expire >= cl.last.value + cl.expiry)
    && (Holds(s, c) && !cl.extra ==> Believes(s, c) && Holder(s.hold, s.now).value.expire == cl.last.value + cl.expiry)
  }

  ghost predicate Inv(s: Sys) {
    && Distinct(s.clients)
    && (forall c | 0 <= c < |s.clients| :: ClientOk(s, c))
    && (Holder(s.hold, s.now).Some? ==> exists c | 0 <= c < |s.clients| :: Holds(s, c))
  }

  lemma WaitKeepsInv(s: Sys, dt: nat)
    requires Inv(s)
    ensures Inv(Next(s, Wait(dt)))
  {
    var s' := Next(s, Wait(dt));
    assert forall c | 0 <= c < |s.clients| :: Holds(s', c) ==> Holds(s, c);
    if Holder(s'.hold, s'.now).Some? {
      var c :| 0 <= c < |s.clients| && Holds(s, c);
      assert Holds(s', c);
    }
    forall c | 0 <= c < |s.clients|
      ensures ClientOk(s', c)
    {
      assert ClientOk(s, c);
    }
  }

  /** Nobody else is touched by an operation: it changes the key only if it is free or the client's own. */
  lemma OthersUntouched(s: Sys, a: Action, c: nat)
    requires Inv(s) && Enabled(s, a) && !a.Wait? && c < |s.clients| && c != a.c
    ensures ClientOk(Next(s, a), c)
  {
    assert ClientOk(s, c);
    assert s.clients[c].value != s.clients[a.c].value;
  }

  lemma StepKeepsInv(s: Sys, a: Action)
    requires Inv(s) && Enabled(s, a)
    ensures Inv(Next(s, a))
  {
    var s' := Next(s, a);
    if a.Wait? {
      WaitKeepsInv(s, a.dt);
    } else {
      assert ClientOk(s, a.c);
      assert Distinct(s'.clients);
      forall c | 0 <= c < |s.clients|
        ensures ClientOk(s', c)
      {
        if c != a.c {
          OthersUntouched(s, a, c);
        }
      }
      if Holder(s'.hold, s'.now).Some? {
        if Effective(s, a) {
          assert Holds(s', a.c);
        } else {
          var c :| 0 <= c < |s.clients| && Holds(s, c);
          assert Holds(s', c);
        }
      }
    }
  }

  // ---------- runs ----------

  ghost predicate ValidRun(s: Sys, run: seq<Action>)
    decreases |run|
  {
    run == [] || (Enabled(s, run[0]) && ValidRun(Next(s, run[0]), run[1..]))
  }

  ghost function Final(s: Sys, run: seq<Action>): Sys
    requires ValidRun(s, run)
    decreases |run|
  {
    if run == [] then s else Final(Next(s, run[0]), run[1..])
  }

  predicate Initial(s: Sys) {
    && s.hold.None? && Distinct(s.clients)
    && forall c | 0 <= c < |s.clients| ::
         s.clients[c] == Client(s.clients[c].value, s.clients[c].expiry, false, None, false, false)
  }

  lemma {:induction false} RunKeepsInv(s: Sys, run: seq<Action>)
    requires Inv(s) && ValidRun(s, run)
    ensures Inv(Final(s, run)) && |Final(s, run).clients| == |s.clients|
    decreases |run|
  {
    if run != [] {
      StepKeepsInv(s, run[0]);
      RunKeepsInv(Next(s, run[0]), run[1..]);
    }
  }

  /** What the flag is worth: unless replies got lost since the client's last success, it holds the lock
      exactly while its flag is up and that success is not older than the expiry. A flag that is up
      longer says nothing. */
  lemma FlagAndHold(s0: Sys, run: seq<Action>, c: nat)
    requires Initial(s0) && ValidRun(s0, run) && c < |s0.clients|
    ensures var s := Final(s0, run);
            && |s.clients| == |s0.clients|
            && (Believes(s, c) ==> (Holds(s, c) <==> !s.clients[c].gone))
            && (!s.clients[c].extra ==> (Holds(s, c) <==> Believes(s, c) && !s.clients[c].gone))
  {
    RunKeepsInv(s0, run);
    assert ClientOk(Final(s0, run), c);
  }

  /** Mutual exclusion: in no reachable state do two clients believe to have the lock at the same time,
      unless one of them has unlocked it without learning so. */
  lemma MutualExclusion(s0: Sys, run: seq<Action>, c: nat, d: nat)
    requires Initial(s0) && ValidRun(s0, run) && c < |s0.clients| && d < |s0.clients| && c != d
    ensures var s := Final(s0, run);
            && |s.clients| == |s0.clients|
            && (Believes(s, c) && Believes(s, d) ==> s.clients[c].gone || s.clients[d].gone)
  {
    RunKeepsInv(s0, run);
    var s := Final(s0, run);
    assert ClientOk(s, c) && ClientOk(s, d);
    assert s.clients[c].value != s.clients[d].value;
  }

  /** The exception is real: whenever a client that has the lock loses the reply to its unlock, any other
      client can take the lock at once, and both believe to have it. */
  lemma LostUnlockSplits(s: Sys, c: nat, d: nat)
    requires Inv(s) && c < |s.clients| && d < |s.clients| && c != d && Holds(s, c) && Believes(s, c)
    ensures var s' := Next(Next(s, Unlock(c, false)), TryLock(d, true));
            Believes(s', c) && Believes(s', d) && Holds(s', d)
  {
  }

  ghost predicate NeverReleases(s: Sys, run: seq<Action>, c: nat)
    requires ValidRun(s, run)
    decreases |run|
  {
    run == [] || (!Releases(s, run[0], c) && NeverReleases(Next(s, run[0]), run[1..], c))
  }

  lemma {:induction false} LockedUntilRelease(s: Sys, run: seq<Action>, c: nat)
    requires Inv(s) && ValidRun(s, run) && c < |s.clients| && NeverReleases(s, run, c)
    requires s.clients[c].locked && !s.clients[c].gone
    ensures var s' := Final(s, run);
            && Inv(s') && |s'.clients| == |s.clients|
            && s'.clients[c].locked && !s'.clients[c].gone && s'.clients[c].expiry == s.clients[c].expiry
            && s.clients[c].last.Some? && s'.clients[c].last.Some?
            && s.clients[c].last.value <= s'.clients[c].last.value && s.now <= s'.now
    decreases |run|
  {
    assert ClientOk(s, c);
    if run != [] {
      StepKeepsInv(s, run[0]);
      LockedUntilRelease(Next(s, run[0]), run[1..], c);
    }
  }

  /** From a successful TryLock or Refresh until its expiry or its own Unlock, a client keeps the key
      and everybody else's TryLock fails, in every reachable state and whatever happens in between. */
  lemma ExclusionWindow(s0: Sys, before: seq<Action>, a: Action, after: seq<Action>, c: nat, d: nat)
    requires Initial(s0) && ValidRun(s0, before) && c < |s0.clients| && d < |s0.clients| && c != d
    requires var s := Final(s0, before);
             && Enabled(s, a) && Gains(s, a, c) && ValidRun(Next(s, a), after) && NeverReleases(Next(s, a), after, c)
             && |s.clients| == |s0.clients|
             && Final(Next(s, a), after).now <= s.now + s.clients[c].expiry
    ensures var s' := Final(Next(Final(s0, before), a), after);
            && |s'.clients| == |s0.clients|
            && Holds(s', c) && Outcome(s', TryLock(d, true)).err == Some(LockNotObtained)
  {
    RunKeepsInv(s0, before);
    var s := Final(s0, before);
    StepKeepsInv(s, a);
    LockedUntilRelease(Next(s, a), after, c);
    assert ClientOk(Final(Next(s, a), after), c);
  }

  /** One action takes the key away from its holder exactly if it is the holder's own Unlock, answered or
      not, or time passing the expiry. */
  lemma OnlyOwnerOrTimeRemoves(s: Sys, a: Action, c: nat)
    requires Inv(s) && Enabled(s, a) && c < |s.clients| && Holds(s, c)
    ensures !Holds(Next(s, a), c) <==> Releases(s, a, c) || (a.Wait? && s.now + a.dt > Holder(s.hold, s.now).value.expire)
  {
    assert ClientOk(s, c);
    if !a.Wait? && a.c != c {
      assert s.clients[a.c].value != s.clients[c].value;
    }
  }

  /** IsLocked is not the same as holding the lock: waiting past the expiry ends any hold and no flag. */
  lemma FlagOutlivesHold(s: Sys, c: nat, dt: nat)
    requires Inv(s) && c < |s.clients| && Holds(s, c) && s.clients[c].locked
    ensures var s' := Next(s, Wait(dt));
            s'.clients[c].locked && (!Holds(s', c) <==> s.now + dt > Holder(s.hold, s.now).value.expire)
  {
  }
}
