/** How old a returned location can be when nothing is atomic: the script, the conversion of its
    reply, the cache fill, the two cache looks of a lookup and the hand-over of a shared
    singleflight result are separate actions, with anything else in between. */
module RegistryStaleness {
  import opened Wrappers
  import opened ActorKeys
  import opened RegistrySpec
  import opened LocationCache

  /** A location together with the instant Redis answered with it, and the time from there until the
      cache was filled with it or the shared lookup handed it out. */
  datatype Reading = Reading(node: string, at: nat, spent: nat)

  datatype Cached = Cached(entry: CacheEntry, reading: Reading)

  /** A Register, TakeOver, Unregister or KeepAlive in progress; once its script has run, what it
      will do to the cache and when the script ran. */
  datatype Pending = Pending(uid: ActorUID, op: Op, ttl: nat, start: nat, ran: Option<(Effect, nat)>)

  /** Began: before the second cache look. Missed: before the script. Read: before the fill. */
  datatype Stage = Began | Missed | Read(node: string, ttl: int, at: nat) | Finished(at: nat, result: Option<Reading>)
  datatype Flight = Flight(uid: ActorUID, start: nat, stage: Stage)

  datatype Get =
    | Looking(uid: ActorUID, start: nat)
    | Waiting(uid: ActorUID, start: nat, flight: nat)
    | Got(uid: ActorUID, start: nat, result: Option<Reading>)

  /** One node. `hist` is every store state so far, the present one last. */
  datatype Sys = Sys(hist: seq<Store>, cache: map<ActorUID, Cached>, calls: map<nat, Pending>,
                     flights: map<nat, Flight>, gets: map<nat, Get>)
  {
    function Store(): Store
      requires hist != []
    {
      hist[|hist| - 1]
    }
    function Now(): nat
      requires hist != []
    {
      Store().now
    }
    function Hit(uid: ActorUID): Option<Reading>
      requires hist != []
    {
      if uid in cache && Fresh(cache[uid].entry, Now()) then Some(cache[uid].reading) else None
    }
  }

  /** `longest`: no store call and no shared lookup of this node takes longer. */
  datatype Env = Env(cfg: Config, longest: nat)

  datatype Action =
    | Pause(dt: nat)
    | Elsewhere(uid: ActorUID, op: Op, ttl: nat)
    | Forget(uid: ActorUID)
    | BeginCall(id: nat, uid: ActorUID, op: Op, ttl: nat)
    | RunScript(id: nat)
    | EndCall(id: nat, answered: bool, tc: nat)
    | BeginGet(id: nat, uid: ActorUID)
    | LookFirst(id: nat, flight: nat)
    | LookAgain(flight: nat)
    | ReadStore(flight: nat)
    | FillAndFinish(flight: nat, tc: nat)
    | Collect(id: nat)

  predicate Enabled(env: Env, s: Sys, a: Action)
    requires s.hist != []
  {
    match a
    case Pause(_) => true
    case Elsewhere(_, _, _) => true
    case Forget(_) => true
    case BeginCall(id, _, op, _) => id !in s.calls && !op.GetLocation?
    case RunScript(id) => id in s.calls && s.calls[id].ran.None?
    case EndCall(id, answered, tc) =>
      && id in s.calls && s.calls[id].ran.Some? && s.calls[id].ran.value.1 <= s.Now()
      && s.Now() <= s.calls[id].start + env.longest
    case BeginGet(id, _) => id !in s.gets
    case LookFirst(id, flight) =>
      && id in s.gets && s.gets[id].Looking?
      && var uid := s.gets[id].uid;
         // a miss joins the unfinished lookup of the same key, or starts one
         s.Hit(uid).None? ==>
           if flight in s.flights then s.flights[flight].uid == uid && !s.flights[flight].stage.Finished?
           else forall f <- s.flights :: s.flights[f].uid == uid ==> s.flights[f].stage.Finished?
    case LookAgain(f) =>
      f in s.flights && s.flights[f].stage.Began? && s.flights[f].start <= s.Now() <= s.flights[f].start + env.longest
    case ReadStore(f) => f in s.flights && s.flights[f].stage.Missed?
    case FillAndFinish(f, _) =>
      && f in s.flights && s.flights[f].stage.Read? && s.flights[f].stage.at <= s.Now()
      && s.Now() <= s.flights[f].start + env.longest
    case Collect(id) =>
      && id in s.gets && s.gets[id].Waiting?
      && s.gets[id].flight in s.flights && s.flights[s.gets[id].flight].stage.Finished?
  }

  /** cacheLocation now, of a reading converted at tc. */
  function Filled(env: Env, cache: map<ActorUID, Cached>, uid: ActorUID, ttl: int, tc: nat, now: nat,
                  r: Reading): map<ActorUID, Cached>
  {
    match NewEntry(env.cfg, Location(r.node, TTLToExpireAt(ttl, tc)), now)
    case Some(e) => cache[uid := Cached(e, r)]
    case None => cache - {uid}
  }

  /** What an answered call does to the cache. */
  function Settle(env: Env, s: Sys, c: Pending, tc: nat): Sys
    requires s.hist != [] && c.ran.Some? && c.ran.value.1 <= s.Now()
  {
    match c.ran.value.0
    case Fill(node, ttl) =>
      var at := c.ran.value.1;
      s.(cache := Filled(env, s.cache, c.uid, ttl, tc, s.Now(), Reading(node, at, s.Now() - at)))
    case Drop => s.(cache := s.cache - {c.uid})
    case Keep => s
  }

  /** A shared lookup caches what it read and is ready to hand it out. */
  function Land(env: Env, s: Sys, f: nat, tc: nat): Sys
    requires s.hist != [] && f in s.flights && s.flights[f].stage.Read? && s.flights[f].stage.at <= s.Now()
  {
    var fl := s.flights[f];
    var r := Reading(fl.stage.node, fl.stage.at, s.Now() - fl.stage.at);
    s.(flights := s.flights[f := fl.(stage := Finished(s.Now(), Some(r)))],
       cache := Filled(env, s.cache, fl.uid, fl.stage.ttl, tc, s.Now(), r))
  }

  function Next(env: Env, s: Sys, a: Action): Sys
    requires s.hist != [] && Enabled(env, s, a)
  {
    var now := s.Now();
    match a
    case Pause(dt) => s.(hist := s.hist + [s.Store().Tick(dt)])
    case Elsewhere(uid, op, ttl) => s.(hist := s.hist + [s.Store().Call(uid, op, ttl)])
    case Forget(uid) => s.(cache := s.cache - {uid})
    case BeginCall(id, uid, op, ttl) => s.(calls := s.calls[id := Pending(uid, op, ttl, now, None)])
    case RunScript(id) =>
      var c := s.calls[id];
      var reply := s.Store().Result(c.uid, c.op, c.ttl).reply;
      s.(hist := s.hist + [s.Store().Call(c.uid, c.op, c.ttl)],
         calls := s.calls[id := c.(ran := Some((EffectOf(c.op, c.ttl, reply), now)))])
    case EndCall(id, answered, tc) =>
      var s1 := s.(calls := s.calls - {id});
      if answered then Settle(env, s1, s.calls[id], tc) else s1
    case BeginGet(id, uid) => s.(gets := s.gets[id := Looking(uid, now)])
    case LookFirst(id, f) =>
      var g := s.gets[id];
      if s.Hit(g.uid).Some? then s.(gets := s.gets[id := Got(g.uid, g.start, s.Hit(g.uid))])
      else if f in s.flights then s.(gets := s.gets[id := Waiting(g.uid, g.start, f)])
      else s.(gets := s.gets[id := Waiting(g.uid, g.start, f)], flights := s.flights[f := Flight(g.uid, now, Began)])
    case LookAgain(f) =>
      var fl := s.flights[f];
      (match s.Hit(fl.uid)
       case Some(r) => s.(flights := s.flights[f := fl.(stage := Finished(now, Some(r)))])
       case None => s.(flights := s.flights[f := fl.(stage := Missed)]))
    case ReadStore(f) =>
      var fl := s.flights[f];
      var reply := s.Store().Result(fl.uid, GetLocation, 0).reply;
      var stage := if reply.Located? then Read(reply.node, reply.ttl, now) else Finished(now, None);
      s.(flights := s.flights[f := fl.(stage := stage)])
    case FillAndFinish(f, tc) => Land(env, s, f, tc)
    case Collect(id) =>
      var g := s.gets[id];
      s.(gets := s.gets[id := Got(g.uid, g.start, s.flights[g.flight].stage.result)])
  }

  // ---------- the invariant ----------

  /** Redis named this owner at that instant. */
  ghost predicate Recorded(hist: seq<Store>, uid: ActorUID, r: Reading) {
    exists k | 0 <= k < |hist| ::
      && hist[k].now == r.at
      && hist[k].Current(uid).Some? && hist[k].Current(uid).value.node == r.node
  }

  /** Usable until `t`: real, and no older at `t` than the cache allows plus the time it took into the cache. */
  ghost predicate GoodUntil(env: Env, hist: seq<Store>, uid: ActorUID, r: Reading, t: nat) {
    Recorded(hist, uid, r) && t <= r.at + env.cfg.maxTTL + r.spent
  }

  ghost predicate CallOk(s: Sys, c: Pending)
    requires s.hist != []
  {
    && c.start <= s.Now() && !c.op.GetLocation?
    && (c.ran.Some? && c.ran.value.0.Fill? ==>
          c.start <= c.ran.value.1 <= s.Now() && Recorded(s.hist, c.uid, Reading(c.ran.value.0.node, c.ran.value.1, 0)))
  }

  ghost predicate FlightOk(env: Env, s: Sys, f: Flight)
    requires s.hist != []
  {
    && f.start <= s.Now()
    && match f.stage
       case Read(node, _, at) => f.start <= at <= s.Now() && Recorded(s.hist, f.uid, Reading(node, at, 0))
       case Finished(at, Some(r)) => at <= s.Now() && GoodUntil(env, s.hist, f.uid, r, at) && r.spent <= env.longest
       case _ => true
  }

  ghost predicate GetOk(env: Env, s: Sys, g: Get)
    requires s.hist != []
  {
    && g.start <= s.Now()
    && match g
       case Looking(_, _) => true
       case Waiting(uid, start, f) =>
         f in s.flights && s.flights[f].uid == uid && (s.flights[f].stage.Finished? ==> start <= s.flights[f].stage.at)
       case Got(uid, start, result) =>
         result.Some? ==> GoodUntil(env, s.hist, uid, result.value, start) && result.value.spent <= env.longest
  }

  ghost predicate CacheOk(env: Env, s: Sys, uid: ActorUID, c: Cached) {
    GoodUntil(env, s.hist, uid, c.reading, c.entry.expireAt) && c.reading.spent <= env.longest
  }

  ghost predicate Inv(env: Env, s: Sys) {
    && s.hist != []
    && (forall uid <- s.cache :: CacheOk(env, s, uid, s.cache[uid]))
    && (forall id <- s.calls :: CallOk(s, s.calls[id]))
    && (forall f <- s.flights :: FlightOk(env, s, s.flights[f]))
    && (forall id <- s.gets :: GetOk(env, s, s.gets[id]))
  }

  lemma RecordedStays(hist: seq<Store>, next: Store, uid: ActorUID, r: Reading)
    requires Recorded(hist, uid, r)
    ensures Recorded(hist + [next], uid, r)
  {
    var k :| 0 <= k < |hist| && hist[k].now == r.at && hist[k].Current(uid).Some? && hist[k].Current(uid).value.node == r.node;
    assert (hist + [next])[k] == hist[k];
  }

  lemma RecordedWhateverSpent(hist: seq<Store>, uid: ActorUID, r: Reading, spent: nat)
    requires Recorded(hist, uid, r)
    ensures Recorded(hist, uid, r.(spent := spent))
  {
  }

  /** Nothing already known becomes wrong when the store moves on. */
  lemma StoreMoves(env: Env, s: Sys, next: Store)
    requires Inv(env, s) && s.Now() <= next.now
    ensures Inv(env, s.(hist := s.hist + [next]))
  {
    var s' := s.(hist := s.hist + [next]);
    assert s'.Now() == next.now;
    forall uid <- s.cache
      ensures CacheOk(env, s', uid, s'.cache[uid])
    {
      RecordedStays(s.hist, next, uid, s.cache[uid].reading);
    }
    forall id <- s.calls
      ensures CallOk(s', s'.calls[id])
    {
      var c := s.calls[id];
      if c.ran.Some? && c.ran.value.0.Fill? {
        RecordedStays(s.hist, next, c.uid, Reading(c.ran.value.0.node, c.ran.value.1, 0));
      }
    }
    forall f <- s.flights
      ensures FlightOk(env, s', s'.flights[f])
    {
      var fl := s.flights[f];
      if fl.stage.Read? {
        RecordedStays(s.hist, next, fl.uid, Reading(fl.stage.node, fl.stage.at, 0));
      } else if fl.stage.Finished? && fl.stage.result.Some? {
        RecordedStays(s.hist, next, fl.uid, fl.stage.result.value);
      }
    }
    forall id <- s.gets
      ensures GetOk(env, s', s'.gets[id])
    {
      var g := s.gets[id];
      if g.Got? && g.result.Some? {
        RecordedStays(s.hist, next, g.uid, g.result.value);
      }
    }
  }

  /** The owner a call will cache is the owner its script left in the store. */
  lemma ScriptRecordsOwner(s: Sys, uid: ActorUID, op: Op, ttl: nat)
    requires s.hist != [] && !op.GetLocation?
    requires EffectOf(op, ttl, s.Store().Result(uid, op, ttl).reply).Fill?
    ensures Recorded(s.hist + [s.Store().Call(uid, op, ttl)], uid,
                     Reading(EffectOf(op, ttl, s.Store().Result(uid, op, ttl).reply).node, s.Now(), 0))
  {
    var hist := s.hist + [s.Store().Call(uid, op, ttl)];
    CallOnlyTouches(s.Store(), uid, op, ttl, uid);
    assert hist[|s.hist|] == s.Store().Call(uid, op, ttl);
  }

  lemma FilledOk(env: Env, s: Sys, uid: ActorUID, ttl: int, tc: nat, r: Reading, start: nat)
    requires Inv(env, s) && Recorded(s.hist, uid, r)
    requires start <= r.at <= s.Now() <= start + env.longest && r.spent == s.Now() - r.at
    ensures Inv(env, s.(cache := Filled(env, s.cache, uid, ttl, tc, s.Now(), r)))
  {
  }

  lemma ForgetCall(env: Env, s: Sys, id: nat)
    requires Inv(env, s)
    ensures Inv(env, s.(calls := s.calls - {id}))
  {
  }

  lemma EndCallKeepsInv(env: Env, s: Sys, id: nat, answered: bool, tc: nat)
    requires Inv(env, s) && Enabled(env, s, EndCall(id, answered, tc))
    ensures Inv(env, Next(env, s, EndCall(id, answered, tc)))
  {
    ForgetCall(env, s, id);
    assert CallOk(s, s.calls[id]);
    if answered {
      SettleKeepsInv(env, s.(calls := s.calls - {id}), s.calls[id], tc);
    }
  }

  lemma SettleKeepsInv(env: Env, s: Sys, c: Pending, tc: nat)
    requires Inv(env, s) && CallOk(s, c) && c.ran.Some? && c.ran.value.1 <= s.Now() <= c.start + env.longest
    ensures Inv(env, Settle(env, s, c, tc))
  {
    match c.ran.value.0
    case Fill(node, ttl) =>
      var at, spent := c.ran.value.1, s.Now() - c.ran.value.1;
      RecordedWhateverSpent(s.hist, c.uid, Reading(node, at, 0), spent);
      FilledOk(env, s, c.uid, ttl, tc, Reading(node, at, spent), c.start);
      assert Settle(env, s, c, tc) == s.(cache := Filled(env, s.cache, c.uid, ttl, tc, s.Now(), Reading(node, at, spent)));
    case Drop => DropKeepsInv(env, s, c.uid);
    case Keep =>
  }

  lemma DropKeepsInv(env: Env, s: Sys, uid: ActorUID)
    requires Inv(env, s)
    ensures Inv(env, s.(cache := s.cache - {uid}))
  {
  }

  /** Changing the stage of one flight keeps everything else in order. */
  lemma FlightMoves(env: Env, s: Sys, f: nat, fl: Flight)
    requires Inv(env, s) && FlightOk(env, s, fl)
    requires f in s.flights ==> s.flights[f].uid == fl.uid && !s.flights[f].stage.Finished?
    requires fl.stage.Finished? ==> fl.stage.at == s.Now()
    ensures Inv(env, s.(flights := s.flights[f := fl]))
  {
  }

  lemma GetMoves(env: Env, s: Sys, id: nat, g: Get)
    requires Inv(env, s) && GetOk(env, s, g)
    ensures Inv(env, s.(gets := s.gets[id := g]))
  {
  }

  lemma CallMoves(env: Env, s: Sys, id: nat, c: Pending)
    requires Inv(env, s) && CallOk(s, c)
    ensures Inv(env, s.(calls := s.calls[id := c]))
  {
  }

  lemma LookFirstKeepsInv(env: Env, s: Sys, id: nat, f: nat)
    requires Inv(env, s) && Enabled(env, s, LookFirst(id, f))
    ensures Inv(env, Next(env, s, LookFirst(id, f)))
  {
    var g := s.gets[id];
    assert GetOk(env, s, g);
    if s.Hit(g.uid).Some? {
      assert CacheOk(env, s, g.uid, s.cache[g.uid]);
      GetMoves(env, s, id, Got(g.uid, g.start, s.Hit(g.uid)));
    } else if f in s.flights {
      GetMoves(env, s, id, Waiting(g.uid, g.start, f));
    } else {
      FlightMoves(env, s, f, Flight(g.uid, s.Now(), Began));
      GetMoves(env, s.(flights := s.flights[f := Flight(g.uid, s.Now(), Began)]), id, Waiting(g.uid, g.start, f));
    }
  }

  lemma LookAgainKeepsInv(env: Env, s: Sys, f: nat)
    requires Inv(env, s) && Enabled(env, s, LookAgain(f))
    ensures Inv(env, Next(env, s, LookAgain(f)))
  {
    var fl := s.flights[f];
    assert FlightOk(env, s, fl);
    match s.Hit(fl.uid)
    case None => FlightMoves(env, s, f, fl.(stage := Missed));
    case Some(r) =>
      assert CacheOk(env, s, fl.uid, s.cache[fl.uid]);
      FlightMoves(env, s, f, fl.(stage := Finished(s.Now(), Some(r))));
  }

  lemma ReadStoreKeepsInv(env: Env, s: Sys, f: nat)
    requires Inv(env, s) && Enabled(env, s, ReadStore(f))
    ensures Inv(env, Next(env, s, ReadStore(f)))
  {
  }

  lemma LandKeepsInv(env: Env, s: Sys, f: nat, tc: nat)
    requires Inv(env, s) && f in s.flights && s.flights[f].stage.Read?
    requires s.flights[f].stage.at <= s.Now() <= s.flights[f].start + env.longest
    ensures Inv(env, Land(env, s, f, tc))
  {
  }

  lemma RunScriptKeepsInv(env: Env, s: Sys, id: nat)
    requires Inv(env, s) && Enabled(env, s, RunScript(id))
    ensures Inv(env, Next(env, s, RunScript(id)))
  {
    var c := s.calls[id];
    assert CallOk(s, c);
    var store := s.Store().Call(c.uid, c.op, c.ttl);
    var effect := EffectOf(c.op, c.ttl, s.Store().Result(c.uid, c.op, c.ttl).reply);
    if effect.Fill? {
      ScriptRecordsOwner(s, c.uid, c.op, c.ttl);
    }
    StoreMoves(env, s, store);
    CallMoves(env, s.(hist := s.hist + [store]), id, c.(ran := Some((effect, s.Now()))));
  }

  lemma CollectKeepsInv(env: Env, s: Sys, id: nat)
    requires Inv(env, s) && Enabled(env, s, Collect(id))
    ensures Inv(env, Next(env, s, Collect(id)))
  {
  }

  lemma StepKeepsInv(env: Env, s: Sys, a: Action)
    requires Inv(env, s) && Enabled(env, s, a)
    ensures Inv(env, Next(env, s, a))
  {
    match a
    case Pause(dt) => StoreMoves(env, s, s.Store().Tick(dt));
    case Elsewhere(uid, op, ttl) => StoreMoves(env, s, s.Store().Call(uid, op, ttl));
    case Forget(uid) => DropKeepsInv(env, s, uid);
    case BeginCall(id, uid, op, ttl) => CallMoves(env, s, id, Pending(uid, op, ttl, s.Now(), None));
    case RunScript(id) => RunScriptKeepsInv(env, s, id);
    case EndCall(id, answered, tc) => EndCallKeepsInv(env, s, id, answered, tc);
    case BeginGet(id, uid) => GetMoves(env, s, id, Looking(uid, s.Now()));
    case LookFirst(id, f) => LookFirstKeepsInv(env, s, id, f);
    case LookAgain(f) => LookAgainKeepsInv(env, s, f);
    case ReadStore(f) => ReadStoreKeepsInv(env, s, f);
    case FillAndFinish(f, tc) => LandKeepsInv(env, s, f, tc);
    case Collect(id) => CollectKeepsInv(env, s, id);
  }

  // ---------- runs ----------

  ghost predicate ValidRun(env: Env, s: Sys, run: seq<Action>)
    decreases |run|
  {
    && s.hist != []
    && (run == [] || (Enabled(env, s, run[0]) && ValidRun(env, Next(env, s, run[0]), run[1..])))
  }

  ghost function Final(env: Env, s: Sys, run: seq<Action>): Sys
    requires ValidRun(env, s, run)
    decreases |run|
  {
    if run == [] then s else Final(env, Next(env, s, run[0]), run[1..])
  }

  function Initial(store: Store): Sys { Sys([store], map[], map[], map[], map[]) }

  lemma {:induction false} RunKeepsInv(env: Env, s: Sys, run: seq<Action>)
    requires Inv(env, s) && ValidRun(env, s, run)
    ensures Inv(env, Final(env, s, run))
    decreases |run|
  {
    if run != [] {
      StepKeepsInv(env, s, run[0]);
      RunKeepsInv(env, Next(env, s, run[0]), run[1..]);
    }
  }

  /** Whatever the interleaving, a location that a lookup hands out was the owner Redis recorded at
      an earlier instant of the run, at most LocalCacheMaxTTL ago plus the time from its script to its
      cache fill, which lies inside one call, plus the time of the lookup that returns it. */
  lemma BoundedStaleness(env: Env, store: Store, run: seq<Action>, id: nat)
    requires ValidRun(env, Initial(store), run)
    requires var s := Final(env, Initial(store), run);
             s.hist != [] && id in s.gets && s.gets[id].Got? && s.gets[id].result.Some?
    ensures var s := Final(env, Initial(store), run);
            var g, r := s.gets[id], s.gets[id].result.value;
            && Recorded(s.hist, g.uid, r)
            && s.Now() <= r.at + env.cfg.maxTTL + r.spent + (s.Now() - g.start)
            && r.spent <= env.longest
  {
    RunKeepsInv(env, Initial(store), run);
    var s := Final(env, Initial(store), run);
    assert GetOk(env, s, s.gets[id]);
  }
}
