/** Cache coherence of the registry across nodes: an unexpired cached location is right, or the
    node still has an unread change event for that actor. Each store call and the cache fill that
    follows it are one action here; RegistryStaleness takes them apart. */
module RegistryCoherence {
  import opened Wrappers
  import opened ActorKeys
  import opened RegistrySpec
  import opened LocationCache
  import RegistryClient
  import RegistryScripts

  /** A cache entry together with the length of the change log when it was stored. */
  datatype Held = Held(entry: CacheEntry, pos: nat)

  /** Gap: the cursor is "$" and no read is blocking, so new events pass unseen.
      Tailing: a blocking read for "$" was issued when the log had `next` events.
      Concrete: the cursor is a message ID; the next event to read has index `next`. */
  datatype Cursor = Gap | Tailing(next: nat) | Concrete(next: nat)

  /** `start` and `since`: log length and time at which the current gap-free reading began. */
  datatype Node = Node(cache: map<ActorUID, Held>, cursor: Cursor, start: nat, since: nat)

  datatype Sys = Sys(store: Store, low: nat, nodes: seq<Node>)

  /** One TTL for every registration, and the longest delay between a script and its conversion. */
  datatype Env = Env(cfg: Config, ttl: nat, delay: nat)

  datatype Action =
    | Pause(dt: nat)
    | Call(n: nat, uid: ActorUID, op: Op, answered: bool, tc: nat, tn: nat, low: nat)
    | StartTail(n: nat)
    | StopTail(n: nat)
    | FromStart(n: nat)
    | Deliver(n: nat)

  predicate Reads(r: Option<Rec>, op: Op) {
    op.GetLocation? || (op.Register? && r.Some? && r.value.node != "" && r.value.node != op.node)
  }

  /** The index of the event a reader gets next: a reader that was overtaken by trimming resumes at the
      oldest event left. */
  function NextRetained(s: Sys, n: nat): nat
    requires n < |s.nodes| && !s.nodes[n].cursor.Gap?
  {
    if s.nodes[n].cursor.next < s.low then s.low else s.nodes[n].cursor.next
  }

  predicate Enabled(env: Env, s: Sys, a: Action) {
    match a
    case Pause(_) => true
    case Call(n, uid, op, answered, tc, tn, low) =>
      var r := s.store.Current(uid);
      && n < |s.nodes|
      && (!op.GetLocation? ==> op.node != "") // the client refuses an empty node ID
      && s.store.now <= tc <= tn && tc - s.store.now <= env.delay
         // no read in the last millisecond of a record, where PTTL is 0
      && (Reads(r, op) && r.Some? ==> r.value.expire != Some(Ms(s.store.now)))
         // the stream may be trimmed, but not below its newest maxLen events
      && s.low <= low && (low == s.low || low + env.cfg.maxLen <= |s.store.Call(uid, op, env.ttl).log|)
    case StartTail(n) => n < |s.nodes| && s.nodes[n].cursor.Gap?
      // a blocking read for "$" ends without messages only if none arrived, or on an error
    case StopTail(n) => n < |s.nodes| && s.nodes[n].cursor.Tailing?
    case FromStart(n) => n < |s.nodes|
    case Deliver(n) => n < |s.nodes| && !s.nodes[n].cursor.Gap? && NextRetained(s, n) < |s.store.log|
  }

  function CacheOf(node: Node): Cache { map uid <- node.cache :: node.cache[uid].entry }

  /** The caller's cache after a call: LocationCache.Affect, with the log length noted on a fill. */
  function Refill(env: Env, node: Node, uid: ActorUID, effect: Effect, tc: nat, tn: nat, pos: nat): Node {
    match effect
    case Fill(owner, ttl) =>
      (match NewEntry(env.cfg, Location(owner, TTLToExpireAt(ttl, tc)), tn)
       case Some(e) => node.(cache := node.cache[uid := Held(e, pos)])
       case None => node.(cache := node.cache - {uid}))
    case Drop => node.(cache := node.cache - {uid})
    case Keep => node
  }

  lemma RefillIsAffect(env: Env, node: Node, uid: ActorUID, effect: Effect, tc: nat, tn: nat, pos: nat)
    ensures CacheOf(Refill(env, node, uid, effect, tc, tn, pos)) == Affect(env.cfg, CacheOf(node), uid, effect, tc, tn)
  {
  }

  function Next(env: Env, s: Sys, a: Action): Sys
    requires Enabled(env, s, a)
  {
    match a
    case Pause(dt) => s.(store := s.store.Tick(dt))
    case Call(n, uid, op, answered, tc, tn, low) =>
      var o := s.store.Result(uid, op, env.ttl);
      var store := s.store.Call(uid, op, env.ttl);
      if answered then
        var node := Refill(env, s.nodes[n], uid, EffectOf(op, env.ttl, o.reply), tc, tn, |store.log|);
        Sys(store.(now := tn), low, s.nodes[n := node])
      else Sys(store, low, s.nodes)
    case StartTail(n) =>
      s.(nodes := s.nodes[n := s.nodes[n].(cursor := Tailing(|s.store.log|), start := |s.store.log|, since := s.store.now)])
    case StopTail(n) => s.(nodes := s.nodes[n := s.nodes[n].(cursor := Gap)])
    case FromStart(n) =>
      s.(nodes := s.nodes[n := s.nodes[n].(cursor := Concrete(0), start := 0, since := s.store.now)])
    case Deliver(n) =>
      var node, next := s.nodes[n], NextRetained(s, n);
      var read := node.(cursor := Concrete(next + 1), cache := node.cache - {s.store.log[next].uid});
      // events were skipped: gap-free reading begins anew
      s.(nodes := s.nodes[n := if node.cursor.next < s.low then read.(start := s.low, since := s.store.now) else read])
  }

  // ---------- the machine does what the Registry object does ----------

  /** The consumer loop, handed the next event of the stream, does to the object what Deliver does to the
      node. */
  method DeliverIsConsume(env: Env, ghost s: Sys, ghost n: nat, registry: RegistryClient.Registry, k: nat, event: Event)
    requires n < |s.nodes| && Enabled(env, s, Deliver(n)) && k == NextRetained(s, n) && event == s.store.log[k]
    requires registry.locCache == CacheOf(s.nodes[n])
    modifies registry
    ensures var node := Next(env, s, Deliver(n)).nodes[n];
            registry.locCache == CacheOf(node) && registry.lastID == RegistryClient.Following(node.cursor.next)
  {
    var message := RegistryClient.Message(k, Some(event.uid));
    var feed := [RegistryClient.Messages([message])];
    assert feed[0].messages[0].change == Some(event.uid);
    registry.ConsumeLocationChanges(feed);
  }

  /** An answered call, or one whose reply is lost, does to Redis and to the object what Call does to the
      store and the node, for arguments that pass the validation. */
  method CallIsClientCall(env: Env, ghost s: Sys, ghost n: nat, registry: RegistryClient.Registry,
                          redis: RegistryScripts.RedisServer, uid: ActorUID, op: Op, answered: bool, tc: nat, tn: nat,
                          ghost low: nat)
    requires n < |s.nodes| && Enabled(env, s, Call(n, uid, op, answered, tc, tn, low)) && !op.GetLocation?
    requires RegistryClient.Validate(uid, op, env.ttl).None?
    requires registry.cfg == env.cfg && registry.locCache == CacheOf(s.nodes[n]) && redis.Shows(s.store)
    modifies registry`locCache, redis`keys, redis`log, redis`low
    ensures redis.Shows(s.store.Call(uid, op, env.ttl))
    ensures registry.locCache == CacheOf(Next(env, s, Call(n, uid, op, answered, tc, tn, low)).nodes[n])
  {
    RefillIsAffect(env, s.nodes[n], uid, EffectOf(op, env.ttl, s.store.Result(uid, op, env.ttl).reply), tc, tn,
                   |s.store.Call(uid, op, env.ttl).log|);
    var net := if answered then Answered else ReplyLost;
    match op {
      case Register(node, lease) =>
        var _, _ := registry.RegisterActor(redis, uid, node, lease, env.ttl, net, tc, tn, s.store);
      case TakeOver(node, lease, source) =>
        var _, _ := registry.TakeOverActor(redis, uid, node, lease, source, env.ttl, net, tc, tn, s.store);
      case Unregister(node, lease) =>
        var _ := registry.UnregisterActor(redis, uid, node, lease, net, tc, tn, s.store);
      case KeepAlive(node, lease) =>
        var _ := registry.KeepActorAlive(redis, uid, node, lease, env.ttl, net, tc, tn, s.store);
    }
  }

  // ---------- the invariant ----------

  ghost predicate Right(store: Store, uid: ActorUID, e: CacheEntry) {
    var r := store.Current(uid);
    r.Some? && r.value.node == e.location.node && WithinRecord(e, r.value.expire)
  }

  ghost predicate ChangedSince(log: seq<Event>, uid: ActorUID, pos: nat) {
    exists k | pos <= k < |log| :: log[k].uid == uid
  }

  ghost predicate TTLBounded(env: Env, store: Store) {
    forall uid <- store.recs ::
      if env.ttl == 0 then store.recs[uid].expire.None?
      else store.recs[uid].expire.Some? && store.recs[uid].expire.value <= Ms(store.now) + env.ttl * 1000
  }

  /** Whoever reads from the log will catch every change an entry does not know about. */
  ghost predicate EntryOk(env: Env, store: Store, uid: ActorUID, h: Held) {
    && h.pos <= |store.log| && h.entry.location.node != ""
    && h.entry.expireAt <= store.now + env.cfg.maxTTL
    && (Fresh(h.entry, store.now) ==> Right(store, uid, h.entry) || ChangedSince(store.log, uid, h.pos))
  }

  ghost predicate NothingMissed(node: Node, log: seq<Event>, uid: ActorUID)
    requires uid in node.cache && !node.cursor.Gap?
  {
    forall k | node.start <= k && node.cache[uid].pos <= k < |log| && log[k].uid == uid :: node.cursor.next <= k
  }

  ghost predicate NodeOk(env: Env, store: Store, node: Node) {
    && (forall uid <- node.cache :: EntryOk(env, store, uid, node.cache[uid]))
    && (!node.cursor.Gap? ==>
          && node.start <= node.cursor.next <= |store.log|
          && (forall uid <- node.cache ::
                && NothingMissed(node, store.log, uid)
                && (node.start <= node.cache[uid].pos || node.cache[uid].entry.expireAt <= node.since + env.cfg.maxTTL)))
  }

  ghost predicate Inv(env: Env, s: Sys) {
    && env.cfg.window >= 998 * MILLISECOND + WholeMs(env.delay)
    && TTLBounded(env, s.store)
    && forall node <- s.nodes :: NodeOk(env, s.store, node)
  }

  // ---------- one store call ----------

  /** A call either leaves an event for its actor, or leaves a right entry right. */
  lemma CallKeepsOrTells(env: Env, store: Store, uid: ActorUID, op: Op, other: ActorUID, e: CacheEntry)
    requires TTLBounded(env, store)
    requires Right(store, other, e) && e.location.node != ""
    ensures Right(store.Call(uid, op, env.ttl), other, e)
            || ChangedSince(store.Call(uid, op, env.ttl).log, other, |store.log|)
  {
    var after := store.Call(uid, op, env.ttl);
    CallOnlyTouches(store, uid, op, env.ttl, other);
    if uid == other {
      var o := store.Result(uid, op, env.ttl);
      if o.events != [] {
        assert after.log[|store.log|] == o.events[0];
      } else {
        WithinLaterRecord(e, store.Current(uid).value.expire, o.rec.value.expire);
      }
    }
  }

  lemma CallKeepsTTL(env: Env, store: Store, uid: ActorUID, op: Op)
    requires TTLBounded(env, store)
    ensures TTLBounded(env, store.Call(uid, op, env.ttl))
  {
  }

  /** What an answered call stores is right the moment it is stored. */
  lemma FillIsRight(env: Env, store: Store, uid: ActorUID, op: Op, tc: nat, tn: nat)
    requires env.cfg.window >= 998 * MILLISECOND + WholeMs(env.delay)
    requires store.now <= tc <= tn && tc - store.now <= env.delay
    requires Reads(store.Current(uid), op) && store.Current(uid).Some? ==>
               store.Current(uid).value.expire != Some(Ms(store.now))
    requires EffectOf(op, env.ttl, store.Result(uid, op, env.ttl).reply).Fill?
    ensures var effect := EffectOf(op, env.ttl, store.Result(uid, op, env.ttl).reply);
            var e := NewEntry(env.cfg, Location(effect.node, TTLToExpireAt(effect.ttl, tc)), tn);
            e.Some? ==> Right(store.Call(uid, op, env.ttl), uid, e.value)
  {
    var r, o := store.Current(uid), store.Result(uid, op, env.ttl);
    var effect := EffectOf(op, env.ttl, o.reply);
    CallOnlyTouches(store, uid, op, env.ttl, uid);
    if Reads(r, op) {
      if r.value.expire.Some? {
        ReadFillWithin(env.cfg, effect.node, r.value.expire.value, store.now, tc, tn, env.delay);
      }
    } else {
      ExactFillWithin(env.cfg, effect.node, env.ttl, store.now, tc, tn);
      assert o.rec.value.expire == Deadline(Ms(store.now), env.ttl);
    }
  }

  /** Time only ends entries: while an entry is fresh, its record is still visible. */
  lemma TimeKeepsRight(store: Store, later: nat, uid: ActorUID, e: CacheEntry)
    requires store.now <= later && Right(store, uid, e) && Fresh(e, later)
    ensures Right(store.(now := later), uid, e)
  {
  }

  // ---------- every action keeps the invariant ----------

  lemma EntryAfterCall(env: Env, store: Store, uid: ActorUID, op: Op, other: ActorUID, h: Held)
    requires TTLBounded(env, store) && EntryOk(env, store, other, h)
    ensures EntryOk(env, store.Call(uid, op, env.ttl), other, h)
  {
    if Fresh(h.entry, store.now) {
      var after := store.Call(uid, op, env.ttl);
      if ChangedSince(store.log, other, h.pos) {
        var k :| h.pos <= k < |store.log| && store.log[k].uid == other;
        assert after.log[k].uid == other;
      } else {
        CallKeepsOrTells(env, store, uid, op, other, h.entry);
        if ChangedSince(after.log, other, |store.log|) {
          var k :| |store.log| <= k < |after.log| && after.log[k].uid == other;
          assert h.pos <= k;
        }
      }
    }
  }

  lemma NodeAfterCall(env: Env, store: Store, uid: ActorUID, op: Op, node: Node)
    requires TTLBounded(env, store) && NodeOk(env, store, node)
    ensures NodeOk(env, store.Call(uid, op, env.ttl), node)
  {
    forall other <- node.cache
      ensures EntryOk(env, store.Call(uid, op, env.ttl), other, node.cache[other])
    {
      EntryAfterCall(env, store, uid, op, other, node.cache[other]);
    }
  }

  lemma NodeAfterTime(env: Env, store: Store, later: nat, node: Node)
    requires store.now <= later && NodeOk(env, store, node)
    ensures NodeOk(env, store.(now := later), node)
  {
  }

  lemma TTLAfterTime(env: Env, store: Store, later: nat)
    requires store.now <= later && TTLBounded(env, store)
    ensures TTLBounded(env, store.(now := later))
  {
  }

  lemma RefillKeepsNode(env: Env, s: Sys, n: nat, uid: ActorUID, op: Op, tc: nat, tn: nat, low: nat)
    requires Inv(env, s) && Enabled(env, s, Call(n, uid, op, true, tc, tn, low))
    ensures var store := s.store.Call(uid, op, env.ttl);
            var effect := EffectOf(op, env.ttl, s.store.Result(uid, op, env.ttl).reply);
            NodeOk(env, store.(now := tn), Refill(env, s.nodes[n], uid, effect, tc, tn, |store.log|))
  {
    var store := s.store.Call(uid, op, env.ttl);
    var effect := EffectOf(op, env.ttl, s.store.Result(uid, op, env.ttl).reply);
    NodeAfterCall(env, s.store, uid, op, s.nodes[n]);
    NodeAfterTime(env, store, tn, s.nodes[n]);
    if effect.Fill? {
      var e := NewEntry(env.cfg, Location(effect.node, TTLToExpireAt(effect.ttl, tc)), tn);
      FillIsRight(env, s.store, uid, op, tc, tn);
      if e.Some? {
        TimeKeepsRight(store, tn, uid, e.value);
        assert EntryOk(env, store.(now := tn), uid, Held(e.value, |store.log|));
      }
    }
  }

  lemma CallKeepsInv(env: Env, s: Sys, n: nat, uid: ActorUID, op: Op, answered: bool, tc: nat, tn: nat, low: nat)
    requires Inv(env, s) && Enabled(env, s, Call(n, uid, op, answered, tc, tn, low))
    ensures Inv(env, Next(env, s, Call(n, uid, op, answered, tc, tn, low)))
  {
    var s' := Next(env, s, Call(n, uid, op, answered, tc, tn, low));
    var store := s.store.Call(uid, op, env.ttl);
    var later := if answered then tn else s.store.now;
    assert s'.store == store.(now := later);
    CallKeepsTTL(env, s.store, uid, op);
    TTLAfterTime(env, store, later);
    forall i | 0 <= i < |s.nodes|
      ensures NodeOk(env, s'.store, s'.nodes[i])
    {
      assert s.nodes[i] in s.nodes;
      if answered && i == n {
        RefillKeepsNode(env, s, n, uid, op, tc, tn, low);
      } else {
        NodeAfterCall(env, s.store, uid, op, s.nodes[i]);
        NodeAfterTime(env, store, later, s.nodes[i]);
      }
    }
  }

  lemma DeliverKeepsNode(env: Env, s: Sys, n: nat)
    requires Inv(env, s) && Enabled(env, s, Deliver(n))
    ensures NodeOk(env, s.store, Next(env, s, Deliver(n)).nodes[n])
  {
    var node, node' := s.nodes[n], Next(env, s, Deliver(n)).nodes[n];
    assert node in s.nodes;
    forall uid <- node'.cache
      ensures NothingMissed(node', s.store.log, uid)
    {
      assert NothingMissed(node, s.store.log, uid);
    }
  }

  lemma StepKeepsInv(env: Env, s: Sys, a: Action)
    requires Inv(env, s) && Enabled(env, s, a)
    ensures Inv(env, Next(env, s, a))
  {
    match a
    case Call(n, uid, op, answered, tc, tn, low) => CallKeepsInv(env, s, n, uid, op, answered, tc, tn, low);
    case Pause(dt) =>
      TTLAfterTime(env, s.store, s.store.now + dt);
      forall node <- s.nodes
        ensures NodeOk(env, Next(env, s, a).store, node)
      {
        NodeAfterTime(env, s.store, s.store.now + dt, node);
      }
    case Deliver(n) => DeliverKeepsNode(env, s, n);
    case StartTail(n) => assert s.nodes[n] in s.nodes;
    case StopTail(n) => assert s.nodes[n] in s.nodes;
    case FromStart(n) => assert s.nodes[n] in s.nodes;
  }

  // ---------- runs ----------

  ghost predicate ValidRun(env: Env, s: Sys, run: seq<Action>)
    decreases |run|
  {
    run == [] || (Enabled(env, s, run[0]) && ValidRun(env, Next(env, s, run[0]), run[1..]))
  }

  ghost function Final(env: Env, s: Sys, run: seq<Action>): Sys
    requires ValidRun(env, s, run)
    decreases |run|
  {
    if run == [] then s else Final(env, Next(env, s, run[0]), run[1..])
  }

  /** Nodes start with empty caches and no position in the stream. */
  ghost predicate Initial(env: Env, s: Sys) {
    && env.cfg.window >= 998 * MILLISECOND + WholeMs(env.delay)
    && TTLBounded(env, s.store)
    && forall node <- s.nodes :: node.cache == map[] && node.cursor.Gap?
  }

  lemma {:induction false} RunKeepsInv(env: Env, s: Sys, run: seq<Action>)
    requires Inv(env, s) && ValidRun(env, s, run)
    ensures Inv(env, Final(env, s, run))
    decreases |run|
  {
    if run != [] {
      StepKeepsInv(env, s, run[0]);
      RunKeepsInv(env, Next(env, s, run[0]), run[1..]);
    }
  }

  /** The entry is right, or an event of its actor is unread and still in the stream. */
  ghost predicate Coherent(s: Sys, node: Node, uid: ActorUID)
    requires uid in node.cache && !node.cursor.Gap?
  {
    || Right(s.store, uid, node.cache[uid].entry)
    || ChangedSince(s.store.log, uid, if node.cursor.next < s.low then s.low else node.cursor.next)
  }

  /** No event of the actor passed between the cache fill and the start of gap-free reading. */
  ghost predicate NonePassedUnseen(log: seq<Event>, uid: ActorUID, pos: nat, start: nat) {
    forall k | pos <= k < start && k < |log| :: log[k].uid != uid
  }

  /** In every reachable state in which trimming has not overtaken the reader, a fresh entry is either
      right (the record names its node and outlives it) or still has an unread event, provided no event
      of its actor passed unseen before the node read without a gap. Once the node has read so for
      LocalCacheMaxTTL, that proviso always holds. */
  lemma CacheCoherence(env: Env, s0: Sys, run: seq<Action>, node: Node, uid: ActorUID)
    requires Initial(env, s0) && ValidRun(env, s0, run)
    requires node in Final(env, s0, run).nodes && !node.cursor.Gap? && uid in node.cache
    requires Final(env, s0, run).low <= node.cursor.next
    requires Fresh(node.cache[uid].entry, Final(env, s0, run).store.now)
    requires NonePassedUnseen(Final(env, s0, run).store.log, uid, node.cache[uid].pos, node.start)
             || Final(env, s0, run).store.now >= node.since + env.cfg.maxTTL
    ensures Coherent(Final(env, s0, run), node, uid)
  {
    RunKeepsInv(env, s0, run);
    var s := Final(env, s0, run);
    assert NodeOk(env, s.store, node) && EntryOk(env, s.store, uid, node.cache[uid]);
    if !Right(s.store, uid, node.cache[uid].entry) {
      var k :| node.cache[uid].pos <= k < |s.store.log| && s.store.log[k].uid == uid;
      assert node.start <= k;
      assert NothingMissed(node, s.store.log, uid);
    }
  }

  // ---------- what an event in the gap does ----------

  /** Does this call move the actor away from `node`? */
  predicate Moves(store: Store, uid: ActorUID, op: Op, ttl: int, node: string) {
    && Succeeds(store, Do(uid, op, ttl))
    && (op.Unregister? || (op.TakeOver? && op.node != node))
  }

  /** A call keeps a right entry right exactly when it does not move the entry's actor away. */
  lemma RightUnlessMoved(env: Env, store: Store, caller: ActorUID, op: Op, uid: ActorUID, e: CacheEntry)
    requires TTLBounded(env, store) && Right(store, uid, e) && e.location.node != ""
    ensures Right(store.Call(caller, op, env.ttl), uid, e)
            <==> !(caller == uid && Moves(store, uid, op, env.ttl, e.location.node))
  {
    CallOnlyTouches(store, caller, op, env.ttl, uid);
    var r, o := store.Current(uid), store.Result(caller, op, env.ttl);
    if caller == uid && !Moves(store, uid, op, env.ttl, e.location.node) {
      WithinLaterRecord(e, r.value.expire, o.rec.value.expire);
    }
  }

  /** A node whose cursor is "$" and that is between two blocking reads: after any call made elsewhere,
      its right entry is still coherent when it reads again if and only if the call did not move the
      entry's actor away. */
  lemma GapExactly(env: Env, s: Sys, n: nat, uid: ActorUID, call: Action)
    requires Inv(env, s) && n < |s.nodes| && s.nodes[n].cursor.Gap? && uid in s.nodes[n].cache
    requires Right(s.store, uid, s.nodes[n].cache[uid].entry)
    requires call.Call? && call.n != n && Enabled(env, s, call)
    requires Fresh(s.nodes[n].cache[uid].entry, Next(env, s, call).store.now)
    ensures Enabled(env, Next(env, s, call), StartTail(n))
    ensures var s' := Next(env, Next(env, s, call), StartTail(n));
            && s'.nodes[n].cache == s.nodes[n].cache
            && (Coherent(s', s'.nodes[n], uid) <==>
                  !(call.uid == uid && Moves(s.store, uid, call.op, env.ttl, s.nodes[n].cache[uid].entry.location.node)))
  {
    var e, store := s.nodes[n].cache[uid].entry, s.store.Call(call.uid, call.op, env.ttl);
    assert s.nodes[n] in s.nodes;
    RightUnlessMoved(env, s.store, call.uid, call.op, uid, e);
    if Right(store, uid, e) {
      TimeKeepsRight(store, Next(env, s, call).store.now, uid, e);
    }
  }

  /** Whenever a node holds a right entry between two blocking reads, a takeover by any other node that
      knows the lease, and an unregister by the owner, are possible and lose the entry's coherence. */
  lemma GapLosesEvents(env: Env, s: Sys, n: nat, m: nat, uid: ActorUID, node: string, lease: string)
    requires Inv(env, s) && n < |s.nodes| && m < |s.nodes| && m != n
    requires s.nodes[n].cursor.Gap? && uid in s.nodes[n].cache && Right(s.store, uid, s.nodes[n].cache[uid].entry)
    requires Fresh(s.nodes[n].cache[uid].entry, s.store.now)
    requires node != "" && node != s.nodes[n].cache[uid].entry.location.node
    ensures var r, now := s.store.Current(uid).value, s.store.now;
            forall op | op == TakeOver(node, lease, r.lease) || op == Unregister(r.node, r.lease) ::
              var call := Call(m, uid, op, false, now, now, s.low);
              && Enabled(env, s, call) && Enabled(env, Next(env, s, call), StartTail(n))
              && var s' := Next(env, Next(env, s, call), StartTail(n));
                 uid in s'.nodes[n].cache && !Coherent(s', s'.nodes[n], uid)
  {
    var r, now := s.store.Current(uid).value, s.store.now;
    assert s.nodes[n] in s.nodes;
    GapExactly(env, s, n, uid, Call(m, uid, TakeOver(node, lease, r.lease), false, now, now, s.low));
    GapExactly(env, s, n, uid, Call(m, uid, Unregister(r.node, r.lease), false, now, now, s.low));
  }
}
