/** Which server an actor belongs to: Redis holds the answer, every node caches answers (also
    "no server") for a while, and a writer broadcasts an invalidation after its SET. */
module ServerStore {
  import opened Wrappers
  import opened ActorKeys

  datatype Error = UIDRequired | ServerIDInvalid | Unparsable | RedisFailure

  datatype CacheEntry = CacheEntry(serverID: int, exists_: bool, expireAt: nat)

  class Redis {
    var values: map<string, string>
    var published: seq<string>

    constructor ()
      ensures values == map[] && published == []
    {
      values, published := map[], [];
    }
  }

  /** The server ID stored under an actor's key: None when there is none, an error when it is not
      a positive decimal number. */
  function Stored(values: map<string, string>, uid: ActorUID): Result<Option<int>, Error> {
    if ServerKey(uid) !in values then Ok(None)
    else match ParseInt64(values[ServerKey(uid)])
      case None => Err(Unparsable)
      case Some(id) => if id <= 0 then Err(ServerIDInvalid) else Ok(Some(id))
  }

  class ServerStore {
    const localCacheTTL: nat
    var cache: map<ActorUID, CacheEntry>

    constructor (localCacheTTL: int)
      ensures this.localCacheTTL == (if localCacheTTL <= 0 then 5_000_000_000 else localCacheTTL) && cache == map[]
    {
      this.localCacheTTL := if localCacheTTL <= 0 then 5_000_000_000 else localCacheTTL;
      cache := map[];
    }

    method CacheServer(uid: ActorUID, serverID: int, exists_: bool, now: nat)
      modifies this`cache
      ensures cache == old(cache)[uid := CacheEntry(serverID, exists_, now + localCacheTTL)]
    {
      cache := cache[uid := CacheEntry(serverID, exists_, now + localCacheTTL)];
    }

    method GetCachedServer(uid: ActorUID, now: nat) returns (hit: Option<(int, bool)>)
      modifies this`cache
      ensures uid in old(cache) && old(cache)[uid].expireAt > now ==>
                hit == Some((old(cache)[uid].serverID, old(cache)[uid].exists_)) && cache == old(cache)
      ensures !(uid in old(cache) && old(cache)[uid].expireAt > now) ==> hit == None && cache == old(cache) - {uid}
    {
      if uid !in cache {
        return None;
      }
      if cache[uid].expireAt <= now {
        cache := cache - {uid};
        return None;
      }
      return Some((cache[uid].serverID, cache[uid].exists_));
    }

    /** Stores, caches and announces a valid server ID; afterwards Redis answers with exactly it, and no
        other actor's answer has changed. When the reply to the SET is lost the ID is stored all the same,
        but neither cached nor announced; a PUBLISH that fails goes unnoticed. */
    method SetActorServer(redis: Redis, uid: ActorUID, serverID: ActorID, net: Net, published: bool, now: nat)
        returns (err: Option<Error>)
      modifies this`cache, redis
      ensures uid.IsZero() ==> err == Some(UIDRequired)
      ensures !uid.IsZero() && serverID <= 0 ==> err == Some(ServerIDInvalid)
      ensures !uid.IsZero() && serverID > 0 ==> err == if net.Answered? then None else Some(RedisFailure)
      ensures var stored := !uid.IsZero() && serverID > 0 && !net.NotSent?;
              if stored then
                && Stored(redis.values, uid) == Ok(Some(serverID))
                && (forall other: ActorUID | other != uid :: Stored(redis.values, other) == Stored(old(redis.values), other))
                && redis.values == old(redis.values)[ServerKey(uid) := FormatInt(serverID)]
              else redis.values == old(redis.values)
      ensures cache == if err.None? then old(cache)[uid := CacheEntry(serverID, true, now + localCacheTTL)] else old(cache)
      ensures redis.published == old(redis.published) + if err.None? && published then [UIDPayload(uid)] else []
    {
      if uid.IsZero() {
        return Some(UIDRequired);
      }
      if serverID <= 0 {
        return Some(ServerIDInvalid);
      }
      if net.NotSent? {
        return Some(RedisFailure);
      }
      redis.values := redis.values[ServerKey(uid) := FormatInt(serverID)];
      FormatParse(serverID);
      forall other: ActorUID | other != uid
        ensures Stored(redis.values, other) == Stored(old(redis.values), other)
      {
        KeysSeparate(uid, other);
      }
      if net.ReplyLost? {
        return Some(RedisFailure);
      }
      CacheServer(uid, serverID, true, now);
      if published {
        redis.published := redis.published + [UIDPayload(uid)];
      }
      return None;
    }

    /** A fresh entry answers without Redis; otherwise Redis answers, and valid answers are cached,
        including the absence of a server. */
    method GetActorServer(redis: Redis, uid: ActorUID, redisUp: bool, t0: nat, t1: nat, tn: nat)
        returns (answer: Result<Option<int>, Error>)
      modifies this`cache
      ensures uid.IsZero() ==> answer == Err(UIDRequired) && cache == old(cache)
      ensures !uid.IsZero() && uid in old(cache) && old(cache)[uid].expireAt > t0 ==>
                && cache == old(cache)
                && answer == Ok(if old(cache)[uid].exists_ then Some(old(cache)[uid].serverID) else None)
      ensures !uid.IsZero() && !(uid in old(cache) && old(cache)[uid].expireAt > t0) ==>
                answer == if redisUp then Stored(redis.values, uid) else Err(RedisFailure)
      ensures !uid.IsZero() && !(uid in old(cache) && old(cache)[uid].expireAt > t0) && redisUp ==>
                && (answer == Ok(None) <==> ServerKey(uid) !in redis.values)
                && (ServerKey(uid) in redis.values ==>
                      match ParseInt64(redis.values[ServerKey(uid)])
                      case None => answer == Err(Unparsable)
                      case Some(id) => answer == if id > 0 then Ok(Some(id)) else Err(ServerIDInvalid))
                && (forall id: ActorID | id > 0 && ServerKey(uid) in redis.values ::
                      redis.values[ServerKey(uid)] == FormatInt(id) ==> answer == Ok(Some(id)))
      ensures !uid.IsZero() && !(uid in old(cache) && old(cache)[uid].expireAt > t0) ==>
                cache == match answer
                         case Err(_) => old(cache) - {uid}
                         case Ok(None) => old(cache)[uid := CacheEntry(0, false, tn + localCacheTTL)]
                         case Ok(Some(id)) => old(cache)[uid := CacheEntry(id, true, tn + localCacheTTL)]
    {
      if uid.IsZero() {
        return Err(UIDRequired);
      }
      var hit := GetCachedServer(uid, t0);
      if hit.None? {
        hit := GetCachedServer(uid, t1);
      }
      if hit.Some? {
        return Ok(if hit.value.1 then Some(hit.value.0) else None);
      }
      if !redisUp {
        return Err(RedisFailure);
      }
      answer := GetServerFromRedis(redis, uid);
      if answer.Err? {
        return;
      }
      CacheServer(uid, answer.value.Or(0), answer.value.Some?, tn);
    }

    /** What Redis holds for the actor: no key is no server, a printed positive ID is that server, and any
        other value is an error. */
    method GetServerFromRedis(redis: Redis, uid: ActorUID) returns (answer: Result<Option<int>, Error>)
      ensures answer == Stored(redis.values, uid)
      ensures answer == Ok(None) <==> ServerKey(uid) !in redis.values
      ensures ServerKey(uid) in redis.values ==>
                match ParseInt64(redis.values[ServerKey(uid)])
                case None => answer == Err(Unparsable)
                case Some(id) => answer == if id > 0 then Ok(Some(id)) else Err(ServerIDInvalid)
      ensures forall id: ActorID | id > 0 && ServerKey(uid) in redis.values ::
                redis.values[ServerKey(uid)] == FormatInt(id) ==> answer == Ok(Some(id))
    {
      var key := ServerKey(uid);
      if key !in redis.values {
        return Ok(None);
      }
      forall id: ActorID | redis.values[key] == FormatInt(id)
        ensures ParseInt64(redis.values[key]) == Some(id)
      {
        FormatParse(id);
      }
      var parsed := ParseInt64(redis.values[key]);
      if parsed.None? {
        return Err(Unparsable);
      }
      if parsed.value <= 0 {
        return Err(ServerIDInvalid);
      }
      return Ok(Some(parsed.value));
    }

    /** The subscriber: drops the actor a message names, and ignores what it cannot parse. */
    method OnInvalidation(payload: string)
      modifies this`cache
      ensures var parsed := ParseUIDPayload(payload);
              cache == old(cache) - if payload != "" && parsed.Ok? then {parsed.value} else {}
      ensures forall uid | payload == UIDPayload(uid) :: cache == old(cache) - {uid}
    {
      forall uid | payload == UIDPayload(uid)
        ensures ParseUIDPayload(payload) == Ok(uid) && payload != ""
      {
        PayloadRoundTrip(uid);
        assert ':' in UIDPayload(uid);
      }
      if payload == "" {
        return;
      }
      var uid := ParseUIDPayload(payload);
      if uid.Ok? {
        cache := cache - {uid.value};
      }
    }
  }
}

/** Coherence of the server caches of all nodes, with SET, own cache fill, PUBLISH, delivery, read
    and cache fill as separate actions. */
module ServerStoreCoherence {
  import opened Wrappers
  import opened ActorKeys
  import ServerStore

  /** A cached or read answer, when Redis gave it, and how long it took from there into the cache. */
  datatype Answer = Answer(value: Option<int>, at: nat, spent: nat)
  datatype Held = Held(answer: Answer, expireAt: nat)

  /** `inbox`: invalidations published but not yet handled by this node. */
  datatype Node = Node(cache: map<ActorUID, Held>, inbox: seq<ActorUID>)

  /** A SetActorServer between its SET and its PUBLISH; one whose SET reply or PUBLISH is lost stays so. */
  datatype Writer = Writer(n: nat, uid: ActorUID, id: int, at: nat)

  /** A lookup between its GET and its cache fill; `overtaken` once an invalidation of the actor was
      handled by the node in between. */
  datatype Reader = Reader(n: nat, uid: ActorUID, answer: Answer, overtaken: bool)

  datatype Snapshot = Snapshot(now: nat, values: map<ActorUID, int>)

  datatype Sys = Sys(hist: seq<Snapshot>, nodes: seq<Node>, writers: map<nat, Writer>, readers: map<nat, Reader>) {
    function Now(): nat
      requires hist != []
    {
      hist[|hist| - 1].now
    }
    function Value(uid: ActorUID): Option<int>
      requires hist != []
    {
      var values := hist[|hist| - 1].values;
      if uid in values then Some(values[uid]) else None
    }
  }

  datatype Action =
    | Pause(dt: nat)
    | Set(w: nat, n: nat, uid: ActorUID, id: int)
    | FillOwn(w: nat)
    | Publish(w: nat)
    | Handle(n: nat)
    | Get(r: nat, n: nat, uid: ActorUID)
    | Fill(r: nat)

  predicate Enabled(s: Sys, a: Action)
    requires s.hist != []
  {
    match a
    case Pause(_) => true
    case Set(w, n, _, id) => w !in s.writers && n < |s.nodes|
    case FillOwn(w) => w in s.writers && s.writers[w].n < |s.nodes| && s.writers[w].at <= s.Now()
    case Publish(w) => w in s.writers
    case Handle(n) => n < |s.nodes| && s.nodes[n].inbox != []
    case Get(r, n, _) => r !in s.readers && n < |s.nodes|
    case Fill(r) => r in s.readers && s.readers[r].n < |s.nodes| && s.readers[r].answer.at <= s.Now()
  }

  function Store(node: Node, uid: ActorUID, answer: Answer, expireAt: nat): Node {
    node.(cache := node.cache[uid := Held(answer, expireAt)])
  }

  function Next(ttl: nat, s: Sys, a: Action): Sys
    requires s.hist != [] && Enabled(s, a)
  {
    var now, values := s.Now(), s.hist[|s.hist| - 1].values;
    match a
    case Pause(dt) => s.(hist := s.hist + [Snapshot(now + dt, values)])
    case Set(w, n, uid, id) =>
      s.(hist := s.hist + [Snapshot(now, values[uid := id])], writers := s.writers[w := Writer(n, uid, id, now)])
    case FillOwn(w) =>
      var wr := s.writers[w];
      s.(nodes := s.nodes[wr.n := Store(s.nodes[wr.n], wr.uid, Answer(Some(wr.id), wr.at, now - wr.at), now + ttl)])
    case Publish(w) =>
      s.(writers := s.writers - {w},
         nodes := seq(|s.nodes|, i requires 0 <= i < |s.nodes| => s.nodes[i].(inbox := s.nodes[i].inbox + [s.writers[w].uid])))
    case Handle(n) =>
      var uid := s.nodes[n].inbox[0];
      s.(nodes := s.nodes[n := Node(s.nodes[n].cache - {uid}, s.nodes[n].inbox[1..])],
         readers := map r <- s.readers :: if s.readers[r].n == n && s.readers[r].uid == uid
                                          then s.readers[r].(overtaken := true) else s.readers[r])
    case Get(r, n, uid) => s.(readers := s.readers[r := Reader(n, uid, Answer(s.Value(uid), now, 0), false)])
    case Fill(r) =>
      var rd := s.readers[r];
      s.(readers := s.readers - {r},
         nodes := s.nodes[rd.n := Store(s.nodes[rd.n], rd.uid, rd.answer.(spent := now - rd.answer.at), now + ttl)])
  }

  // ---------- the actions are those of the store object ----------

  function EntryOf(h: Held): ServerStore.CacheEntry {
    ServerStore.CacheEntry(if h.answer.value.Some? then h.answer.value.value else 0, h.answer.value.Some?, h.expireAt)
  }

  function CacheOf(node: Node): map<ActorUID, ServerStore.CacheEntry> {
    map uid <- node.cache :: EntryOf(node.cache[uid])
  }

  /** Redis holds these answers. */
  ghost predicate Shows(values: map<string, string>, s: Sys)
    requires s.hist != []
  {
    forall uid: ActorUID ::
      match s.Value(uid)
      case None => ServerKey(uid) !in values
      case Some(id) => 0 < id < INT64_BOUND && ServerKey(uid) in values && values[ServerKey(uid)] == FormatInt(id)
  }

  /** Set, FillOwn and Publish in a row. */
  ghost function SetThrough(ttl: nat, s: Sys, w: nat, n: nat, uid: ActorUID, id: int): (s': Sys)
    requires s.hist != [] && Enabled(s, Set(w, n, uid, id))
    ensures s'.hist != [] && |s'.nodes| == |s.nodes|
    ensures forall other :: s'.Value(other) == if other == uid then Some(id) else s.Value(other)
    ensures s'.nodes[n].cache == s.nodes[n].cache[uid := Held(Answer(Some(id), s.Now(), 0), s.Now() + ttl)]
    ensures forall m | 0 <= m < |s.nodes| :: s'.nodes[m].inbox == s.nodes[m].inbox + [uid]
  {
    Next(ttl, Next(ttl, Next(ttl, s, Set(w, n, uid, id)), FillOwn(w)), Publish(w))
  }

  /** Get and Fill in a row. */
  ghost function LookUp(ttl: nat, s: Sys, r: nat, n: nat, uid: ActorUID): (s': Sys)
    requires s.hist != [] && Enabled(s, Get(r, n, uid))
    ensures |s'.nodes| == |s.nodes|
    ensures s'.nodes[n].cache == s.nodes[n].cache[uid := Held(Answer(s.Value(uid), s.Now(), 0), s.Now() + ttl)]
  {
    Next(ttl, Next(ttl, s, Get(r, n, uid)), Fill(r))
  }

  lemma ShowsSet(values: map<string, string>, s: Sys, s': Sys, uid: ActorUID, id: ActorID)
    requires s.hist != [] && s'.hist != [] && Shows(values, s) && id > 0
    requires forall other :: s'.Value(other) == if other == uid then Some(id as int) else s.Value(other)
    ensures Shows(values[ServerKey(uid) := FormatInt(id)], s')
  {
    forall other: ActorUID
      ensures ServerKey(other) == ServerKey(uid) <==> other == uid
    {
      KeysSeparate(uid, other);
    }
  }

  /** One call of SetActorServer is Set, FillOwn and Publish: Redis, the caller's cache and every inbox end up the same. */
  method SetIsThreeActions(ttl: nat, ghost s: Sys, ghost w: nat, ghost n: nat, store: ServerStore.ServerStore,
                           redis: ServerStore.Redis, uid: ActorUID, id: ActorID, now: nat)
    requires s.hist != [] && Enabled(s, Set(w, n, uid, id)) && now == s.Now() && !uid.IsZero() && id > 0
    requires store.localCacheTTL == ttl && store.cache == CacheOf(s.nodes[n]) && Shows(redis.values, s)
    modifies store`cache, redis
    ensures var s' := SetThrough(ttl, s, w, n, uid, id);
            Shows(redis.values, s') && store.cache == CacheOf(s'.nodes[n])
    ensures redis.published == old(redis.published) + [UIDPayload(uid)]
  {
    ShowsSet(redis.values, s, SetThrough(ttl, s, w, n, uid, id), uid, id);
    var _ := store.SetActorServer(redis, uid, id, Answered, true, now);
  }

  /** One call of GetActorServer without a fresh entry is Get and Fill. */
  method LookupIsGetAndFill(ttl: nat, ghost s: Sys, ghost r: nat, ghost n: nat, store: ServerStore.ServerStore,
                            redis: ServerStore.Redis, uid: ActorUID, now: nat)
      returns (answer: Result<Option<int>, ServerStore.Error>)
    requires s.hist != [] && Enabled(s, Get(r, n, uid)) && now == s.Now() && !uid.IsZero()
    requires store.localCacheTTL == ttl && store.cache == CacheOf(s.nodes[n]) && Shows(redis.values, s)
    requires uid in s.nodes[n].cache ==> s.nodes[n].cache[uid].expireAt <= now
    modifies store`cache
    ensures answer == Ok(s.Value(uid)) && store.cache == CacheOf(LookUp(ttl, s, r, n, uid).nodes[n])
  {
    answer := store.GetActorServer(redis, uid, true, now, now, now);
  }

  /** Handling an announced actor is OnInvalidation of its payload. */
  method HandleIsInvalidation(ttl: nat, ghost s: Sys, ghost n: nat, store: ServerStore.ServerStore, uid: ActorUID)
    requires s.hist != [] && Enabled(s, Handle(n)) && s.nodes[n].inbox[0] == uid && store.cache == CacheOf(s.nodes[n])
    modifies store`cache
    ensures store.cache == CacheOf(Next(ttl, s, Handle(n)).nodes[n])
  {
    store.OnInvalidation(UIDPayload(uid));
  }

  // ---------- coherence ----------

  ghost predicate Announcing(s: Sys, uid: ActorUID) { exists w <- s.writers :: s.writers[w].uid == uid }

  /** Node n's idea of an actor is Redis's, or the news is on its way. */
  ghost predicate Covered(s: Sys, n: nat, uid: ActorUID, value: Option<int>)
    requires s.hist != [] && n < |s.nodes|
  {
    value == s.Value(uid) || Announcing(s, uid) || uid in s.nodes[n].inbox
  }

  ghost predicate Inv(s: Sys) {
    && s.hist != [] && Coherent(s)
    && (forall r <- s.readers :: s.readers[r].n < |s.nodes| &&
          (!s.readers[r].overtaken ==> Covered(s, s.readers[r].n, s.readers[r].uid, s.readers[r].answer.value)))
    && (forall w <- s.writers :: s.writers[w].n < |s.nodes|)
  }

  /** A lookup fills its node's cache although the node has handled an invalidation in between, Redis
      answers differently by now, and no further news is on the way. */
  ghost predicate StaleFill(s: Sys, a: Action)
    requires s.hist != [] && Enabled(s, a)
  {
    && a.Fill?
    && var rd := s.readers[a.r];
       rd.overtaken && rd.answer.value != s.Value(rd.uid) && !Announcing(s, rd.uid) && rd.uid !in s.nodes[rd.n].inbox
  }

  /** Every cached answer, positive or negative, is Redis's, or the news is on its way. */
  ghost predicate Coherent(s: Sys)
    requires s.hist != []
  {
    forall n, uid | 0 <= n < |s.nodes| && uid in s.nodes[n].cache :: Covered(s, n, uid, s.nodes[n].cache[uid].answer.value)
  }

  /** Actions that leave the values, the writers and the inboxes alone leave all covering alone. */
  lemma SameNews(s: Sys, s': Sys)
    requires s.hist != [] && s'.hist != [] && s'.writers == s.writers
    requires s'.hist[|s'.hist| - 1].values == s.hist[|s.hist| - 1].values
    requires |s'.nodes| == |s.nodes| && forall i | 0 <= i < |s.nodes| :: s'.nodes[i].inbox == s.nodes[i].inbox
    ensures forall n, uid, value | 0 <= n < |s.nodes| && Covered(s, n, uid, value) :: Covered(s', n, uid, value)
  {
  }

  lemma StillAnnouncing(s: Sys, s': Sys, uid: ActorUID)
    requires Announcing(s, uid)
    requires forall w <- s.writers :: w in s'.writers && s'.writers[w] == s.writers[w]
    ensures Announcing(s', uid)
  {
  }

  lemma PublishCovers(ttl: nat, s: Sys, w: nat, n: nat, uid: ActorUID, value: Option<int>)
    requires Inv(s) && w in s.writers && n < |s.nodes| && Covered(s, n, uid, value)
    ensures Covered(Next(ttl, s, Publish(w)), n, uid, value)
  {
    var s' := Next(ttl, s, Publish(w));
    if uid != s.writers[w].uid && Announcing(s, uid) {
      var v :| v in s.writers && s.writers[v].uid == uid;
      assert v in s'.writers && s'.writers[v].uid == uid;
    }
  }

  lemma HandleKeepsInv(ttl: nat, s: Sys, n: nat)
    requires Inv(s) && Enabled(s, Handle(n))
    ensures Inv(Next(ttl, s, Handle(n)))
  {
  }

  lemma SetKeepsInv(ttl: nat, s: Sys, w: nat, n: nat, uid: ActorUID, id: int)
    requires Inv(s) && Enabled(s, Set(w, n, uid, id))
    ensures Inv(Next(ttl, s, Set(w, n, uid, id)))
  {
    var s' := Next(ttl, s, Set(w, n, uid, id));
    forall i, u, value | 0 <= i < |s.nodes| && Covered(s, i, u, value)
      ensures Covered(s', i, u, value)
    {
      assert w in s'.writers && s'.writers[w].uid == uid;
      if Announcing(s, u) {
        StillAnnouncing(s, s', u);
      }
    }
  }

  /** A fill is wrong for good exactly when it is stale. */
  lemma FillExactly(ttl: nat, s: Sys, r: nat)
    requires Inv(s) && Enabled(s, Fill(r))
    ensures var s', rd := Next(ttl, s, Fill(r)), s.readers[r];
            Covered(s', rd.n, rd.uid, s'.nodes[rd.n].cache[rd.uid].answer.value) <==> !StaleFill(s, Fill(r))
    ensures Inv(Next(ttl, s, Fill(r))) <==> !StaleFill(s, Fill(r))
  {
    SameNews(s, Next(ttl, s, Fill(r)));
    SameNews(Next(ttl, s, Fill(r)), s);
  }

  /** Every action keeps the caches coherent, except a stale fill, which never does. */
  lemma StepKeepsInv(ttl: nat, s: Sys, a: Action)
    requires Inv(s) && Enabled(s, a)
    ensures Inv(Next(ttl, s, a)) <==> !StaleFill(s, a)
    ensures StaleFill(s, a) ==> !Coherent(Next(ttl, s, a))
  {
    var s' := Next(ttl, s, a);
    match a
    case Set(w, n, uid, id) => SetKeepsInv(ttl, s, w, n, uid, id);
    case Handle(n) => HandleKeepsInv(ttl, s, n);
    case Publish(w) =>
      forall i, u, value | 0 <= i < |s.nodes| && Covered(s, i, u, value)
        ensures Covered(s', i, u, value)
      {
        PublishCovers(ttl, s, w, i, u, value);
      }
    case FillOwn(w) =>
      SameNews(s, s');
      assert Announcing(s', s.writers[w].uid);
    case Fill(r) => FillExactly(ttl, s, r);
    case Get(r, n, uid) => SameNews(s, s');
    case Pause(dt) => SameNews(s, s');
  }

  // ---------- age ----------

  ghost predicate Given(hist: seq<Snapshot>, uid: ActorUID, answer: Answer) {
    exists k | 0 <= k < |hist| ::
      && hist[k].now == answer.at
      && answer.value == if uid in hist[k].values then Some(hist[k].values[uid]) else None
  }

  /** Every answer was Redis's at its instant, and expires at most TTL plus the fill time later. */
  ghost predicate Aged(ttl: nat, s: Sys) {
    && s.hist != []
    && (forall n, uid | 0 <= n < |s.nodes| && uid in s.nodes[n].cache ::
          var h := s.nodes[n].cache[uid];
          Given(s.hist, uid, h.answer) && h.expireAt <= h.answer.at + h.answer.spent + ttl)
    && (forall r <- s.readers :: Given(s.hist, s.readers[r].uid, s.readers[r].answer))
    && (forall w <- s.writers :: Given(s.hist, s.writers[w].uid, Answer(Some(s.writers[w].id), s.writers[w].at, 0)))
  }

  lemma GivenStays(hist: seq<Snapshot>, next: Snapshot, uid: ActorUID, answer: Answer)
    requires Given(hist, uid, answer)
    ensures Given(hist + [next], uid, answer)
  {
    var k :| 0 <= k < |hist| && hist[k].now == answer.at
             && answer.value == if uid in hist[k].values then Some(hist[k].values[uid]) else None;
    assert (hist + [next])[k] == hist[k];
  }

  /** What Redis says now has been given. */
  lemma GivenNow(hist: seq<Snapshot>, uid: ActorUID, answer: Answer)
    requires hist != [] && answer.at == hist[|hist| - 1].now
    requires var values := hist[|hist| - 1].values; answer.value == if uid in values then Some(values[uid]) else None
    ensures Given(hist, uid, answer)
  {
  }

  /** A longer history leaves everything as old as it was. */
  lemma AgedStays(ttl: nat, s: Sys, next: Snapshot)
    requires Aged(ttl, s)
    ensures Aged(ttl, s.(hist := s.hist + [next]))
  {
    forall uid, answer | Given(s.hist, uid, answer)
      ensures Given(s.hist + [next], uid, answer)
    {
      GivenStays(s.hist, next, uid, answer);
    }
  }

  lemma SetKeepsAged(ttl: nat, s: Sys, w: nat, n: nat, uid: ActorUID, id: int)
    requires Aged(ttl, s) && Enabled(s, Set(w, n, uid, id))
    ensures Aged(ttl, Next(ttl, s, Set(w, n, uid, id)))
  {
    var next := Snapshot(s.Now(), s.hist[|s.hist| - 1].values[uid := id]);
    AgedStays(ttl, s, next);
    GivenNow(s.hist + [next], uid, Answer(Some(id), s.Now(), 0));
  }

  lemma FillOwnKeepsAged(ttl: nat, s: Sys, w: nat)
    requires Aged(ttl, s) && Enabled(s, FillOwn(w))
    ensures Aged(ttl, Next(ttl, s, FillOwn(w)))
  {
  }

  lemma FillKeepsAged(ttl: nat, s: Sys, r: nat)
    requires Aged(ttl, s) && Enabled(s, Fill(r))
    ensures Aged(ttl, Next(ttl, s, Fill(r)))
  {
  }

  lemma HandleKeepsAged(ttl: nat, s: Sys, n: nat)
    requires Aged(ttl, s) && Enabled(s, Handle(n))
    ensures Aged(ttl, Next(ttl, s, Handle(n)))
  {
  }

  lemma PublishKeepsAged(ttl: nat, s: Sys, w: nat)
    requires Aged(ttl, s) && Enabled(s, Publish(w))
    ensures Aged(ttl, Next(ttl, s, Publish(w)))
  {
  }

  lemma GetKeepsAged(ttl: nat, s: Sys, r: nat, n: nat, uid: ActorUID)
    requires Aged(ttl, s) && Enabled(s, Get(r, n, uid))
    ensures Aged(ttl, Next(ttl, s, Get(r, n, uid)))
  {
  }

  lemma StepKeepsAged(ttl: nat, s: Sys, a: Action)
    requires Aged(ttl, s) && Enabled(s, a)
    ensures Aged(ttl, Next(ttl, s, a))
  {
    match a
    case Pause(dt) => AgedStays(ttl, s, Snapshot(s.Now() + dt, s.hist[|s.hist| - 1].values));
    case Set(w, n, uid, id) => SetKeepsAged(ttl, s, w, n, uid, id);
    case FillOwn(w) => FillOwnKeepsAged(ttl, s, w);
    case Publish(w) => PublishKeepsAged(ttl, s, w);
    case Handle(n) => HandleKeepsAged(ttl, s, n);
    case Get(r, n, uid) => GetKeepsAged(ttl, s, r, n, uid);
    case Fill(r) => FillKeepsAged(ttl, s, r);
  }

  // ---------- runs ----------

  ghost predicate ValidRun(ttl: nat, s: Sys, run: seq<Action>)
    decreases |run|
  {
    s.hist != [] && (run == [] || (Enabled(s, run[0]) && ValidRun(ttl, Next(ttl, s, run[0]), run[1..])))
  }

  ghost function Final(ttl: nat, s: Sys, run: seq<Action>): Sys
    requires ValidRun(ttl, s, run)
    decreases |run|
  {
    if run == [] then s else Final(ttl, Next(ttl, s, run[0]), run[1..])
  }

  ghost predicate NoStaleFill(ttl: nat, s: Sys, run: seq<Action>)
    requires ValidRun(ttl, s, run)
    decreases |run|
  {
    run == [] || (!StaleFill(s, run[0]) && NoStaleFill(ttl, Next(ttl, s, run[0]), run[1..]))
  }

  ghost predicate AlwaysCoherent(ttl: nat, s: Sys, run: seq<Action>)
    requires ValidRun(ttl, s, run)
    decreases |run|
  {
    Coherent(s) && (run == [] || AlwaysCoherent(ttl, Next(ttl, s, run[0]), run[1..]))
  }

  ghost predicate Initial(s: Sys) {
    |s.hist| == 1 && s.writers == map[] && s.readers == map[] && forall i | 0 <= i < |s.nodes| :: s.nodes[i] == Node(map[], [])
  }

  lemma {:induction false} RunExactly(ttl: nat, s: Sys, run: seq<Action>)
    requires Inv(s) && ValidRun(ttl, s, run)
    ensures AlwaysCoherent(ttl, s, run) <==> NoStaleFill(ttl, s, run)
    ensures NoStaleFill(ttl, s, run) ==> Inv(Final(ttl, s, run))
    decreases |run|
  {
    if run != [] {
      StepKeepsInv(ttl, s, run[0]);
      if !StaleFill(s, run[0]) {
        RunExactly(ttl, Next(ttl, s, run[0]), run[1..]);
      } else {
        assert !AlwaysCoherent(ttl, Next(ttl, s, run[0]), run[1..]);
      }
    }
  }

  lemma {:induction false} RunKeepsAged(ttl: nat, s: Sys, run: seq<Action>)
    requires Aged(ttl, s) && ValidRun(ttl, s, run)
    ensures Aged(ttl, Final(ttl, s, run))
    decreases |run|
  {
    if run != [] {
      StepKeepsAged(ttl, s, run[0]);
      RunKeepsAged(ttl, Next(ttl, s, run[0]), run[1..]);
    }
  }

  /** In every state of a run a cached answer, positive or negative, that disagrees with Redis has a
      writer between its SET and its PUBLISH, or an invalidation the node has not handled yet, if and
      only if the run contains no stale fill. */
  lemma ServerCacheCoherence(ttl: nat, s0: Sys, run: seq<Action>)
    requires Initial(s0) && ValidRun(ttl, s0, run)
    ensures AlwaysCoherent(ttl, s0, run) <==> NoStaleFill(ttl, s0, run)
    ensures NoStaleFill(ttl, s0, run) ==> Final(ttl, s0, run).hist != [] && Coherent(Final(ttl, s0, run))
  {
    assert Inv(s0);
    RunExactly(ttl, s0, run);
  }

  /** In any run at all, a usable cached answer is at most LocalCacheTTL plus its fill time old. */
  lemma ServerCacheAge(ttl: nat, s0: Sys, run: seq<Action>, n: nat, uid: ActorUID)
    requires Initial(s0) && ValidRun(ttl, s0, run)
    requires var s := Final(ttl, s0, run);
             s.hist != [] && n < |s.nodes| && uid in s.nodes[n].cache && s.nodes[n].cache[uid].expireAt > s.Now()
    ensures var s := Final(ttl, s0, run);
            var answer := s.nodes[n].cache[uid].answer;
            Given(s.hist, uid, answer) && s.Now() <= answer.at + answer.spent + ttl
  {
    RunKeepsAged(ttl, s0, run);
  }

  const ACTOR := ActorUID(1, 1)
  const READ := Reader(0, ACTOR, Answer(None, 0, 0), false)
  const WRITTEN := [Snapshot(0, map[]), Snapshot(0, map[ACTOR := 7])]

  /** A server ID was set, but not announced, after a lookup had read that there is none. */
  const OVERTAKING := Sys(WRITTEN, [Node(map[], [])], map[0 := Writer(0, ACTOR, 7, 0)], map[0 := READ])

  lemma FillAfterNews(ttl: nat)
    ensures var run := [Publish(0), Handle(0), Fill(0)];
            && ValidRun(ttl, OVERTAKING, run) && !NoStaleFill(ttl, OVERTAKING, run)
            && Final(ttl, OVERTAKING, run) == Sys(WRITTEN, [Node(map[ACTOR := Held(Answer(None, 0, 0), ttl)], [])], map[], map[])
  {
    var published := Sys(WRITTEN, [Node(map[], [ACTOR])], map[], map[0 := READ]);
    var handled := Sys(WRITTEN, [Node(map[], [])], map[], map[0 := READ.(overtaken := true)]);
    var filled := Sys(WRITTEN, [Node(map[ACTOR := Held(Answer(None, 0, 0), ttl)], [])], map[], map[]);
    RunCons(ttl, handled, Fill(0), filled, []);
    assert published.nodes[0].cache - {ACTOR} == map[] && [ACTOR][1..] == [];
    RunCons(ttl, published, Handle(0), handled, [Fill(0)] + []);
    assert OVERTAKING.nodes[0].inbox + [ACTOR] == [ACTOR] && OVERTAKING.writers - {0} == map[];
    assert Next(ttl, OVERTAKING, Publish(0)).nodes == published.nodes;
    RunCons(ttl, OVERTAKING, Publish(0), published, [Handle(0)] + ([Fill(0)] + []));
    assert [Publish(0)] + ([Handle(0)] + ([Fill(0)] + [])) == [Publish(0), Handle(0), Fill(0)];
  }

  /** Stale fills do happen: a lookup reads, is overtaken by a complete write, and then fills; its wrong
      entry will not be corrected before it expires. */
  lemma OvertakenFillIsStale(ttl: nat) returns (s0: Sys, run: seq<Action>)
    ensures Initial(s0) && ValidRun(ttl, s0, run) && !NoStaleFill(ttl, s0, run)
    ensures var s := Final(ttl, s0, run);
            && s.hist != [] && |s.nodes| == 1 && ACTOR in s.nodes[0].cache
            && s.nodes[0].cache[ACTOR].answer.value != s.Value(ACTOR)
            && !Announcing(s, ACTOR) && ACTOR !in s.nodes[0].inbox
  {
    s0 := Sys([Snapshot(0, map[])], [Node(map[], [])], map[], map[]);
    var rest := [Publish(0), Handle(0), Fill(0)];
    FillAfterNews(ttl);
    var s1 := s0.(readers := map[0 := READ]);
    RunCons(ttl, s1, Set(0, 0, ACTOR, 7), OVERTAKING, rest);
    RunCons(ttl, s0, Get(0, 0, ACTOR), s1, [Set(0, 0, ACTOR, 7)] + rest);
    run := [Get(0, 0, ACTOR)] + ([Set(0, 0, ACTOR, 7)] + rest);
  }

  lemma RunCons(ttl: nat, s: Sys, a: Action, s': Sys, rest: seq<Action>)
    requires s.hist != [] && Enabled(s, a) && Next(ttl, s, a) == s' && ValidRun(ttl, s', rest)
    ensures ValidRun(ttl, s, [a] + rest) && Final(ttl, s, [a] + rest) == Final(ttl, s', rest)
    ensures NoStaleFill(ttl, s, [a] + rest) <==> !StaleFill(s, a) && NoStaleFill(ttl, s', rest)
  {
  }
}
