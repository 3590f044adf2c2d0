/** The Registry object of one node: the five public calls and the stream consumer, over a
    RedisServer. Every clock reading is a parameter; so is the fate of the network round trip. */
module RegistryClient {
  import opened Wrappers
  import opened ActorKeys
  import opened RegistrySpec
  import opened RegistryScripts
  import opened LocationCache

  datatype Error =
    | UIDRequired | NodeIDRequired | LeaseIDRequired | SourceLeaseIDRequired | TTLInvalid
    | ActorAlreadyRegistered | ActorNotExists | ActorLeaseMismatch | Network

  /** The validate functions, in the order in which they check. */
  function Validate(uid: ActorUID, op: Op, ttl: int): Option<Error> {
    if uid.IsZero() then Some(UIDRequired)
    else if op.GetLocation? then None
    else if op.node == "" then Some(NodeIDRequired)
    else if op.lease == "" then Some(LeaseIDRequired)
    else if op.TakeOver? && op.source == "" then Some(SourceLeaseIDRequired)
    else if !op.Unregister? && ttl < 0 then Some(TTLInvalid)
    else None
  }

  function ErrorOf(reply: Reply): Option<Error> {
    match reply
    case Done => None
    case Located(_, _) => None
    case NotExists => Some(ActorNotExists)
    case AlreadyRegistered(_, _) => Some(ActorAlreadyRegistered)
    case LeaseMismatch => Some(ActorLeaseMismatch)
  }

  /** The abstract effect of one client call on the store and on the caller's cache. */
  datatype CallEffect = CallEffect(store: Store, cache: Cache, error: Option<Error>)

  ghost function Intended(cfg: Config, s: Store, cache: Cache, uid: ActorUID, op: Op, ttl: int, net: Net,
                          tc: nat, tn: nat): CallEffect
  {
    if Validate(uid, op, ttl).Some? then CallEffect(s, cache, Validate(uid, op, ttl))
    else match net
      case NotSent => CallEffect(s, cache, Some(Network))
      case ReplyLost => CallEffect(s.Call(uid, op, ttl), cache, Some(Network))
      case Answered =>
        var reply := s.Result(uid, op, ttl).reply;
        CallEffect(s.Call(uid, op, ttl), Affect(cfg, cache, uid, EffectOf(op, ttl, reply), tc, tn), ErrorOf(reply))
  }

  datatype Message = Message(id: nat, change: Option<ActorUID>)

  /** What one XREAD returns. */
  datatype Read = Messages(messages: seq<Message>) | Timeout | MissingStream | Failed

  /** Where the consumer resumes: "$", or after a concrete message ID ("0-0" is After(0)). */
  datatype LastID = Tail | Following(next: nat)

  /** The Unix second the client computes from a record's expiry: 0 if it has none, or is in its last
      millisecond; otherwise the client's second plus the remaining time rounded up to seconds. */
  ghost predicate Reports(expireAt: nat, expire: Option<nat>, nowMs: nat, tc: nat) {
    if expire.None? || expire.value <= nowMs then expireAt == 0
    else
      && expireAt > Sec(tc)
      && (expireAt - Sec(tc) - 1) * 1000 < expire.value - nowMs <= (expireAt - Sec(tc)) * 1000
  }

  /** From index i on the feed has neither messages nor a missing stream. */
  ghost predicate SetsNothing(feed: seq<Read>, i: nat) {
    forall j | i <= j < |feed| :: !feed[j].MissingStream? && (feed[j].Messages? ==> feed[j].messages == [])
  }

  class Registry {
    const cfg: Config
    var locCache: Cache
    var lastID: LastID

    constructor (cfg: Config)
      ensures this.cfg == cfg && locCache == map[] && lastID == Tail
    {
      this.cfg, locCache, lastID := cfg, map[], Tail;
    }

    // ---------- cache access ----------

    method GetCachedLocation(uid: ActorUID, now: nat) returns (location: Option<Location>)
      modifies this`locCache
      ensures uid in old(locCache) && Fresh(old(locCache)[uid], now) ==>
                location == Some(old(locCache)[uid].location) && locCache == old(locCache)
      ensures !(uid in old(locCache) && Fresh(old(locCache)[uid], now)) ==>
                location == None && locCache == old(locCache) - {uid}
    {
      if uid !in locCache {
        return None;
      }
      var e := locCache[uid];
      if e.expireAt <= now {
        locCache := locCache - {uid};
        return None;
      }
      return Some(e.location);
    }

    method Cache(uid: ActorUID, location: Location, now: nat)
      modifies this`locCache
      ensures locCache == CacheLocation(cfg, old(locCache), uid, location, now)
      ensures locCache - {uid} == old(locCache) - {uid}
      ensures uid in locCache <==>
                cfg.maxTTL > 0 && (location.expireAt == 0 || now + cfg.window < location.expireAt * SECOND)
      ensures uid in locCache ==>
                var e := locCache[uid];
                && e.location == location && e.expireAt <= now + cfg.maxTTL
                && (location.expireAt > 0 ==> e.expireAt + cfg.window <= location.expireAt * SECOND)
                && (e.expireAt == now + cfg.maxTTL
                    || (location.expireAt > 0 && e.expireAt + cfg.window == location.expireAt * SECOND))
    {
      var localTTL := LocalTTL(cfg, location, now);
      if localTTL <= 0 {
        locCache := locCache - {uid};
        return;
      }
      locCache := locCache[uid := CacheEntry(location, now + localTTL)];
    }

    // ---------- the public calls ----------

    method RegisterActor(redis: RedisServer, uid: ActorUID, node: string, lease: string, ttl: int,
                         net: Net, tc: nat, tn: nat, ghost s: Store)
        returns (result: Option<Location>, err: Option<Error>)
      requires redis.Shows(s)
      modifies this`locCache, redis`keys, redis`log, redis`low
      ensures var c := Intended(cfg, s, old(locCache), uid, Register(node, lease), ttl, net, tc, tn);
              redis.Shows(c.store) && locCache == c.cache && err == c.error
      ensures err == if uid.IsZero() then Some(UIDRequired)
                     else if node == "" then Some(NodeIDRequired)
                     else if lease == "" then Some(LeaseIDRequired)
                     else if ttl < 0 then Some(TTLInvalid)
                     else if !net.Answered? then Some(Network)
                     else if s.Current(uid).Some? && s.Current(uid).value.node !in {"", node} then Some(ActorAlreadyRegistered)
                     else None
      ensures result.Some? <==> err.None? || err == Some(ActorAlreadyRegistered)
      ensures locCache == if result.Some? then CacheLocation(cfg, old(locCache), uid, result.value, tn) else old(locCache)
      ensures err.None? ==> result == Some(Location(node, if ttl == 0 then 0 else Sec(tc) + ttl))
      ensures err == Some(ActorAlreadyRegistered) ==>
                var r := s.Current(uid).value;
                result.value.node == r.node && Reports(result.value.expireAt, r.expire, Ms(s.now), tc)
    {
      err, result := Validate(uid, Register(node, lease), ttl), None;
      if err.Some? {
        return;
      }
      if net.NotSent? {
        return None, Some(Network);
      }
      var reply := redis.Eval(uid, Register(node, lease), ttl, cfg.maxLen, s);
      if net.ReplyLost? {
        return None, Some(Network);
      }
      result := Some(Location(reply.node, TTLToExpireAt(reply.ttl, tc)));
      Cache(uid, result.value, tn);
      err := ErrorOf(reply);
    }

    method TakeOverActor(redis: RedisServer, uid: ActorUID, node: string, lease: string, source: string, ttl: int,
                         net: Net, tc: nat, tn: nat, ghost s: Store)
        returns (result: Option<Location>, err: Option<Error>)
      requires redis.Shows(s)
      modifies this`locCache, redis`keys, redis`log, redis`low
      ensures var c := Intended(cfg, s, old(locCache), uid, TakeOver(node, lease, source), ttl, net, tc, tn);
              redis.Shows(c.store) && locCache == c.cache && err == c.error
      ensures err == if uid.IsZero() then Some(UIDRequired)
                     else if node == "" then Some(NodeIDRequired)
                     else if lease == "" then Some(LeaseIDRequired)
                     else if source == "" then Some(SourceLeaseIDRequired)
                     else if ttl < 0 then Some(TTLInvalid)
                     else if !net.Answered? then Some(Network)
                     else if s.Current(uid).None? then Some(ActorNotExists)
                     else if s.Current(uid).value.lease != source then Some(ActorLeaseMismatch)
                     else None
      ensures err.None? <==> result.Some?
      ensures err.None? ==> result == Some(Location(node, if ttl == 0 then 0 else Sec(tc) + ttl))
      ensures locCache == if err.None? then CacheLocation(cfg, old(locCache), uid, result.value, tn)
                          else if err == Some(ActorNotExists) then old(locCache) - {uid} else old(locCache)
    {
      err, result := Validate(uid, TakeOver(node, lease, source), ttl), None;
      if err.Some? {
        return;
      }
      if net.NotSent? {
        return None, Some(Network);
      }
      var reply := redis.Eval(uid, TakeOver(node, lease, source), ttl, cfg.maxLen, s);
      if net.ReplyLost? {
        return None, Some(Network);
      }
      match reply {
        case Located(n, seconds) =>
          result := Some(Location(n, TTLToExpireAt(seconds, tc)));
          Cache(uid, result.value, tn);
        case NotExists =>
          locCache := locCache - {uid};
        case _ =>
      }
      err := ErrorOf(reply);
    }

    method UnregisterActor(redis: RedisServer, uid: ActorUID, node: string, lease: string,
                           net: Net, tc: nat, tn: nat, ghost s: Store)
        returns (err: Option<Error>)
      requires redis.Shows(s)
      modifies this`locCache, redis`keys, redis`log, redis`low
      ensures var c := Intended(cfg, s, old(locCache), uid, Unregister(node, lease), 0, net, tc, tn);
              redis.Shows(c.store) && locCache == c.cache && err == c.error
      ensures err == if uid.IsZero() then Some(UIDRequired)
                     else if node == "" then Some(NodeIDRequired)
                     else if lease == "" then Some(LeaseIDRequired)
                     else if !net.Answered? then Some(Network)
                     else if s.Current(uid).None? then Some(ActorNotExists)
                     else if s.Current(uid).value.node != node || s.Current(uid).value.lease != lease
                     then Some(ActorLeaseMismatch)
                     else None
      ensures locCache == if err.None? || err == Some(ActorNotExists) then old(locCache) - {uid} else old(locCache)
    {
      err := Validate(uid, Unregister(node, lease), 0);
      if err.Some? {
        return;
      }
      if net.NotSent? {
        return Some(Network);
      }
      var reply := redis.Eval(uid, Unregister(node, lease), 0, cfg.maxLen, s);
      if net.ReplyLost? {
        return Some(Network);
      }
      if reply.Done? || reply.NotExists? {
        locCache := locCache - {uid};
      }
      err := ErrorOf(reply);
    }

    method KeepActorAlive(redis: RedisServer, uid: ActorUID, node: string, lease: string, ttl: int,
                          net: Net, tc: nat, tn: nat, ghost s: Store)
        returns (err: Option<Error>)
      requires redis.Shows(s)
      modifies this`locCache, redis`keys, redis`log, redis`low
      ensures var c := Intended(cfg, s, old(locCache), uid, KeepAlive(node, lease), ttl, net, tc, tn);
              redis.Shows(c.store) && locCache == c.cache && err == c.error
      ensures err == if uid.IsZero() then Some(UIDRequired)
                     else if node == "" then Some(NodeIDRequired)
                     else if lease == "" then Some(LeaseIDRequired)
                     else if ttl < 0 then Some(TTLInvalid)
                     else if !net.Answered? then Some(Network)
                     else if s.Current(uid).None? then Some(ActorNotExists)
                     else if s.Current(uid).value.node != node || s.Current(uid).value.lease != lease
                     then Some(ActorLeaseMismatch)
                     else None
      ensures locCache == if err.None? then
                            CacheLocation(cfg, old(locCache), uid, Location(node, if ttl == 0 then 0 else Sec(tc) + ttl), tn)
                          else if err == Some(ActorNotExists) then old(locCache) - {uid} else old(locCache)
    {
      err := Validate(uid, KeepAlive(node, lease), ttl);
      if err.Some? {
        return;
      }
      if net.NotSent? {
        return Some(Network);
      }
      var reply := redis.Eval(uid, KeepAlive(node, lease), ttl, cfg.maxLen, s);
      if net.ReplyLost? {
        return Some(Network);
      }
      match reply {
        case Done => Cache(uid, Location(node, TTLToExpireAt(ttl, tc)), tn);
        case NotExists => locCache := locCache - {uid};
        case _ =>
      }
      err := ErrorOf(reply);
    }

    /** A lookup that nobody else is making at the same time: a fresh entry is answered without
        Redis; otherwise it is dropped, and the answer is Redis's and is cached. */
    method GetActorLocation(redis: RedisServer, uid: ActorUID, net: Net, t0: nat, t1: nat, tc: nat, tn: nat, ghost s: Store)
        returns (result: Option<Location>, err: Option<Error>)
      requires redis.Shows(s)
      modifies this`locCache, redis`keys, redis`log, redis`low
      ensures !uid.IsZero() && uid in old(locCache) && Fresh(old(locCache)[uid], t0) ==>
                redis.Shows(s) && locCache == old(locCache) && err == None && result == Some(old(locCache)[uid].location)
      ensures uid.IsZero() || !(uid in old(locCache) && Fresh(old(locCache)[uid], t0)) ==>
                var before := if uid.IsZero() then old(locCache) else old(locCache) - {uid};
                var c := Intended(cfg, s, before, uid, GetLocation, 0, net, tc, tn);
                redis.Shows(c.store) && locCache == c.cache && err == c.error
      ensures err.None? <==> result.Some?
      ensures uid.IsZero() || !(uid in old(locCache) && Fresh(old(locCache)[uid], t0)) ==>
                err == if uid.IsZero() then Some(UIDRequired)
                       else if !net.Answered? then Some(Network)
                       else if s.Current(uid).None? || s.Current(uid).value.node == "" then Some(ActorNotExists)
                       else None
      ensures !(uid in old(locCache) && Fresh(old(locCache)[uid], t0)) && err.None? ==>
                var r := s.Current(uid).value;
                && result.value.node == r.node && Reports(result.value.expireAt, r.expire, Ms(s.now), tc)
                && locCache == CacheLocation(cfg, old(locCache), uid, result.value, tn)
      ensures err.Some? && !uid.IsZero() ==> locCache == old(locCache) - {uid}
    {
      err, result := Validate(uid, GetLocation, 0), None;
      if err.Some? {
        return;
      }
      result := GetCachedLocation(uid, t0);
      if result.Some? {
        return;
      }
      result := GetCachedLocation(uid, t1);
      if result.Some? {
        return;
      }
      if net.NotSent? {
        return None, Some(Network);
      }
      var reply := redis.Eval(uid, GetLocation, 0, cfg.maxLen, s);
      if net.ReplyLost? {
        return None, Some(Network);
      }
      if reply.Located? {
        result := Some(Location(reply.node, TTLToExpireAt(reply.ttl, tc)));
        Cache(uid, result.value, tn);
      }
      err := ErrorOf(reply);
    }

    // ---------- the stream consumer ----------

    method ApplyLocationChange(m: Message)
      modifies this`locCache
      ensures locCache == if m.change.Some? then old(locCache) - {m.change.value} else old(locCache)
    {
      if m.change.Some? {
        locCache := locCache - {m.change.value};
      }
    }

    method ApplyBatch(messages: seq<Message>)
      modifies this
      ensures locCache.Keys <= old(locCache).Keys
      ensures forall j, u | 0 <= j < |messages| && messages[j].change == Some(u) :: u !in locCache
      ensures forall u <- old(locCache) ::
                if u in locCache then locCache[u] == old(locCache)[u]
                else exists j | 0 <= j < |messages| :: messages[j].change == Some(u)
      ensures lastID == if messages == [] then old(lastID) else Following(messages[|messages| - 1].id + 1)
    {
      for i := 0 to |messages|
        invariant locCache.Keys <= old(locCache).Keys
        invariant forall j, u | 0 <= j < i && messages[j].change == Some(u) :: u !in locCache
        invariant forall u <- old(locCache) ::
                    if u in locCache then locCache[u] == old(locCache)[u]
                    else exists j | 0 <= j < i :: messages[j].change == Some(u)
        invariant lastID == if i == 0 then old(lastID) else Following(messages[i - 1].id + 1)
      {
        ApplyLocationChange(messages[i]);
        lastID := Following(messages[i].id + 1);
      }
    }

    /** Every actor named in a delivered message is dropped, and nothing else. The cursor is set by the
        last read that found the stream missing, then to its first event, or that brought messages, then to
        the one after the last of them; without such a read it stays. */
    method ConsumeLocationChanges(feed: seq<Read>)
      modifies this
      ensures locCache.Keys <= old(locCache).Keys
      ensures forall i, j, u | 0 <= i < |feed| && feed[i].Messages? && 0 <= j < |feed[i].messages|
                            && feed[i].messages[j].change == Some(u) :: u !in locCache
      ensures forall u <- old(locCache) ::
                if u in locCache then locCache[u] == old(locCache)[u]
                else exists i, j | 0 <= i < |feed| && feed[i].Messages? && 0 <= j < |feed[i].messages| ::
                       feed[i].messages[j].change == Some(u)
      ensures SetsNothing(feed, 0) ==> lastID == old(lastID)
      ensures forall i | 0 <= i < |feed| && feed[i].MissingStream? && SetsNothing(feed, i + 1) :: lastID == Following(0)
      ensures forall i | 0 <= i < |feed| && feed[i].Messages? && feed[i].messages != [] && SetsNothing(feed, i + 1) ::
                lastID == Following(feed[i].messages[|feed[i].messages| - 1].id + 1)
    {
      for i := 0 to |feed|
        invariant locCache.Keys <= old(locCache).Keys
        invariant forall k, j, u | 0 <= k < i && feed[k].Messages? && 0 <= j < |feed[k].messages|
                                && feed[k].messages[j].change == Some(u) :: u !in locCache
        invariant forall u <- old(locCache) ::
                    if u in locCache then locCache[u] == old(locCache)[u]
                    else exists k, j | 0 <= k < i && feed[k].Messages? && 0 <= j < |feed[k].messages| ::
                           feed[k].messages[j].change == Some(u)
        invariant SetsNothing(feed[..i], 0) ==> lastID == old(lastID)
        invariant forall k | 0 <= k < i && feed[k].MissingStream? && SetsNothing(feed[..i], k + 1) :: lastID == Following(0)
        invariant forall k | 0 <= k < i && feed[k].Messages? && feed[k].messages != [] && SetsNothing(feed[..i], k + 1) ::
                    lastID == Following(feed[k].messages[|feed[k].messages| - 1].id + 1)
      {
        assert feed[..i + 1][i] == feed[i];
        forall k | 0 <= k <= i && SetsNothing(feed[..i + 1], k)
          ensures SetsNothing(feed[..i], k)
        {
          assert forall j | k <= j < i :: feed[..i + 1][j] == feed[..i][j];
        }
        match feed[i] {
          case Messages(messages) => ApplyBatch(messages);
          case MissingStream => lastID := Following(0);
          case _ =>
        }
      }
      assert feed[..|feed|] == feed;
    }
  }
}
