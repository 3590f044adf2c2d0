/** The location cache of one node: how long an entry may live, and when that is short enough
    to be gone before the Redis record it was read from. */
module LocationCache {
  import opened Wrappers
  import opened ActorKeys
  import opened RegistrySpec

  datatype Config = Config(maxLen: nat, maxTTL: nat, window: nat)

  /** RegistryConfig.init: values that are not positive fall back to the defaults. */
  function InitConfig(maxLen: int, maxTTL: int, window: int): (cfg: Config)
    ensures cfg.maxLen > 0 && cfg.maxTTL > 0 && cfg.window > 0
    ensures maxLen > 0 ==> cfg.maxLen == maxLen
    ensures maxTTL > 0 ==> cfg.maxTTL == maxTTL
    ensures window > 0 ==> cfg.window == window
    ensures maxLen <= 0 ==> cfg.maxLen == 100_000
    ensures maxTTL <= 0 ==> cfg.maxTTL == 5_000_000_000
    ensures window <= 0 ==> cfg.window == 1_000_000_000
  {
    Config(if maxLen <= 0 then 100_000 else maxLen,
           if maxTTL <= 0 then 5 * SECOND else maxTTL,
           if window <= 0 then SECOND else window)
  }

  /** `expireAt` is in Unix seconds, 0 for "never". */
  datatype Location = Location(node: string, expireAt: nat)

  /** `expireAt` is the client instant from which the entry is ignored. */
  datatype CacheEntry = CacheEntry(location: Location, expireAt: nat)

  type Cache = map<ActorUID, CacheEntry>

  function TTLToExpireAt(ttl: int, now: nat): nat {
    if ttl <= 0 then 0 else Sec(now) + ttl
  }

  function LocalTTL(cfg: Config, location: Location, now: nat): int {
    if location.expireAt <= 0 then cfg.maxTTL
    else
      var remaining := location.expireAt * SECOND - now;
      if remaining <= cfg.window then 0
      else if remaining - cfg.window < cfg.maxTTL then remaining - cfg.window else cfg.maxTTL
  }

  /** The entry cacheLocation stores, if it stores one. */
  function NewEntry(cfg: Config, location: Location, now: nat): Option<CacheEntry> {
    var ttl := LocalTTL(cfg, location, now);
    if ttl <= 0 then None else Some(CacheEntry(location, now + ttl))
  }

  function CacheLocation(cfg: Config, cache: Cache, uid: ActorUID, location: Location, now: nat): Cache {
    match NewEntry(cfg, location, now)
    case None => cache - {uid}
    case Some(e) => cache[uid := e]
  }

  predicate Fresh(e: CacheEntry, now: nat) { e.expireAt > now }

  /** At every instant at which the entry is still used, a record expiring at `expire` is visible. */
  ghost predicate WithinRecord(e: CacheEntry, expire: Option<nat>) {
    forall t: nat | Fresh(e, t) :: Visible(expire, Ms(t))
  }

  lemma WithinRecordBound(e: CacheEntry, when: nat)
    ensures WithinRecord(e, Some(when)) <==> e.expireAt <= (when + 1) * MILLISECOND
  {
    if e.expireAt <= (when + 1) * MILLISECOND {
      forall t: nat | Fresh(e, t)
        ensures Ms(t) <= when
      {
      }
    } else {
      assert Fresh(e, (when + 1) * MILLISECOND);
      assert Ms((when + 1) * MILLISECOND) == when + 1;
    }
  }

  lemma WithinLaterRecord(e: CacheEntry, expire: Option<nat>, later: Option<nat>)
    requires WithinRecord(e, expire)
    requires later.None? || (expire.Some? && expire.value <= later.value)
    ensures WithinRecord(e, later)
  {
  }

  /** A nanosecond duration rounded up to whole milliseconds, in nanoseconds. */
  function WholeMs(d: nat): nat { (d + MILLISECOND - 1) / MILLISECOND * MILLISECOND }

  /** A location read at tr from a record visible until `when`, converted at tc and cached at tn. */
  function FillFromRead(cfg: Config, node: string, when: nat, tr: nat, tc: nat, tn: nat): Option<CacheEntry>
    requires Ms(tr) <= when
  {
    NewEntry(cfg, Location(node, TTLToExpireAt(RemainingSeconds(Some(when), Ms(tr)), tc)), tn)
  }

  /** The widest a second-granular deadline can overshoot: the script rounds the TTL up, the client
      rounds its clock down. */
  lemma OvershootBound(p: nat, tr: nat, tc: nat, d: nat)
    requires tr <= tc <= tr + d
    ensures (Sec(tc) + (p + 999) / 1000) * SECOND <= (Ms(tr) + p + 1) * MILLISECOND + 998 * MILLISECOND + WholeMs(d)
  {
  }

  /** No location read with a positive PTTL, and converted within d, is cached past its record. */
  ghost predicate WindowSuffices(cfg: Config, d: nat) {
    forall node, when: nat, tr: nat, tc: nat, tn: nat | tr <= tc <= tn && tc - tr <= d && Ms(tr) < when ::
      var e := FillFromRead(cfg, node, when, tr, tc, tn);
      e.Some? ==> WithinRecord(e.value, Some(when))
  }

  lemma ReadFillWithin(cfg: Config, node: string, when: nat, tr: nat, tc: nat, tn: nat, d: nat)
    requires tr <= tc <= tn && tc - tr <= d && Ms(tr) < when
    requires cfg.window >= 998 * MILLISECOND + WholeMs(d)
    ensures var e := FillFromRead(cfg, node, when, tr, tc, tn);
            e.Some? ==> WithinRecord(e.value, Some(when))
  {
    var p := when - Ms(tr);
    OvershootBound(p, tr, tc, d);
    var e := FillFromRead(cfg, node, when, tr, tc, tn);
    if e.Some? {
      assert e.value.expireAt <= (Sec(tc) + (p + 999) / 1000) * SECOND - cfg.window;
      WithinRecordBound(e.value, when);
    }
  }

  /** The exact safety window: 998 ms plus the longest conversion delay in whole milliseconds. */
  lemma WindowThreshold(cfg: Config, d: nat)
    requires cfg.maxTTL > 0
    ensures WindowSuffices(cfg, d) <==> cfg.window >= 998 * MILLISECOND + WholeMs(d)
  {
    if cfg.window >= 998 * MILLISECOND + WholeMs(d) {
      forall node, when: nat, tr: nat, tc: nat, tn: nat | tr <= tc <= tn && tc - tr <= d && Ms(tr) < when
        ensures var e := FillFromRead(cfg, node, when, tr, tc, tn);
                e.Some? ==> WithinRecord(e.value, Some(when))
      {
        ReadFillWithin(cfg, node, when, tr, tc, tn, d);
      }
    } else {
      ShortWindowFails(cfg, d);
    }
  }

  /** Worst case: read just before a second starts, with a PTTL one past a whole second. */
  lemma ShortWindowFails(cfg: Config, d: nat)
    requires cfg.maxTTL > 0
    requires cfg.window < 998 * MILLISECOND + WholeMs(d)
    ensures !WindowSuffices(cfg, d)
  {
    var w := (d + MILLISECOND - 1) / MILLISECOND;
    var n := w / 1000 + 1;
    var ttl := cfg.window / SECOND + 2;
    var tc := n * SECOND;
    var delay := if w == 0 then 0 else (w - 1) * MILLISECOND + 1;
    var tr := tc - delay;
    assert delay <= d;
    assert tr == (n * 1000 - w) * MILLISECOND + (if w == 0 then 0 else MILLISECOND - 1);
    assert Ms(tr) == n * 1000 - w;
    var p := (ttl - 1) * 1000 + 1;
    var when := Ms(tr) + p;
    assert RemainingSeconds(Some(when), Ms(tr)) == ttl;
    assert Sec(tc) == n;
    var tn := (n + ttl) * SECOND - cfg.window - 1;
    assert tn >= tc;
    var e := FillFromRead(cfg, "", when, tr, tc, tn);
    assert e == Some(CacheEntry(Location("", n + ttl), tn + 1));
    assert WholeMs(d) == w * MILLISECOND;
    WithinRecordBound(e.value, when);
    assert !WithinRecord(e.value, Some(when));
  }

  /** A window of one second plus the conversion delay makes the entry expire strictly first. */
  lemma ReadFillStrictlyBefore(cfg: Config, node: string, when: nat, tr: nat, tc: nat, tn: nat)
    requires tr <= tc <= tn && Ms(tr) < when
    requires cfg.window >= SECOND + (tc - tr)
    ensures var e := FillFromRead(cfg, node, when, tr, tc, tn);
            e.Some? ==> e.value.expireAt < when * MILLISECOND
  {
  }

  /** With a whole-second TTL just set, no rounding up happens and the delay alone is enough. */
  lemma ExactFillWithin(cfg: Config, node: string, ttl: int, tr: nat, tc: nat, tn: nat)
    requires tr <= tc <= tn && cfg.window >= tc - tr
    ensures var e := NewEntry(cfg, Location(node, TTLToExpireAt(ttl, tc)), tn);
            e.Some? ==> WithinRecord(e.value, Deadline(Ms(tr), ttl))
  {
  }

  /** A read in the record's last millisecond (PTTL 0) is taken for a record that never expires:
      with an otherwise sufficient window this is the only way an entry outlives its record. */
  lemma OutlivesExactlyInLastMillisecond(cfg: Config, node: string, when: nat, tr: nat, tc: nat, tn: nat, d: nat)
    requires tr <= tc <= tn && tc - tr <= d && Ms(tr) <= when
    requires cfg.window >= 998 * MILLISECOND + WholeMs(d) && cfg.maxTTL > MILLISECOND
    ensures var e := FillFromRead(cfg, node, when, tr, tc, tn);
            (e.Some? && !WithinRecord(e.value, Some(when))) <==> when == Ms(tr)
  {
    if Ms(tr) < when {
      ReadFillWithin(cfg, node, when, tr, tc, tn, d);
    } else {
      var e := FillFromRead(cfg, node, when, tr, tc, tn);
      assert e == Some(CacheEntry(Location(node, 0), tn + cfg.maxTTL));
      WithinRecordBound(e.value, when);
      assert tr >= when * MILLISECOND;
    }
  }

  // ---------- what one answered call does to the caller's cache ----------

  datatype Effect = Fill(node: string, ttl: int) | Drop | Keep

  function EffectOf(op: Op, ttl: int, reply: Reply): Effect {
    match reply
    case Located(node, seconds) => Fill(node, seconds)
    case AlreadyRegistered(node, seconds) => Fill(node, seconds)
    case Done => if op.KeepAlive? then Fill(op.node, ttl) else Drop
    case NotExists => if op.GetLocation? then Keep else Drop
    case LeaseMismatch => Keep
  }

  function Affect(cfg: Config, cache: Cache, uid: ActorUID, effect: Effect, tc: nat, tn: nat): Cache {
    match effect
    case Fill(node, ttl) => CacheLocation(cfg, cache, uid, Location(node, TTLToExpireAt(ttl, tc)), tn)
    case Drop => cache - {uid}
    case Keep => cache
  }
}
