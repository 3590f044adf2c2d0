/** What the actor registry stores, independently of how it lays the data out in Redis:
    at most one record per actor and one append-only log of location changes.
    Client clocks count nanoseconds; Redis works in whole milliseconds. */
module RegistrySpec {
  import opened Wrappers
  import opened ActorKeys

  const MILLISECOND: nat := 1_000_000
  const SECOND: nat := 1_000_000_000

  function Ms(t: nat): nat { t / MILLISECOND }
  function Sec(t: nat): nat { t / SECOND }

  lemma MsMonotone(t: nat, u: nat)
    requires t <= u
    ensures Ms(t) <= Ms(u)
  {
  }

  /** `expire` is the last millisecond in which the record is still visible. */
  datatype Rec = Rec(node: string, lease: string, revision: int, expire: Option<nat>)

  datatype ChangeOp = Upsert | Delete
  datatype Event = Event(uid: ActorUID, revision: int, op: ChangeOp)

  datatype Op =
    | Register(node: string, lease: string)
    | TakeOver(node: string, lease: string, source: string)
    | Unregister(node: string, lease: string)
    | KeepAlive(node: string, lease: string)
    | GetLocation

  datatype Reply =
    | Done
    | Located(node: string, ttl: int)
    | NotExists
    | AlreadyRegistered(node: string, ttl: int)
    | LeaseMismatch

  datatype Outcome = Outcome(rec: Option<Rec>, events: seq<Event>, reply: Reply)

  predicate Visible(expire: Option<nat>, nowMs: nat) {
    expire.None? || nowMs <= expire.value
  }

  /** PTTL rounded up to seconds; -1 without an expiry, and 0 in the record's last millisecond. */
  function RemainingSeconds(expire: Option<nat>, nowMs: nat): int
    requires Visible(expire, nowMs)
  {
    if expire.None? then -1 else (expire.value - nowMs + 999) / 1000
  }

  function Deadline(nowMs: nat, ttl: int): Option<nat> {
    if ttl > 0 then Some(nowMs + ttl * 1000) else None
  }

  function Max0(x: int): nat { if x > 0 then x else 0 }

  /** One registry operation on the visible record of one actor. */
  function Perform(uid: ActorUID, r: Option<Rec>, nowMs: nat, op: Op, ttl: int): Outcome
    requires r.Some? ==> Visible(r.value.expire, nowMs)
  {
    match op
    case Register(node, lease) =>
      if r.Some? && r.value.node != "" && r.value.node != node then
        Outcome(r, [], AlreadyRegistered(r.value.node, RemainingSeconds(r.value.expire, nowMs)))
      else
        var revision := if r.Some? then r.value.revision else 0;
        Outcome(Some(Rec(node, lease, revision, Deadline(nowMs, ttl))), [], Located(node, Max0(ttl)))
    case TakeOver(node, lease, source) =>
      if r.None? then Outcome(None, [], NotExists)
      else if r.value.lease != source then Outcome(r, [], LeaseMismatch)
      else
        var revision := r.value.revision + 1;
        Outcome(Some(Rec(node, lease, revision, Deadline(nowMs, ttl))), [Event(uid, revision, Upsert)],
                Located(node, Max0(ttl)))
    case Unregister(node, lease) =>
      if r.None? then Outcome(None, [], NotExists)
      else if r.value.node != node || r.value.lease != lease then Outcome(r, [], LeaseMismatch)
      else Outcome(None, [Event(uid, r.value.revision + 1, Delete)], Done)
    case KeepAlive(node, lease) =>
      if r.None? then Outcome(None, [], NotExists)
      else if r.value.node != node || r.value.lease != lease then Outcome(r, [], LeaseMismatch)
      else Outcome(Some(r.value.(expire := Deadline(nowMs, ttl))), [], Done)
    case GetLocation =>
      if r.None? || r.value.node == "" then Outcome(r, [], NotExists)
      else Outcome(r, [], Located(r.value.node, Max0(RemainingSeconds(r.value.expire, nowMs))))
  }

  // ---------- the store as a whole, and its runs ----------

  datatype Store = Store(now: nat, recs: map<ActorUID, Rec>, log: seq<Event>) {
    /** The record Redis would show for an actor: expired ones are gone. */
    function Current(uid: ActorUID): (r: Option<Rec>)
      ensures r.Some? ==> Visible(r.value.expire, Ms(now))
    {
      if uid in recs && Visible(recs[uid].expire, Ms(now)) then Some(recs[uid]) else None
    }

    function Result(uid: ActorUID, op: Op, ttl: int): Outcome {
      Perform(uid, Current(uid), Ms(now), op, ttl)
    }

    function Call(uid: ActorUID, op: Op, ttl: int): Store {
      var o := Result(uid, op, ttl);
      Store(now, if o.rec.Some? then recs[uid := o.rec.value] else recs - {uid}, log + o.events)
    }

    function Tick(dt: nat): Store { this.(now := now + dt) }
  }

  datatype Step = Wait(dt: nat) | Do(uid: ActorUID, op: Op, ttl: int)

  function After(s: Store, step: Step): Store {
    match step
    case Wait(dt) => s.Tick(dt)
    case Do(uid, op, ttl) => s.Call(uid, op, ttl)
  }

  function Run(s: Store, steps: seq<Step>): Store {
    if steps == [] then s else After(Run(s, steps[..|steps| - 1]), steps[|steps| - 1])
  }

  /** Did this step, taken in state s, change or confirm a registration? */
  predicate Succeeds(s: Store, step: Step) {
    step.Do? && (s.Result(step.uid, step.op, step.ttl).reply.Done? || s.Result(step.uid, step.op, step.ttl).reply.Located?)
  }

  function ReplyTo(s: Store, step: Step): Option<Reply> {
    if step.Wait? then None else Some(s.Result(step.uid, step.op, step.ttl).reply)
  }

  /** What every step of a run is answered. */
  function Replies(s: Store, steps: seq<Step>): seq<Option<Reply>> {
    if steps == [] then []
    else
      var before := steps[..|steps| - 1];
      Replies(s, before) + [ReplyTo(Run(s, before), steps[|steps| - 1])]
  }

  lemma CallOnlyTouches(s: Store, uid: ActorUID, op: Op, ttl: int, other: ActorUID)
    ensures other != uid ==> s.Call(uid, op, ttl).Current(other) == s.Current(other)
    ensures s.Call(uid, op, ttl).Current(uid) == s.Result(uid, op, ttl).rec
    ensures s.log <= s.Call(uid, op, ttl).log
  {
  }
}
