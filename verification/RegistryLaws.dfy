/** What every run of the registry store keeps: leases fence, owners are exclusive while their
    lease lasts, and revisions count the location changes of one life of a record. */
module RegistryLaws {
  import opened Wrappers
  import opened ActorKeys
  import opened RegistrySpec

  /** The store before step i of a run. */
  function At(s0: Store, steps: seq<Step>, i: nat): Store
    requires i <= |steps|
  {
    Run(s0, steps[..i])
  }

  lemma OneMore(s0: Store, steps: seq<Step>, i: nat)
    requires i < |steps|
    ensures At(s0, steps, i + 1) == After(At(s0, steps, i), steps[i])
  {
    assert steps[..i + 1][..i] == steps[..i];
  }

  // ---------- fencing ----------

  predicate Introduces(step: Step, lease: string) {
    step.Do? && (step.op.Register? || step.op.TakeOver?) && step.op.lease == lease
  }

  /** A call that only goes ahead when `lease` is the actor's current lease. */
  predicate GuardedBy(step: Step, uid: ActorUID, lease: string) {
    && step.Do? && step.uid == uid
    && match step.op
       case TakeOver(_, _, source) => source == lease
       case Unregister(_, l) => l == lease
       case KeepAlive(_, l) => l == lease
       case _ => false
  }

  predicate HasLease(s: Store, uid: ActorUID, lease: string) {
    s.Current(uid).Some? && s.Current(uid).value.lease == lease
  }

  /** This step succeeds in giving the actor this lease. */
  predicate Grants(s: Store, step: Step, uid: ActorUID, lease: string) {
    Introduces(step, lease) && step.uid == uid && Succeeds(s, step)
  }

  /** A guarded call succeeds exactly while its lease is held, and, except for a takeover, by its node. */
  lemma GuardIsLease(s: Store, step: Step, uid: ActorUID, lease: string)
    requires GuardedBy(step, uid, lease)
    ensures Succeeds(s, step) <==>
              HasLease(s, uid, lease) && (step.op.TakeOver? || s.Current(uid).value.node == step.op.node)
    ensures !Succeeds(s, step) ==> After(s, step).Current(uid) == s.Current(uid) && After(s, step).log == s.log
  {
    CallOnlyTouches(s, uid, step.op, step.ttl, uid);
  }

  /** One step gives an actor a lease it did not hold exactly by granting it. */
  lemma OnlyGrantsGive(s: Store, step: Step, uid: ActorUID, lease: string)
    ensures Grants(s, step, uid, lease) ==> HasLease(After(s, step), uid, lease)
    ensures !HasLease(s, uid, lease) && HasLease(After(s, step), uid, lease) ==> Grants(s, step, uid, lease)
  {
  }

  ghost predicate GrantedBetween(s0: Store, steps: seq<Step>, k: nat, n: nat, uid: ActorUID, lease: string)
    requires n <= |steps|
  {
    exists m | k <= m < n :: Grants(At(s0, steps, m), steps[m], uid, lease)
  }

  lemma {:induction false} HeldMeansGranted(s0: Store, steps: seq<Step>, k: nat, n: nat, uid: ActorUID, lease: string)
    requires k <= n <= |steps|
    requires !HasLease(At(s0, steps, k), uid, lease) && HasLease(At(s0, steps, n), uid, lease)
    ensures GrantedBetween(s0, steps, k, n, uid, lease)
    decreases n - k
  {
    if k < n {
      OneMore(s0, steps, n - 1);
      if HasLease(At(s0, steps, n - 1), uid, lease) {
        HeldMeansGranted(s0, steps, k, n - 1, uid, lease);
      } else {
        OnlyGrantsGive(At(s0, steps, n - 1), steps[n - 1], uid, lease);
      }
    }
  }

  /** A lost lease is held again at some point up to n if and only if it was granted again before n. */
  lemma ComesBackExactlyByGrant(s0: Store, steps: seq<Step>, k: nat, n: nat, uid: ActorUID, lease: string)
    requires k <= n <= |steps| && !HasLease(At(s0, steps, k), uid, lease)
    ensures (exists j | k <= j <= n :: HasLease(At(s0, steps, j), uid, lease))
            <==> GrantedBetween(s0, steps, k, n, uid, lease)
  {
    if GrantedBetween(s0, steps, k, n, uid, lease) {
      var m :| k <= m < n && Grants(At(s0, steps, m), steps[m], uid, lease);
      OneMore(s0, steps, m);
      OnlyGrantsGive(At(s0, steps, m), steps[m], uid, lease);
      assert HasLease(At(s0, steps, m + 1), uid, lease);
    }
    if j :| k <= j <= n && HasLease(At(s0, steps, j), uid, lease) {
      HeldMeansGranted(s0, steps, k, j, uid, lease);
      var m :| k <= m < j && Grants(At(s0, steps, m), steps[m], uid, lease);
    }
  }

  /** Fencing: once a lease has been replaced, removed or has expired, nothing guarded by it succeeds or
      changes anything, unless the actor has been granted it again since. */
  lemma LeaseFencing(s0: Store, steps: seq<Step>, k: nat, j: nat, uid: ActorUID, lease: string)
    requires k <= j < |steps| && !HasLease(At(s0, steps, k), uid, lease)
    requires GuardedBy(steps[j], uid, lease) && !GrantedBetween(s0, steps, k, j, uid, lease)
    ensures !Succeeds(At(s0, steps, j), steps[j])
    ensures At(s0, steps, j + 1).Current(uid) == At(s0, steps, j).Current(uid)
    ensures At(s0, steps, j + 1).log == At(s0, steps, j).log
  {
    if HasLease(At(s0, steps, j), uid, lease) {
      HeldMeansGranted(s0, steps, k, j, uid, lease);
    }
    GuardIsLease(At(s0, steps, j), steps[j], uid, lease);
    OneMore(s0, steps, j);
  }

  /** Conversely every grant lets guarded calls of its node through again, however the lease was lost. */
  lemma GrantRevives(s: Store, grant: Step, next: Step, uid: ActorUID, lease: string)
    requires Grants(s, grant, uid, lease) && GuardedBy(next, uid, lease)
    ensures Succeeds(After(s, grant), next) <==> next.op.TakeOver? || next.op.node == grant.op.node
  {
    CallOnlyTouches(s, uid, grant.op, grant.ttl, uid);
    GuardIsLease(After(s, grant), next, uid, lease);
  }

  /** Every Register and TakeOver of the run brings a lease nobody has used before. */
  ghost predicate FreshLeases(s0: Store, steps: seq<Step>) {
    forall i, lease | 0 <= i < |steps| && Introduces(steps[i], lease) ::
      && (forall uid <- s0.recs :: s0.recs[uid].lease != lease)
      && (forall j | 0 <= j < i :: !Introduces(steps[j], lease))
  }

  /** With fresh leases only, a lease that was held and lost is never granted again. */
  lemma FreshLeasesFence(s0: Store, steps: seq<Step>, h: nat, k: nat, j: nat, uid: ActorUID, lease: string)
    requires h < k <= j < |steps| && FreshLeases(s0, steps)
    requires HasLease(At(s0, steps, h), uid, lease) && !HasLease(At(s0, steps, k), uid, lease)
    requires GuardedBy(steps[j], uid, lease)
    ensures !GrantedBetween(s0, steps, k, |steps|, uid, lease)
    ensures !Succeeds(At(s0, steps, j), steps[j])
  {
    LeaseHasOrigin(s0, steps, h, uid);
    LeaseFencing(s0, steps, k, j, uid, lease);
  }

  /** A lease that is held came from the start or from an earlier step. */
  lemma {:induction false} LeaseHasOrigin(s0: Store, steps: seq<Step>, i: nat, uid: ActorUID)
    requires i <= |steps| && uid in At(s0, steps, i).recs
    ensures var lease := At(s0, steps, i).recs[uid].lease;
            (uid in s0.recs && s0.recs[uid].lease == lease) || exists j | 0 <= j < i :: Introduces(steps[j], lease)
  {
    if i > 0 {
      OneMore(s0, steps, i - 1);
      var s, lease := At(s0, steps, i - 1), At(s0, steps, i).recs[uid].lease;
      if uid in s.recs && s.recs[uid].lease == lease {
        LeaseHasOrigin(s0, steps, i - 1, uid);
      } else {
        assert Introduces(steps[i - 1], lease);
      }
    }
  }

  // ---------- exclusive ownership ----------

  /** A successful call that makes, or keeps, op.node the owner. */
  predicate Claims(s: Store, step: Step, uid: ActorUID) {
    && step.Do? && step.uid == uid && Succeeds(s, step)
    && (step.op.Register? || step.op.TakeOver? || step.op.KeepAlive?)
  }

  predicate Ends(s: Store, step: Step, uid: ActorUID) {
    step.Do? && step.uid == uid && (step.op.TakeOver? || step.op.Unregister?) && Succeeds(s, step)
  }

  /** Between two points of a run: no takeover or unregister, and no call shortens the TTL below T. */
  ghost predicate Undisturbed(s0: Store, steps: seq<Step>, i: nat, j: nat, uid: ActorUID, T: nat)
    requires i < j <= |steps|
  {
    && (forall k | i < k < j :: !Ends(At(s0, steps, k), steps[k], uid))
    && (forall k | i <= k < j && steps[k].Do? && steps[k].uid == uid :: steps[k].ttl <= 0 || steps[k].ttl >= T)
  }

  lemma {:induction false} TimeMovesOn(s0: Store, steps: seq<Step>, i: nat, j: nat)
    requires i <= j <= |steps|
    ensures At(s0, steps, i).now <= At(s0, steps, j).now
  {
    if i < j {
      TimeMovesOn(s0, steps, i, j - 1);
      OneMore(s0, steps, j - 1);
    }
  }

  predicate OwnedUntil(s: Store, uid: ActorUID, node: string, deadline: nat) {
    && s.Current(uid).Some? && s.Current(uid).value.node == node
    && (s.Current(uid).value.expire.None? || s.Current(uid).value.expire.value >= deadline)
  }

  lemma ClaimOwns(s: Store, step: Step, uid: ActorUID, T: nat)
    requires Claims(s, step, uid) && (step.ttl <= 0 || step.ttl >= T)
    ensures OwnedUntil(After(s, step), uid, step.op.node, Ms(s.now) + T * 1000)
  {
  }

  lemma OwnershipKept(s: Store, step: Step, uid: ActorUID, node: string, deadline: nat, T: nat)
    requires OwnedUntil(s, uid, node, deadline) && node != ""
    requires !Ends(s, step, uid)
    requires step.Do? && step.uid == uid ==> step.ttl <= 0 || step.ttl >= T
    requires deadline <= Ms(s.now) + T * 1000
    requires Ms(After(s, step).now) <= deadline
    ensures OwnedUntil(After(s, step), uid, node, deadline)
  {
  }

  lemma {:induction false} OwnerStays(s0: Store, steps: seq<Step>, i: nat, j: nat, uid: ActorUID, T: nat)
    requires i < j <= |steps| && T > 0
    requires Claims(At(s0, steps, i), steps[i], uid) && steps[i].op.node != ""
    requires Undisturbed(s0, steps, i, j, uid, T)
    requires Ms(At(s0, steps, j).now) <= Ms(At(s0, steps, i).now) + T * 1000
    ensures OwnedUntil(At(s0, steps, j), uid, steps[i].op.node, Ms(At(s0, steps, i).now) + T * 1000)
  {
    OneMore(s0, steps, j - 1);
    var s, deadline := At(s0, steps, j - 1), Ms(At(s0, steps, i).now) + T * 1000;
    if i == j - 1 {
      ClaimOwns(s, steps[i], uid, T);
    } else {
      TimeMovesOn(s0, steps, i, j - 1);
      TimeMovesOn(s0, steps, j - 1, j);
      MsMonotone(At(s0, steps, i).now, s.now);
      MsMonotone(s.now, At(s0, steps, j).now);
      OwnerStays(s0, steps, i, j - 1, uid, T);
      OwnershipKept(s, steps[j - 1], uid, steps[i].op.node, deadline, T);
    }
  }

  /** From a successful Register, TakeOver or KeepAlive until T seconds later, absent a takeover or
      unregister, the owner stays and every other node's Register is refused and told the owner. */
  lemma ExclusiveOwnership(s0: Store, steps: seq<Step>, i: nat, j: nat, uid: ActorUID, T: nat)
    requires i < j <= |steps| && T > 0
    requires Claims(At(s0, steps, i), steps[i], uid) && steps[i].op.node != ""
    requires Undisturbed(s0, steps, i, j, uid, T)
    requires Ms(At(s0, steps, j).now) <= Ms(At(s0, steps, i).now) + T * 1000
    ensures var s := At(s0, steps, j);
            && s.Current(uid).Some? && s.Current(uid).value.node == steps[i].op.node
            && forall other, lease, ttl | other != steps[i].op.node ::
                 var o := s.Result(uid, Register(other, lease), ttl);
                 && o.reply.AlreadyRegistered? && o.reply.node == steps[i].op.node
                 && o.rec == s.Current(uid) && o.events == []
  {
    OwnerStays(s0, steps, i, j, uid, T);
  }

  // ---------- revisions ----------

  function EventsOf(log: seq<Event>, uid: ActorUID): seq<Event> {
    if log == [] then []
    else EventsOf(log[..|log| - 1], uid) + if log[|log| - 1].uid == uid then [log[|log| - 1]] else []
  }

  lemma EventsOfAppend(a: seq<Event>, b: seq<Event>, uid: ActorUID)
    ensures EventsOf(a + b, uid) == EventsOf(a, uid) + EventsOf(b, uid)
  {
    if b == [] {
      assert a + b == a;
    } else {
      assert (a + b)[..|a + b| - 1] == a + b[..|b| - 1];
      EventsOfAppend(a, b[..|b| - 1], uid);
    }
  }

  /** The record is created by step i and stays visible through the state before step j. */
  ghost predicate OneLife(s0: Store, steps: seq<Step>, i: nat, j: nat, uid: ActorUID)
    requires i < j <= |steps|
  {
    && At(s0, steps, i).Current(uid).None?
    && forall m | i < m <= j :: At(s0, steps, m).Current(uid).Some?
  }

  /** The change events of an actor added to the log between two points of a run. */
  function EventsBetween(s0: Store, steps: seq<Step>, i: nat, j: nat, uid: ActorUID): seq<Event>
    requires i <= j <= |steps|
    requires |At(s0, steps, i).log| <= |At(s0, steps, j).log|
  {
    EventsOf(At(s0, steps, j).log[|At(s0, steps, i).log|..], uid)
  }

  lemma {:induction false} LogGrows(s0: Store, steps: seq<Step>, i: nat, j: nat)
    requires i <= j <= |steps|
    ensures At(s0, steps, i).log <= At(s0, steps, j).log
  {
    if i < j {
      LogGrows(s0, steps, i, j - 1);
      OneMore(s0, steps, j - 1);
    }
  }

  /** Appending to the log appends to what was added since its first n events. */
  lemma EventsSince(log: seq<Event>, more: seq<Event>, n: nat, uid: ActorUID)
    requires n <= |log|
    ensures EventsOf((log + more)[n..], uid) == EventsOf(log[n..], uid) + EventsOf(more, uid)
  {
    assert (log + more)[n..] == log[n..] + more;
    EventsOfAppend(log[n..], more, uid);
  }

  /** A call emits at most one event, about its own actor. */
  lemma OwnEvents(s: Store, caller: ActorUID, op: Op, ttl: int, uid: ActorUID)
    ensures EventsOf(s.Result(caller, op, ttl).events, uid) == if caller == uid then s.Result(caller, op, ttl).events else []
  {
  }

  lemma EventsBetweenGrows(s0: Store, steps: seq<Step>, i: nat, j: nat, uid: ActorUID)
    requires i <= j < |steps|
    ensures At(s0, steps, i).log <= At(s0, steps, j).log && At(s0, steps, i).log <= At(s0, steps, j + 1).log
    ensures EventsBetween(s0, steps, i, j + 1, uid) ==
            EventsBetween(s0, steps, i, j, uid) +
            if steps[j].Do? && steps[j].uid == uid
            then At(s0, steps, j).Result(uid, steps[j].op, steps[j].ttl).events else []
  {
    LogGrows(s0, steps, i, j);
    LogGrows(s0, steps, i, j + 1);
    OneMore(s0, steps, j);
    if steps[j].Do? {
      var s := At(s0, steps, j);
      EventsSince(s.log, s.Result(steps[j].uid, steps[j].op, steps[j].ttl).events, |At(s0, steps, i).log|, uid);
      OwnEvents(s, steps[j].uid, steps[j].op, steps[j].ttl, uid);
    }
  }

  /** One step of a life adds at most one event for the actor, numbered one past the record. */
  lemma StepNumbersEvents(s: Store, step: Step, uid: ActorUID)
    requires After(s, step).Current(uid).Some?
    ensures var n := if s.Current(uid).Some? then s.Current(uid).value.revision else 0;
            var events := if step.Do? && step.uid == uid then s.Result(uid, step.op, step.ttl).events else [];
            && (events == [] || events == [Event(uid, n + 1, Upsert)])
            && After(s, step).Current(uid).value.revision == n + |events|
  {
  }

  /** The k-th event is an upsert of the actor with revision k. */
  predicate Numbered(events: seq<Event>, uid: ActorUID) {
    forall k | 0 <= k < |events| :: events[k] == Event(uid, k + 1, Upsert)
  }

  lemma NumberedGrows(events: seq<Event>, more: seq<Event>, uid: ActorUID)
    requires Numbered(events, uid) && (more == [] || more == [Event(uid, |events| + 1, Upsert)])
    ensures Numbered(events + more, uid)
  {
  }

  /** Within one life the k-th event of an actor is an upsert with revision k, and the record
      carries the number of events so far. */
  lemma {:induction false} RevisionLaw(s0: Store, steps: seq<Step>, i: nat, j: nat, uid: ActorUID)
    requires i < j <= |steps| && OneLife(s0, steps, i, j, uid)
    ensures At(s0, steps, i).log <= At(s0, steps, j).log
    ensures At(s0, steps, j).Current(uid).value.revision == |EventsBetween(s0, steps, i, j, uid)|
    ensures Numbered(EventsBetween(s0, steps, i, j, uid), uid)
  {
    EventsBetweenGrows(s0, steps, i, j - 1, uid);
    OneMore(s0, steps, j - 1);
    StepNumbersEvents(At(s0, steps, j - 1), steps[j - 1], uid);
    if i == j - 1 {
      assert EventsBetween(s0, steps, i, i, uid) == [];
    } else {
      RevisionLaw(s0, steps, i, j - 1, uid);
    }
    var s := At(s0, steps, j - 1);
    NumberedGrows(EventsBetween(s0, steps, i, j - 1, uid),
                  if steps[j - 1].Do? && steps[j - 1].uid == uid
                  then s.Result(uid, steps[j - 1].op, steps[j - 1].ttl).events else [], uid);
  }

  /** The delete event closes the life: it comes last and its revision is the next one. */
  lemma DeleteIsLast(s0: Store, steps: seq<Step>, i: nat, j: nat, uid: ActorUID)
    requires i < j < |steps| && OneLife(s0, steps, i, j, uid)
    requires steps[j].Do? && steps[j].uid == uid && steps[j].op.Unregister? && Succeeds(At(s0, steps, j), steps[j])
    ensures At(s0, steps, i).log <= At(s0, steps, j).log && At(s0, steps, i).log <= At(s0, steps, j + 1).log
    ensures var events := EventsBetween(s0, steps, i, j, uid);
            EventsBetween(s0, steps, i, j + 1, uid) == events + [Event(uid, |events| + 1, Delete)]
    ensures At(s0, steps, j + 1).Current(uid).None?
  {
    RevisionLaw(s0, steps, i, j, uid);
    EventsBetweenGrows(s0, steps, i, j, uid);
    OneMore(s0, steps, j);
  }

  /** How many takeovers and unregisters succeeded in a run. */
  function Changes(s0: Store, steps: seq<Step>): nat {
    if steps == [] then 0
    else
      var before, last := steps[..|steps| - 1], steps[|steps| - 1];
      Changes(s0, before) +
      if last.Do? && (last.op.TakeOver? || last.op.Unregister?) && Succeeds(Run(s0, before), last) then 1 else 0
  }

  /** Registering, keeping alive and looking up never write to the stream. */
  lemma {:induction false} LogCountsChanges(s0: Store, steps: seq<Step>)
    ensures |Run(s0, steps).log| == |s0.log| + Changes(s0, steps)
  {
    if steps != [] {
      LogCountsChanges(s0, steps[..|steps| - 1]);
    }
  }
}
