/** The five Lua scripts over Redis, in both storage layouts, against the abstract store.
    A script runs atomically at one server time, so the clock does not move inside it. */
module RegistryScripts {
  import opened Wrappers
  import opened ActorKeys
  import opened RegistrySpec

  /** A hash with the three fields the scripts use, or the older JSON document. */
  datatype Value =
    | Hash(nodeId: Option<string>, leaseId: Option<string>, revision: Option<int>)
    | Json(nodeId: Option<string>, leaseId: Option<string>)

  datatype Entry = Entry(value: Value, expire: Option<nat>)

  datatype KeyType = TypeNone | TypeHash | TypeString

  /** The record an entry stands for, whichever layout it is in. */
  function Abstract(e: Entry): Rec {
    Rec(e.value.nodeId.Or(""), e.value.leaseId.Or(""),
        if e.value.Hash? then e.value.revision.Or(0) else 0, e.expire)
  }

  function RecIn(keys: map<string, Entry>, key: string, nowMs: nat): Option<Rec> {
    if key in keys && Visible(keys[key].expire, nowMs) then Some(Abstract(keys[key])) else None
  }

  /** The keyspace holds exactly the abstract store's records. */
  ghost predicate Holds(keys: map<string, Entry>, s: Store) {
    forall uid :: RecIn(keys, RegKey(uid), Ms(s.now)) == s.Current(uid)
  }

  /** A change confined to one actor's key is one abstract call: no other actor's record moves. */
  lemma OneKeyOneActor(before: map<string, Entry>, after: map<string, Entry>, s: Store, uid: ActorUID, op: Op, ttl: int)
    requires Holds(before, s)
    requires after - {RegKey(uid)} == before - {RegKey(uid)}
    requires RecIn(after, RegKey(uid), Ms(s.now)) == s.Result(uid, op, ttl).rec
    ensures Holds(after, s.Call(uid, op, ttl))
  {
    var s' := s.Call(uid, op, ttl);
    forall other: ActorUID
      ensures RecIn(after, RegKey(other), Ms(s'.now)) == s'.Current(other)
    {
      CallOnlyTouches(s, uid, op, ttl, other);
      if other != uid {
        KeysSeparate(uid, other);
        var k := RegKey(other);
        assert RecIn(before, k, Ms(s.now)) == s.Current(other);
        assert k in after <==> k in after - {RegKey(uid)};
        assert k in before <==> k in before - {RegKey(uid)};
        if k in after {
          assert after[k] == (after - {RegKey(uid)})[k] == before[k];
        }
      }
    }
  }

  class RedisServer {
    var now: nat
    var keys: map<string, Entry>
    var log: seq<Event> // every change event ever added
    var low: nat        // events below this index have been trimmed away

    constructor ()
      ensures keys == map[] && log == [] && low == 0 && now == 0
    {
      now, keys, log, low := 0, map[], [], 0;
    }

    /** Redis keeps time in milliseconds. */
    function NowMs(): nat reads this`now { Ms(now) }

    ghost predicate Valid() reads this { low <= |log| }

    /** The record an actor's key shows now. */
    ghost function RecAt(key: string): Option<Rec>
      reads this
    {
      RecIn(keys, key, NowMs())
    }

    // ---------- the Redis commands the scripts issue ----------

    predicate HasKey(key: string) reads this {
      key in keys && Visible(keys[key].expire, NowMs())
    }

    function Type(key: string): KeyType reads this {
      if !HasKey(key) then TypeNone else if keys[key].value.Hash? then TypeHash else TypeString
    }

    function HGet(key: string): (Option<string>, Option<string>, Option<int>)
      requires Type(key) == TypeHash
      reads this
    {
      (keys[key].value.nodeId, keys[key].value.leaseId, keys[key].value.revision)
    }

    function Get(key: string): Option<Value>
      requires Type(key) != TypeHash
      reads this
    {
      if HasKey(key) then Some(keys[key].value) else None
    }

    /** -2 for a missing key, -1 for a key without an expiry. */
    function PTTL(key: string): int reads this {
      if !HasKey(key) then -2
      else if keys[key].expire.None? then -1 else keys[key].expire.value - NowMs()
    }

    method Del(key: string)
      modifies this`keys
      ensures keys == old(keys) - {key}
    {
      keys := keys - {key};
    }

    /** Creates the hash when the key is missing or expired; keeps revision and expiry otherwise. */
    method HSet(key: string, nodeId: string, leaseId: string)
      requires Type(key) != TypeString
      modifies this`keys
      ensures keys == old(keys)[key :=
                if old(HasKey(key))
                then Entry(Hash(Some(nodeId), Some(leaseId), old(keys[key].value.revision)), old(keys[key].expire))
                else Entry(Hash(Some(nodeId), Some(leaseId), None), None)]
    {
      var revision, expire := None, None;
      if HasKey(key) {
        revision, expire := keys[key].value.revision, keys[key].expire;
      }
      keys := keys[key := Entry(Hash(Some(nodeId), Some(leaseId), revision), expire)];
    }

    method HIncrRevision(key: string) returns (revision: int)
      requires Type(key) == TypeHash
      modifies this`keys
      ensures revision == old(keys[key].value.revision).Or(0) + 1
      ensures keys == old(keys)[key := Entry(old(keys[key].value).(revision := Some(revision)), old(keys[key].expire))]
    {
      var e := keys[key];
      revision := e.value.revision.Or(0) + 1;
      keys := keys[key := Entry(e.value.(revision := Some(revision)), e.expire)];
    }

    method Expire(key: string, seconds: int)
      requires HasKey(key) && seconds > 0
      modifies this`keys
      ensures keys == old(keys)[key := Entry(old(keys[key].value), Some(NowMs() + seconds * 1000))]
    {
      keys := keys[key := Entry(keys[key].value, Some(NowMs() + seconds * 1000))];
    }

    method Persist(key: string)
      requires HasKey(key)
      modifies this`keys
      ensures keys == old(keys)[key := Entry(old(keys[key].value), None)]
    {
      keys := keys[key := Entry(keys[key].value, None)];
    }

    /** XADD MAXLEN ~ maxLen: trimming is approximate, but never below the newest maxLen events. */
    method XAdd(e: Event, maxLen: nat)
      requires Valid()
      modifies this`log, this`low
      ensures Valid() && log == old(log) + [e]
      ensures old(low) <= low && (low == old(low) || low + maxLen <= |log|)
    {
      log := log + [e];
      var cut: nat :| low <= cut <= |log| && (cut == low || cut + maxLen <= |log|);
      low := cut;
    }

    // ---------- what several scripts have in common ----------

    /** The key is there with these two owner fields, in whichever layout; a missing field counts as empty. */
    predicate OwnedBy(key: string, nodeId: string, leaseId: string) reads this {
      HasKey(key) && keys[key].value.nodeId.Or("") == nodeId && keys[key].value.leaseId.Or("") == leaseId
    }

    function Revision(key: string): int
      requires HasKey(key)
      reads this
    {
      match keys[key].value
      case Hash(_, _, revision) => revision.Or(0)
      case Json(_, _) => 0
    }

    /** Writes the owner as a hash: a string is deleted first, a hash keeps its revision and expiry. */
    method WriteOwner(key: string, nodeId: string, leaseId: string)
      modifies this`keys
      ensures var before := old(RecAt(key));
              var revision := if old(Type(key)) == TypeHash then old(keys[key].value.revision) else None;
              var expire := if old(Type(key)) == TypeHash then before.value.expire else None;
              keys == old(keys)[key := Entry(Hash(Some(nodeId), Some(leaseId), revision), expire)]
    {
      if Type(key) == TypeString {
        Del(key);
      }
      HSet(key, nodeId, leaseId);
    }

    method WriteTTL(key: string, ttl: int)
      requires HasKey(key)
      modifies this`keys
      ensures keys == old(keys)[key := Entry(old(keys[key].value), Deadline(NowMs(), ttl))]
    {
      if ttl > 0 {
        Expire(key, ttl);
      } else {
        Persist(key);
      }
    }

    // ---------- the scripts ----------

    method RegisterScript(key: string, nodeId: string, leaseId: string, ttl: int, ghost uid: ActorUID)
        returns (reply: Reply)
      requires Valid()
      modifies this`keys
      ensures var o := Perform(uid, old(RecAt(key)), NowMs(), Register(nodeId, leaseId), ttl);
              reply == o.reply && RecAt(key) == o.rec && o.events == []
      ensures keys - {key} == old(keys) - {key}
      ensures reply.AlreadyRegistered? <==> old(HasKey(key)) && old(keys[key].value.nodeId).Or("") !in {"", nodeId}
      ensures reply.AlreadyRegistered? ==> reply.node == old(keys[key].value.nodeId).Or("") && keys == old(keys)
      ensures reply.AlreadyRegistered? ==>
                match keys[key].expire
                case None => reply.ttl == -1
                case Some(when) => (reply.ttl - 1) * 1000 < when - NowMs() <= reply.ttl * 1000
      ensures !reply.AlreadyRegistered? ==>
                && reply == Located(nodeId, if ttl > 0 then ttl else 0)
                && OwnedBy(key, nodeId, leaseId) && keys[key].value.Hash?
                && Revision(key) == (if old(HasKey(key)) then old(Revision(key)) else 0)
                && keys[key].expire == if ttl > 0 then Some(NowMs() + ttl * 1000) else None
    {
      var keyType := Type(key);
      var currentNodeId := "";
      if keyType == TypeHash {
        currentNodeId := HGet(key).0.Or("");
      } else if keyType == TypeString {
        var raw := Get(key);
        if raw.Some? {
          currentNodeId := raw.value.nodeId.Or("");
        }
      }
      if currentNodeId != "" {
        var currentTTL := PTTL(key);
        if currentTTL > 0 {
          currentTTL := (currentTTL + 999) / 1000;
        }
        if currentNodeId != nodeId {
          return AlreadyRegistered(currentNodeId, currentTTL);
        }
      }
      WriteOwner(key, nodeId, leaseId);
      WriteTTL(key, ttl);
      return Located(nodeId, if ttl > 0 then ttl else 0);
    }

    method TakeOverScript(key: string, nodeId: string, leaseId: string, sourceLeaseId: string, ttl: int,
                          maxLen: nat, uid: ActorUID)
        returns (reply: Reply)
      requires Valid()
      modifies this`keys, this`log, this`low
      ensures Valid()
      ensures var o := Perform(uid, old(RecAt(key)), NowMs(), TakeOver(nodeId, leaseId, sourceLeaseId), ttl);
              reply == o.reply && RecAt(key) == o.rec && log == old(log) + o.events
      ensures keys - {key} == old(keys) - {key}
      ensures !old(HasKey(key)) ==> reply == NotExists
      ensures old(HasKey(key)) && old(keys[key].value.leaseId).Or("") != sourceLeaseId ==> reply == LeaseMismatch
      ensures old(HasKey(key)) && old(keys[key].value.leaseId).Or("") == sourceLeaseId ==>
                && reply == Located(nodeId, if ttl > 0 then ttl else 0)
                && OwnedBy(key, nodeId, leaseId) && keys[key].value.Hash?
                && Revision(key) == old(Revision(key)) + 1
                && log == old(log) + [Event(uid, old(Revision(key)) + 1, Upsert)]
                && keys[key].expire == if ttl > 0 then Some(NowMs() + ttl * 1000) else None
      ensures !reply.Located? ==> keys == old(keys) && log == old(log)
      ensures old(low) <= low && (low == old(low) || low + maxLen <= |log|)
    {
      var keyType := Type(key);
      if keyType == TypeNone {
        return NotExists;
      }
      var currentLeaseId := "";
      if keyType == TypeHash {
        currentLeaseId := HGet(key).1.Or("");
      } else {
        var raw := Get(key);
        if raw.None? {
          return NotExists;
        }
        currentLeaseId := raw.value.leaseId.Or("");
      }
      if currentLeaseId != sourceLeaseId {
        return LeaseMismatch;
      }
      WriteOwner(key, nodeId, leaseId);
      var revision := HIncrRevision(key);
      XAdd(Event(uid, revision, Upsert), maxLen);
      WriteTTL(key, ttl);
      return Located(nodeId, if ttl > 0 then ttl else 0);
    }

    /** The two owner fields, read from whichever layout the key has. */
    method ReadOwner(key: string) returns (exists_: bool, nodeId: string, leaseId: string)
      ensures exists_ == RecAt(key).Some?
      ensures exists_ ==> nodeId == RecAt(key).value.node && leaseId == RecAt(key).value.lease
    {
      nodeId, leaseId := "", "";
      var keyType := Type(key);
      if keyType == TypeNone {
        return false, nodeId, leaseId;
      }
      if keyType == TypeHash {
        var values := HGet(key);
        nodeId, leaseId := values.0.Or(""), values.1.Or("");
      } else {
        var raw := Get(key);
        if raw.None? {
          return false, nodeId, leaseId;
        }
        nodeId, leaseId := raw.value.nodeId.Or(""), raw.value.leaseId.Or("");
      }
      return true, nodeId, leaseId;
    }

    method UnregisterScript(key: string, nodeId: string, leaseId: string, maxLen: nat, uid: ActorUID)
        returns (reply: Reply)
      requires Valid()
      modifies this`keys, this`log, this`low
      ensures Valid()
      ensures var o := Perform(uid, old(RecAt(key)), NowMs(), Unregister(nodeId, leaseId), 0);
              reply == o.reply && RecAt(key) == o.rec && log == old(log) + o.events
      ensures keys - {key} == old(keys) - {key}
      ensures !old(HasKey(key)) ==> reply == NotExists
      ensures old(HasKey(key)) && !old(OwnedBy(key, nodeId, leaseId)) ==> reply == LeaseMismatch
      ensures old(OwnedBy(key, nodeId, leaseId)) ==>
                reply == Done && !HasKey(key) && log == old(log) + [Event(uid, old(Revision(key)) + 1, Delete)]
      ensures !reply.Done? ==> keys == old(keys) && log == old(log)
      ensures old(low) <= low && (low == old(low) || low + maxLen <= |log|)
    {
      var present, currentNodeId, currentLeaseId := ReadOwner(key);
      if !present {
        return NotExists;
      }
      if currentNodeId != nodeId || currentLeaseId != leaseId {
        return LeaseMismatch;
      }
      var revision := 1;
      if Type(key) == TypeHash {
        revision := HGet(key).2.Or(0) + 1;
      }
      XAdd(Event(uid, revision, Delete), maxLen);
      Del(key);
      return Done;
    }

    method KeepAliveScript(key: string, nodeId: string, leaseId: string, ttl: int, ghost uid: ActorUID)
        returns (reply: Reply)
      requires Valid()
      modifies this`keys
      ensures var o := Perform(uid, old(RecAt(key)), NowMs(), KeepAlive(nodeId, leaseId), ttl);
              reply == o.reply && RecAt(key) == o.rec && o.events == []
      ensures keys - {key} == old(keys) - {key}
      ensures keys.Keys == old(keys).Keys && (key in keys ==> keys[key].value == old(keys)[key].value)
      ensures !old(HasKey(key)) ==> reply == NotExists
      ensures old(HasKey(key)) && !old(OwnedBy(key, nodeId, leaseId)) ==> reply == LeaseMismatch
      ensures old(OwnedBy(key, nodeId, leaseId)) ==>
                reply == Done && keys[key].expire == if ttl > 0 then Some(NowMs() + ttl * 1000) else None
      ensures !reply.Done? ==> keys == old(keys)
    {
      var present, currentNodeId, currentLeaseId := ReadOwner(key);
      if !present {
        return NotExists;
      }
      if currentNodeId != nodeId || currentLeaseId != leaseId {
        return LeaseMismatch;
      }
      WriteTTL(key, ttl);
      return Done;
    }

    method GetScript(key: string, ghost uid: ActorUID) returns (reply: Reply)
      ensures reply == Perform(uid, RecAt(key), NowMs(), GetLocation, 0).reply
      ensures reply == NotExists || reply.Located?
      ensures reply.Located? <==> HasKey(key) && keys[key].value.nodeId.Or("") != ""
      ensures reply.Located? ==> reply.node == keys[key].value.nodeId.Or("")
      ensures reply.Located? ==>
                match keys[key].expire
                case None => reply.ttl == 0
                case Some(when) => (reply.ttl - 1) * 1000 < when - NowMs() <= reply.ttl * 1000
    {
      var keyType := Type(key);
      var nodeId := "";
      if keyType == TypeHash {
        nodeId := HGet(key).0.Or("");
      } else if keyType == TypeString {
        var raw := Get(key);
        if raw.Some? {
          nodeId := raw.value.nodeId.Or("");
        }
      }
      if nodeId == "" {
        return NotExists;
      }
      var ttlSeconds := 0;
      var ttl := PTTL(key);
      if ttl > 0 {
        ttlSeconds := (ttl + 999) / 1000;
      }
      return Located(nodeId, ttlSeconds);
    }

    // ---------- whole runs against the abstract store ----------

    /** Redis shows exactly the abstract store: every actor's key its record, the stream its log. */
    ghost predicate Shows(s: Store) reads this {
      && Valid()
      && now == s.now
      && log == s.log
      && Holds(keys, s)
    }

    method Eval(uid: ActorUID, op: Op, ttl: int, maxLen: nat, ghost s: Store) returns (reply: Reply)
      requires Shows(s)
      modifies this`keys, this`log, this`low
      ensures Shows(s.Call(uid, op, ttl))
      ensures reply == s.Result(uid, op, ttl).reply
      ensures old(low) <= low && (low == old(low) || low + maxLen <= |log|)
    {
      var key := RegKey(uid);
      assert RecAt(key) == s.Current(uid);
      if op.Register? {
        reply := RegisterScript(key, op.node, op.lease, ttl, uid);
      } else if op.TakeOver? {
        reply := TakeOverScript(key, op.node, op.lease, op.source, ttl, maxLen, uid);
      } else if op.Unregister? {
        reply := UnregisterScript(key, op.node, op.lease, maxLen, uid);
      } else if op.KeepAlive? {
        reply := KeepAliveScript(key, op.node, op.lease, ttl, uid);
      } else {
        reply := GetScript(key, uid);
      }
      OneKeyOneActor(old(keys), keys, s, uid, op, ttl);
    }

    /** Any sequence of script calls and pauses answers exactly as the abstract store does. */
    method EvalAll(steps: seq<Step>, maxLen: nat, ghost s: Store) returns (replies: seq<Option<Reply>>)
      requires Shows(s)
      modifies this
      ensures Shows(Run(s, steps)) && replies == Replies(s, steps)
    {
      replies := [];
      ghost var st := s;
      for i := 0 to |steps|
        invariant st == Run(s, steps[..i]) && Shows(st) && replies == Replies(s, steps[..i])
      {
        assert steps[..i + 1][..i] == steps[..i];
        match steps[i] {
          case Wait(dt) =>
            now := now + dt;
            replies := replies + [None];
          case Do(uid, op, ttl) =>
            var reply := Eval(uid, op, ttl, maxLen, st);
            replies := replies + [Some(reply)];
        }
        st := After(st, steps[i]);
      }
      assert steps[..|steps|] == steps;
    }
  }
}
