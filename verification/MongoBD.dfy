/** The MongoDB background: operations are hashed onto FIFO workers, executed one at a time per
    worker, and handed to their done channel. */
module MongoBD {
  import opened MongoHash
  import opened Wrappers

  // ---------- one operation ----------

  datatype Error = ContextError(text: string) | DriverError(text: string) | PanicError(text: string) | NilOp | NilDone

  /** `failed`: the context is done, and why. */
  datatype Context = Context(deadline: bool, failed: Option<string>) {
    /** The context some time later, when it may be done; a context that is done stays so. */
    function Later(why: Option<string>): Context { if failed.Some? then this else this.(failed := why) }
  }

  /** What an operation's exec does before its final opDone. */
  datatype Behaviour = Returns(err: Option<Error>) | Panics(text: string)

  /** Everything sent on done channels, in order; a channel is a number. */
  class Deliveries {
    var log: seq<(nat, Op)>

    constructor ()
      ensures log == []
    {
      log := [];
    }
  }

  class Op {
    var ctx: Context
    var done: nat
    var callback: Option<nat>
    var err: Option<Error>
    const behaviour: Behaviour

    constructor (ctx: Context, behaviour: Behaviour)
      ensures this.ctx == ctx && this.behaviour == behaviour && err == None && callback == None && done == 0
    {
      this.ctx, this.behaviour, err, callback, done := ctx, behaviour, None, None, 0;
    }
  }

  method OpDone(op: Op, err: Option<Error>, out: Deliveries)
    modifies op`err, out`log
    ensures op.err == err && out.log == old(out.log) + [(op.done, op)]
  {
    op.err := err;
    out.log := out.log + [(op.done, op)];
  }

  /** This is the error an execution with such a behaviour ends with in such a context. */
  ghost predicate EndedWith(behaviour: Behaviour, ctx: Context, err: Option<Error>) {
    && (ctx.failed.Some? ==> err == Some(ContextError(ctx.failed.value)))
    && (ctx.failed.None? && behaviour.Returns? ==> err == behaviour.err)
    && (ctx.failed.None? && behaviour.Panics? ==> err == Some(PanicError(behaviour.text)))
  }

  predicate Distinct(ops: seq<Op>) { forall i, j | 0 <= i < j < |ops| :: ops[i] != ops[j] }

  class Worker {
    var ops: seq<Op>
    const limit: nat
    var closed: bool

    constructor (limit: nat)
      ensures this.limit == limit && ops == [] && !closed
    {
      this.limit, ops, closed := limit, [], false;
    }

    /** Cancelled, failing, panicking or successful: the operation is delivered exactly once, with the
        error that says which. Its context comes back unless it panicked under a default timeout; then
        it is left with the cancelled one. */
    method SafeExec(op: Op, out: Deliveries)
      modifies op`ctx, op`err, out`log
      ensures out.log == old(out.log) + [(op.done, op)]
      ensures old(op.ctx).failed.Some? ==> op.err == Some(ContextError(old(op.ctx).failed.value))
      ensures old(op.ctx).failed.None? && op.behaviour.Returns? ==> op.err == op.behaviour.err
      ensures old(op.ctx).failed.None? && op.behaviour.Panics? ==> op.err == Some(PanicError(op.behaviour.text))
      ensures op.err == None <==> old(op.ctx).failed.None? && op.behaviour == Returns(None)
      ensures op.ctx == old(op.ctx) <==> old(op.ctx).failed.Some? || op.behaviour.Returns? || old(op.ctx).deadline
      ensures op.ctx != old(op.ctx) ==> op.ctx.failed.Some?
    {
      var ctx := op.ctx;
      if ctx.failed.Some? {
        OpDone(op, Some(ContextError(ctx.failed.value)), out);
        return;
      }
      var bakCtx := ctx;
      if !ctx.deadline {
        ctx := Context(true, None);
        op.ctx := ctx;
      }
      match op.behaviour {
        case Returns(e) =>
          OpDone(op, e, out);
          op.ctx := bakCtx;
        case Panics(text) =>
          // the deferred cancel runs, then the deferred recover; the restoring line does not
          if !bakCtx.deadline {
            op.ctx := op.ctx.(failed := Some("context canceled"));
          }
          OpDone(op, Some(PanicError(text)), out);
      }
    }

    /** Draining a closed queue delivers every queued operation once, in queue order. `world` says which
        contexts are done by the time their operation is taken up; operations queued only once carry the
        error that says how their execution ended. */
    method Run(out: Deliveries, world: seq<Option<string>>)
      requires closed && |world| == |ops|
      modifies this`ops, out`log, set op <- ops :: op`ctx, set op <- ops :: op`err
      ensures ops == []
      ensures |out.log| == |old(out.log)| + |old(ops)|
      ensures forall i | 0 <= i < |old(out.log)| :: out.log[i] == old(out.log)[i]
      ensures forall i | 0 <= i < |old(ops)| :: out.log[|old(out.log)| + i] == (old(ops)[i].done, old(ops)[i])
      ensures Distinct(old(ops)) ==>
                forall i | 0 <= i < |world| ::
                  var op, why := old(ops)[i], if old(ops[i].ctx).failed.Some? then old(ops[i].ctx).failed else world[i];
                  && (why.Some? ==> op.err == Some(ContextError(why.value)))
                  && (why.None? && op.behaviour.Returns? ==> op.err == op.behaviour.err)
                  && (why.None? && op.behaviour.Panics? ==> op.err == Some(PanicError(op.behaviour.text)))
                  && (op.err == None <==> why.None? && op.behaviour == Returns(None))
    {
      ghost var queued := ops;
      var n := 0;
      while ops != []
        invariant n <= |queued| && ops == queued[n..]
        invariant |out.log| == |old(out.log)| + n
        invariant forall i | 0 <= i < |old(out.log)| :: out.log[i] == old(out.log)[i]
        invariant forall i | 0 <= i < n :: out.log[|old(out.log)| + i] == (queued[i].done, queued[i])
        invariant Distinct(queued) ==>
                    forall i | 0 <= i < n :: EndedWith(queued[i].behaviour, old(ops[i].ctx).Later(world[i]), queued[i].err)
        invariant Distinct(queued) ==> forall i | n <= i < |queued| :: queued[i].ctx == old(ops[i].ctx)
        decreases |ops|
      {
        var op := ops[0];
        assert op in queued;
        ops := ops[1..];
        op.ctx := op.ctx.Later(world[n]);
        SafeExec(op, out);
        n := n + 1;
      }
    }

    method Stop()
      requires !closed
      modifies this`closed
      ensures closed
    {
      closed := true;
    }
  }

  datatype AddResult = Added | Refused(error: Error) | Panicked

  class BD {
    var wks: seq<Worker>

    constructor (wks: seq<Worker>)
      ensures this.wks == wks
    {
      this.wks := wks;
    }

    /** Queues an operation on the worker of its hash key. `sendFirst` is the choice select makes when
        there is room and the context is done as well. A refused operation is on no queue. */
    method Add(hashKey: HashKey, op: Op?, callback: Option<nat>, done: Option<nat>, sendFirst: bool) returns (r: AddResult)
      requires forall w <- wks :: !w.closed
      // with a full queue the call waits; it goes on once there is room or the context is done
      requires op != null && HashOf(hashKey).Some? && wks != [] ==>
                 var w := wks[HashOf(hashKey).value % |wks|];
                 |w.ops| < w.limit || op.ctx.failed.Some?
      modifies (set w <- wks :: w)`ops, (if op == null then {} else {op})`done, (if op == null then {} else {op})`callback
      ensures op == null ==> r == Refused(NilOp)
      ensures op != null && done.None? ==> r == Refused(NilDone)
      ensures op != null && done.Some? ==> op.done == done.value && op.callback == callback
      ensures op != null && done.Some? ==> (r.Panicked? <==> HashOf(hashKey).None? || wks == [])
      ensures op != null && done.Some? && !r.Panicked? ==>
                var w := wks[HashOf(hashKey).value % |wks|];
                && (r.Added? ==> |old(w.ops)| < w.limit)
                && (r.Refused? ==> op.ctx.failed.Some? && r.error == ContextError(op.ctx.failed.value))
                && (op.ctx.failed.None? ==> r.Added?)
      ensures forall w <- wks ::
                w.ops == old(w.ops) +
                         if r.Added? && w == wks[HashOf(hashKey).value % |wks|] then [op] else []
    {
      if op == null {
        return Refused(NilOp);
      }
      if done.None? {
        return Refused(NilDone);
      }
      op.callback := callback;
      op.done := done.value;
      var hc := GetHashCode(hashKey);
      if hc.None? || |wks| == 0 {
        return Panicked;
      }
      var wk := wks[hc.value % |wks|];
      assert wk in wks;
      if |wk.ops| < wk.limit && (sendFirst || op.ctx.failed.None?) {
        wk.ops := wk.ops + [op];
        return Added;
      }
      return Refused(ContextError(op.ctx.failed.value));
    }

    /** Closes every worker's queue and forgets the workers, so that a later Add panics. */
    method Stop()
      requires forall i, j | 0 <= i < j < |wks| :: wks[i] != wks[j]
      requires forall w <- wks :: !w.closed
      modifies this, (set w <- wks :: w)`closed
      ensures wks == [] && forall w <- old(wks) :: w.closed && w.ops == old(w.ops)
    {
      for i := 0 to |wks|
        invariant wks == old(wks)
        invariant forall j | 0 <= j < |wks| :: wks[j].closed == (j < i)
      {
        assert wks[i] in wks;
        wks[i].Stop();
      }
      wks := [];
    }
  }
}

/** All interleavings of callers and workers. */
module MongoScheduler {
  import opened Wrappers
  import opened MongoBD

  /** One accepted operation. */
  datatype Ticket = Ticket(op: nat, hash: nat)

  /** Where safeExec is: before its look at the context; in the operation's exec; past a panic; or past the
      delivery, with the context still to be restored. */
  datatype Phase = Checking | Executing | Recovering | Returning

  datatype Execution = Execution(ticket: Ticket, phase: Phase)

  datatype WorkerState = WorkerState(queue: seq<Ticket>, running: Option<Execution>, delivered: seq<Ticket>,
                                     closed: bool, exited: bool)

  datatype Sys = Sys(workers: seq<WorkerState>, accepted: seq<Ticket>)

  datatype Action =
    | Accept(t: Ticket)  // Add's send succeeds
    | Refuse(t: Ticket)  // Add returns an error
    | Take(w: nat)       // the worker receives from its queue
    | Cancelled(w: nat)  // the context is done: opDone with its error, and return
    | Start(w: nat)      // exec is called
    | Finish(w: nat)     // exec ends in opDone
    | Panic(w: nat)      // exec panics before its opDone
    | Recover(w: nat)    // the deferred recover calls opDone
    | Return(w: nat)     // safeExec restores the context and returns
    | Close(w: nat)      // Stop closes the queue
    | Exit(w: nat)       // the worker's range loop ends

  function Home(t: Ticket, n: nat): nat
    requires n > 0
  {
    t.hash % n
  }

  predicate In(s: Sys, w: nat, phase: Phase) {
    w < |s.workers| && s.workers[w].running.Some? && s.workers[w].running.value.phase == phase
  }

  function Moved(s: Sys, w: nat, phase: Phase): Sys
    requires w < |s.workers| && s.workers[w].running.Some?
  {
    var ws := s.workers[w];
    s.(workers := s.workers[w := ws.(running := Some(ws.running.value.(phase := phase)))])
  }

  /** opDone, after which the worker is in `after`. */
  function Delivered(s: Sys, w: nat, after: Option<Execution>): Sys
    requires w < |s.workers| && s.workers[w].running.Some?
  {
    var ws := s.workers[w];
    s.(workers := s.workers[w := ws.(running := after, delivered := ws.delivered + [ws.running.value.ticket])])
  }

  predicate Enabled(limit: nat, s: Sys, a: Action) {
    && |s.workers| > 0
    && match a
       case Accept(t) =>
         var w := s.workers[Home(t, |s.workers|)];
         |w.queue| < limit && forall v <- s.workers :: !v.closed
       case Refuse(_) => true
       case Take(w) => w < |s.workers| && s.workers[w].running.None? && s.workers[w].queue != [] && !s.workers[w].exited
       case Cancelled(w) => In(s, w, Checking)
       case Start(w) => In(s, w, Checking)
       case Finish(w) => In(s, w, Executing)
       case Panic(w) => In(s, w, Executing)
       case Recover(w) => In(s, w, Recovering)
       case Return(w) => In(s, w, Returning)
       case Close(w) => w < |s.workers| && !s.workers[w].closed
       case Exit(w) => w < |s.workers| && s.workers[w].closed && s.workers[w].queue == [] && s.workers[w].running.None?
  }

  function Next(limit: nat, s: Sys, a: Action): Sys
    requires Enabled(limit, s, a)
  {
    match a
    case Accept(t) =>
      var i := Home(t, |s.workers|);
      Sys(s.workers[i := s.workers[i].(queue := s.workers[i].queue + [t])], s.accepted + [t])
    case Refuse(_) => s
    case Take(w) =>
      var ws := s.workers[w];
      s.(workers := s.workers[w := ws.(queue := ws.queue[1..], running := Some(Execution(ws.queue[0], Checking)))])
    case Cancelled(w) => Delivered(s, w, None)
    case Start(w) => Moved(s, w, Executing)
    case Finish(w) => Delivered(s, w, Some(s.workers[w].running.value.(phase := Returning)))
    case Panic(w) => Moved(s, w, Recovering)
    case Recover(w) => Delivered(s, w, None)
    case Return(w) => s.(workers := s.workers[w := s.workers[w].(running := None)])
    case Close(w) => s.(workers := s.workers[w := s.workers[w].(closed := true)])
    case Exit(w) => s.(workers := s.workers[w := s.workers[w].(exited := true)])
  }

  /** The accepted tickets of one worker, in acceptance order. */
  function Of(ts: seq<Ticket>, w: nat, n: nat): seq<Ticket>
    requires n > 0
  {
    if ts == [] then []
    else Of(ts[..|ts| - 1], w, n) + if Home(ts[|ts| - 1], n) == w then [ts[|ts| - 1]] else []
  }

  /** The operation a worker has taken up and not yet delivered. */
  function Pending(ws: WorkerState): Option<Ticket> {
    if ws.running.Some? && ws.running.value.phase != Returning then Some(ws.running.value.ticket) else None
  }

  function Started(ws: WorkerState): seq<Ticket> {
    ws.delivered + if Pending(ws).Some? then [Pending(ws).value] else []
  }

  /** A worker's history is its part of the accepted tickets: delivered, then running, then queued. */
  ghost predicate Inv(s: Sys) {
    && |s.workers| > 0
    && forall w | 0 <= w < |s.workers| ::
         && Of(s.accepted, w, |s.workers|) == Started(s.workers[w]) + s.workers[w].queue
         && (s.workers[w].exited ==> s.workers[w].closed && s.workers[w].queue == [] && s.workers[w].running.None?)
  }

  lemma AcceptKeepsInv(limit: nat, s: Sys, t: Ticket)
    requires Inv(s) && Enabled(limit, s, Accept(t))
    ensures Inv(Next(limit, s, Accept(t)))
  {
  }

  /** A worker moving a ticket along keeps its history. */
  lemma WorkerKeepsInv(s: Sys, w: nat, ws: WorkerState)
    requires Inv(s) && w < |s.workers|
    requires Started(ws) + ws.queue == Started(s.workers[w]) + s.workers[w].queue
    requires ws.exited ==> ws.closed && ws.queue == [] && ws.running.None?
    ensures Inv(s.(workers := s.workers[w := ws]))
  {
  }

  lemma StepKeepsInv(limit: nat, s: Sys, a: Action)
    requires Inv(s) && Enabled(limit, s, a)
    ensures Inv(Next(limit, s, a)) && |Next(limit, s, a).workers| == |s.workers|
  {
    if a.Accept? {
      AcceptKeepsInv(limit, s, a.t);
    } else if !a.Refuse? {
      WorkerKeepsInv(s, a.w, Next(limit, s, a).workers[a.w]);
    }
  }

  ghost predicate ValidRun(limit: nat, s: Sys, run: seq<Action>)
    decreases |run|
  {
    run == [] || (Enabled(limit, s, run[0]) && ValidRun(limit, Next(limit, s, run[0]), run[1..]))
  }

  ghost function Final(limit: nat, s: Sys, run: seq<Action>): Sys
    requires ValidRun(limit, s, run)
    decreases |run|
  {
    if run == [] then s else Final(limit, Next(limit, s, run[0]), run[1..])
  }

  /** The steps of one call of SafeExec for the next operation of worker w. */
  function SafeExecSteps(w: nat, ctx: Context, behaviour: Behaviour): seq<Action> {
    [Take(w)] +
    if ctx.failed.Some? then [Cancelled(w)]
    else match behaviour
      case Returns(_) => [Start(w), Finish(w), Return(w)]
      case Panics(_) => [Start(w), Panic(w), Recover(w)]
  }

  lemma RunCons(limit: nat, s: Sys, a: Action, s': Sys, rest: seq<Action>)
    requires Enabled(limit, s, a) && Next(limit, s, a) == s' && ValidRun(limit, s', rest)
    ensures ValidRun(limit, s, [a] + rest) && Final(limit, s, [a] + rest) == Final(limit, s', rest)
  {
    assert ([a] + rest)[1..] == rest;
  }

  /** Run alone, the steps do what SafeExec's contract says: in whatever context and however exec ends, the
      operation taken from the queue is delivered once, and the worker is free again. */
  lemma SafeExecDeliversOnce(limit: nat, s: Sys, w: nat, ctx: Context, behaviour: Behaviour)
    requires Enabled(limit, s, Take(w))
    ensures ValidRun(limit, s, SafeExecSteps(w, ctx, behaviour))
    ensures var ws := s.workers[w];
            Final(limit, s, SafeExecSteps(w, ctx, behaviour)) ==
            s.(workers := s.workers[w := ws.(queue := ws.queue[1..], delivered := ws.delivered + [ws.queue[0]])])
  {
    var taken := Next(limit, s, Take(w));
    if ctx.failed.Some? {
      RunCons(limit, taken, Cancelled(w), Next(limit, taken, Cancelled(w)), []);
      RunCons(limit, s, Take(w), taken, [Cancelled(w)] + []);
    } else {
      var started := Next(limit, taken, Start(w));
      var middle := if behaviour.Returns? then Finish(w) else Panic(w);
      var last := if behaviour.Returns? then Return(w) else Recover(w);
      var ended := Next(limit, started, middle);
      RunCons(limit, ended, last, Next(limit, ended, last), []);
      RunCons(limit, started, middle, ended, [last] + []);
      RunCons(limit, taken, Start(w), started, [middle] + ([last] + []));
      RunCons(limit, s, Take(w), taken, [Start(w)] + ([middle] + ([last] + [])));
      assert SafeExecSteps(w, ctx, behaviour) == [Take(w)] + ([Start(w)] + ([middle] + ([last] + [])));
    }
  }

  predicate Initial(s: Sys) {
    && |s.workers| > 0 && s.accepted == []
    && forall w | 0 <= w < |s.workers| :: s.workers[w] == WorkerState([], None, [], false, false)
  }

  lemma {:induction false} RunKeepsInv(limit: nat, s: Sys, run: seq<Action>)
    requires Inv(s) && ValidRun(limit, s, run)
    ensures Inv(Final(limit, s, run)) && |Final(limit, s, run).workers| == |s.workers|
    decreases |run|
  {
    if run != [] {
      StepKeepsInv(limit, s, run[0]);
      RunKeepsInv(limit, Next(limit, s, run[0]), run[1..]);
    }
  }

  /** How many tickets of its worker were accepted before the i-th one. */
  function Rank(s: Sys, i: nat): nat
    requires i < |s.accepted| && |s.workers| > 0
  {
    |Of(s.accepted[..i], Home(s.accepted[i], |s.workers|), |s.workers|)|
  }

  lemma {:induction false} OfSplits(ts: seq<Ticket>, i: nat, w: nat, n: nat)
    requires n > 0 && i <= |ts|
    ensures Of(ts[..i], w, n) <= Of(ts, w, n)
    ensures i < |ts| && Home(ts[i], n) == w ==>
              |Of(ts[..i], w, n)| < |Of(ts, w, n)| && Of(ts, w, n)[|Of(ts[..i], w, n)|] == ts[i]
    decreases |ts| - i
  {
    if i < |ts| {
      OfSplits(ts, i + 1, w, n);
      assert ts[..i + 1][..i] == ts[..i];
    } else {
      assert ts[..i] == ts;
    }
  }

  lemma RankGrows(ts: seq<Ticket>, i: nat, j: nat, w: nat, n: nat)
    requires n > 0 && i < j <= |ts| && Home(ts[i], n) == w
    ensures |Of(ts[..i], w, n)| < |Of(ts[..j], w, n)|
  {
    assert ts[..j][..i] == ts[..i] && ts[..j][i] == ts[i];
    OfSplits(ts[..j], i, w, n);
  }

  /** Operations with the same hash run in acceptance order, one after the other: by the time the
      later one has been taken up, the earlier one has been delivered. */
  lemma SameKeyInOrder(limit: nat, s0: Sys, run: seq<Action>, i: nat, j: nat)
    requires Initial(s0) && ValidRun(limit, s0, run)
    requires i < j < |Final(limit, s0, run).accepted|
    requires Final(limit, s0, run).accepted[i].hash == Final(limit, s0, run).accepted[j].hash
    ensures var s := Final(limit, s0, run);
            && |s.workers| == |s0.workers| > 0
            && var ws := s.workers[Home(s.accepted[i], |s.workers|)];
               && Rank(s, i) < Rank(s, j)
               && (Rank(s, j) < |Started(ws)| ==>
                     Started(ws)[Rank(s, j)] == s.accepted[j] &&
                     Rank(s, i) < |ws.delivered| && ws.delivered[Rank(s, i)] == s.accepted[i])
  {
    RunKeepsInv(limit, s0, run);
    var s := Final(limit, s0, run);
    var n := |s.workers|;
    var w := Home(s.accepted[i], n);
    OfSplits(s.accepted, i, w, n);
    OfSplits(s.accepted, j, w, n);
    RankGrows(s.accepted, i, j, w, n);
  }

  // ---------- conservation ----------

  function Count(ts: seq<Ticket>, x: Ticket): nat {
    if ts == [] then 0 else Count(ts[..|ts| - 1], x) + if ts[|ts| - 1] == x then 1 else 0
  }

  lemma {:induction false} CountSum(a: seq<Ticket>, b: seq<Ticket>, x: Ticket)
    ensures Count(a + b, x) == Count(a, x) + Count(b, x)
  {
    if b == [] {
      assert a + b == a;
    } else {
      assert (a + b)[..|a + b| - 1] == a + b[..|b| - 1];
      CountSum(a, b[..|b| - 1], x);
    }
  }

  lemma {:induction false} CountIsMultiplicity(ts: seq<Ticket>, x: Ticket)
    ensures Count(ts, x) == multiset(ts)[x]
  {
    if ts != [] {
      CountIsMultiplicity(ts[..|ts| - 1], x);
      assert ts == ts[..|ts| - 1] + [ts[|ts| - 1]];
    }
  }

  function Sum(f: nat -> nat, k: nat): nat {
    if k == 0 then 0 else Sum(f, k - 1) + f(k - 1)
  }

  /** Adding to one term adds to every sum that includes it. */
  lemma {:induction false} SumOneMore(f: nat -> nat, g: nat -> nat, k: nat, at: nat, more: nat)
    requires forall w: nat :: f(w) == g(w) + if w == at then more else 0
    ensures Sum(f, k) == Sum(g, k) + if at < k then more else 0
  {
    if k > 0 {
      SumOneMore(f, g, k - 1, at, more);
    }
  }

  /** How often a ticket is among the first k workers': as accepted, delivered, running, queued. */
  function AcceptedBy(ts: seq<Ticket>, k: nat, n: nat, x: Ticket): nat
    requires n > 0
  {
    Sum(w => Count(Of(ts, w, n), x), k)
  }

  function DeliveredBy(ws: seq<WorkerState>, k: nat, x: Ticket): nat
    requires k <= |ws|
  {
    if k == 0 then 0 else DeliveredBy(ws, k - 1, x) + Count(ws[k - 1].delivered, x)
  }

  function RunningBy(ws: seq<WorkerState>, k: nat, x: Ticket): nat
    requires k <= |ws|
  {
    if k == 0 then 0 else RunningBy(ws, k - 1, x) + if Pending(ws[k - 1]) == Some(x) then 1 else 0
  }

  function QueuedBy(ws: seq<WorkerState>, k: nat, x: Ticket): nat
    requires k <= |ws|
  {
    if k == 0 then 0 else QueuedBy(ws, k - 1, x) + Count(ws[k - 1].queue, x)
  }

  lemma {:induction false} SumOfNothing(f: nat -> nat, k: nat)
    requires forall w: nat :: f(w) == 0
    ensures Sum(f, k) == 0
  {
    if k > 0 {
      SumOfNothing(f, k - 1);
    }
  }

  lemma CountOneMore(ts: seq<Ticket>, w: nat, n: nat, x: Ticket)
    requires n > 0 && ts != []
    ensures Count(Of(ts, w, n), x) ==
            Count(Of(ts[..|ts| - 1], w, n), x) + if Home(ts[|ts| - 1], n) == w && ts[|ts| - 1] == x then 1 else 0
  {
    var before, last := Of(ts[..|ts| - 1], w, n), ts[|ts| - 1];
    if Home(last, n) == w {
      assert (before + [last])[..|before|] == before;
    } else {
      assert before + [] == before;
    }
  }

  /** Hashing splits the accepted tickets among the workers without loss or duplication. */
  lemma {:induction false} WorkersPartition(ts: seq<Ticket>, n: nat, x: Ticket)
    requires n > 0
    ensures AcceptedBy(ts, n, n, x) == Count(ts, x)
  {
    if ts == [] {
      SumOfNothing(w => Count(Of(ts, w, n), x), n);
    } else {
      var before, last := ts[..|ts| - 1], ts[|ts| - 1];
      WorkersPartition(before, n, x);
      forall w: nat {
        CountOneMore(ts, w, n, x);
      }
      SumOneMore(w => Count(Of(ts, w, n), x), w => Count(Of(before, w, n), x), n, Home(last, n), if last == x then 1 else 0);
    }
  }

  lemma WorkerStages(ws: WorkerState, x: Ticket)
    ensures Count(Started(ws) + ws.queue, x) ==
            Count(ws.delivered, x) + (if Pending(ws) == Some(x) then 1 else 0) + Count(ws.queue, x)
  {
    CountSum(Started(ws), ws.queue, x);
    if Pending(ws).Some? {
      assert (ws.delivered + [Pending(ws).value])[..|ws.delivered|] == ws.delivered;
    } else {
      assert ws.delivered + [] == ws.delivered;
    }
  }

  ghost predicate Accounted(ts: seq<Ticket>, ws: seq<WorkerState>, w: nat)
    requires w < |ws|
  {
    Of(ts, w, |ws|) == Started(ws[w]) + ws[w].queue
  }

  lemma OneWorkerAddsUp(ts: seq<Ticket>, ws: seq<WorkerState>, w: nat, x: Ticket)
    requires w < |ws| && Accounted(ts, ws, w)
    ensures Count(Of(ts, w, |ws|), x) ==
            Count(ws[w].delivered, x) + (if Pending(ws[w]) == Some(x) then 1 else 0) + Count(ws[w].queue, x)
  {
    WorkerStages(ws[w], x);
  }

  lemma {:induction false} StagesAddUp(ts: seq<Ticket>, ws: seq<WorkerState>, k: nat, x: Ticket)
    requires |ws| > 0 && k <= |ws|
    requires forall w | 0 <= w < k :: Accounted(ts, ws, w)
    ensures AcceptedBy(ts, k, |ws|, x) == DeliveredBy(ws, k, x) + RunningBy(ws, k, x) + QueuedBy(ws, k, x)
  {
    if k > 0 {
      OneWorkerAddsUp(ts, ws, k - 1, x);
      StagesAddUp(ts, ws, k - 1, x);
    }
  }

  ghost predicate Conserved(s: Sys, x: Ticket) {
    var n := |s.workers|;
    multiset(s.accepted)[x] == DeliveredBy(s.workers, n, x) + RunningBy(s.workers, n, x) + QueuedBy(s.workers, n, x)
  }

  lemma InvConserves(s: Sys, x: Ticket)
    requires Inv(s)
    ensures Conserved(s, x)
  {
    WorkersPartition(s.accepted, |s.workers|, x);
    assert forall w | 0 <= w < |s.workers| :: Accounted(s.accepted, s.workers, w);
    StagesAddUp(s.accepted, s.workers, |s.workers|, x);
    CountIsMultiplicity(s.accepted, x);
  }

  /** At every moment an operation has been accepted exactly as often as it has been delivered, is
      running and is queued, all workers together. */
  lemma Conservation(limit: nat, s0: Sys, run: seq<Action>, x: Ticket)
    requires Initial(s0) && ValidRun(limit, s0, run)
    ensures Conserved(Final(limit, s0, run), x)
  {
    RunKeepsInv(limit, s0, run);
    InvConserves(Final(limit, s0, run), x);
  }

  lemma {:induction false} IdleWorkersHoldNothing(ws: seq<WorkerState>, k: nat, x: Ticket)
    requires k <= |ws| && forall w | 0 <= w < k :: ws[w].queue == [] && ws[w].running.None?
    ensures RunningBy(ws, k, x) == QueuedBy(ws, k, x) == 0
  {
    if k > 0 {
      IdleWorkersHoldNothing(ws, k - 1, x);
    }
  }

  lemma ExitedHasDelivered(s: Sys, w: nat)
    requires Inv(s) && w < |s.workers| && s.workers[w].exited
    ensures s.workers[w].delivered == Of(s.accepted, w, |s.workers|)
  {
    assert Started(s.workers[w]) + [] == s.workers[w].delivered;
  }

  ghost predicate AllExited(s: Sys) { forall w | 0 <= w < |s.workers| :: s.workers[w].exited }

  lemma ExitedDeliveredAll(s: Sys, x: Ticket)
    requires Inv(s) && AllExited(s)
    ensures multiset(s.accepted)[x] == DeliveredBy(s.workers, |s.workers|, x)
  {
    InvConserves(s, x);
    IdleWorkersHoldNothing(s.workers, |s.workers|, x);
  }

  /** Every worker has delivered its part of the accepted operations, in acceptance order. */
  ghost predicate DeliveredInOrder(s: Sys) {
    |s.workers| > 0 && forall w | 0 <= w < |s.workers| :: s.workers[w].delivered == Of(s.accepted, w, |s.workers|)
  }

  /** When Stop's wait is over, every accepted operation has been delivered exactly as often as it was
      accepted, each worker's in acceptance order. */
  lemma StopDeliversAll(limit: nat, s0: Sys, run: seq<Action>, x: Ticket)
    requires Initial(s0) && ValidRun(limit, s0, run) && AllExited(Final(limit, s0, run))
    ensures var s := Final(limit, s0, run);
            multiset(s.accepted)[x] == DeliveredBy(s.workers, |s.workers|, x) && DeliveredInOrder(s)
  {
    RunKeepsInv(limit, s0, run);
    var s := Final(limit, s0, run);
    ExitedDeliveredAll(s, x);
    forall w | 0 <= w < |s.workers|
      ensures s.workers[w].delivered == Of(s.accepted, w, |s.workers|)
    {
      ExitedHasDelivered(s, w);
    }
  }
}
