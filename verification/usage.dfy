/** The bridge over a whole lifetime: any sequence of its operations, in any order, on any
    threads. */
module BridgeUsage {
  import opened Nullable
  import opened Slots
  import opened InterceptorBridge
  import BridgeProperties

  /** One operation applied to the bridge. */
  datatype Op =
    | SetTargetOp(target: Option<Processor>)
    | StopOp(stopper: ThreadId)
    | BlockingOp(thread: ThreadId, exchange: Exchange, outcome: Completion)
    | ContinueOp(caller: ThreadId, x: Exchange, cb: Option<Callback>, run: Run)

  function Apply(b: Bridge, op: Op): (r: Bridge)
    ensures r.interceptor == b.interceptor
    ensures op.SetTargetOp? ==> r.target == op.target
    ensures !op.SetTargetOp? ==> r.target == b.target
  {
    match op
    case SetTargetOp(p) => SetTarget(b, p)
    case StopOp(t) => Stop(b, t)
    case BlockingOp(t, x, outcome) => Blocking(b, t, x, outcome).bridge
    case ContinueOp(t, x, cb, run) => Continue(b, t, x, cb, run).bridge
  }

  /** The operations applied in order. */
  function ApplyAll(b: Bridge, ops: seq<Op>): Bridge
    decreases |ops|
  {
    if |ops| == 0 then b else Apply(ApplyAll(b, ops[..|ops| - 1]), ops[|ops| - 1])
  }

  /** The argument of the last `setTarget` among `ops` (itself possibly null), if there was one. */
  function LastTarget(ops: seq<Op>): Option<Option<Processor>>
    decreases |ops|
  {
    if |ops| == 0 then None
    else if ops[|ops| - 1].SetTargetOp? then Some(ops[|ops| - 1].target)
    else LastTarget(ops[..|ops| - 1])
  }

  /** The interceptor given at construction never changes, and the target is the one the
      last `setTarget` named (or the earlier one when no operation set it). */
  lemma {:induction false} TargetIsLastSet(b: Bridge, ops: seq<Op>)
    ensures ApplyAll(b, ops).interceptor == b.interceptor
    ensures ApplyAll(b, ops).target == LastTarget(ops).OrElse(b.target)
    decreases |ops|
  {
    if |ops| > 0 {
      TargetIsLastSet(b, ops[..|ops| - 1]);
    }
  }

  /** A continuation entry made after any history invokes the target the last `setTarget`
      installed, and none at all if `setTarget` was never called since construction or was
      last called with null. */
  lemma ContinueUsesLastTarget(interceptor: Processor, ops: seq<Op>, t: ThreadId, x: Exchange, cb: Option<Callback>, run: Run)
    ensures Continue(ApplyAll(New(interceptor), ops), t, x, cb, run).calls[0] == ToTarget(LastTarget(ops).OrElse(None), x, cb)
    ensures ApplyAll(New(interceptor), ops).interceptor == interceptor
  {
    TargetIsLastSet(New(interceptor), ops);
  }

  /** Replacing the target between two continuation entries: the second one invokes the new
      target and only it, while the first invoked the old one. */
  lemma SecondCallSeesNewTarget(b: Bridge, previous: Option<Processor>, next: Option<Processor>,
                                t1: ThreadId, x1: Exchange, cb1: Option<Callback>, run1: Run,
                                t2: ThreadId, x2: Exchange, cb2: Option<Callback>, run2: Run)
    requires b.target == previous
    ensures Continue(b, t1, x1, cb1, run1).calls[0] == ToTarget(previous, x1, cb1)
    ensures
      var b2 := SetTarget(Continue(b, t1, x1, cb1, run1).bridge, next);
      var r2 := Continue(b2, t2, x2, cb2, run2);
      r2.calls[0] == ToTarget(next, x2, cb2)
      && forall c :: c in r2.calls && c.ToTarget? ==> c.target == next
  {
    var b2 := SetTarget(Continue(b, t1, x1, cb1, run1).bridge, next);
    var r2 := Continue(b2, t2, x2, cb2, run2);
    var armed := b2.(slots := SetCallback(b2.slots, t2, cb2));
    BridgeProperties.ReenterCalls(armed, run2.reentries);
    assert forall k :: 1 <= k < |r2.calls| ==> r2.calls[k] == Reenter(armed, run2.reentries).calls[k - 1];
  }

  /** An operation that keeps every blocking-entry call inside a continuation entry on the
      same thread: no out-of-band blocking call. */
  predicate Disciplined(op: Op) {
    match op
    case BlockingOp(_, _, _) => false
    case ContinueOp(t, _, _, run) => forall i :: 0 <= i < |run.reentries| ==> run.reentries[i].thread == t
    case _ => true
  }

  /** Slots are populated only while a continuation entry runs: starting from a bridge with
      nothing in any slot, a history without out-of-band blocking calls ends with nothing in
      any slot. */
  lemma {:induction false} DisciplinedHistoryStaysIdle(b: Bridge, ops: seq<Op>)
    requires Idle(b)
    requires forall k :: 0 <= k < |ops| ==> Disciplined(ops[k])
    ensures Idle(ApplyAll(b, ops))
    decreases |ops|
  {
    if |ops| > 0 {
      var prefix := ops[..|ops| - 1];
      DisciplinedHistoryStaysIdle(b, prefix);
      var mid := ApplyAll(b, prefix);
      match ops[|ops| - 1]
      case SetTargetOp(p) =>
      case StopOp(t) =>
        forall u
          ensures Get(Stop(mid, t).slots, u) == Empty
        {
          assert Get(mid.slots, u) == Empty;
        }
      case ContinueOp(t, x, cb, run) =>
        BridgeProperties.ContinueKeepsIdle(mid, t, x, cb, run);
    }
  }
}
