/** The bridge that lets an interceptor written as a blocking `Processor` take part in the
    asynchronous routing engine.

    The bridge has two entry points. The continuation entry is called by the routing engine
    with an exchange and an `AsyncCallback`. The blocking entry is called, possibly from inside
    the target's own processing, by a plain interceptor that wants processing to continue.
    They share the thread-confined `Slots` state. The target and the interceptor are foreign
    processors: a run of the target is given as a `Run` trace, and each blocking-entry call
    carries the outcome the interceptor produced. */
module InterceptorBridge {
  import opened Nullable
  import opened Slots

  /** An `AsyncProcessor` (the interceptor or the target), identified by its reference. */
  datatype Processor = Processor(id: nat)

  /** A message exchange. The bridge never looks inside one; it only passes it on. */
  datatype Exchange = Exchange(id: nat)

  /** How a call into a processor ended: it returned its `done` flag, or it threw. */
  datatype Completion = Completed(done: bool) | Raised

  /** A call the bridge makes. `Notify` stands for the bridge invoking a callback itself. */
  datatype Call =
    | ToTarget(target: Option<Processor>, exchange: Exchange, callback: Option<Callback>)
    | ToInterceptor(interceptor: Processor, thread: ThreadId, exchange: Exchange, passed: Option<Callback>)
    | Notify(notified: Callback)

  /** The bridge. `target` is `None` while it still holds the conversion of the unassigned field. */
  datatype Bridge = Bridge(interceptor: Processor, target: Option<Processor>, slots: SlotMap)

  /** One call of the blocking entry, on `thread` with `exchange`; `outcome` is what the
      interceptor's asynchronous `process` did when the bridge invoked it. */
  datatype Reentry = Reentry(thread: ThreadId, exchange: Exchange, outcome: Completion)

  /** One run of the target: the blocking-entry calls made while it ran, in order, then how
      the target's own `process` ended. */
  datatype Run = Run(reentries: seq<Reentry>, end: Completion)

  /** No thread holds anything in its slot. */
  ghost predicate Idle(b: Bridge) {
    forall t :: Get(b.slots, t) == Empty
  }

  /** The constructor: the interceptor is fixed; the target is the conversion of the field
      that has not been assigned yet, so it is absent. */
  function New(interceptor: Processor): (b: Bridge)
    ensures b.interceptor == interceptor
    ensures b.target == None
    ensures Idle(b)
  {
    Bridge(interceptor, None, map[])
  }

  /** `setTarget`: replaces the target and nothing else. A null argument (`None`) is converted
      just as the unassigned field is at construction, so it too leaves the target absent. */
  function SetTarget(b: Bridge, target: Option<Processor>): (r: Bridge)
    ensures r.target == target
    ensures r.interceptor == b.interceptor
    ensures r.slots == b.slots
  {
    b.(target := target)
  }

  /** The slot clearing `doStop` performs, on the thread `t` that stops the bridge. */
  function Stop(b: Bridge, t: ThreadId): (r: Bridge)
    ensures Get(r.slots, t) == Empty
    ensures forall u :: u != t ==> Get(r.slots, u) == Get(b.slots, u)
    ensures r.interceptor == b.interceptor && r.target == b.target
  {
    b.(slots := Clear(b.slots, t))
  }

  /** The result of one blocking-entry call: the new bridge, the call made to the
      interceptor, and whether the interceptor's exception propagates out of the entry. */
  datatype BlockingStep = BlockingStep(bridge: Bridge, call: Call, threw: bool)

  /** The blocking entry `process(exchange)` on thread `t`: invoke the interceptor with
      whatever callback the thread's slot holds, absent or not, and record its result. */
  function Blocking(b: Bridge, t: ThreadId, x: Exchange, outcome: Completion): (r: BlockingStep)
    ensures r.call == ToInterceptor(b.interceptor, t, x, Get(b.slots, t).callback)
    ensures r.threw <==> outcome.Raised?
    ensures outcome.Completed? ==> Get(r.bridge.slots, t).interceptorDone == Some(outcome.done)
    ensures outcome.Raised? ==> r.bridge == b
    ensures Get(r.bridge.slots, t).callback == Get(b.slots, t).callback
    ensures forall u :: u != t ==> Get(r.bridge.slots, u) == Get(b.slots, u)
    ensures r.bridge.interceptor == b.interceptor && r.bridge.target == b.target
  {
    var call := ToInterceptor(b.interceptor, t, x, Get(b.slots, t).callback);
    match outcome
    case Completed(done) => BlockingStep(b.(slots := SetDone(b.slots, t, done)), call, false)
    case Raised => BlockingStep(b, call, true)
  }

  /** The bridge after the blocking-entry calls of a run, and the interceptor calls they made. */
  datatype ReenterStep = ReenterStep(bridge: Bridge, calls: seq<Call>)

  /** The blocking-entry calls of a run, applied in order; also the interceptor calls made. */
  function Reenter(b: Bridge, reentries: seq<Reentry>): (r: ReenterStep)
    ensures |r.calls| == |reentries|
    ensures r.bridge.interceptor == b.interceptor && r.bridge.target == b.target
    decreases |reentries|
  {
    if |reentries| == 0 then ReenterStep(b, [])
    else
      var prev := Reenter(b, reentries[..|reentries| - 1]);
      var e := reentries[|reentries| - 1];
      var step := Blocking(prev.bridge, e.thread, e.exchange, e.outcome);
      ReenterStep(step.bridge, prev.calls + [step.call])
  }

  /** The result of one continuation-entry call: the new bridge, the calls the bridge made
      in order, and how the entry ends. */
  datatype ContinueStep = ContinueStep(bridge: Bridge, calls: seq<Call>, result: Completion)

  /** The continuation entry `process(exchange, callback)` on thread `t`, while the target
      behaves as `run` describes. The callback goes into the thread's slot, the target is
      invoked with the same callback, a flag recorded in the slot wins over the target's own
      `done`, and the slot is cleared whether the target returned or threw. A null callback
      (`None`) is stored and handed on just the same. */
  function Continue(b: Bridge, t: ThreadId, x: Exchange, cb: Option<Callback>, run: Run): (r: ContinueStep)
    ensures Get(r.bridge.slots, t) == Empty
    ensures r.result.Raised? <==> run.end.Raised?
    ensures |r.calls| == |run.reentries| + 1
    ensures r.calls[0] == ToTarget(b.target, x, cb)
    ensures r.bridge.interceptor == b.interceptor && r.bridge.target == b.target
  {
    var armed := b.(slots := SetCallback(b.slots, t, cb));
    var after := Reenter(armed, run.reentries);
    var result :=
      match run.end
      case Raised => Raised
      case Completed(done) =>
        var recorded := Get(after.bridge.slots, t).interceptorDone;
        if recorded.Some? then Completed(recorded.value) else Completed(done);
    ContinueStep(after.bridge.(slots := Clear(after.bridge.slots, t)), [ToTarget(b.target, x, cb)] + after.calls, result)
  }
}
