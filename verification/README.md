# InterceptorToAsyncProcessorBridge, modelled in Dafny

Apache Camel's `InterceptorToAsyncProcessorBridge` lets an interceptor written as a plain,
blocking `Processor` take part in the asynchronous routing engine. It has two entry points:

- the **continuation entry** `process(exchange, callback)`, called by the routing engine;
- the **blocking entry** `process(exchange)`, called by the interceptor, often from inside
  the target's own processing, when it wants processing to go on.

The two entry points share two `ThreadLocal` fields. One holds the callback of the
continuation entry in flight on the thread. The other holds the `done` flag the interceptor
returned through the blocking entry.

The model is a functional state machine:

- `nullable.dfy` (`Nullable`): `Option`, standing for a Java reference that may be null.
- `slots.dfy` (`Slots`): the two thread-local fields, as one map from thread identity to a
  `Slot(callback, interceptorDone)`. A thread with no entry sees an empty slot, as
  `ThreadLocal.get()` answers null. Every set and remove touches only the calling thread.
- `bridge.dfy` (`InterceptorBridge`): the `Bridge` record (fixed interceptor, replaceable
  target, slots) and its operations `New`, `SetTarget`, `Stop`, `Blocking` and `Continue`.
  Both processors are foreign and so abstract. One run of the target is a `Run` trace: the
  blocking-entry calls made while it ran, each with the outcome of the interceptor, then how
  the target ended (`Completed(done)` or `Raised`). The two entry points also return the
  calls the bridge made, to the target and to the interceptor. The `Call` type also has a
  `Notify` alternative, which the bridge never makes; it exists only so that
  `BridgeProperties.CallbackHandedThrough` can state that absence.
- `properties.dfy` (`BridgeProperties`): precedence, cleanup, callback hand-through,
  last-recording-wins, stale recordings and thread confinement, over all states and runs.
- `usage.dfy` (`BridgeUsage`): arbitrary histories of operations. It covers target
  replacement, the fixed interceptor, and the slots staying empty between calls.

In four places the code does something a reader might not expect, and the model follows the code:

- The blocking entry does not check that a continuation entry is active on its thread. It
  hands the interceptor whatever the slot holds, possibly nothing (`None`). It records the
  result in the slot even then. Nothing clears that recording before the next continuation
  entry or stop on that thread.
- The continuation entry sets only the callback on entry. It does not reset the recorded
  flag. So a flag left over from such an out-of-band blocking call decides its answer,
  whatever `done` the target returns, unless the run itself records on that thread
  (`BridgeProperties.StaleRecordingHonoured`).
- The constructor does not take an initial target. It converts the still-unassigned
  `target` field, so a new bridge has no target (`None`) until `setTarget` is called.
  `Continue` does not require a target. Whatever the converted unassigned field does is just
  another run of the target, and the call to it is logged with target `None`.
- Neither null argument is rejected. `setTarget(null)` converts null just as the constructor
  does, so the target is absent again (`SetTarget` takes an `Option`). `process(exchange, null)`
  stores null in the thread-local, so the slot holds no callback, and hands null to the target
  (`Continue` takes an `Option` callback).

## Model

| member | source | states |
|---|---|---|
| InterceptorBridge.New | core/camel-base/src/main/java/org/apache/camel/processor/InterceptorToAsyncProcessorBridge.java:36-49 | the interceptor is the one given; the target is absent; no thread holds anything in its slot |
| InterceptorBridge.SetTarget | core/camel-base/src/main/java/org/apache/camel/processor/InterceptorToAsyncProcessorBridge.java:91-93 | the target becomes the given argument, absent when it is null; the interceptor and every slot stay as they were |
| InterceptorBridge.Stop | core/camel-base/src/main/java/org/apache/camel/processor/InterceptorToAsyncProcessorBridge.java:106-108 | the stopping thread's callback and recorded flag are both cleared; every other thread's slot and both processors are unchanged |
| InterceptorBridge.Blocking | core/camel-base/src/main/java/org/apache/camel/processor/InterceptorToAsyncProcessorBridge.java:57-61 | the interceptor is invoked with the callback held in the calling thread's slot, which may be absent; a normal return overwrites that thread's recorded flag with the interceptor's result; a throw propagates and changes nothing; the callback and other threads' slots are untouched |
| InterceptorBridge.Reenter | core/camel-base/src/main/java/org/apache/camel/processor/InterceptorToAsyncProcessorBridge.java:57-61 | the blocking-entry calls made during a run produce one interceptor call each and never change the interceptor or the target |
| InterceptorBridge.Continue | core/camel-base/src/main/java/org/apache/camel/processor/InterceptorToAsyncProcessorBridge.java:64-82 | the target is invoked first with the exchange and the callback given; the entry throws exactly when the target throws; the calling thread's slot is empty afterwards on every exit path |
| Slots.SetCallback | core/camel-base/src/main/java/org/apache/camel/processor/InterceptorToAsyncProcessorBridge.java:66 | the thread's callback becomes the given one, absent when it is null; its recorded flag and all other threads' slots are unchanged |
| Slots.SetDone | core/camel-base/src/main/java/org/apache/camel/processor/InterceptorToAsyncProcessorBridge.java:60 | the thread's recorded flag becomes the given value; its callback and all other threads' slots are unchanged |
| Slots.RemoveCallback | core/camel-base/src/main/java/org/apache/camel/processor/InterceptorToAsyncProcessorBridge.java:79 | the thread's callback becomes absent; its recorded flag and all other threads' slots are unchanged |
| Slots.RemoveDone | core/camel-base/src/main/java/org/apache/camel/processor/InterceptorToAsyncProcessorBridge.java:80 | the thread's recorded flag becomes absent; its callback and all other threads' slots are unchanged |
| Slots.Clear | core/camel-base/src/main/java/org/apache/camel/processor/InterceptorToAsyncProcessorBridge.java:79-80 | after both removals the thread's slot is empty and the thread has no entry left; other threads are unchanged |
| BridgeProperties.ReenterEffect | core/camel-base/src/main/java/org/apache/camel/processor/InterceptorToAsyncProcessorBridge.java:57-61 | across any sequence of blocking-entry calls, every thread keeps its callback, and its recorded flag is the last one recorded on that thread, or the earlier one if none was |
| BridgeProperties.ReenterCalls | core/camel-base/src/main/java/org/apache/camel/processor/InterceptorToAsyncProcessorBridge.java:59 | the i-th blocking-entry call invokes the interceptor with its own exchange and the callback its thread held when the run began |
| BridgeProperties.LastRecordingIsLast | core/camel-base/src/main/java/org/apache/camel/processor/InterceptorToAsyncProcessorBridge.java:60 | of several recordings on one thread, the last one is the one that counts (successive blocking calls overwrite) |
| BridgeProperties.LastRecordingOnThread | core/camel-base/src/main/java/org/apache/camel/processor/InterceptorToAsyncProcessorBridge.java:38-39 | the last recording on a thread is determined by that thread's blocking-entry calls alone |
| BridgeProperties.ContinueDecision | core/camel-base/src/main/java/org/apache/camel/processor/InterceptorToAsyncProcessorBridge.java:69-76 | when the target returns done, the answer is the flag recorded last on the calling thread during the run, else the flag already in its slot, else done; when the target throws, the entry throws |
| BridgeProperties.NoRecordingPassthrough | core/camel-base/src/main/java/org/apache/camel/processor/InterceptorToAsyncProcessorBridge.java:73-75 | with nothing recorded on the thread before or during the run, the answer is exactly the target's done |
| BridgeProperties.RecordingOverridesTarget | core/camel-base/src/main/java/org/apache/camel/processor/InterceptorToAsyncProcessorBridge.java:70-72 | a flag recorded on the thread during the run is the answer whatever done the target returned |
| BridgeProperties.StaleRecordingHonoured | core/camel-base/src/main/java/org/apache/camel/processor/InterceptorToAsyncProcessorBridge.java:57-72 | a flag recorded by a blocking call outside any continuation entry on the thread decides the next continuation entry's answer, whatever done the target returns, unless that run records again on the thread; the entry does not reset it |
| BridgeProperties.StopDiscardsStaleRecording | core/camel-base/src/main/java/org/apache/camel/processor/InterceptorToAsyncProcessorBridge.java:106-108 | after the stop's clearing on a thread, a continuation entry there with no recording answers the target's done |
| BridgeProperties.CallbackHandedThrough | core/camel-base/src/main/java/org/apache/camel/processor/InterceptorToAsyncProcessorBridge.java:64-69 | the target gets the very callback stored; every blocking call on the same thread during the run hands that callback to the interceptor; no call the bridge makes notifies a callback |
| BridgeProperties.OtherThreadsAfterContinue | core/camel-base/src/main/java/org/apache/camel/processor/InterceptorToAsyncProcessorBridge.java:64-82 | every other thread keeps its callback and ends with the flag last recorded on it during the run; a thread the run never entered is left exactly as it was |
| BridgeProperties.ContinueIsolated | core/camel-base/src/main/java/org/apache/camel/processor/InterceptorToAsyncProcessorBridge.java:38-39 | the answer of a continuation entry depends only on the calling thread's slot and the blocking calls made on that thread, never on another thread's |
| BridgeProperties.ContinueKeepsIdle | core/camel-base/src/main/java/org/apache/camel/processor/InterceptorToAsyncProcessorBridge.java:77-81 | with every slot empty before, and every blocking call of the run made on the calling thread, every slot is empty afterwards |
| BridgeUsage.Apply | core/camel-base/src/main/java/org/apache/camel/processor/InterceptorToAsyncProcessorBridge.java:36-37 | every operation keeps the interceptor; only setTarget changes the target, to the processor it names |
| BridgeUsage.TargetIsLastSet | core/camel-base/src/main/java/org/apache/camel/processor/InterceptorToAsyncProcessorBridge.java:91-92 | after any history the interceptor is the original one and the target is the one the last setTarget named |
| BridgeUsage.ContinueUsesLastTarget | core/camel-base/src/main/java/org/apache/camel/processor/InterceptorToAsyncProcessorBridge.java:46-48 | after any history from construction, a continuation entry invokes the target the last setTarget installed, or the absent one if setTarget was never called or was last called with null |
| BridgeUsage.SecondCallSeesNewTarget | core/camel-base/src/main/java/org/apache/camel/processor/InterceptorToAsyncProcessorBridge.java:69 | when setTarget runs between two continuation entries, the first invokes the old target and the second invokes only the new one |
| BridgeUsage.DisciplinedHistoryStaysIdle | core/camel-base/src/main/java/org/apache/camel/processor/InterceptorToAsyncProcessorBridge.java:64-82 | starting with every slot empty, a history without blocking calls outside a continuation entry on the same thread ends with every slot empty |

## Left out

- `processAsync` and its future adapter: a thin wrapper over a class that is not part of this model.
- `AsyncProcessorConverterHelper.convert`: foreign code. The converted interceptor and target are opaque `Processor` identities, and their behaviour is the `Run` trace and the interceptor outcomes.
- `doStart` and the `ServiceHelper` start and stop calls: lifecycle plumbing of the collaborators. Only the slot clearing of `doStop` is modelled.
- `toString`: diagnostics only.
- Real threads, `volatile` visibility and callbacks invoked later on other threads: a thread is only a key into the slot map. Blocking calls from other threads are interleaved in the run's trace.
- Exchange contents: the bridge never reads them, so an exchange is an opaque identity.
- A continuation entry nested inside another one on the same thread: a run's trace holds only blocking-entry calls. Such nesting would clear the outer call's slot early (the inner entry's `finally` removes both thread-locals); the bridge does not support it.
- A stop on the calling thread while the target is still running: a run's trace holds only blocking-entry calls, so `doStop` clearing that thread's slot in the middle of a run is not modelled. After such a stop the source's final check sees neither a leftover flag nor one recorded earlier in the run, which `BridgeProperties.ContinueDecision` does not cover.
- Exception identity: a throw is `Raised`, with no exception object. The bridge propagates it unchanged.
