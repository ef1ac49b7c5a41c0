/** The thread-confined correlation state of the bridge.

    The source keeps two `ThreadLocal` fields, one holding the `AsyncCallback` of the
    continuation entry in flight on a thread and one holding the `Boolean` that the
    interceptor reported through the blocking entry. Here both are one map from a thread
    identity to a `Slot`; a thread that has no entry in the map sees an empty slot, exactly
    as `ThreadLocal.get()` answers null on a thread that never set a value. */
module Slots {
  import opened Nullable

  /** Identity of a thread. It is only ever used as a key. */
  type ThreadId = nat

  /** An `AsyncCallback` object, identified by its reference. */
  datatype Callback = Callback(id: nat)

  /** What one thread sees through the two thread-local fields. */
  datatype Slot = Slot(callback: Option<Callback>, interceptorDone: Option<bool>)

  /** The slot of a thread that holds nothing (both `get()` calls answer null). */
  const Empty: Slot := Slot(None, None)

  type SlotMap = map<ThreadId, Slot>

  /** The slot thread `t` sees. */
  function Get(m: SlotMap, t: ThreadId): Slot {
    if t in m then m[t] else Empty
  }

  /** Replace the slot of thread `t`; an empty slot drops the thread's entry. */
  function Put(m: SlotMap, t: ThreadId, s: Slot): (r: SlotMap)
    ensures Get(r, t) == s
    ensures forall u :: u != t ==> Get(r, u) == Get(m, u)
    ensures s == Empty ==> t !in r
  {
    if s == Empty then m - {t} else m[t := s]
  }

  /** `callback.set(cb)` on thread `t`; setting null (`None`) leaves `get()` answering null. */
  function SetCallback(m: SlotMap, t: ThreadId, cb: Option<Callback>): (r: SlotMap)
    ensures Get(r, t).callback == cb
    ensures Get(r, t).interceptorDone == Get(m, t).interceptorDone
    ensures forall u :: u != t ==> Get(r, u) == Get(m, u)
  {
    Put(m, t, Get(m, t).(callback := cb))
  }

  /** `interceptorDone.set(done)` on thread `t`. */
  function SetDone(m: SlotMap, t: ThreadId, done: bool): (r: SlotMap)
    ensures Get(r, t).interceptorDone == Some(done)
    ensures Get(r, t).callback == Get(m, t).callback
    ensures forall u :: u != t ==> Get(r, u) == Get(m, u)
  {
    Put(m, t, Get(m, t).(interceptorDone := Some(done)))
  }

  /** `callback.remove()` on thread `t`. */
  function RemoveCallback(m: SlotMap, t: ThreadId): (r: SlotMap)
    ensures Get(r, t).callback == None
    ensures Get(r, t).interceptorDone == Get(m, t).interceptorDone
    ensures forall u :: u != t ==> Get(r, u) == Get(m, u)
  {
    Put(m, t, Get(m, t).(callback := None))
  }

  /** `interceptorDone.remove()` on thread `t`. */
  function RemoveDone(m: SlotMap, t: ThreadId): (r: SlotMap)
    ensures Get(r, t).interceptorDone == None
    ensures Get(r, t).callback == Get(m, t).callback
    ensures forall u :: u != t ==> Get(r, u) == Get(m, u)
  {
    Put(m, t, Get(m, t).(interceptorDone := None))
  }

  /** The two removals the source performs together, in its order: callback first,
      then the recorded flag. Afterwards thread `t` holds nothing and has no entry. */
  function Clear(m: SlotMap, t: ThreadId): (r: SlotMap)
    ensures Get(r, t) == Empty
    ensures t !in r
    ensures forall u :: u != t ==> Get(r, u) == Get(m, u)
  {
    RemoveDone(RemoveCallback(m, t), t)
  }
}
