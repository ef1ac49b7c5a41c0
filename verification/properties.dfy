/** What the continuation entry and the blocking entry guarantee, stated over every bridge
    state and every run of the target. */
module BridgeProperties {
  import opened Nullable
  import opened Slots
  import opened InterceptorBridge

  /** The blocking-entry call `e` records a flag on thread `t`: it ran there and the
      interceptor returned normally. */
  predicate Records(e: Reentry, t: ThreadId) {
    e.thread == t && e.outcome.Completed?
  }

  /** The flag recorded last on thread `t` by a sequence of blocking-entry calls, if any. */
  function LastRecording(reentries: seq<Reentry>, t: ThreadId): Option<bool>
    decreases |reentries|
  {
    if |reentries| == 0 then None
    else
      var e := reentries[|reentries| - 1];
      if Records(e, t) then Some(e.outcome.done) else LastRecording(reentries[..|reentries| - 1], t)
  }

  /** The blocking-entry calls made on thread `t`, in order. */
  function OnThread(reentries: seq<Reentry>, t: ThreadId): seq<Reentry>
    decreases |reentries|
  {
    if |reentries| == 0 then []
    else
      var e := reentries[|reentries| - 1];
      var prefix := OnThread(reentries[..|reentries| - 1], t);
      if e.thread == t then prefix + [e] else prefix
  }

  /** The flag the continuation entry answers when the target returns `done`: a flag recorded
      during the run wins, then one left over in the slot from before, then `done`. */
  function Authoritative(recorded: Option<bool>, stale: Option<bool>, done: bool): bool {
    Latest(recorded, stale).OrElse(done)
  }

  lemma {:induction false} NoRecordingMeansNone(reentries: seq<Reentry>, t: ThreadId)
    requires forall i :: 0 <= i < |reentries| ==> !Records(reentries[i], t)
    ensures LastRecording(reentries, t) == None
    decreases |reentries|
  {
    if |reentries| > 0 {
      NoRecordingMeansNone(reentries[..|reentries| - 1], t);
    }
  }

  /** `LastRecording` picks the recording that no later one on the same thread follows. */
  lemma {:induction false} LastRecordingIsLast(reentries: seq<Reentry>, t: ThreadId, i: nat)
    requires i < |reentries| && Records(reentries[i], t)
    requires forall j :: i < j < |reentries| ==> !Records(reentries[j], t)
    ensures LastRecording(reentries, t) == Some(reentries[i].outcome.done)
    decreases |reentries|
  {
    if i < |reentries| - 1 {
      LastRecordingIsLast(reentries[..|reentries| - 1], t, i);
    }
  }

  /** Calls on other threads do not change what thread `t` records. */
  lemma {:induction false} LastRecordingOnThread(reentries: seq<Reentry>, t: ThreadId)
    ensures LastRecording(OnThread(reentries, t), t) == LastRecording(reentries, t)
    decreases |reentries|
  {
    if |reentries| > 0 {
      var prefix := reentries[..|reentries| - 1];
      var e := reentries[|reentries| - 1];
      LastRecordingOnThread(prefix, t);
      if e.thread == t {
        assert (OnThread(prefix, t) + [e])[..|OnThread(prefix, t) + [e]| - 1] == OnThread(prefix, t);
      }
    }
  }

  /** The blocking-entry calls leave every callback in place, and the last call that recorded
      on a thread overwrites whatever that thread held before. */
  lemma {:induction false} ReenterEffect(b: Bridge, reentries: seq<Reentry>, u: ThreadId)
    ensures Get(Reenter(b, reentries).bridge.slots, u).callback == Get(b.slots, u).callback
    ensures Get(Reenter(b, reentries).bridge.slots, u).interceptorDone
            == Latest(LastRecording(reentries, u), Get(b.slots, u).interceptorDone)
    decreases |reentries|
  {
    if |reentries| > 0 {
      ReenterEffect(b, reentries[..|reentries| - 1], u);
    }
  }

  /** The i-th blocking-entry call hands the interceptor its own exchange and the callback
      its thread held when the run began. */
  lemma {:induction false} ReenterCalls(b: Bridge, reentries: seq<Reentry>)
    ensures forall i :: 0 <= i < |reentries| ==>
      Reenter(b, reentries).calls[i]
      == ToInterceptor(b.interceptor, reentries[i].thread, reentries[i].exchange,
                       Get(b.slots, reentries[i].thread).callback)
    decreases |reentries|
  {
    if |reentries| > 0 {
      var n := |reentries| - 1;
      ReenterCalls(b, reentries[..n]);
      ReenterEffect(b, reentries[..n], reentries[n].thread);
    }
  }

  /** Precedence: when the target returns `done`, the entry answers the flag recorded last on
      its own thread during the run, else the flag already in the slot, else `done`. When the
      target throws, so does the entry. */
  lemma ContinueDecision(b: Bridge, t: ThreadId, x: Exchange, cb: Option<Callback>, run: Run)
    ensures run.end.Raised? ==> Continue(b, t, x, cb, run).result == Raised
    ensures run.end.Completed? ==>
      Continue(b, t, x, cb, run).result
      == Completed(Authoritative(LastRecording(run.reentries, t), Get(b.slots, t).interceptorDone, run.end.done))
  {
    ReenterEffect(b.(slots := SetCallback(b.slots, t, cb)), run.reentries, t);
  }

  /** With nothing recorded on the thread, before or during the run, the entry answers
      exactly the target's own `done`. */
  lemma NoRecordingPassthrough(b: Bridge, t: ThreadId, x: Exchange, cb: Option<Callback>, run: Run, done: bool)
    requires Get(b.slots, t).interceptorDone == None
    requires forall i :: 0 <= i < |run.reentries| ==> !Records(run.reentries[i], t)
    requires run.end == Completed(done)
    ensures Continue(b, t, x, cb, run).result == Completed(done)
  {
    ContinueDecision(b, t, x, cb, run);
    NoRecordingMeansNone(run.reentries, t);
  }

  /** The last recording made on the thread during the run wins, whatever the target answered. */
  lemma RecordingOverridesTarget(b: Bridge, t: ThreadId, x: Exchange, cb: Option<Callback>, run: Run, i: nat)
    requires i < |run.reentries| && Records(run.reentries[i], t)
    requires forall j :: i < j < |run.reentries| ==> !Records(run.reentries[j], t)
    requires run.end.Completed?
    ensures Continue(b, t, x, cb, run).result == Completed(run.reentries[i].outcome.done)
  {
    ContinueDecision(b, t, x, cb, run);
    LastRecordingIsLast(run.reentries, t, i);
  }

  /** The entry does not reset the recorded flag when it starts: a flag recorded by a
      blocking-entry call made earlier on the same thread, outside any continuation entry,
      decides the answer of the next one unless that run records again on the thread. */
  lemma StaleRecordingHonoured(b: Bridge, t: ThreadId, y: Exchange, stale: bool,
                               x: Exchange, cb: Option<Callback>, run: Run, done: bool)
    requires forall i :: 0 <= i < |run.reentries| ==> !Records(run.reentries[i], t)
    requires run.end == Completed(done)
    ensures Continue(Blocking(b, t, y, Completed(stale)).bridge, t, x, cb, run).result == Completed(stale)
  {
    ContinueDecision(Blocking(b, t, y, Completed(stale)).bridge, t, x, cb, run);
    NoRecordingMeansNone(run.reentries, t);
  }

  /** `doStop` on the thread discards such a left-over flag. */
  lemma StopDiscardsStaleRecording(b: Bridge, t: ThreadId, x: Exchange, cb: Option<Callback>, run: Run, done: bool)
    requires forall i :: 0 <= i < |run.reentries| ==> !Records(run.reentries[i], t)
    requires run.end == Completed(done)
    ensures Continue(Stop(b, t), t, x, cb, run).result == Completed(done)
  {
    NoRecordingPassthrough(Stop(b, t), t, x, cb, run, done);
  }

  /** The target gets the callback the entry stored; every blocking-entry call on the same
      thread hands that callback to the interceptor; the bridge never notifies a callback. */
  lemma CallbackHandedThrough(b: Bridge, t: ThreadId, x: Exchange, cb: Option<Callback>, run: Run)
    ensures Continue(b, t, x, cb, run).calls[0] == ToTarget(b.target, x, cb)
    ensures forall i :: 0 <= i < |run.reentries| && run.reentries[i].thread == t ==>
      Continue(b, t, x, cb, run).calls[i + 1]
      == ToInterceptor(b.interceptor, t, run.reentries[i].exchange, cb)
    ensures forall c :: c in Continue(b, t, x, cb, run).calls ==> !c.Notify?
  {
    var armed := b.(slots := SetCallback(b.slots, t, cb));
    ReenterCalls(armed, run.reentries);
    var r := Continue(b, t, x, cb, run);
    forall c | c in r.calls
      ensures !c.Notify?
    {
      var k :| 0 <= k < |r.calls| && r.calls[k] == c;
      if k > 0 {
        assert r.calls[k] == Reenter(armed, run.reentries).calls[k - 1];
      }
    }
  }

  /** Every other thread ends with its own callback and the flag last recorded on it during
      the run (or its earlier one); a thread the run never entered is left as it was. */
  lemma OtherThreadsAfterContinue(b: Bridge, t: ThreadId, x: Exchange, cb: Option<Callback>, run: Run, u: ThreadId)
    requires u != t
    ensures Get(Continue(b, t, x, cb, run).bridge.slots, u)
            == Slot(Get(b.slots, u).callback, Latest(LastRecording(run.reentries, u), Get(b.slots, u).interceptorDone))
    ensures (forall i :: 0 <= i < |run.reentries| ==> run.reentries[i].thread != u) ==>
            Get(Continue(b, t, x, cb, run).bridge.slots, u) == Get(b.slots, u)
  {
    ReenterEffect(b.(slots := SetCallback(b.slots, t, cb)), run.reentries, u);
    if forall i :: 0 <= i < |run.reentries| ==> run.reentries[i].thread != u {
      NoRecordingMeansNone(run.reentries, u);
    }
  }

  /** Thread confinement: the answer depends only on the calling thread's slot and the
      blocking-entry calls made on that thread, never on any other thread's. */
  lemma ContinueIsolated(b1: Bridge, b2: Bridge, t: ThreadId, x: Exchange, cb: Option<Callback>, run1: Run, run2: Run)
    requires Get(b1.slots, t) == Get(b2.slots, t)
    requires OnThread(run1.reentries, t) == OnThread(run2.reentries, t)
    requires run1.end == run2.end
    ensures Continue(b1, t, x, cb, run1).result == Continue(b2, t, x, cb, run2).result
  {
    ContinueDecision(b1, t, x, cb, run1);
    ContinueDecision(b2, t, x, cb, run2);
    LastRecordingOnThread(run1.reentries, t);
    LastRecordingOnThread(run2.reentries, t);
  }

  /** A bridge with nothing in any slot is left that way by a continuation entry whose
      blocking-entry calls all come from the calling thread. */
  lemma ContinueKeepsIdle(b: Bridge, t: ThreadId, x: Exchange, cb: Option<Callback>, run: Run)
    requires Idle(b)
    requires forall i :: 0 <= i < |run.reentries| ==> run.reentries[i].thread == t
    ensures Idle(Continue(b, t, x, cb, run).bridge)
  {
    var r := Continue(b, t, x, cb, run);
    forall u
      ensures Get(r.bridge.slots, u) == Empty
    {
      if u != t {
        OtherThreadsAfterContinue(b, t, x, cb, run, u);
        assert Get(b.slots, u) == Empty;
      }
    }
  }
}
