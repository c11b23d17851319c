/**
 Cancelling a running query. `nativeCancel` may come from any thread, so it can fall between the two halves of
 `nativeResetCancel`: clearing the flag, and then installing or removing the progress handler.
 */
module Cancellation {
  datatype Step = Cancel | Clear(cancelable: bool) | Install | Callback

  /** `resetting` is the argument of a `nativeResetCancel` that has cleared the flag and not yet set the handler. */
  datatype State = State(canceled: bool, handler: bool, resetting: bool, cancelable: bool)

  const INITIAL := State(false, false, false, false)

  /** SQLite calls the handler whenever there is one, in between the two halves too. */
  predicate Enabled(s: State, step: Step) {
    match step
    case Cancel => true
    case Clear(_) => !s.resetting
    case Install => s.resetting
    case Callback => s.handler
  }

  function Apply(s: State, step: Step): State {
    match step
    case Cancel => s.(canceled := true)
    case Clear(cancelable) => s.(canceled := false, resetting := true, cancelable := cancelable)
    case Install => s.(handler := s.cancelable, resetting := false)
    case Callback => s
  }

  function After(s: State, trace: seq<Step>): State {
    if trace == [] then s else Apply(After(s, trace[..|trace| - 1]), trace[|trace| - 1])
  }

  predicate IsTrace(s: State, trace: seq<Step>) {
    trace == [] ||
    (IsTrace(s, trace[..|trace| - 1]) && Enabled(After(s, trace[..|trace| - 1]), trace[|trace| - 1]))
  }

  ghost predicate NoClearSince(trace: seq<Step>, i: nat) {
    forall j :: i <= j < |trace| ==> !trace[j].Clear?
  }

  /** Somebody cancelled after the latest clear. */
  ghost predicate CancelPending(trace: seq<Step>) {
    exists i: nat :: i < |trace| && trace[i] == Cancel && NoClearSince(trace, i)
  }

  /** The latest clear asked for a cancelable run. */
  ghost predicate CancelableRun(trace: seq<Step>) {
    exists i: nat :: i < |trace| && trace[i] == Clear(true) && NoClearSince(trace, i + 1)
  }

  ghost predicate IsLatestInstall(trace: seq<Step>, i: nat) {
    i < |trace| && trace[i] == Install && forall j :: i < j < |trace| ==> trace[j] != Install
  }

  /** The latest reset to have set the handler asked for a cancelable run. */
  ghost predicate HandlerInstalled(trace: seq<Step>) {
    exists i: nat :: IsLatestInstall(trace, i) && CancelableRun(trace[..i])
  }

  lemma SnocInstall(trace: seq<Step>, step: Step, i: nat)
    ensures IsLatestInstall(trace + [step], i) <==>
            if i == |trace| then step == Install else IsLatestInstall(trace, i) && step != Install
    ensures i <= |trace| ==> (trace + [step])[..i] == trace[..i]
  {
    var all := trace + [step];
    assert all[|trace|] == step && forall j :: 0 <= j < |trace| ==> all[j] == trace[j];
  }

  lemma SnocHandler(trace: seq<Step>, step: Step)
    ensures HandlerInstalled(trace + [step]) <==>
            if step == Install then CancelableRun(trace) else HandlerInstalled(trace)
  {
    hide CancelableRun, IsLatestInstall;
    var all := trace + [step];
    forall i: nat
      ensures IsLatestInstall(all, i) <==>
              if i == |trace| then step == Install else IsLatestInstall(trace, i) && step != Install
      ensures i <= |trace| ==> all[..i] == trace[..i]
    {
      SnocInstall(trace, step, i);
    }
    assert trace[..|trace|] == trace;
    assert IsLatestInstall(all, |trace|) <==> step == Install;
    assert forall i: nat :: IsLatestInstall(trace, i) ==> i < |trace| by { IndexInTrace(trace); }
  }

  lemma IndexInTrace(trace: seq<Step>)
    ensures forall i: nat :: IsLatestInstall(trace, i) ==> i < |trace|
  {
  }

  lemma SnocClears(trace: seq<Step>, step: Step, i: nat)
    requires i <= |trace|
    ensures NoClearSince(trace + [step], i) <==> NoClearSince(trace, i) && !step.Clear?
  {
    assert forall j :: 0 <= j < |trace| ==> (trace + [step])[j] == trace[j];
    if NoClearSince(trace + [step], i) {
      assert !(trace + [step])[|trace|].Clear?;
      forall j | i <= j < |trace| ensures !trace[j].Clear? {
        assert !(trace + [step])[j].Clear?;
      }
    }
  }

  lemma {:induction false} StateOfTrace(trace: seq<Step>)
    requires IsTrace(INITIAL, trace)
    ensures var s := After(INITIAL, trace);
      && (s.canceled <==> CancelPending(trace))
      && (s.cancelable <==> CancelableRun(trace))
      && (s.handler <==> HandlerInstalled(trace))
      && (!s.resetting ==> s.handler == s.cancelable)
  {
    if trace != [] {
      var init, step := trace[..|trace| - 1], trace[|trace| - 1];
      assert trace == init + [step];
      StateOfTrace(init);
      SnocHandler(init, step);
      hide HandlerInstalled;
      forall i: nat | i <= |init| ensures NoClearSince(trace, i) <==> NoClearSince(init, i) && !step.Clear? {
        SnocClears(init, step, i);
      }
      if step == Cancel { assert trace[|init|] == Cancel && NoClearSince(trace, |init|); }
      if step == Clear(true) { assert trace[|init|] == Clear(true) && NoClearSince(trace, |init| + 1); }
      if CancelPending(init) && !step.Clear? {
        var i: nat :| i < |init| && init[i] == Cancel && NoClearSince(init, i);
        assert trace[i] == Cancel && NoClearSince(trace, i);
      }
      if CancelableRun(init) && !step.Clear? {
        var i: nat :| i < |init| && init[i] == Clear(true) && NoClearSince(init, i + 1);
        assert trace[i] == Clear(true) && NoClearSince(trace, i + 1);
      }
    }
  }

  /**
   In every interleaving, SQLite calls the handler only if the latest reset to have set it was cancelable, which is the
   latest reset of all unless that one is still between its halves; and the handler interrupts exactly when there was a
   cancel after the latest clear: none that came later is missed, none that came earlier is left over.
   */
  lemma HandlerInterrupts(trace: seq<Step>)
    requires IsTrace(INITIAL, trace) && Enabled(After(INITIAL, trace), Callback)
    ensures HandlerInstalled(trace) && (!After(INITIAL, trace).resetting ==> CancelableRun(trace))
    ensures After(INITIAL, trace).canceled <==> CancelPending(trace)
  {
    StateOfTrace(trace);
  }

  /** None of the steps is half of a reset. */
  ghost predicate NoReset(steps: seq<Step>) {
    forall i :: 0 <= i < |steps| ==> steps[i] == Cancel || steps[i] == Callback
  }

  lemma TraceExtends(trace: seq<Step>, step: Step)
    requires IsTrace(INITIAL, trace) && Enabled(After(INITIAL, trace), step)
    ensures IsTrace(INITIAL, trace + [step])
    ensures After(INITIAL, trace + [step]) == Apply(After(INITIAL, trace), step)
  {
    assert (trace + [step])[..|trace|] == trace;
  }

  /** `trace` records every step since the connection was opened, whichever thread took it. */
  class SQLiteConnection {
    var canceled: bool
    var handler: bool
    ghost var trace: seq<Step>

    ghost function Now(): State
      reads this
    {
      After(INITIAL, trace)
    }

    ghost predicate Valid()
      reads this
    {
      IsTrace(INITIAL, trace) && Now().canceled == canceled && Now().handler == handler
    }

    constructor ()
      ensures Valid() && trace == []
    {
      canceled, handler, trace := false, false, [];
    }

    method NativeCancel()
      requires Valid()
      modifies this
      ensures Valid() && trace == old(trace) + [Cancel]
    {
      TraceExtends(trace, Cancel);
      canceled, trace := true, trace + [Cancel];
    }

    /** The first half of `nativeResetCancel`. */
    method ClearFlag(ghost cancelable: bool)
      requires Valid() && !Now().resetting
      modifies this
      ensures Valid() && trace == old(trace) + [Clear(cancelable)]
    {
      TraceExtends(trace, Clear(cancelable));
      canceled, trace := false, trace + [Clear(cancelable)];
    }

    /** The second half. */
    method SetHandler(cancelable: bool)
      requires Valid() && Now().resetting && Now().cancelable == cancelable
      modifies this
      ensures Valid() && trace == old(trace) + [Install]
    {
      TraceExtends(trace, Install);
      trace := trace + [Install];
      if cancelable { handler := true; } else { handler := false; }
    }

    /** Nonzero tells SQLite to interrupt. */
    method ProgressHandlerCallback() returns (interrupt: bool)
      requires Valid() && Enabled(Now(), Callback)
      modifies this`trace
      ensures Valid() && trace == old(trace) + [Callback]
      ensures interrupt <==> CancelPending(old(trace))
    {
      HandlerInterrupts(trace);
      TraceExtends(trace, Callback);
      trace := trace + [Callback];
      interrupt := canceled;
    }

    /** Other threads cancel, and SQLite calls the handler if there is one, any number of times. */
    method OtherThreads()
      requires Valid()
      modifies this
      ensures Valid() && Now() == old(Now()).(canceled := canceled)
      ensures old(trace) <= trace && NoReset(trace[|old(trace)|..])
      ensures canceled <==> old(canceled) || Cancel in trace[|old(trace)|..]
    {
      hide After, IsTrace;
      var n: nat := *;
      while n > 0
        invariant Valid() && Now() == old(Now()).(canceled := canceled)
        invariant old(trace) <= trace && NoReset(trace[|old(trace)|..])
        invariant canceled <==> old(canceled) || Cancel in trace[|old(trace)|..]
      {
        ghost var before := trace;
        var cancel: bool := *;
        if cancel || !handler {
          TraceExtends(trace, Cancel);
          NativeCancel();
        } else {
          TraceExtends(trace, Callback);
          var _ := ProgressHandlerCallback();
        }
        assert trace[|old(trace)|..] == before[|old(trace)|..] + [trace[|before|]];
        n := n - 1;
      }
    }

    /** Other threads may come between its halves; what they cancel then is not lost. */
    method NativeResetCancel(cancelable: bool)
      requires Valid() && !Now().resetting
      modifies this
      ensures Valid() && !Now().resetting && handler == cancelable
      ensures |old(trace)| + 2 <= |trace| &&
              var between := trace[|old(trace)| + 1..|trace| - 1];
              && trace == old(trace) + [Clear(cancelable)] + between + [Install] && NoReset(between)
              && (canceled <==> Cancel in between)
    {
      hide After, IsTrace;
      TraceExtends(trace, Clear(cancelable));
      ClearFlag(cancelable);
      ghost var cleared := trace;
      OtherThreads();
      ghost var between := trace[|cleared|..];
      assert trace == cleared + between;
      TraceExtends(trace, Install);
      SetHandler(cancelable);
      assert trace[|old(trace)| + 1..|trace| - 1] == between;
    }
  }
}
