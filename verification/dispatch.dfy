/**
 * Per-action dispatch and the process block. For each action in plan order
 * the generator emits the snippets of its argument slots that were not yet
 * emitted, then one call gated on the first argument's validity. The process
 * block looks the key up (or takes group 0 when there are no keys), runs the
 * action calls, and raises the running maximum group id.
 */
module Dispatch {
  import opened AggTypes
  import opened CodeIr

  /** The statement emitted for action number `action` with argument slots
      `slots`; it reads exactly those slots. */
  function Gate(action: nat, slots: seq<nat>): (st: Stmt)
    ensures !st.Prepare? && Reads(st) == SlotSet(slots)
  {
    assert |slots| > 0 ==> slots[0] in SlotSet(slots);
    assert |slots| == 0 ==> SlotSet(slots) == {};
    if |slots| == 0 then Run(Evaluate(action, []))
    else If(SlotValid(slots[0]), Evaluate(action, slots), EvaluateNull(action))
  }

  /** Reference meaning of an action call: `EvaluateNull` exactly when the
      action has arguments and its first one is invalid in this row, and
      otherwise `Evaluate` with all of its arguments. */
  function Outcome(action: nat, slots: seq<nat>, valid: set<nat>): Call {
    if |slots| > 0 && slots[0] !in valid then EvaluateNull(action) else Evaluate(action, slots)
  }

  /** The events of all action calls of one row, in plan order. */
  function Outcomes(lists: seq<seq<nat>>, valid: set<nat>, memo: int): (r: seq<Event>)
    ensures |r| == |lists|
  {
    seq(|lists|, a requires 0 <= a < |lists| => Event(Outcome(a, lists[a], valid), memo))
  }

  /** The first of the actions `0 .. n-1` whose call fails on the row, or
      `n` when none does. */
  function FirstFailing(n: nat, failing: set<nat>): (r: nat)
    ensures r <= n
    ensures r < n ==> r in failing
    decreases n
  {
    if n == 0 then 0
    else
      var prior := FirstFailing(n - 1, failing);
      if prior < n - 1 then prior else if n - 1 in failing then n - 1 else n
  }

  /** No action before the first failing one fails. */
  lemma {:induction false} FirstFailingIsFirst(n: nat, failing: set<nat>)
    ensures forall a :: 0 <= a < FirstFailing(n, failing) ==> a !in failing
    decreases n
  {
    if n > 0 {
      FirstFailingIsFirst(n - 1, failing);
    }
  }

  /** How many of `n` action calls are made: all of them, or those up to
      and including the first that fails. */
  function Calls(n: nat, failing: set<nat>): (r: nat)
    ensures r <= n
  {
    var f := FirstFailing(n, failing);
    if f < n then f + 1 else n
  }

  /** The events of the action calls a row makes before it returns. */
  function Performed(lists: seq<seq<nat>>, env: Env, memo: int): seq<Event> {
    Outcomes(lists, env.valid, memo)[..Calls(|lists|, env.failing)]
  }

  /** Every slot any action takes. */
  function AllSlots(lists: seq<seq<nat>>): set<nat>
    decreases |lists|
  {
    if |lists| == 0 then {} else AllSlots(lists[..|lists| - 1]) + SlotSet(lists[|lists| - 1])
  }

  /** The snippets of `slots` not yet emitted, in order. */
  function EmitSnippets(cleared: set<nat>, slots: seq<nat>): (r: (seq<Stmt>, set<nat>))
    ensures Emits(r.0, cleared, r.1) && r.1 == cleared + SlotSet(slots)
    ensures forall i :: 0 <= i < |r.0| ==> r.0[i].Prepare?
    decreases |slots|
  {
    if |slots| == 0 then
      assert SlotSet(slots) == {};
      ([], cleared)
    else
      var prior := EmitSnippets(cleared, slots[..|slots| - 1]);
      var snip := EmitSnippet(prior.1, slots[|slots| - 1]);
      EmitsAppend(prior.0, snip.0, cleared, prior.1, snip.1);
      SlotSetSnoc(slots);
      (prior.0 + snip.0, snip.1)
  }

  /** The action code: per action, its pending snippets then its gated call. */
  function ActionCode(lists: seq<seq<nat>>, cleared: set<nat>): (r: (seq<Stmt>, set<nat>))
    ensures Emits(r.0, cleared, r.1) && r.1 == cleared + AllSlots(lists)
    decreases |lists|
  {
    if |lists| == 0 then ([], cleared)
    else
      var a := |lists| - 1;
      var prior := ActionCode(lists[..a], cleared);
      var snips := EmitSnippets(prior.1, lists[a]);
      var gate := Gate(a, lists[a]);
      SingleStmt(gate, snips.1);
      EmitsAppend(prior.0, snips.0, cleared, prior.1, snips.1);
      EmitsAppend(prior.0 + snips.0, [gate], cleared, snips.1, snips.1);
      (prior.0 + snips.0 + [gate], snips.1)
  }

  /** The process block around the action code: `memo_index` starts at 0;
      with keys, the table lookup comes first and the group high-water mark
      is raised last. The frame emits no snippet of its own, so the block
      emits exactly the action code's snippets, each as often. */
  function ProcessCode(hasKeys: bool, actionCode: seq<Stmt>): (r: seq<Stmt>)
    ensures Prepared(r) == Prepared(actionCode)
    ensures forall s: nat :: PrepareCount(r, s) == PrepareCount(actionCode, s)
  {
    var front := if hasKeys then [ZeroMemoIndex, If(KeyValid, GetOrInsert, GetOrInsertNull)] else [ZeroMemoIndex];
    var back := if hasKeys then [RaiseNumGroups] else [];
    FrameCounts(front, actionCode, back);
    front + actionCode + back
  }

  lemma OutcomesSnoc(lists: seq<seq<nat>>, valid: set<nat>, memo: int)
    requires |lists| > 0
    ensures var a := |lists| - 1;
      Outcomes(lists, valid, memo) == Outcomes(lists[..a], valid, memo) + [Event(Outcome(a, lists[a], valid), memo)]
  {
    var a := |lists| - 1;
    var lhs := Outcomes(lists, valid, memo);
    var rhs := Outcomes(lists[..a], valid, memo) + [Event(Outcome(a, lists[a], valid), memo)];
    forall i | 0 <= i < |lhs|
      ensures lhs[i] == rhs[i]
    {
      if i < a {
        assert lists[..a][i] == lists[i];
      }
    }
  }

  /** The emitted gate does what `Outcome` says, and the row returns
      exactly when the action's call fails. */
  lemma GateMeaning(action: nat, slots: seq<nat>, env: Env, m: Machine)
    requires !m.returned
    ensures Step(Gate(action, slots), env, m)
         == m.(trace := m.trace + [Event(Outcome(action, slots, env.valid), m.memo)], returned := action in env.failing)
  {
  }

  lemma PrefixOfSnoc(outs: seq<Event>, pre: seq<Event>, e: Event, n: nat)
    requires outs == pre + [e] && n <= |pre|
    ensures outs[..n] == pre[..n]
  {
  }

  /** One more action after an earlier failure: nothing more is performed. */
  lemma PerformedAfterFailure(lists: seq<seq<nat>>, env: Env, memo: int)
    requires |lists| > 0 && FirstFailing(|lists| - 1, env.failing) < |lists| - 1
    ensures Performed(lists, env, memo) == Performed(lists[..|lists| - 1], env, memo)
    ensures FirstFailing(|lists|, env.failing) == FirstFailing(|lists| - 1, env.failing)
  {
    var a := |lists| - 1;
    var f := FirstFailing(a, env.failing);
    assert FirstFailing(|lists|, env.failing) == f;
    assert Calls(|lists|, env.failing) == f + 1 == Calls(a, env.failing);
    OutcomesSnoc(lists, env.valid, memo);
    PrefixOfSnoc(Outcomes(lists, env.valid, memo), Outcomes(lists[..a], env.valid, memo),
                 Event(Outcome(a, lists[a], env.valid), memo), f + 1);
  }

  /** One more action with no earlier failure: its call is performed, and
      the row fails exactly when it does. */
  lemma PerformedNoFailure(lists: seq<seq<nat>>, env: Env, memo: int)
    requires |lists| > 0 && FirstFailing(|lists| - 1, env.failing) == |lists| - 1
    ensures var a := |lists| - 1;
      && Performed(lists[..a], env, memo) == Outcomes(lists[..a], env.valid, memo)
      && Performed(lists, env, memo)
         == Outcomes(lists[..a], env.valid, memo) + [Event(Outcome(a, lists[a], env.valid), memo)]
      && (FirstFailing(|lists|, env.failing) < |lists| <==> a in env.failing)
  {
    var a := |lists| - 1;
    var outs := Outcomes(lists, env.valid, memo);
    var pre := Outcomes(lists[..a], env.valid, memo);
    OutcomesSnoc(lists, env.valid, memo);
    assert Calls(|lists|, env.failing) == |lists|;
    assert pre[..a] == pre;
    assert outs[..|lists|] == outs;
  }

  /** Running the action code appends one event per action, in plan order,
      each with the current group id, up to and including the first call
      that fails; the row has returned exactly when some call failed, and
      nothing else changes. */
  lemma {:induction false} ActionCodeMeaning(lists: seq<seq<nat>>, cleared: set<nat>, env: Env, m: Machine)
    requires !m.returned
    ensures Exec(ActionCode(lists, cleared).0, env, m)
         == m.(trace := m.trace + Performed(lists, env, m.memo),
               returned := FirstFailing(|lists|, env.failing) < |lists|)
    decreases |lists|
  {
    if |lists| == 0 {
      assert m.trace + [] == m.trace;
    } else {
      var a := |lists| - 1;
      var prior := ActionCode(lists[..a], cleared);
      var snips := EmitSnippets(prior.1, lists[a]);
      var gate := Gate(a, lists[a]);
      assert ActionCode(lists, cleared).0 == prior.0 + (snips.0 + [gate]);
      ActionCodeMeaning(lists[..a], cleared, env, m);
      if FirstFailing(a, env.failing) < a {
        PerformedAfterFailure(lists, env, m.memo);
        ExecAppend(prior.0, snips.0 + [gate], env, m);
        ExecReturned(snips.0 + [gate], env, Exec(prior.0, env, m));
      } else {
        PerformedNoFailure(lists, env, m.memo);
        var e := Event(Outcome(a, lists[a], env.valid), m.memo);
        GateMeaning(a, lists[a], env, Exec(prior.0, env, m));
        ExecAppendEvent(prior.0, snips.0, gate, env, m, Outcomes(lists[..a], env.valid, m.memo), e, a in env.failing);
        assert prior.0 + snips.0 + [gate] == prior.0 + (snips.0 + [gate]);
      }
    }
  }

  lemma ExecKeyedFrame(code: seq<Stmt>, env: Env, m: Machine)
    requires !m.returned
    ensures Exec(ProcessCode(true, code), env, m)
         == Step(RaiseNumGroups, env, Exec(code, env, Step(If(KeyValid, GetOrInsert, GetOrInsertNull), env, m.(memo := 0))))
  {
    var look := If(KeyValid, GetOrInsert, GetOrInsertNull);
    var m0 := m.(memo := 0);
    ExecSingle(ZeroMemoIndex, env, m);
    assert ProcessCode(true, code) == [ZeroMemoIndex] + ([look] + code) + [RaiseNumGroups];
    ExecAppend([ZeroMemoIndex] + ([look] + code), [RaiseNumGroups], env, m);
    ExecAppend([ZeroMemoIndex], [look] + code, env, m);
    ExecAppend([look], code, env, m0);
    ExecSingle(look, env, m0);
    ExecSingle(RaiseNumGroups, env, Exec([ZeroMemoIndex] + ([look] + code), env, m));
  }

  lemma ExecUnkeyedFrame(code: seq<Stmt>, env: Env, m: Machine)
    requires !m.returned
    ensures Exec(ProcessCode(false, code), env, m) == Exec(code, env, m.(memo := 0))
  {
    assert ProcessCode(false, code) == [ZeroMemoIndex] + code;
    ExecSingle(ZeroMemoIndex, env, m);
    ExecAppend([ZeroMemoIndex], code, env, m);
  }

  /** The keyed process block around any code that only appends `outs` and
      then has returned or not. */
  lemma ProcessKeyedWith(code: seq<Stmt>, outs: seq<Event>, env: Env, m: Machine, lookup: Call, memo: int, ret: bool)
    requires !m.returned
    requires lookup == (if m.keyValid then GetOrInsert else GetOrInsertNull)
    requires memo == (if m.keyValid then env.found else env.nullGroup)
    requires var m1 := m.(memo := memo, trace := m.trace + [Event(lookup, memo)]);
      Exec(code, env, m1) == m1.(trace := m1.trace + outs, returned := ret)
    ensures Exec(ProcessCode(true, code), env, m)
         == Machine(m.keyValid, memo, if ret then m.numGroups else Raise(m.numGroups, memo),
                    m.trace + [Event(lookup, memo)] + outs, ret)
  {
    var m1 := m.(memo := memo, trace := m.trace + [Event(lookup, memo)]);
    var m2 := m1.(trace := m1.trace + outs, returned := ret);
    StepLookup(env, m.(memo := 0));
    ExecKeyedFrame(code, env, m);
    StepRaise(env, m2);
  }

  lemma StepLookup(env: Env, m: Machine)
    requires !m.returned
    ensures Step(If(KeyValid, GetOrInsert, GetOrInsertNull), env, m)
         == m.(memo := if m.keyValid then env.found else env.nullGroup,
               trace := m.trace + [Event(if m.keyValid then GetOrInsert else GetOrInsertNull,
                                         if m.keyValid then env.found else env.nullGroup)])
  {
  }

  lemma StepRaise(env: Env, m: Machine)
    ensures Step(RaiseNumGroups, env, m) == if m.returned then m else m.(numGroups := Raise(m.numGroups, m.memo))
  {
  }

  lemma ProcessKeyed(lists: seq<seq<nat>>, cleared: set<nat>, env: Env, m: Machine)
    requires !m.returned
    ensures var memo := if m.keyValid then env.found else env.nullGroup;
      var failed := FirstFailing(|lists|, env.failing) < |lists|;
      Exec(ProcessCode(true, ActionCode(lists, cleared).0), env, m)
        == Machine(m.keyValid, memo, if failed then m.numGroups else Raise(m.numGroups, memo),
                   m.trace + [Event(if m.keyValid then GetOrInsert else GetOrInsertNull, memo)]
                     + Performed(lists, env, memo), failed)
  {
    var code := ActionCode(lists, cleared).0;
    var memo := if m.keyValid then env.found else env.nullGroup;
    var lookup := if m.keyValid then GetOrInsert else GetOrInsertNull;
    var m1 := m.(memo := memo, trace := m.trace + [Event(lookup, memo)]);
    ActionCodeMeaning(lists, cleared, env, m1);
    ProcessKeyedWith(code, Performed(lists, env, memo), env, m, lookup, memo,
                     FirstFailing(|lists|, env.failing) < |lists|);
  }

  lemma ProcessUnkeyed(lists: seq<seq<nat>>, cleared: set<nat>, env: Env, m: Machine)
    requires !m.returned
    ensures Exec(ProcessCode(false, ActionCode(lists, cleared).0), env, m)
         == Machine(m.keyValid, 0, m.numGroups, m.trace + Performed(lists, env, 0),
                    FirstFailing(|lists|, env.failing) < |lists|)
  {
    ExecUnkeyedFrame(ActionCode(lists, cleared).0, env, m);
    ActionCodeMeaning(lists, cleared, env, m.(memo := 0));
  }

  /** One row through the process block. With keys, a valid key is looked up
      with `GetOrInsert` and an invalid one goes to `GetOrInsertNull`; the
      action calls then run with that group id until one fails, and the
      maximum group id is raised to it only when none failed. Without keys,
      the calls run with group id 0 and the maximum is untouched. The row
      has returned exactly when a call failed. */
  lemma ProcessMeaning(hasKeys: bool, lists: seq<seq<nat>>, cleared: set<nat>, env: Env, m: Machine)
    requires !m.returned
    ensures var memo := if !hasKeys then 0 else if m.keyValid then env.found else env.nullGroup;
      var lookup := if hasKeys then [Event(if m.keyValid then GetOrInsert else GetOrInsertNull, memo)] else [];
      var failed := FirstFailing(|lists|, env.failing) < |lists|;
      Exec(ProcessCode(hasKeys, ActionCode(lists, cleared).0), env, m)
        == Machine(m.keyValid, memo, if hasKeys && !failed then Raise(m.numGroups, memo) else m.numGroups,
                   m.trace + lookup + Performed(lists, env, memo), failed)
  {
    if hasKeys {
      ProcessKeyed(lists, cleared, env, m);
    } else {
      ProcessUnkeyed(lists, cleared, env, m);
      assert m.trace + [] == m.trace;
    }
  }
}
