/**
 * Plan analysis: the first pass of code generation. Each action node is
 * checked for the `action_` prefix, given its result type, and its children
 * are interned into the expression pool; `action_groupby` children also
 * become the group-by keys, in plan order.
 */
module PlanAnalysis {
  import opened AggTypes
  import opened ExprPool

  const PrefixMessage := "Expected some with action_ prefix."

  /** What analysis records for one action: its name, the type the
      accumulator is built with, and the pool slots of its arguments. */
  datatype ActionEntry = ActionEntry(name: string, resultType: DataType, slots: seq<nat>)

  /** The outcome of analysing the whole action list. `keyNodes` are the
      group-by children themselves; `keySlots` their pool slots. */
  datatype Analysis = Analysis(
    entries: seq<ActionEntry>,
    pool: seq<Node>,
    keySlots: seq<nat>,
    keyNodes: seq<Node>)

  /** An action's type: its first child's type, else the node's own. */
  function ResultType(a: ActionNode): DataType {
    if |a.children| > 0 then a.children[0].ReturnType() else a.returnType
  }

  predicate IsCountLiteral(name: string) {
    HasPrefix(name, CountLiteralPrefix)
  }

  /** The arguments that reach the pool: children of every action except the
      `action_countLiteral_` ones, in plan order. */
  function PooledArgs(actions: seq<ActionNode>): seq<Node>
    decreases |actions|
  {
    if |actions| == 0 then []
    else
      var a := actions[|actions| - 1];
      PooledArgs(actions[..|actions| - 1]) + (if IsCountLiteral(a.name) then [] else a.children)
  }

  /** The children of the `action_groupby` actions, in plan order. */
  function GroupByArgs(actions: seq<ActionNode>): seq<Node>
    decreases |actions|
  {
    if |actions| == 0 then []
    else
      var a := actions[|actions| - 1];
      GroupByArgs(actions[..|actions| - 1]) + (if a.name == GroupByName then a.children else [])
  }

  /** Analysis of one more action after `prior`: an action without the
      `action_` prefix is Invalid; otherwise one entry is appended with the
      action's name and type, a countLiteral action pools nothing and gets
      no slots, and only `action_groupby` adds keys (its children). */
  function AnalyzeAction(prior: Analysis, a: ActionNode, render: Node -> string): (r: Result<Analysis>)
    ensures r.Err? <==> !HasPrefix(a.name, ActionPrefix)
    ensures r.Err? ==> r.error == Invalid(PrefixMessage)
    ensures r.Ok? ==>
      && |r.value.entries| == |prior.entries| + 1
      && r.value.entries[..|prior.entries|] == prior.entries
      && r.value.entries[|prior.entries|].name == a.name
      && r.value.entries[|prior.entries|].resultType == ResultType(a)
      && r.value.keyNodes == prior.keyNodes + (if a.name == GroupByName then a.children else [])
    ensures r.Ok? && IsCountLiteral(a.name) ==>
      r.value.pool == prior.pool && r.value.entries[|prior.entries|].slots == []
    ensures r.Ok? && !IsCountLiteral(a.name) ==> |r.value.entries[|prior.entries|].slots| == |a.children|
  {
    if !HasPrefix(a.name, ActionPrefix) then Err(Invalid(PrefixMessage))
    else if IsCountLiteral(a.name) then
      Ok(prior.(entries := prior.entries + [ActionEntry(a.name, ResultType(a), [])]))
    else
      var interned := InternAll(prior.pool, a.children, render);
      var isKey := a.name == GroupByName;
      Ok(Analysis(
        prior.entries + [ActionEntry(a.name, ResultType(a), interned.1)],
        interned.0,
        prior.keySlots + (if isKey then interned.1 else []),
        prior.keyNodes + (if isKey then a.children else [])))
  }

  /** Analysis of the whole action list, left to right; the first action
      without the `action_` prefix aborts it. */
  function Analyze(actions: seq<ActionNode>, render: Node -> string): (r: Result<Analysis>)
    ensures r.Err? <==> exists i :: 0 <= i < |actions| && !HasPrefix(actions[i].name, ActionPrefix)
    ensures r.Err? ==> r.error == Invalid(PrefixMessage)
    decreases |actions|
  {
    if |actions| == 0 then Ok(Analysis([], [], [], []))
    else
      var init := actions[..|actions| - 1];
      assert forall i :: 0 <= i < |init| ==> init[i] == actions[i];
      var prior :- Analyze(init, render);
      AnalyzeAction(prior, actions[|actions| - 1], render)
  }

  /** One entry per action, with the action's name and result type;
      `action_countLiteral_` entries have no argument slots. */
  ghost predicate EntriesMatch(an: Analysis, actions: seq<ActionNode>) {
    && |an.entries| == |actions|
    && (forall i :: 0 <= i < |actions| ==>
          an.entries[i].name == actions[i].name && an.entries[i].resultType == ResultType(actions[i]))
    && (forall i :: 0 <= i < |actions| && IsCountLiteral(actions[i].name) ==> an.entries[i].slots == [])
    && (forall i :: 0 <= i < |actions| && !IsCountLiteral(actions[i].name) ==>
          |an.entries[i].slots| == |actions[i].children|)
  }

  /** The j-th slot of the i-th entry is a pool entry that renders like the
      i-th action's j-th child. */
  ghost predicate SlotsResolve(an: Analysis, actions: seq<ActionNode>, render: Node -> string)
    requires EntriesMatch(an, actions)
  {
    forall i, j :: 0 <= i < |actions| && 0 <= j < |an.entries[i].slots| ==>
      && j < |actions[i].children|
      && an.entries[i].slots[j] < |an.pool|
      && render(an.pool[an.entries[i].slots[j]]) == render(actions[i].children[j])
  }

  /** Some entry takes slot `s` as an argument. */
  ghost predicate SlotUsed(entries: seq<ActionEntry>, s: nat) {
    exists i :: 0 <= i < |entries| && s in entries[i].slots
  }

  /** Every pool slot is an argument of some action. */
  ghost predicate PoolCovered(an: Analysis) {
    forall s: nat :: s < |an.pool| ==> SlotUsed(an.entries, s)
  }

  /** The keys are exactly the `action_groupby` children, in plan order with
      duplicates kept, each paired with the slot that renders like it. */
  ghost predicate KeysResolve(an: Analysis, actions: seq<ActionNode>, render: Node -> string) {
    && an.keyNodes == GroupByArgs(actions)
    && |an.keySlots| == |an.keyNodes|
    && forall k :: 0 <= k < |an.keySlots| ==>
         an.keySlots[k] < |an.pool| && render(an.pool[an.keySlots[k]]) == render(an.keyNodes[k])
  }

  ghost predicate WellAnalyzed(an: Analysis, actions: seq<ActionNode>, render: Node -> string) {
    && EntriesMatch(an, actions)
    && SlotsResolve(an, actions, render)
    && PoolCovered(an)
    && KeysResolve(an, actions, render)
    && Distinct(an.pool, render)
  }

  /** A successful analysis of a non-empty list is one more step after a
      successful analysis of all but its last action. */
  lemma AnalyzeUnfold(actions: seq<ActionNode>, render: Node -> string)
    requires |actions| > 0 && Analyze(actions, render).Ok?
    ensures Analyze(actions[..|actions| - 1], render).Ok?
    ensures Analyze(actions, render)
         == AnalyzeAction(Analyze(actions[..|actions| - 1], render).value, actions[|actions| - 1], render)
  {
  }

  /** Facts every analysis step shares: the old entries and pool slots are
      kept and one entry is appended. */
  lemma StepExtends(prior: Analysis, a: ActionNode, render: Node -> string)
    requires AnalyzeAction(prior, a, render).Ok?
    ensures var an := AnalyzeAction(prior, a, render).value;
      && |an.entries| == |prior.entries| + 1
      && an.entries[..|prior.entries|] == prior.entries
      && an.entries[|prior.entries|].name == a.name
      && an.entries[|prior.entries|].resultType == ResultType(a)
      && |prior.pool| <= |an.pool|
      && an.pool[..|prior.pool|] == prior.pool
  {
    InternAllFacts(prior.pool, a.children, render);
  }

  lemma StepEntries(prior: Analysis, init: seq<ActionNode>, a: ActionNode, render: Node -> string)
    requires EntriesMatch(prior, init)
    requires AnalyzeAction(prior, a, render).Ok?
    ensures EntriesMatch(AnalyzeAction(prior, a, render).value, init + [a])
  {
    var an := AnalyzeAction(prior, a, render).value;
    var actions := init + [a];
    StepExtends(prior, a, render);
    assert forall i :: 0 <= i < |init| ==> actions[i] == init[i] && an.entries[i] == prior.entries[i];
    assert actions[|init|] == a;
  }

  lemma StepSlots(prior: Analysis, init: seq<ActionNode>, a: ActionNode, render: Node -> string)
    requires EntriesMatch(prior, init) && SlotsResolve(prior, init, render)
    requires AnalyzeAction(prior, a, render).Ok?
    ensures EntriesMatch(AnalyzeAction(prior, a, render).value, init + [a])
    ensures SlotsResolve(AnalyzeAction(prior, a, render).value, init + [a], render)
  {
    var an := AnalyzeAction(prior, a, render).value;
    var actions := init + [a];
    StepEntries(prior, init, a, render);
    StepExtends(prior, a, render);
    InternAllFacts(prior.pool, a.children, render);
    assert forall i :: 0 <= i < |init| ==> actions[i] == init[i] && an.entries[i] == prior.entries[i];
    assert forall s :: 0 <= s < |prior.pool| ==> an.pool[s] == prior.pool[s];
    assert actions[|init|] == a;
  }

  lemma StepCovered(prior: Analysis, a: ActionNode, render: Node -> string)
    requires PoolCovered(prior)
    requires AnalyzeAction(prior, a, render).Ok?
    ensures PoolCovered(AnalyzeAction(prior, a, render).value)
  {
    var an := AnalyzeAction(prior, a, render).value;
    StepExtends(prior, a, render);
    InternAllFacts(prior.pool, a.children, render);
    forall s: nat | s < |an.pool|
      ensures SlotUsed(an.entries, s)
    {
      if s < |prior.pool| {
        assert SlotUsed(prior.entries, s);
        var i :| 0 <= i < |prior.entries| && s in prior.entries[i].slots;
        assert an.entries[i] == prior.entries[i];
      } else {
        assert an.entries[|prior.entries|].slots == InternAll(prior.pool, a.children, render).1;
      }
    }
  }

  lemma StepKeys(prior: Analysis, init: seq<ActionNode>, a: ActionNode, render: Node -> string)
    requires KeysResolve(prior, init, render)
    requires AnalyzeAction(prior, a, render).Ok?
    ensures KeysResolve(AnalyzeAction(prior, a, render).value, init + [a], render)
  {
    var an := AnalyzeAction(prior, a, render).value;
    var actions := init + [a];
    StepExtends(prior, a, render);
    InternAllFacts(prior.pool, a.children, render);
    assert forall s :: 0 <= s < |prior.pool| ==> an.pool[s] == prior.pool[s];
    assert actions[..|actions| - 1] == init;
    assert GroupByArgs(actions) == GroupByArgs(init) + (if a.name == GroupByName then a.children else []);
  }

  /** One analysis step keeps the analysis well-formed for the longer list. */
  lemma StepSound(prior: Analysis, init: seq<ActionNode>, a: ActionNode, render: Node -> string)
    requires WellAnalyzed(prior, init, render)
    requires AnalyzeAction(prior, a, render).Ok?
    ensures WellAnalyzed(AnalyzeAction(prior, a, render).value, init + [a], render)
  {
    InternAllFacts(prior.pool, a.children, render);
    StepSlots(prior, init, a, render);
    StepCovered(prior, a, render);
    StepKeys(prior, init, a, render);
  }

  /** A successful analysis has one entry per action, resolves every argument
      and key to a render-equal slot of a duplicate-free pool, and uses every
      pool slot. */
  lemma {:induction false} AnalysisSound(actions: seq<ActionNode>, render: Node -> string)
    requires Analyze(actions, render).Ok?
    ensures WellAnalyzed(Analyze(actions, render).value, actions, render)
    decreases |actions|
  {
    if |actions| > 0 {
      var init := actions[..|actions| - 1];
      var a := actions[|actions| - 1];
      AnalyzeUnfold(actions, render);
      AnalysisSound(init, render);
      assert actions == init + [a];
      StepSound(Analyze(init, render).value, init, a, render);
    }
  }

  /** Analysis interns exactly the pooled arguments, in plan order. */
  lemma {:induction false} PoolIsInternedArgs(actions: seq<ActionNode>, render: Node -> string)
    requires Analyze(actions, render).Ok?
    ensures Analyze(actions, render).value.pool == InternAll([], PooledArgs(actions), render).0
    decreases |actions|
  {
    if |actions| > 0 {
      var init := actions[..|actions| - 1];
      var a := actions[|actions| - 1];
      AnalyzeUnfold(actions, render);
      PoolIsInternedArgs(init, render);
      var prior := Analyze(init, render).value;
      assert PooledArgs(actions) == PooledArgs(init) + (if IsCountLiteral(a.name) then [] else a.children);
      if !IsCountLiteral(a.name) {
        assert Analyze(actions, render).value.pool == InternAll(prior.pool, a.children, render).0;
        InternAllAppend([], PooledArgs(init), a.children, render);
      } else {
        assert Analyze(actions, render).value.pool == prior.pool;
        assert PooledArgs(actions) == PooledArgs(init);
      }
    }
  }

  /** The pool holds the first occurrence of each rendering among the pooled
      arguments, in first-seen order. */
  lemma PoolIsFirstSeen(actions: seq<ActionNode>, render: Node -> string)
    requires Analyze(actions, render).Ok?
    ensures Analyze(actions, render).value.pool == Firsts(PooledArgs(actions), render)
  {
    PoolIsInternedArgs(actions, render);
    InternAllIsFirsts(PooledArgs(actions), render);
  }

  /** The slot a render-equal entry of a duplicate-free pool has is the one
      the pool search finds for that rendering. */
  lemma SlotIsLookup(pool: seq<Node>, render: Node -> string, slot: nat, x: Node)
    requires Distinct(pool, render)
    requires slot < |pool| && render(pool[slot]) == render(x)
    ensures Lookup(pool, render(x), render) == Some(slot)
  {
    assert Rendered(pool, render(x), render);
    var found := Lookup(pool, render(x), render).value;
    SlotOfRendering(pool, render, found, slot);
  }

  /** In a sound analysis every argument slot and every key slot is the slot
      the pool search finds for that expression's rendering. */
  lemma SlotsAreLookups(an: Analysis, actions: seq<ActionNode>, render: Node -> string)
    requires WellAnalyzed(an, actions, render)
    ensures forall i, j :: 0 <= i < |actions| && 0 <= j < |an.entries[i].slots| ==>
      Lookup(an.pool, render(actions[i].children[j]), render) == Some(an.entries[i].slots[j])
    ensures forall k :: 0 <= k < |an.keySlots| ==>
      Lookup(an.pool, render(an.keyNodes[k]), render) == Some(an.keySlots[k])
  {
    forall i, j | 0 <= i < |actions| && 0 <= j < |an.entries[i].slots|
      ensures Lookup(an.pool, render(actions[i].children[j]), render) == Some(an.entries[i].slots[j])
    {
      SlotIsLookup(an.pool, render, an.entries[i].slots[j], actions[i].children[j]);
    }
    forall k | 0 <= k < |an.keySlots|
      ensures Lookup(an.pool, render(an.keyNodes[k]), render) == Some(an.keySlots[k])
    {
      SlotIsLookup(an.pool, render, an.keySlots[k], an.keyNodes[k]);
    }
  }
}
