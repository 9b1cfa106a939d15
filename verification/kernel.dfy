/**
 * `DoCodeGen`: the kernel's code generation, assembled from the analysis, the
 * key strategy, the action dispatch, the registry and the finish block, and
 * the end-to-end properties of what it emits.
 */
module HashAggregateKernel {
  import opened AggTypes
  import opened ExprPool
  import opened PlanAnalysis
  import opened CodeIr
  import opened KeyStrategy
  import opened Dispatch
  import opened ActionRegistry
  import opened ResultProjection
  import FinishCursor

  const ArrayItemIndexHeader := "#include \"codegen/arrow_compute/ext/array_item_index.h\""
  const ActionsImplHeader := "#include \"codegen/arrow_compute/ext/actions_impl.h\""
  const HashMapHeader := "#include \"precompile/hash_map.h\""
  const SparseHashMapHeader := "#include \"precompile/sparse_hash_map.h\""
  const UnsafeRowHeader := "#include \"third_party/row_wise_memory/unsafe_row.h\""
  const ProjectorHeader := "#include \"precompile/gandiva_projector.h\""

  /** The headers every generated stage starts with. */
  const BaseHeaders := [ArrayItemIndexHeader, ActionsImplHeader]

  /** The header of the chosen hash table, if any. */
  function TableHeaders(t: HashTable): seq<string> {
    match t
    case NoTable => []
    case StringHashMap => [HashMapHeader]
    case SparseHashMap(_) => [SparseHashMapHeader]
  }

  /** The final projection of the output, when one is kept. */
  datatype Projector = Projector(schema: seq<Field>, exprs: seq<Node>)

  /** What code generation produces. `prepare` and `process` are the per-row
      blocks (the first runs before the second for every row); `rowArity` is
      the packed key row's width, 0 when no row is packed; `actionNames` and
      `actionTypes` are the registry's two lists; `finishCalls` is the number
      of actions the finish block asks for a page. */
  datatype CodeBundle = CodeBundle(
    headers: seq<string>,
    table: HashTable,
    rowArity: nat,
    prepare: seq<Stmt>,
    process: seq<Stmt>,
    actionNames: seq<string>,
    actionTypes: seq<DataType>,
    finishCalls: nat,
    projector: Option<Projector>)

  // ---------------------------------------------------------------------
  // Headers

  predicate NoDuplicates(s: seq<string>) {
    forall i, j :: 0 <= i < j < |s| ==> s[i] != s[j]
  }

  /** Appends each header of `more` that is not yet present. */
  function AddNew(hs: seq<string>, more: seq<string>): (r: seq<string>)
    ensures |hs| <= |r| && r[..|hs|] == hs
    ensures forall h :: h in r <==> h in hs || h in more
    ensures NoDuplicates(hs) ==> NoDuplicates(r)
    decreases |more|
  {
    if |more| == 0 then hs
    else
      var prior := AddNew(hs, more[..|more| - 1]);
      var h := more[|more| - 1];
      assert forall x :: x in more <==> x in more[..|more| - 1] || x == h;
      if h in prior then prior
      else
        assert (prior + [h])[..|hs|] == prior[..|hs|];
        prior + [h]
  }

  /** The concatenation of the lists, in order. */
  function Flatten(hss: seq<seq<string>>): (r: seq<string>)
    ensures forall h :: h in r <==> exists i :: 0 <= i < |hss| && h in hss[i]
    decreases |hss|
  {
    if |hss| == 0 then []
    else
      var init := hss[..|hss| - 1];
      var prior := Flatten(init);
      assert forall i :: 0 <= i < |init| ==> init[i] == hss[i];
      prior + hss[|hss| - 1]
  }

  /** Runs the expression visitor on each pool entry in order, collecting the
      headers each one needs; the first failure is returned. */
  function VisitAll(pool: seq<Node>, visit: Node -> Result<seq<string>>): (r: Result<seq<seq<string>>>)
    ensures r.Ok? <==> forall i :: 0 <= i < |pool| ==> visit(pool[i]).Ok?
    ensures r.Ok? ==>
      |r.value| == |pool| && forall i :: 0 <= i < |pool| ==> visit(pool[i]) == Ok(r.value[i])
    ensures r.Err? ==>
      exists i :: FirstVisitFailure(pool, visit, i) && visit(pool[i]) == Err(r.error)
    decreases |pool|
  {
    if |pool| == 0 then Ok([])
    else
      var k := |pool| - 1;
      assert forall i :: 0 <= i < k ==> pool[..k][i] == pool[i];
      var prior :- VisitAll(pool[..k], visit);
      var hs :- visit(pool[k]);
      Ok(prior + [hs])
  }

  /** `i` is the first pool entry the visitor fails on. */
  predicate FirstVisitFailure(pool: seq<Node>, visit: Node -> Result<seq<string>>, i: int) {
    && 0 <= i < |pool|
    && visit(pool[i]).Err?
    && forall j :: 0 <= j < i ==> visit(pool[j]).Ok?
  }

  // ---------------------------------------------------------------------
  // Code generation

  /** The argument slots of each action, in plan order. */
  function SlotLists(entries: seq<ActionEntry>): (r: seq<seq<nat>>)
    ensures |r| == |entries| && forall i :: 0 <= i < |entries| ==> r[i] == entries[i].slots
  {
    seq(|entries|, i requires 0 <= i < |entries| => entries[i].slots)
  }

  function Names(entries: seq<ActionEntry>): (r: seq<string>)
    ensures |r| == |entries| && forall i :: 0 <= i < |entries| ==> r[i] == entries[i].name
  {
    seq(|entries|, i requires 0 <= i < |entries| => entries[i].name)
  }

  function Types(entries: seq<ActionEntry>): (r: seq<DataType>)
    ensures |r| == |entries| && forall i :: 0 <= i < |entries| ==> r[i] == entries[i].resultType
  {
    seq(|entries|, i requires 0 <= i < |entries| => entries[i].resultType)
  }

  /** The headers: the base ones, the table's, each visitor header not yet
      present, then the row header when several keys are packed and the
      projector header when a projection is kept (those two unconditionally). */
  function Headers(k: Kernel, an: Analysis, visited: seq<seq<string>>): (r: seq<string>)
    ensures |r| >= 2 && r[0] == ArrayItemIndexHeader && r[1] == ActionsImplHeader
    ensures k.resultExprs != [] ==> ProjectorHeader in r
  {
    var base := BaseHeaders + TableHeaders(ChooseTable(an.keyNodes));
    var deduped := AddNew(base, Flatten(visited));
    assert deduped[0] == deduped[..|base|][0] == ArrayItemIndexHeader;
    assert deduped[1] == deduped[..|base|][1] == ActionsImplHeader;
    deduped
      + (if |an.keySlots| > 1 then [UnsafeRowHeader] else [])
      + (if k.resultExprs != [] then [ProjectorHeader] else [])
  }

  /** The generated code for an analysed plan whose pool entries were all
      visited successfully. */
  function Assemble(k: Kernel, an: Analysis, visited: seq<seq<string>>): (b: CodeBundle)
    ensures |b.actionNames| == |b.actionTypes| == b.finishCalls == |an.entries|
    ensures b.projector.Some? <==> k.resultExprs != []
    ensures b.projector.Some? ==>
      b.projector.value == Projector(k.resultFields, k.resultExprs) && ProjectorHeader in b.headers
  {
    var keys := an.keySlots;
    var keyCode := KeyCode(keys, {});
    var actionCode := ActionCode(SlotLists(an.entries), keyCode.1);
    CodeBundle(
      Headers(k, an, visited),
      ChooseTable(an.keyNodes),
      if |keys| > 1 then |keys| else 0,
      keyCode.0,
      ProcessCode(|keys| > 0, actionCode.0),
      Names(an.entries),
      Types(an.entries),
      |an.entries|,
      if k.resultExprs != [] then Some(Projector(k.resultFields, k.resultExprs)) else None)
  }

  /** Generates the stage's code: analysis first (an ill-named action is
      Invalid), then the visitor on every pool entry (its first failure is
      returned), then assembly. The expression rendering (`ToString`) and
      the visitor (which yields the headers an expression's code needs) are
      parameters. */
  function DoCodeGen(k: Kernel, render: Node -> string, visit: Node -> Result<seq<string>>): (r: Result<CodeBundle>)
    ensures r.Ok? ==>
      |r.value.headers| >= 2 && r.value.headers[0] == ArrayItemIndexHeader && r.value.headers[1] == ActionsImplHeader
    ensures r.Ok? ==> (r.value.projector.Some? <==> k.resultExprs != [])
    ensures r.Ok? && r.value.projector.Some? ==>
      r.value.projector.value == Projector(k.resultFields, k.resultExprs) && ProjectorHeader in r.value.headers
    ensures r.Ok? ==> |r.value.actionNames| == |r.value.actionTypes| == r.value.finishCalls == |k.actions|
  {
    var an :- Analyze(k.actions, render);
    var visited :- VisitAll(an.pool, visit);
    AnalysisSound(k.actions, render);
    Ok(Assemble(k, an, visited))
  }

  // ---------------------------------------------------------------------
  // Properties of the generated code

  /** A successful generation is the assembly of the plan's analysis and
      visitor results. */
  lemma Generated(k: Kernel, render: Node -> string, visit: Node -> Result<seq<string>>)
    requires DoCodeGen(k, render, visit).Ok?
    ensures Analyze(k.actions, render).Ok?
    ensures VisitAll(Analyze(k.actions, render).value.pool, visit).Ok?
    ensures DoCodeGen(k, render, visit).value
         == Assemble(k, Analyze(k.actions, render).value, VisitAll(Analyze(k.actions, render).value.pool, visit).value)
  {
  }

  /** Generation fails with Invalid exactly as analysis does; otherwise it
      fails exactly when the visitor fails on one of the distinct argument
      expressions (taken in first-seen order), with the first such failure. */
  lemma CodeGenFailures(k: Kernel, render: Node -> string, visit: Node -> Result<seq<string>>)
    ensures (exists i :: 0 <= i < |k.actions| && !HasPrefix(k.actions[i].name, ActionPrefix)) ==>
      DoCodeGen(k, render, visit) == Err(Invalid(PrefixMessage))
    ensures (forall i :: 0 <= i < |k.actions| ==> HasPrefix(k.actions[i].name, ActionPrefix)) ==>
      var exprs := Firsts(PooledArgs(k.actions), render);
      && (DoCodeGen(k, render, visit).Ok? <==> forall i :: 0 <= i < |exprs| ==> visit(exprs[i]).Ok?)
      && (DoCodeGen(k, render, visit).Err? ==>
            exists i :: FirstVisitFailure(exprs, visit, i) && visit(exprs[i]) == Err(DoCodeGen(k, render, visit).error))
  {
    if forall i :: 0 <= i < |k.actions| ==> HasPrefix(k.actions[i].name, ActionPrefix) {
      PoolIsFirstSeen(k.actions, render);
    }
  }

  lemma {:induction false} AllSlotsMember(lists: seq<seq<nat>>, s: nat)
    ensures s in AllSlots(lists) <==> exists i :: 0 <= i < |lists| && s in lists[i]
    decreases |lists|
  {
    if |lists| > 0 {
      var init := lists[..|lists| - 1];
      AllSlotsMember(init, s);
      assert forall i :: 0 <= i < |init| ==> init[i] == lists[i];
      assert s in SlotSet(lists[|lists| - 1]) <==> s in lists[|lists| - 1];
    }
  }

  /** In a sound analysis the action arguments cover the pool exactly and
      the keys lie inside it. */
  lemma SlotsCoverPool(an: Analysis, actions: seq<ActionNode>, render: Node -> string)
    requires WellAnalyzed(an, actions, render)
    ensures forall s: nat :: s in AllSlots(SlotLists(an.entries)) <==> s < |an.pool|
    ensures forall s :: s in SlotSet(an.keySlots) ==> s < |an.pool|
  {
    var lists := SlotLists(an.entries);
    forall s: nat
      ensures s in AllSlots(lists) <==> s < |an.pool|
    {
      AllSlotsMember(lists, s);
      if s in AllSlots(lists) {
        var i :| 0 <= i < |lists| && s in lists[i];
        var j :| 0 <= j < |lists[i]| && lists[i][j] == s;
        assert an.entries[i].slots[j] == s;
      }
      if s < |an.pool| {
        assert SlotUsed(an.entries, s);
        var i :| 0 <= i < |an.entries| && s in an.entries[i].slots;
        assert s in lists[i];
      }
    }
  }

  /** Wrapping action code in the process block adds statements that read
      no slot, so it keeps the emission order. */
  lemma ProcessEmits(hasKeys: bool, code: seq<Stmt>, c0: set<nat>, c1: set<nat>)
    requires Emits(code, c0, c1)
    ensures Emits(ProcessCode(hasKeys, code), c0, c1)
  {
    SingleStmt(ZeroMemoIndex, c0);
    if hasKeys {
      var lookup := If(KeyValid, GetOrInsert, GetOrInsertNull);
      SingleStmt(lookup, c0);
      SingleStmt(RaiseNumGroups, c1);
      EmitsAppend([ZeroMemoIndex], [lookup], c0, c0, c0);
      EmitsAppend([ZeroMemoIndex] + [lookup], code, c0, c0, c1);
      EmitsAppend([ZeroMemoIndex] + [lookup] + code, [RaiseNumGroups], c0, c1, c1);
      assert ProcessCode(hasKeys, code) == [ZeroMemoIndex] + [lookup] + code + [RaiseNumGroups];
    } else {
      EmitsAppend([ZeroMemoIndex], code, c0, c0, c1);
      assert ProcessCode(hasKeys, code) == [ZeroMemoIndex] + code;
    }
  }

  /** Code emitting `c1` followed by a process block around code emitting
      `c2` emits `c2` from nothing. */
  lemma RowBlocksEmit(prepare: seq<Stmt>, hasKeys: bool, code: seq<Stmt>, c1: set<nat>, c2: set<nat>)
    requires Emits(prepare, {}, c1) && Emits(code, c1, c2)
    ensures Emits(prepare + ProcessCode(hasKeys, code), {}, c2)
  {
    ProcessEmits(hasKeys, code, c1, c2);
    EmitsAppend(prepare, ProcessCode(hasKeys, code), {}, c1, c2);
  }

  /** What emitting the slots below `n` from nothing means. */
  lemma EmitsAll(stmts: seq<Stmt>, after: set<nat>, n: nat)
    requires Emits(stmts, {}, after)
    requires forall s: nat :: s in after <==> s < n
    ensures forall s: nat :: PrepareCount(stmts, s) == (if s < n then 1 else 0)
    ensures ReadsPrepared(stmts, {})
  {
  }

  /** The row blocks for keys and argument lists that together cover the
      slots below `n` emit each of those snippets once, before any use. */
  lemma RowCodeEmits(keys: seq<nat>, lists: seq<seq<nat>>, n: nat)
    requires forall s :: s in SlotSet(keys) ==> s < n
    requires forall s: nat :: s in AllSlots(lists) <==> s < n
    ensures var keyCode := KeyCode(keys, {});
      var rows := keyCode.0 + ProcessCode(|keys| > 0, ActionCode(lists, keyCode.1).0);
      && (forall s: nat :: PrepareCount(rows, s) == (if s < n then 1 else 0))
      && ReadsPrepared(rows, {})
  {
    var keyCode := KeyCode(keys, {});
    var actionCode := ActionCode(lists, keyCode.1);
    RowBlocksEmit(keyCode.0, |keys| > 0, actionCode.0, keyCode.1, actionCode.1);
    EmitsAll(keyCode.0 + ProcessCode(|keys| > 0, actionCode.0), actionCode.1, n);
  }

  /** Over one row (the prepare block, then the process block), the snippet
      of every pool entry is emitted exactly once, no other snippet is, and
      no statement reads a slot before that slot's snippet. */
  lemma SnippetsOnceBeforeUse(k: Kernel, render: Node -> string, visit: Node -> Result<seq<string>>)
    requires DoCodeGen(k, render, visit).Ok?
    ensures Analyze(k.actions, render).Ok?
    ensures var pool := Analyze(k.actions, render).value.pool;
      var b := DoCodeGen(k, render, visit).value;
      && (forall s: nat :: PrepareCount(b.prepare + b.process, s) == (if s < |pool| then 1 else 0))
      && ReadsPrepared(b.prepare + b.process, {})
  {
    Generated(k, render, visit);
    AnalysisSound(k.actions, render);
    var an := Analyze(k.actions, render).value;
    SlotsCoverPool(an, k.actions, render);
    RowCodeEmits(an.keySlots, SlotLists(an.entries), |an.pool|);
  }

  /** The registry lists pair the i-th action's name with its type, and the
      generated `PrepareActionList` builds the i-th accumulator from exactly
      that pair. */
  lemma RegistryPairs(k: Kernel, render: Node -> string, visit: Node -> Result<seq<string>>)
    requires DoCodeGen(k, render, visit).Ok?
    ensures var b := DoCodeGen(k, render, visit).value;
      && |b.actionNames| == |b.actionTypes| == b.finishCalls == |k.actions|
      && (forall i :: 0 <= i < |k.actions| ==>
            b.actionNames[i] == k.actions[i].name && b.actionTypes[i] == ResultType(k.actions[i]))
      && (PrepareActionList(b.actionNames, b.actionTypes).Ok? ==>
            forall i :: 0 <= i < |k.actions| ==>
              MakeAction(k.actions[i].name, ResultType(k.actions[i]))
                == Ok(PrepareActionList(b.actionNames, b.actionTypes).value[i]))
  {
    Generated(k, render, visit);
    AnalysisSound(k.actions, render);
  }

  /** Each finish call asks every action of the plan, in plan order, for the
      page at the current offset. A bridge lemma: it joins the request list
      of `FinishCursor.FinishStep` to the number of finish requests the
      generated code makes, one per action of the plan. */
  lemma FinishAsksEveryAction(k: Kernel, render: Node -> string, visit: Node -> Result<seq<string>>,
                              c: FinishCursor.Cursor, outs: seq<nat>)
    requires DoCodeGen(k, render, visit).Ok? && c.offset < FinishCursor.TwoTo64
    ensures var requests := FinishCursor.FinishStep(c, DoCodeGen(k, render, visit).value.finishCalls, outs).1;
      && |requests| == |k.actions|
      && forall i :: 0 <= i < |k.actions| ==>
           requests[i] == FinishCursor.Request(i, c.offset, FinishCursor.PageSize)
  {
  }

  /** The hash table, the packed row and their headers follow the group-by
      keys of the plan: no table without keys; a string map for several keys
      or one string key, with a row as wide as the key count when there are
      several; a sparse map typed by the key otherwise. */
  lemma KeyStrategyAgrees(k: Kernel, render: Node -> string, visit: Node -> Result<seq<string>>)
    requires DoCodeGen(k, render, visit).Ok?
    ensures var b := DoCodeGen(k, render, visit).value;
      var keys := GroupByArgs(k.actions);
      && b.table == ChooseTable(keys)
      && b.rowArity == (if |keys| > 1 then |keys| else 0)
      && (|keys| > 1 ==> UnsafeRowHeader in b.headers)
      && (b.table.StringHashMap? ==> HashMapHeader in b.headers)
      && (b.table.SparseHashMap? ==> SparseHashMapHeader in b.headers)
  {
    Generated(k, render, visit);
    AnalysisSound(k.actions, render);
  }

  /** Every visited expression's headers are present, and only the two
      headers pushed without a presence test can occur twice. */
  lemma HeadersOnce(k: Kernel, an: Analysis, visited: seq<seq<string>>)
    ensures var hs := Headers(k, an, visited);
      && (forall i, h :: 0 <= i < |visited| && h in visited[i] ==> h in hs)
      && (forall i, j :: 0 <= i < j < |hs| && hs[i] == hs[j] ==>
            hs[j] == UnsafeRowHeader || hs[j] == ProjectorHeader)
  {
    var hs := Headers(k, an, visited);
    var base := BaseHeaders + TableHeaders(ChooseTable(an.keyNodes));
    BaseDistinct(ChooseTable(an.keyNodes));
    var deduped := AddNew(base, Flatten(visited));
    var extra := (if |an.keySlots| > 1 then [UnsafeRowHeader] else [])
      + (if k.resultExprs != [] then [ProjectorHeader] else []);
    assert hs == deduped + extra;
    forall i, h | 0 <= i < |visited| && h in visited[i]
      ensures h in hs
    {
      assert h in Flatten(visited);
      assert h in deduped;
    }
    forall i, j | 0 <= i < j < |hs| && hs[i] == hs[j]
      ensures hs[j] == UnsafeRowHeader || hs[j] == ProjectorHeader
    {
      DuplicateInTail(deduped, extra, i, j);
      assert hs[j] == extra[j - |deduped|];
    }
  }

  /** The base and table headers are distinct. */
  lemma BaseDistinct(t: HashTable)
    ensures NoDuplicates(BaseHeaders + TableHeaders(t))
  {
    var base := BaseHeaders + TableHeaders(t);
    assert ArrayItemIndexHeader != ActionsImplHeader;
    match t
    case NoTable =>
      assert base == [ArrayItemIndexHeader, ActionsImplHeader];
    case StringHashMap =>
      assert base == [ArrayItemIndexHeader, ActionsImplHeader, HashMapHeader];
    case SparseHashMap(_) =>
      assert base == [ArrayItemIndexHeader, ActionsImplHeader, SparseHashMapHeader];
  }

  /** A sequence without duplicates, extended by `extra`, can only repeat an
      element at a position inside `extra`. */
  lemma DuplicateInTail(d: seq<string>, extra: seq<string>, i: nat, j: nat)
    requires NoDuplicates(d)
    requires i < j < |d| + |extra| && (d + extra)[i] == (d + extra)[j]
    ensures |d| <= j
  {
  }

  /** The headers of every visited pool entry are included, and only the
      row and projector headers can be duplicated. */
  lemma HeadersComplete(k: Kernel, render: Node -> string, visit: Node -> Result<seq<string>>)
    requires DoCodeGen(k, render, visit).Ok?
    ensures Analyze(k.actions, render).Ok?
    ensures var pool := Analyze(k.actions, render).value.pool;
      var hs := DoCodeGen(k, render, visit).value.headers;
      && (forall i, h :: 0 <= i < |pool| && h in visit(pool[i]).value ==> h in hs)
      && (forall i, j :: 0 <= i < j < |hs| && hs[i] == hs[j] ==>
            hs[j] == UnsafeRowHeader || hs[j] == ProjectorHeader)
  {
    Generated(k, render, visit);
    var an := Analyze(k.actions, render).value;
    var visited := VisitAll(an.pool, visit).value;
    HeadersOnce(k, an, visited);
  }

  // ---------------------------------------------------------------------
  // One row through the generated code

  predicate IsLookup(c: Call) {
    c.GetOrInsert? || c.GetOrInsertNull?
  }

  /** The hash-table lookups among `events`, in order. */
  function Lookups(events: seq<Event>): seq<Call>
    decreases |events|
  {
    if |events| == 0 then []
    else
      var e := events[|events| - 1];
      Lookups(events[..|events| - 1]) + (if IsLookup(e.call) then [e.call] else [])
  }

  lemma {:induction false} LookupsAppend(a: seq<Event>, b: seq<Event>)
    ensures Lookups(a + b) == Lookups(a) + Lookups(b)
    decreases |b|
  {
    if |b| == 0 {
      assert a + b == a;
    } else {
      assert (a + b)[..|a + b| - 1] == a + b[..|b| - 1];
      LookupsAppend(a, b[..|b| - 1]);
    }
  }

  lemma {:induction false} NoLookups(events: seq<Event>)
    requires forall i :: 0 <= i < |events| ==> !IsLookup(events[i].call)
    ensures Lookups(events) == []
    decreases |events|
  {
    if |events| > 0 {
      NoLookups(events[..|events| - 1]);
    }
  }

  /** The events of building the key: none for one key or none at all; for
      several keys the row reset and one append or null mark per key. */
  function KeyEvents(keys: seq<nat>, valid: set<nat>, memo: int): seq<Event> {
    if |keys| > 1 then [Event(ResetRow, memo)] + RowEvents(keys, valid, memo) else []
  }

  /** The group a row lands in: 0 without keys; the table's null group when
      the single key is invalid; the key's group otherwise (a packed row of
      several keys is always a valid key). */
  function RoutedGroup(keys: seq<nat>, env: Env): int {
    if |keys| == 0 then 0
    else if |keys| == 1 && keys[0] !in env.valid then env.nullGroup
    else env.found
  }

  /** The lookup a row performs, if any. */
  function RoutedLookup(keys: seq<nat>, env: Env): seq<Call> {
    if |keys| == 0 then []
    else if |keys| == 1 && keys[0] !in env.valid then [GetOrInsertNull]
    else [GetOrInsert]
  }

  /** The key validity the key code leaves: the single key's validity, or
      true for a packed row. */
  predicate KeyValidity(keys: seq<nat>, valid: set<nat>, keyValid: bool) {
    (|keys| == 1 ==> keyValid == (keys[0] in valid)) && (|keys| > 1 ==> keyValid)
  }

  /** The key code records the key events and sets the key validity. */
  lemma KeyCodeEffect(keys: seq<nat>, env: Env, m: Machine)
    requires !m.returned
    ensures var m1 := Exec(KeyCode(keys, {}).0, env, m);
      && KeyValidity(keys, env.valid, m1.keyValid)
      && m1 == m.(keyValid := m1.keyValid, trace := m.trace + KeyEvents(keys, env.valid, m.memo))
  {
    KeyCodeMeaning(keys, {}, env, m);
    if |keys| <= 1 {
      assert m.trace + KeyEvents(keys, env.valid, m.memo) == m.trace;
    }
  }

  /** A prepare block with that effect, followed by the process block. */
  lemma ProcessAfterKeys(prepare: seq<Stmt>, keys: seq<nat>, lists: seq<seq<nat>>, cleared: set<nat>, env: Env, m: Machine, keyValid: bool)
    requires !m.returned
    requires KeyValidity(keys, env.valid, keyValid)
    requires Exec(prepare, env, m) == m.(keyValid := keyValid, trace := m.trace + KeyEvents(keys, env.valid, m.memo))
    ensures var after := Exec(prepare + ProcessCode(|keys| > 0, ActionCode(lists, cleared).0), env, m);
      var memo := RoutedGroup(keys, env);
      var failed := FirstFailing(|lists|, env.failing) < |lists|;
      var lookup := if |keys| == 0 then [] else [Event(RoutedLookup(keys, env)[0], memo)];
      && after.memo == memo
      && after.returned == failed
      && after.numGroups == (if |keys| == 0 || failed then m.numGroups else Raise(m.numGroups, memo))
      && after.trace == m.trace + KeyEvents(keys, env.valid, m.memo) + lookup + Performed(lists, env, memo)
  {
    var process := ProcessCode(|keys| > 0, ActionCode(lists, cleared).0);
    ExecAppend(prepare, process, env, m);
    ProcessMeaning(|keys| > 0, lists, cleared, env, Exec(prepare, env, m));
  }

  /** The row blocks run for one row: the key events, the lookup, then the
      action calls in plan order with the routed group up to and including
      the first that fails; the high-water mark is raised to that group when
      there are keys and no call failed. */
  lemma RowTrace(keys: seq<nat>, lists: seq<seq<nat>>, env: Env, m: Machine)
    ensures var keyCode := KeyCode(keys, {});
      var after := RunRow(keyCode.0 + ProcessCode(|keys| > 0, ActionCode(lists, keyCode.1).0), env, m);
      var memo := RoutedGroup(keys, env);
      var failed := FirstFailing(|lists|, env.failing) < |lists|;
      var lookup := if |keys| == 0 then [] else [Event(RoutedLookup(keys, env)[0], memo)];
      && after.memo == memo
      && after.returned == failed
      && after.numGroups == (if |keys| == 0 || failed then m.numGroups else Raise(m.numGroups, memo))
      && after.trace == m.trace + KeyEvents(keys, env.valid, m.memo) + lookup + Performed(lists, env, memo)
  {
    var keyCode := KeyCode(keys, {});
    var m0 := m.(returned := false);
    KeyCodeEffect(keys, env, m0);
    ProcessAfterKeys(keyCode.0, keys, lists, keyCode.1, env, m0, Exec(keyCode.0, env, m0).keyValid);
  }

  /** No key event and no action call is a lookup. */
  lemma RowEventsNoLookups(keys: seq<nat>, lists: seq<seq<nat>>, valid: set<nat>, memo: int, memo': int)
    ensures Lookups(KeyEvents(keys, valid, memo)) == []
    ensures Lookups(Outcomes(lists, valid, memo')) == []
  {
    NoLookups(KeyEvents(keys, valid, memo));
    NoLookups(Outcomes(lists, valid, memo'));
  }

  /** No call a row performs before returning is a lookup. */
  lemma PerformedNoLookups(lists: seq<seq<nat>>, env: Env, memo: int)
    ensures Lookups(Performed(lists, env, memo)) == []
  {
    NoLookups(Performed(lists, env, memo));
  }

  lemma Associate(a: seq<Event>, b: seq<Event>, c: seq<Event>, d: seq<Event>)
    ensures a + b + c + d == a + (b + c + d)
  {
    assert a + b + c == a + (b + c);
    assert (a + (b + c)) + d == a + ((b + c) + d);
  }

  /** Slicing a trace made of what was there, lookup-free events, the
      lookups and lookup-free calls. */
  lemma TraceShape(t0: seq<Event>, pre: seq<Event>, lookup: seq<Event>, outs: seq<Event>, t: seq<Event>)
    requires t == t0 + pre + lookup + outs
    requires Lookups(pre) == [] && Lookups(outs) == []
    ensures |t0| + |outs| <= |t| && t[..|t0|] == t0
    ensures Lookups(t[|t0|..]) == Lookups(lookup)
    ensures t[|t| - |outs|..] == outs
  {
    var mid := pre + lookup + outs;
    var front := t0 + pre + lookup;
    Associate(t0, pre, lookup, outs);
    assert t[|t0|..] == mid;
    assert t[|front|..] == outs;
    LookupsAppend(pre, lookup);
    LookupsAppend(pre + lookup, outs);
  }

  lemma RoutedLookupEvent(keys: seq<nat>, env: Env, memo: int)
    ensures Lookups(if |keys| == 0 then [] else [Event(RoutedLookup(keys, env)[0], memo)]) == RoutedLookup(keys, env)
  {
    if |keys| > 0 {
      var e := [Event(RoutedLookup(keys, env)[0], memo)];
      assert e[..0] == [];
    }
  }

  /** The shape of one row's trace: what was recorded before is kept, the
      lookups are the routed one, and the trace ends with the calls made. */
  lemma RowShape(keys: seq<nat>, lists: seq<seq<nat>>, env: Env, m: Machine)
    ensures var keyCode := KeyCode(keys, {});
      var after := RunRow(keyCode.0 + ProcessCode(|keys| > 0, ActionCode(lists, keyCode.1).0), env, m);
      var calls := Calls(|lists|, env.failing);
      && |m.trace| + calls <= |after.trace| && after.trace[..|m.trace|] == m.trace
      && Lookups(after.trace[|m.trace|..]) == RoutedLookup(keys, env)
      && after.trace[|after.trace| - calls..] == Outcomes(lists, env.valid, RoutedGroup(keys, env))[..calls]
  {
    var keyCode := KeyCode(keys, {});
    var memo := RoutedGroup(keys, env);
    RowTrace(keys, lists, env, m);
    var lookup := if |keys| == 0 then [] else [Event(RoutedLookup(keys, env)[0], memo)];
    RowEventsNoLookups(keys, lists, env.valid, m.memo, memo);
    PerformedNoLookups(lists, env, memo);
    RoutedLookupEvent(keys, env, memo);
    TraceShape(m.trace, KeyEvents(keys, env.valid, m.memo), lookup, Performed(lists, env, memo),
               RunRow(keyCode.0 + ProcessCode(|keys| > 0, ActionCode(lists, keyCode.1).0), env, m).trace);
  }

  /** What one row does, from machine `m` to `after`, for keys `keys` and
      action slot lists `lists`: the events already recorded are kept;
      exactly one lookup happens when there are keys, and it is the
      null-group lookup exactly when there is a single key and it is
      invalid; the row's group is the one that lookup gives (0 without
      keys); the last events are the action calls, in plan order, on that
      group, up to and including the first call that fails; the row has
      returned exactly when a call failed; the high-water mark is raised to
      the group only when there are keys and no call failed. */
  predicate RowEffect(keys: seq<nat>, lists: seq<seq<nat>>, env: Env, m: Machine, after: Machine) {
    var memo := RoutedGroup(keys, env);
    var failed := FirstFailing(|lists|, env.failing) < |lists|;
    var calls := Calls(|lists|, env.failing);
    && |m.trace| + calls <= |after.trace| && after.trace[..|m.trace|] == m.trace
    && Lookups(after.trace[|m.trace|..]) == RoutedLookup(keys, env)
    && after.memo == memo
    && after.returned == failed
    && after.numGroups == (if |keys| == 0 || failed then m.numGroups else Raise(m.numGroups, memo))
    && after.trace[|after.trace| - calls..] == Outcomes(lists, env.valid, memo)[..calls]
  }

  /** One row through the generated code, from any state, has the effect
      `RowEffect` describes for the plan's keys and one slot list per
      action. */
  lemma RowRouting(k: Kernel, render: Node -> string, visit: Node -> Result<seq<string>>, env: Env, m: Machine)
    requires DoCodeGen(k, render, visit).Ok?
    ensures Analyze(k.actions, render).Ok?
    ensures var an := Analyze(k.actions, render).value;
      var b := DoCodeGen(k, render, visit).value;
      && |SlotLists(an.entries)| == |k.actions|
      && RowEffect(an.keySlots, SlotLists(an.entries), env, m, RunRow(b.prepare + b.process, env, m))
  {
    GeneratedRowCode(k, render, visit);
    var an := Analyze(k.actions, render).value;
    RowFacts(an.keySlots, SlotLists(an.entries), env, m);
  }

  /** `RowTrace` and `RowShape` together, for the row blocks of `keys` and
      `lists`. */
  lemma RowFacts(keys: seq<nat>, lists: seq<seq<nat>>, env: Env, m: Machine)
    ensures var keyCode := KeyCode(keys, {});
      RowEffect(keys, lists, env, m, RunRow(keyCode.0 + ProcessCode(|keys| > 0, ActionCode(lists, keyCode.1).0), env, m))
  {
    RowTrace(keys, lists, env, m);
    RowShape(keys, lists, env, m);
  }

  /** The generated row blocks: the key code of the plan's keys, then the
      process block around the action code of its slot lists, one per
      action. */
  lemma GeneratedRowCode(k: Kernel, render: Node -> string, visit: Node -> Result<seq<string>>)
    requires DoCodeGen(k, render, visit).Ok?
    ensures Analyze(k.actions, render).Ok?
    ensures var an := Analyze(k.actions, render).value;
      var keyCode := KeyCode(an.keySlots, {});
      var lists := SlotLists(an.entries);
      var b := DoCodeGen(k, render, visit).value;
      && |lists| == |k.actions|
      && b.prepare + b.process == keyCode.0 + ProcessCode(|an.keySlots| > 0, ActionCode(lists, keyCode.1).0)
  {
    Generated(k, render, visit);
  }

  // ---------------------------------------------------------------------
  // Many rows: the group high-water mark the finish block reads

  /** The machine after the row function has run for each row of `envs`,
      in order. */
  function Rows(code: seq<Stmt>, envs: seq<Env>, m: Machine): Machine
    decreases |envs|
  {
    if |envs| == 0 then m else RunRow(code, envs[|envs| - 1], Rows(code, envs[..|envs| - 1], m))
  }

  /** Whether a row makes all `n` action calls without a failure. */
  predicate Completes(n: nat, env: Env) {
    FirstFailing(n, env.failing) == n
  }

  /** The groups of the rows that make all `n` action calls, in row order. */
  function CompletedGroups(keys: seq<nat>, n: nat, envs: seq<Env>): (ids: seq<int>)
    ensures |ids| <= |envs|
    decreases |envs|
  {
    if |envs| == 0 then []
    else
      var last := envs[|envs| - 1];
      CompletedGroups(keys, n, envs[..|envs| - 1]) + (if Completes(n, last) then [RoutedGroup(keys, last)] else [])
  }

  /** Code that raises the mark to the routed group of each row that
      completes, and leaves it on the others, moves the mark over many rows
      as the finish cursor's mark moves when observing the completed rows'
      groups. */
  lemma {:induction false} RowsFollowCursor(code: seq<Stmt>, keys: seq<nat>, n: nat, envs: seq<Env>, m: Machine, c: FinishCursor.Cursor)
    requires c.offset < FinishCursor.TwoTo64 && c.numGroups == m.numGroups
    requires forall env: Env, m': Machine ::
      RunRow(code, env, m').numGroups == if Completes(n, env) then Raise(m'.numGroups, RoutedGroup(keys, env)) else m'.numGroups
    ensures Rows(code, envs, m).numGroups
         == FinishCursor.Run(c, FinishCursor.Observations(CompletedGroups(keys, n, envs))).numGroups
    decreases |envs|
  {
    if |envs| > 0 {
      var last := |envs| - 1;
      RowsFollowCursor(code, keys, n, envs[..last], m, c);
      var prev := Rows(code, envs[..last], m);
      assert Rows(code, envs, m) == RunRow(code, envs[last], prev);
      var pre := CompletedGroups(keys, n, envs[..last]);
      var ids := CompletedGroups(keys, n, envs);
      if Completes(n, envs[last]) {
        var g := RoutedGroup(keys, envs[last]);
        assert ids == pre + [g];
        ObservationsSnoc(pre, g);
        assert FinishCursor.Run(c, FinishCursor.Observations(ids))
            == FinishCursor.ObserveGroup(FinishCursor.Run(c, FinishCursor.Observations(pre)), g);
      } else {
        assert ids == pre;
      }
    }
  }

  lemma ObservationsSnoc(ids: seq<int>, g: int)
    ensures FinishCursor.Observations(ids + [g])[..|ids|] == FinishCursor.Observations(ids)
    ensures FinishCursor.Observations(ids + [g])[|ids|] == FinishCursor.Observe(g)
  {
    var obs := FinishCursor.Observations(ids + [g]);
    assert forall i :: 0 <= i < |ids| ==> obs[i] == FinishCursor.Observe(ids[i]);
  }

  /** Code that leaves the mark alone leaves it alone over many rows. */
  lemma {:induction false} RowsKeepMark(code: seq<Stmt>, envs: seq<Env>, m: Machine)
    requires forall env: Env, m': Machine :: RunRow(code, env, m').numGroups == m'.numGroups
    ensures Rows(code, envs, m).numGroups == m.numGroups
    decreases |envs|
  {
    if |envs| > 0 {
      RowsKeepMark(code, envs[..|envs| - 1], m);
    }
  }

  /** Running the row blocks over many rows moves the machine's mark exactly
      as the finish cursor's mark moves when it observes the routed groups
      of the rows whose action calls all succeed; a row that returns early
      on a failed call leaves the mark, and without keys it never moves. */
  lemma RowsMark(keys: seq<nat>, lists: seq<seq<nat>>, envs: seq<Env>, m: Machine, c: FinishCursor.Cursor)
    requires c.offset < FinishCursor.TwoTo64 && c.numGroups == m.numGroups
    ensures var keyCode := KeyCode(keys, {});
      var code := keyCode.0 + ProcessCode(|keys| > 0, ActionCode(lists, keyCode.1).0);
      Rows(code, envs, m).numGroups
        == if |keys| == 0 then m.numGroups
           else FinishCursor.Run(c, FinishCursor.Observations(CompletedGroups(keys, |lists|, envs))).numGroups
  {
    var keyCode := KeyCode(keys, {});
    var code := keyCode.0 + ProcessCode(|keys| > 0, ActionCode(lists, keyCode.1).0);
    forall env: Env, m': Machine
      ensures RunRow(code, env, m').numGroups
           == if |keys| == 0 || !Completes(|lists|, env) then m'.numGroups
              else Raise(m'.numGroups, RoutedGroup(keys, env))
    {
      RowTrace(keys, lists, env, m');
    }
    if |keys| == 0 {
      RowsKeepMark(code, envs, m);
    } else {
      RowsFollowCursor(code, keys, |lists|, envs, m, c);
    }
  }

  /** The mark the finish block compares against, after the generated code
      has processed any rows from its initial value -1: it stays -1 without
      keys, and otherwise it is the finish cursor's mark after observing the
      group of each row whose action calls all succeed, which is the largest
      such group id. */
  lemma GroupMarkAgrees(k: Kernel, render: Node -> string, visit: Node -> Result<seq<string>>,
                        envs: seq<Env>, m: Machine, outLength: int)
    requires DoCodeGen(k, render, visit).Ok? && m.numGroups == -1
    ensures Analyze(k.actions, render).Ok?
    ensures var keys := Analyze(k.actions, render).value.keySlots;
      var b := DoCodeGen(k, render, visit).value;
      var mark := Rows(b.prepare + b.process, envs, m).numGroups;
      var ids := CompletedGroups(keys, |k.actions|, envs);
      && (|keys| == 0 ==> mark == -1)
      && (|keys| > 0 ==>
            && mark == FinishCursor.Run(FinishCursor.Initial(outLength), FinishCursor.Observations(ids)).numGroups
            && mark == FinishCursor.HighWater(ids))
  {
    GeneratedRowCode(k, render, visit);
    var an := Analyze(k.actions, render).value;
    var lists := SlotLists(an.entries);
    RowsMark(an.keySlots, lists, envs, m, FinishCursor.Initial(outLength));
    FinishCursor.HighWaterMark(CompletedGroups(an.keySlots, |lists|, envs), outLength);
  }
}
