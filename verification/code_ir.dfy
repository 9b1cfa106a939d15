/**
 * The structure of the generated per-row code. Instead of C++ text, the
 * generator emits statements over pool slots; `Exec` gives them the meaning
 * the generated code has for one row, given which slots are valid in that
 * row, what the (opaque) hash table answers and which accumulator calls
 * fail. Every accumulator call is wrapped in `RETURN_NOT_OK`, so a failing
 * call ends the row: nothing after it runs.
 */
module CodeIr {
  import opened AggTypes

  /** Calls into the runtime objects of the generated stage. */
  datatype Call =
    | ResetRow                            // aggr_key_unsafe_row->reset()
    | AppendToRow(pos: nat, slot: nat)    // appendToUnsafeRow(row, pos, value of slot)
    | SetNullAt(pos: nat)                 // setNullAt(row, pos)
    | GetOrInsert                         // memo_index := table lookup of the key
    | GetOrInsertNull                     // memo_index := the table's null group
    | Evaluate(action: nat, args: seq<nat>)  // action's Evaluate(memo_index, args...)
    | EvaluateNull(action: nat)           // action's EvaluateNull(memo_index)

  /** What an `if` in the generated code tests. */
  datatype Guard =
    | SlotValid(slot: nat)  // the slot's validity variable
    | KeyValid              // aggr_key_validity

  datatype Stmt =
    | Prepare(slot: nat)    // the slot's one-time prepare snippet (computes value and validity)
    | BindKey(slot: nat)    // aggr_key := value of slot; aggr_key_validity := validity of slot
    | BindKeyAlwaysValid    // aggr_key_validity := true
    | BindKeyFromRow        // aggr_key := the packed row's bytes
    | ZeroMemoIndex         // memo_index := 0
    | RaiseNumGroups        // num_groups := memo_index if that is larger
    | Run(call: Call)
    | If(guard: Guard, onTrue: Call, onFalse: Call)

  /** The slots listed in `slots`. */
  function SlotSet(slots: seq<nat>): set<nat> {
    set i | 0 <= i < |slots| :: slots[i]
  }

  lemma SlotSetSnoc(slots: seq<nat>)
    requires |slots| > 0
    ensures SlotSet(slots) == SlotSet(slots[..|slots| - 1]) + {slots[|slots| - 1]}
  {
    var init := slots[..|slots| - 1];
    forall s
      ensures s in SlotSet(slots) <==> s in SlotSet(init) || s == slots[|slots| - 1]
    {
      if s in SlotSet(slots) {
        var i :| 0 <= i < |slots| && slots[i] == s;
        if i < |init| {
          assert init[i] == s;
        }
      }
      if s in SlotSet(init) {
        var i :| 0 <= i < |init| && init[i] == s;
        assert slots[i] == s;
      }
    }
  }

  /** The slots whose value or validity a call reads. */
  function CallReads(c: Call): set<nat> {
    match c
    case AppendToRow(_, s) => {s}
    case Evaluate(_, args) => SlotSet(args)
    case _ => {}
  }

  /** The slots whose value or validity a statement reads. */
  function Reads(st: Stmt): set<nat> {
    match st
    case BindKey(s) => {s}
    case Run(c) => CallReads(c)
    case If(g, a, b) => (if g.SlotValid? then {g.slot} else {}) + CallReads(a) + CallReads(b)
    case _ => {}
  }

  /** How many times `stmts` emits slot `s`'s prepare snippet. */
  function PrepareCount(stmts: seq<Stmt>, s: nat): nat
    decreases |stmts|
  {
    if |stmts| == 0 then 0
    else PrepareCount(stmts[..|stmts| - 1], s) + (if stmts[|stmts| - 1] == Prepare(s) then 1 else 0)
  }

  /** The slots whose prepare snippet `stmts` emits. */
  function Prepared(stmts: seq<Stmt>): set<nat>
    decreases |stmts|
  {
    if |stmts| == 0 then {}
    else
      var last := stmts[|stmts| - 1];
      Prepared(stmts[..|stmts| - 1]) + (if last.Prepare? then {last.slot} else {})
  }

  /** Every slot a statement reads is in `ready` or was prepared by an
      earlier statement. */
  predicate ReadsPrepared(stmts: seq<Stmt>, ready: set<nat>)
    decreases |stmts|
  {
    |stmts| == 0 ||
    (ReadsPrepared(stmts[..|stmts| - 1], ready) && Reads(stmts[|stmts| - 1]) <= ready + Prepared(stmts[..|stmts| - 1]))
  }

  /** `stmts` emits the snippets of exactly the slots of `after` not in
      `before`, each once. */
  ghost predicate EmitsOnce(stmts: seq<Stmt>, before: set<nat>, after: set<nat>) {
    && before <= after
    && Prepared(stmts) == after - before
    && forall s: nat :: PrepareCount(stmts, s) == (if s in after && s !in before then 1 else 0)
  }

  lemma {:induction false} PrepareCountAppend(a: seq<Stmt>, b: seq<Stmt>, s: nat)
    ensures PrepareCount(a + b, s) == PrepareCount(a, s) + PrepareCount(b, s)
    decreases |b|
  {
    if |b| == 0 {
      assert a + b == a;
    } else {
      assert (a + b)[..|a + b| - 1] == a + b[..|b| - 1];
      PrepareCountAppend(a, b[..|b| - 1], s);
    }
  }

  lemma {:induction false} PreparedAppend(a: seq<Stmt>, b: seq<Stmt>)
    ensures Prepared(a + b) == Prepared(a) + Prepared(b)
    decreases |b|
  {
    if |b| == 0 {
      assert a + b == a;
    } else {
      assert (a + b)[..|a + b| - 1] == a + b[..|b| - 1];
      PreparedAppend(a, b[..|b| - 1]);
    }
  }

  /** Reading-after-preparing composes: the second part may rely on what the
      first part prepared. */
  lemma {:induction false} ReadsPreparedAppend(a: seq<Stmt>, b: seq<Stmt>, ready: set<nat>)
    requires ReadsPrepared(a, ready)
    requires ReadsPrepared(b, ready + Prepared(a))
    ensures ReadsPrepared(a + b, ready)
    decreases |b|
  {
    if |b| == 0 {
      assert a + b == a;
    } else {
      var b' := b[..|b| - 1];
      assert (a + b)[..|a + b| - 1] == a + b';
      ReadsPreparedAppend(a, b', ready);
      PreparedAppend(a, b');
    }
  }

  /** Statements that are not snippets emit none. */
  lemma {:induction false} NoSnippets(stmts: seq<Stmt>)
    requires forall i :: 0 <= i < |stmts| ==> !stmts[i].Prepare?
    ensures Prepared(stmts) == {}
    ensures forall s: nat :: PrepareCount(stmts, s) == 0
    decreases |stmts|
  {
    if |stmts| > 0 {
      NoSnippets(stmts[..|stmts| - 1]);
    }
  }

  /** Wrapping code between statements that are not snippets changes
      neither which snippets are emitted nor how often. */
  lemma FrameCounts(front: seq<Stmt>, code: seq<Stmt>, back: seq<Stmt>)
    requires forall i :: 0 <= i < |front| ==> !front[i].Prepare?
    requires forall i :: 0 <= i < |back| ==> !back[i].Prepare?
    ensures Prepared(front + code + back) == Prepared(code)
    ensures forall s: nat :: PrepareCount(front + code + back, s) == PrepareCount(code, s)
  {
    NoSnippets(front);
    NoSnippets(back);
    PreparedAppend(front, code);
    PreparedAppend(front + code, back);
    forall s: nat
      ensures PrepareCount(front + code + back, s) == PrepareCount(code, s)
    {
      PrepareCountAppend(front, code, s);
      PrepareCountAppend(front + code, back, s);
    }
  }

  /** Emitting in two steps that each emit once emits once overall. */
  lemma EmitsOnceAppend(a: seq<Stmt>, b: seq<Stmt>, c0: set<nat>, c1: set<nat>, c2: set<nat>)
    requires EmitsOnce(a, c0, c1) && EmitsOnce(b, c1, c2)
    ensures EmitsOnce(a + b, c0, c2)
  {
    PreparedAppend(a, b);
    forall s: nat
      ensures PrepareCount(a + b, s) == (if s in c2 && s !in c0 then 1 else 0)
    {
      PrepareCountAppend(a, b, s);
    }
  }

  /** `stmts`, run after the slots of `before` were prepared, emits each
      snippet of `after - before` exactly once and reads no slot before its
      snippet has been emitted. */
  ghost predicate Emits(stmts: seq<Stmt>, before: set<nat>, after: set<nat>) {
    EmitsOnce(stmts, before, after) && ReadsPrepared(stmts, before)
  }

  /** Two emissions in a row form one. */
  lemma EmitsAppend(a: seq<Stmt>, b: seq<Stmt>, c0: set<nat>, c1: set<nat>, c2: set<nat>)
    requires Emits(a, c0, c1) && Emits(b, c1, c2)
    ensures Emits(a + b, c0, c2)
  {
    EmitsOnceAppend(a, b, c0, c1, c2);
    assert c0 + Prepared(a) == c1;
    ReadsPreparedAppend(a, b, c0);
  }

  /** A single statement other than a snippet emits no snippet. */
  lemma SingleStmt(st: Stmt, c: set<nat>)
    requires !st.Prepare? && Reads(st) <= c
    ensures Emits([st], c, c)
  {
    assert [st][..0] == [];
  }

  /** Emits a slot's prepare snippet unless it was already emitted (and so
      cleared); returns the statements and the updated set of cleared slots. */
  function EmitSnippet(cleared: set<nat>, slot: nat): (r: (seq<Stmt>, set<nat>))
    ensures Emits(r.0, cleared, r.1) && r.1 == cleared + {slot}
    ensures forall i :: 0 <= i < |r.0| ==> r.0[i].Prepare?
  {
    if slot in cleared then ([], cleared)
    else
      assert [Prepare(slot)][..0] == [];
      ([Prepare(slot)], cleared + {slot})
  }

  // ---------------------------------------------------------------------
  // Meaning of the statements for one row

  /** One row's environment: the valid slots, the group ids the hash table
      answers for the key and for the null key, and the actions whose
      `Evaluate` or `EvaluateNull` returns an error status on this row. */
  datatype Env = Env(valid: set<nat>, found: int, nullGroup: int, failing: set<nat>)

  /** An executed call and the memo_index current after it. */
  datatype Event = Event(call: Call, memo: int)

  /** The row function's variables, the calls made so far, and whether the
      row has returned early on a failed call. */
  datatype Machine = Machine(keyValid: bool, memo: int, numGroups: int, trace: seq<Event>, returned: bool)

  /** The running maximum of group ids (the `RaiseNumGroups` statement). */
  function Raise(numGroups: int, memo: int): (r: int)
    ensures r >= numGroups && r >= memo
    ensures r == numGroups || r == memo
  {
    if memo > numGroups then memo else numGroups
  }

  function Holds(g: Guard, env: Env, m: Machine): bool {
    match g
    case SlotValid(s) => s in env.valid
    case KeyValid => m.keyValid
  }

  /** Whether the call returns an error status on this row: only
      accumulator calls can. */
  function Fails(c: Call, env: Env): bool {
    match c
    case Evaluate(a, _) => a in env.failing
    case EvaluateNull(a) => a in env.failing
    case _ => false
  }

  /** A call is made and recorded; if it fails, the row returns. */
  function Apply(c: Call, env: Env, m: Machine): Machine {
    var memo := match c
      case GetOrInsert => env.found
      case GetOrInsertNull => env.nullGroup
      case _ => m.memo;
    m.(memo := memo, trace := m.trace + [Event(c, memo)], returned := Fails(c, env))
  }

  /** One statement; nothing runs once the row has returned. */
  function Step(st: Stmt, env: Env, m: Machine): Machine {
    if m.returned then m else
    match st
    case Prepare(_) => m
    case BindKey(s) => m.(keyValid := s in env.valid)
    case BindKeyAlwaysValid => m.(keyValid := true)
    case BindKeyFromRow => m
    case ZeroMemoIndex => m.(memo := 0)
    case RaiseNumGroups => m.(numGroups := Raise(m.numGroups, m.memo))
    case Run(c) => Apply(c, env, m)
    case If(g, a, b) => Apply(if Holds(g, env, m) then a else b, env, m)
  }

  function Exec(stmts: seq<Stmt>, env: Env, m: Machine): Machine
    decreases |stmts|
  {
    if |stmts| == 0 then m
    else Step(stmts[|stmts| - 1], env, Exec(stmts[..|stmts| - 1], env, m))
  }

  /** One call of the generated row function: it starts afresh and may
      return early. */
  function RunRow(stmts: seq<Stmt>, env: Env, m: Machine): Machine {
    Exec(stmts, env, m.(returned := false))
  }

  /** Once the row has returned, the remaining statements do nothing. */
  lemma {:induction false} ExecReturned(stmts: seq<Stmt>, env: Env, m: Machine)
    requires m.returned
    ensures Exec(stmts, env, m) == m
    decreases |stmts|
  {
    if |stmts| > 0 {
      ExecReturned(stmts[..|stmts| - 1], env, m);
    }
  }

  lemma {:induction false} ExecAppend(a: seq<Stmt>, b: seq<Stmt>, env: Env, m: Machine)
    ensures Exec(a + b, env, m) == Exec(b, env, Exec(a, env, m))
    decreases |b|
  {
    if |b| == 0 {
      assert a + b == a;
    } else {
      assert (a + b)[..|a + b| - 1] == a + b[..|b| - 1];
      ExecAppend(a, b[..|b| - 1], env, m);
    }
  }

  lemma ExecSingle(st: Stmt, env: Env, m: Machine)
    ensures Exec([st], env, m) == Step(st, env, m)
  {
    assert [st][..0] == [];
  }

  /** Statements that only prepare snippets change nothing observable. */
  lemma {:induction false} ExecPreparesOnly(stmts: seq<Stmt>, env: Env, m: Machine)
    requires forall i :: 0 <= i < |stmts| ==> stmts[i].Prepare?
    ensures Exec(stmts, env, m) == m
    decreases |stmts|
  {
    if |stmts| > 0 {
      ExecPreparesOnly(stmts[..|stmts| - 1], env, m);
    }
  }

  /** A statement after some snippets runs as if the snippets were absent. */
  lemma ExecAfterSnippets(a: seq<Stmt>, snip: seq<Stmt>, st: Stmt, env: Env, m: Machine)
    requires forall i :: 0 <= i < |snip| ==> snip[i].Prepare?
    ensures Exec(a + snip + [st], env, m) == Step(st, env, Exec(a, env, m))
  {
    ExecAppend(a, snip, env, m);
    ExecPreparesOnly(snip, env, Exec(a, env, m));
    ExecAppend(a + snip, [st], env, m);
    ExecSingle(st, env, Exec(a + snip, env, m));
  }

  /** A statement that records one event (and returns or not), run after
      snippets that follow code recording `events`, records `events + [e]`. */
  lemma ExecAppendEvent(a: seq<Stmt>, snip: seq<Stmt>, st: Stmt, env: Env, m: Machine, events: seq<Event>, e: Event, ret: bool)
    requires forall i :: 0 <= i < |snip| ==> snip[i].Prepare?
    requires Exec(a, env, m) == m.(trace := m.trace + events)
    requires Step(st, env, Exec(a, env, m)) == Exec(a, env, m).(trace := Exec(a, env, m).trace + [e], returned := ret)
    ensures Exec(a + snip + [st], env, m) == m.(trace := m.trace + (events + [e]), returned := ret)
  {
    ExecAfterSnippets(a, snip, st, env, m);
    assert (m.trace + events) + [e] == m.trace + (events + [e]);
  }
}
