/**
 * How group-by keys are hashed and encoded. No key: no hash table, every row
 * goes to group 0. One key: the key is the slot's own value, and a STRING key
 * selects the string hash map while any other type selects a sparse map of
 * that type. Two or more keys: the slots are packed into a row whose bytes
 * are the string key, and the key is always considered valid.
 */
module KeyStrategy {
  import opened AggTypes
  import opened CodeIr

  datatype HashTable =
    | NoTable
    | StringHashMap                   // HashMap over string keys
    | SparseHashMap(keyType: DataType)  // SparseHashMap over the key's C type

  /** The hash table declared for the given group-by key nodes. */
  function ChooseTable(keyNodes: seq<Node>): (t: HashTable)
    ensures t == NoTable <==> |keyNodes| == 0
    ensures t == StringHashMap <==> |keyNodes| > 1 || (|keyNodes| == 1 && keyNodes[0].ReturnType() == Utf8)
    ensures t.SparseHashMap? <==> |keyNodes| == 1 && keyNodes[0].ReturnType() != Utf8
    ensures t.SparseHashMap? ==> t.keyType == keyNodes[0].ReturnType()
  {
    if |keyNodes| > 1 || (|keyNodes| > 0 && keyNodes[0].ReturnType() == Utf8) then StringHashMap
    else if |keyNodes| > 0 then SparseHashMap(keyNodes[0].ReturnType())
    else NoTable
  }

  /** Reference meaning of packing: position `p` of the row holds key `p`'s
      value when that slot is valid and is marked null otherwise. */
  function RowEvents(keys: seq<nat>, valid: set<nat>, memo: int): (r: seq<Event>)
    ensures |r| == |keys|
  {
    seq(|keys|, p requires 0 <= p < |keys| =>
      Event(if keys[p] in valid then AppendToRow(p, keys[p]) else SetNullAt(p), memo))
  }

  /** The packing statements for the multi-key row: for each key position,
      the slot's snippet unless already emitted, then append or null-mark. */
  function RowFields(keys: seq<nat>, cleared: set<nat>): (r: (seq<Stmt>, set<nat>))
    ensures Emits(r.0, cleared, r.1) && r.1 == cleared + SlotSet(keys)
    decreases |keys|
  {
    if |keys| == 0 then ([], cleared)
    else
      var prior := RowFields(keys[..|keys| - 1], cleared);
      var pos := |keys| - 1;
      var k := keys[pos];
      var snip := EmitSnippet(prior.1, k);
      var pack := If(SlotValid(k), AppendToRow(pos, k), SetNullAt(pos));
      SingleStmt(pack, snip.1);
      EmitsAppend(prior.0, snip.0, cleared, prior.1, snip.1);
      EmitsAppend(prior.0 + snip.0, [pack], cleared, snip.1, snip.1);
      SlotSetSnoc(keys);
      (prior.0 + snip.0 + [pack], snip.1)
  }

  /** The key-building statements of the prepare block. */
  function KeyCode(keys: seq<nat>, cleared: set<nat>): (r: (seq<Stmt>, set<nat>))
    ensures Emits(r.0, cleared, r.1) && r.1 == cleared + SlotSet(keys)
  {
    if |keys| == 0 then
      assert SlotSet(keys) == {};
      ([], cleared)
    else if |keys| == 1 then
      var snip := EmitSnippet(cleared, keys[0]);
      var bind := BindKey(keys[0]);
      SingleStmt(bind, snip.1);
      EmitsAppend(snip.0, [bind], cleared, snip.1, snip.1);
      assert SlotSet(keys) == {keys[0]};
      (snip.0 + [bind], snip.1)
    else
      var row := RowFields(keys, cleared);
      SingleStmt(BindKeyAlwaysValid, cleared);
      SingleStmt(Run(ResetRow), cleared);
      EmitsAppend([BindKeyAlwaysValid], [Run(ResetRow)], cleared, cleared, cleared);
      var head := [BindKeyAlwaysValid] + [Run(ResetRow)];
      SingleStmt(BindKeyFromRow, row.1);
      EmitsAppend(head, row.0, cleared, cleared, row.1);
      EmitsAppend(head + row.0, [BindKeyFromRow], cleared, row.1, row.1);
      (head + row.0 + [BindKeyFromRow], row.1)
  }

  /** Executing the packing statements appends, in key order, one event per
      key position: an append when the slot is valid, a null mark otherwise.
      None of these calls can fail, so the row keeps running. */
  lemma {:induction false} RowFieldsPack(keys: seq<nat>, cleared: set<nat>, env: Env, m: Machine)
    requires !m.returned
    ensures Exec(RowFields(keys, cleared).0, env, m)
         == m.(trace := m.trace + RowEvents(keys, env.valid, m.memo))
    decreases |keys|
  {
    if |keys| == 0 {
      assert m.trace + [] == m.trace;
    } else {
      var init := keys[..|keys| - 1];
      var prior := RowFields(init, cleared);
      var pos := |keys| - 1;
      var k := keys[pos];
      var snip := EmitSnippet(prior.1, k);
      var pack := If(SlotValid(k), AppendToRow(pos, k), SetNullAt(pos));
      assert RowFields(keys, cleared).0 == prior.0 + snip.0 + [pack];
      RowFieldsPack(init, cleared, env, m);
      var e := Event(if k in env.valid then AppendToRow(pos, k) else SetNullAt(pos), m.memo);
      PackStep(pos, k, env, Exec(prior.0, env, m));
      RowEventsSnoc(keys, env.valid, m.memo);
      ExecAppendEvent(prior.0, snip.0, pack, env, m, RowEvents(init, env.valid, m.memo), e, false);
    }
  }

  /** One packing statement appends or null-marks its position. */
  lemma PackStep(pos: nat, k: nat, env: Env, m: Machine)
    requires !m.returned
    ensures Step(If(SlotValid(k), AppendToRow(pos, k), SetNullAt(pos)), env, m)
         == m.(trace := m.trace + [Event(if k in env.valid then AppendToRow(pos, k) else SetNullAt(pos), m.memo)])
  {
  }

  lemma RowEventsSnoc(keys: seq<nat>, valid: set<nat>, memo: int)
    requires |keys| > 0
    ensures var p := |keys| - 1;
      RowEvents(keys, valid, memo) == RowEvents(keys[..p], valid, memo)
        + [Event(if keys[p] in valid then AppendToRow(p, keys[p]) else SetNullAt(p), memo)]
  {
    var p := |keys| - 1;
    var lhs := RowEvents(keys, valid, memo);
    var rhs := RowEvents(keys[..p], valid, memo)
      + [Event(if keys[p] in valid then AppendToRow(p, keys[p]) else SetNullAt(p), memo)];
    forall i | 0 <= i < |lhs|
      ensures lhs[i] == rhs[i]
    {
      if i < p {
        assert keys[..p][i] == keys[i];
      }
    }
  }

  /** What the key code does for one row: nothing without keys; with one key
      the key validity is that slot's validity; with several keys the key
      is always valid and the row is reset and packed position by position.
      The key code makes no call that can fail. */
  lemma KeyCodeMeaning(keys: seq<nat>, cleared: set<nat>, env: Env, m: Machine)
    requires !m.returned
    ensures |keys| == 0 ==> Exec(KeyCode(keys, cleared).0, env, m) == m
    ensures |keys| == 1 ==> Exec(KeyCode(keys, cleared).0, env, m) == m.(keyValid := keys[0] in env.valid)
    ensures |keys| > 1 ==>
      Exec(KeyCode(keys, cleared).0, env, m) == m.(keyValid := true, trace := m.trace + [Event(ResetRow, m.memo)] + RowEvents(keys, env.valid, m.memo))
  {
    if |keys| == 1 {
      SingleKeyMeaning(keys, cleared, env, m);
    } else if |keys| > 1 {
      PackedKeyMeaning(keys, cleared, env, m);
    }
  }

  lemma SingleKeyMeaning(keys: seq<nat>, cleared: set<nat>, env: Env, m: Machine)
    requires !m.returned && |keys| == 1
    ensures Exec(KeyCode(keys, cleared).0, env, m) == m.(keyValid := keys[0] in env.valid)
  {
    var snip := EmitSnippet(cleared, keys[0]);
    assert KeyCode(keys, cleared).0 == snip.0 + [BindKey(keys[0])];
    ExecAppend(snip.0, [BindKey(keys[0])], env, m);
    ExecPreparesOnly(snip.0, env, m);
    ExecSingle(BindKey(keys[0]), env, m);
  }

  lemma PackedKeyMeaning(keys: seq<nat>, cleared: set<nat>, env: Env, m: Machine)
    requires !m.returned && |keys| > 1
    ensures Exec(KeyCode(keys, cleared).0, env, m)
         == m.(keyValid := true, trace := m.trace + [Event(ResetRow, m.memo)] + RowEvents(keys, env.valid, m.memo))
  {
    var row := RowFields(keys, cleared);
    var head := [BindKeyAlwaysValid] + [Run(ResetRow)];
    assert KeyCode(keys, cleared).0 == head + row.0 + [BindKeyFromRow];
    ExecAppend([BindKeyAlwaysValid], [Run(ResetRow)], env, m);
    ExecSingle(BindKeyAlwaysValid, env, m);
    ExecSingle(Run(ResetRow), env, m.(keyValid := true));
    var m1 := Exec(head, env, m);
    assert m1 == m.(keyValid := true, trace := m.trace + [Event(ResetRow, m.memo)]);
    ExecAppend(head + row.0, [BindKeyFromRow], env, m);
    ExecAppend(head, row.0, env, m);
    RowFieldsPack(keys, cleared, env, m1);
    ExecSingle(BindKeyFromRow, env, Exec(head + row.0, env, m));
  }
}
