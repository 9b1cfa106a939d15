/**
 * The state the generated stage keeps across calls once all input has been
 * consumed, and the finish block that pages the aggregated groups out. The
 * offset is a `uint64_t` and the group high-water mark an `int` that starts
 * at -1; the stop test compares the two, which in C++ converts the `int` to
 * `uint64_t`. Each finish call asks every action for the page of at most
 * 10000 groups starting at the offset, then advances the offset (and the
 * framework's `out_length`) by the length of the first returned array.
 */
module FinishCursor {
  import opened CodeIr

  const PageSize := 10000
  const TwoTo64 := 0x1_0000_0000_0000_0000

  /** `x` converted to `uint64_t` (two's complement for negative values). */
  function ToUnsigned(x: int): (r: nat)
    ensures r < TwoTo64
    ensures 0 <= x < TwoTo64 ==> r == x
    ensures -TwoTo64 <= x < 0 ==> r == x + TwoTo64
  {
    x % TwoTo64
  }

  /** The stage's aggregation state. `outLength` is the framework's running
      output length, modelled as an unbounded integer. */
  datatype Cursor = Cursor(finished: bool, offset: nat, numGroups: int, outLength: int, shouldStop: bool)

  /** The declared initial values: not finished, offset 0, no group seen. */
  function Initial(outLength: int): (c: Cursor)
    ensures !c.finished && !c.shouldStop && c.offset == 0 && c.numGroups == -1 && c.outLength == outLength
  {
    Cursor(false, 0, -1, outLength, false)
  }

  /** The process block's last statement for one row with group `memo`. */
  function ObserveGroup(c: Cursor, memo: int): (r: Cursor)
    ensures r.numGroups >= c.numGroups && r.numGroups >= memo
    ensures r.numGroups == c.numGroups || r.numGroups == memo
    ensures r == c.(numGroups := r.numGroups)
  {
    c.(numGroups := Raise(c.numGroups, memo))
  }

  /** A `Finish(offset, length, &out)` call on one action. */
  datatype Request = Request(action: nat, offset: nat, length: nat)

  /** One finish call with `numActions` actions, where `outs` are the
      lengths of the arrays the actions returned. Returns the new state and
      the requests made, in action order. */
  function FinishStep(c: Cursor, numActions: nat, outs: seq<nat>): (r: (Cursor, seq<Request>))
    requires c.offset < TwoTo64
    ensures r.0.finished && r.0.numGroups == c.numGroups && r.0.offset < TwoTo64
    ensures |r.1| == numActions
    ensures forall i :: 0 <= i < numActions ==> r.1[i] == Request(i, c.offset, PageSize)
    ensures |outs| == 0 ==> r.0.offset == c.offset && r.0.outLength == c.outLength
    ensures |outs| > 0 && c.offset + outs[0] < TwoTo64 ==>
      r.0.offset == c.offset + outs[0] && r.0.outLength == c.outLength + outs[0]
    ensures r.0.shouldStop <==> r.0.outLength == 0 || ToUnsigned(c.numGroups) < r.0.offset
  {
    var requests := seq(numActions, i requires 0 <= i < numActions => Request(i, c.offset, PageSize));
    var advance := if |outs| > 0 then outs[0] else 0;
    var offset := (c.offset + advance) % TwoTo64;
    var outLength := c.outLength + advance;
    var stop := outLength == 0 || ToUnsigned(c.numGroups) < offset;
    (Cursor(true, offset, c.numGroups, outLength, stop), requests)
  }

  /** What can happen to the state: a row is processed, or a finish call
      runs. */
  datatype Op = Observe(memo: int) | Finish(numActions: nat, outs: seq<nat>)

  function Apply(c: Cursor, op: Op): (r: Cursor)
    requires c.offset < TwoTo64
    ensures r.offset < TwoTo64
  {
    match op
    case Observe(memo) => ObserveGroup(c, memo)
    case Finish(n, outs) => FinishStep(c, n, outs).0
  }

  function Run(c: Cursor, ops: seq<Op>): (r: Cursor)
    requires c.offset < TwoTo64
    ensures r.offset < TwoTo64
    decreases |ops|
  {
    if |ops| == 0 then c else Apply(Run(c, ops[..|ops| - 1]), ops[|ops| - 1])
  }

  /** Once set, the finished flag is never cleared, and a run from the
      initial state is finished exactly when it contains a finish call. */
  lemma {:induction false} FinishedIsSticky(c: Cursor, ops: seq<Op>)
    requires c.offset < TwoTo64
    ensures c.finished ==> Run(c, ops).finished
    ensures !c.finished ==> (Run(c, ops).finished <==> exists i :: 0 <= i < |ops| && ops[i].Finish?)
    decreases |ops|
  {
    if |ops| > 0 {
      var init := ops[..|ops| - 1];
      FinishedIsSticky(c, init);
      if exists i :: 0 <= i < |init| && init[i].Finish? {
        var i :| 0 <= i < |init| && init[i].Finish?;
        assert ops[i] == init[i];
      }
      if exists i :: 0 <= i < |ops| && ops[i].Finish? {
        var i :| 0 <= i < |ops| && ops[i].Finish?;
        if i < |init| {
          assert init[i] == ops[i];
        }
      }
    }
  }

  /** Reference definition of the high-water mark: -1, or the largest group
      id seen. */
  function HighWater(ids: seq<int>): (h: int)
    decreases |ids|
  {
    if |ids| == 0 then -1 else
      var prior := HighWater(ids[..|ids| - 1]);
      if ids[|ids| - 1] > prior then ids[|ids| - 1] else prior
  }

  function Observations(ids: seq<int>): (ops: seq<Op>)
    ensures |ops| == |ids| && forall i :: 0 <= i < |ids| ==> ops[i] == Observe(ids[i])
  {
    seq(|ids|, i requires 0 <= i < |ids| => Observe(ids[i]))
  }

  /** Processing rows with group ids `ids` leaves the high-water mark at
      their maximum (at least -1), which bounds every id and is one of them
      unless there were none. */
  lemma {:induction false} HighWaterMark(ids: seq<int>, outLength: int)
    ensures Run(Initial(outLength), Observations(ids)).numGroups == HighWater(ids)
    ensures forall i :: 0 <= i < |ids| ==> ids[i] <= HighWater(ids)
    ensures HighWater(ids) == -1 || exists i :: 0 <= i < |ids| && ids[i] == HighWater(ids)
    ensures HighWater(ids) >= -1
    decreases |ids|
  {
    if |ids| > 0 {
      var init := ids[..|ids| - 1];
      HighWaterMark(init, outLength);
      assert Observations(ids)[..|ids| - 1] == Observations(init);
      if HighWater(init) != -1 && HighWater(ids) == HighWater(init) {
        var i :| 0 <= i < |init| && init[i] == HighWater(init);
        assert ids[i] == init[i];
      }
      forall i | 0 <= i < |ids|
        ensures ids[i] <= HighWater(ids)
      {
        if i < |init| {
          assert ids[i] == init[i];
        }
      }
    }
  }

  /** With no group seen, `num_groups` converts to the largest `uint64_t`,
      which no offset exceeds: the stage stops exactly when nothing was
      output. */
  lemma NoGroupsStopsOnEmptyOutput(c: Cursor, numActions: nat, outs: seq<nat>)
    requires c.offset < TwoTo64 && c.numGroups == -1
    ensures FinishStep(c, numActions, outs).0.shouldStop <==> FinishStep(c, numActions, outs).0.outLength == 0
  {
  }

  /** The condition the generated stage reports as its finish condition:
      the finished flag itself, not the stop flag. */
  predicate Completed(c: Cursor) {
    c.finished
  }

  /** A finish call completes the stage whatever its stop test says; from
      the initial state the stage is complete exactly after some finish
      call. */
  lemma CompletionCondition(outLength: int, ops: seq<Op>, c: Cursor, numActions: nat, outs: seq<nat>)
    requires c.offset < TwoTo64
    ensures Completed(FinishStep(c, numActions, outs).0)
    ensures !Completed(Initial(outLength))
    ensures Completed(Run(Initial(outLength), ops)) <==> exists i :: 0 <= i < |ops| && ops[i].Finish?
  {
    FinishedIsSticky(Initial(outLength), ops);
  }

  /** The stage is complete after its first finish call even while groups
      remain to be paged out and the stop flag is still clear. */
  lemma CompletedBeforeDrained()
    ensures var c := Run(Initial(0), [Observe(20000), Finish(1, [PageSize])]);
      Completed(c) && !c.shouldStop && c.offset < 20000
  {
    var ops := [Observe(20000), Finish(1, [PageSize])];
    assert ops[..1] == [Observe(20000)] && ops[..1][..0] == [];
    var c1 := Run(Initial(0), ops[..1]);
    assert Run(Initial(0), ops[..1][..0]) == Initial(0);
    assert c1 == Apply(Initial(0), Observe(20000)) == ObserveGroup(Initial(0), 20000);
    assert c1.numGroups == 20000 && c1.offset == 0 && c1.outLength == 0;
    assert ToUnsigned(20000) == 20000;
    var c2 := FinishStep(c1, 1, [PageSize]).0;
    assert Run(Initial(0), ops) == c2;
    assert c2.offset == PageSize && c2.outLength == PageSize;
  }

  // ---------------------------------------------------------------------
  // Paging out G groups

  /** The length of the page an action returns for `groups` groups at `offset`. */
  function Page(groups: nat, offset: nat): (n: nat)
    ensures n <= PageSize
    ensures offset < groups ==> n > 0 && offset + n <= groups
  {
    if offset >= groups then 0 else if groups - offset < PageSize then groups - offset else PageSize
  }

  /** The state after `k` finish calls over `groups` groups, each answered
      with the page at the current offset. */
  function Drain(c: Cursor, numActions: nat, groups: nat, k: nat): (r: Cursor)
    requires c.offset < TwoTo64
    ensures r.offset < TwoTo64 && r.numGroups == c.numGroups
    ensures k > 0 ==> r.finished
    decreases k
  {
    if k == 0 then c
    else
      var prior := Drain(c, numActions, groups, k - 1);
      FinishStep(prior, numActions, [Page(groups, prior.offset)]).0
  }

  /** After `k >= 1` finish calls over `groups >= 1` groups (high-water mark
      `groups - 1`) from offset 0, the offset is `min(k * 10000, groups)`
      and the stage has stopped exactly when `k * 10000 >= groups`. */
  lemma {:induction false} DrainProgress(numActions: nat, groups: nat, outLength: nat, k: nat)
    requires 1 <= groups <= 0x8000_0000 && 1 <= k
    ensures var c := Cursor(false, 0, groups - 1, outLength, false);
      && Drain(c, numActions, groups, k).offset == (if k * PageSize < groups then k * PageSize else groups)
      && Drain(c, numActions, groups, k).outLength >= 1
      && (Drain(c, numActions, groups, k).shouldStop <==> k * PageSize >= groups)
    decreases k
  {
    var c := Cursor(false, 0, groups - 1, outLength, false);
    var prior := Drain(c, numActions, groups, k - 1);
    if k == 1 {
      assert prior == c;
    } else {
      DrainProgress(numActions, groups, outLength, k - 1);
      assert prior.offset == (if (k - 1) * PageSize < groups then (k - 1) * PageSize else groups);
    }
    var p := Page(groups, prior.offset);
    assert k * PageSize == (k - 1) * PageSize + PageSize;
    assert prior.offset + p == (if k * PageSize < groups then k * PageSize else groups);
    assert ToUnsigned(groups - 1) == groups - 1;
    var next := Drain(c, numActions, groups, k);
    assert next == FinishStep(prior, numActions, [p]).0;
    assert next.offset == prior.offset + p;
    assert next.outLength == prior.outLength + p >= 1;
    assert next.shouldStop <==> groups - 1 < next.offset;
  }

  /** Paging out `groups >= 1` groups takes exactly `ceil(groups / 10000)`
      finish calls: the stage has not stopped after fewer, stops at that
      call, and the offset then equals the number of groups. */
  lemma DrainCallCount(numActions: nat, groups: nat, outLength: nat)
    requires 1 <= groups <= 0x8000_0000
    ensures var c := Cursor(false, 0, groups - 1, outLength, false);
      var calls := (groups + PageSize - 1) / PageSize;
      && calls >= 1
      && Drain(c, numActions, groups, calls).shouldStop
      && Drain(c, numActions, groups, calls).offset == groups
      && forall k :: 1 <= k < calls ==> !Drain(c, numActions, groups, k).shouldStop
  {
    var c := Cursor(false, 0, groups - 1, outLength, false);
    var calls := (groups + PageSize - 1) / PageSize;
    DrainProgress(numActions, groups, outLength, calls);
    forall k | 1 <= k < calls
      ensures !Drain(c, numActions, groups, k).shouldStop
    {
      DrainProgress(numActions, groups, outLength, k);
      assert k * PageSize < groups;
    }
  }
}
