/**
 * The expression pool: argument expressions of all actions, deduplicated by
 * their textual rendering, in first-seen order. A pool slot is an index into
 * the pool; one slot is evaluated once per row however many actions use it.
 */
module ExprPool {
  import opened AggTypes

  /** No two pool entries render the same. */
  ghost predicate Distinct(pool: seq<Node>, render: Node -> string) {
    forall i, j :: 0 <= i < j < |pool| ==> render(pool[i]) != render(pool[j])
  }

  /** Some entry of `xs` renders as `key`. */
  ghost predicate Rendered(xs: seq<Node>, key: string, render: Node -> string) {
    exists k :: 0 <= k < |xs| && render(xs[k]) == key
  }

  /** The first index of the pool whose rendering is `key`, scanning from the front. */
  function Lookup(pool: seq<Node>, key: string, render: Node -> string): (r: Option<nat>)
    ensures r.Some? ==> r.value < |pool| && render(pool[r.value]) == key
    ensures r.Some? ==> forall k :: 0 <= k < r.value ==> render(pool[k]) != key
    ensures r.None? <==> !Rendered(pool, key, render)
    decreases |pool|
  {
    if |pool| == 0 then None
    else if render(pool[0]) == key then Some(0)
    else
      match Lookup(pool[1..], key, render)
      case None =>
        assert forall k :: 1 <= k < |pool| ==> pool[k] == pool[1..][k - 1];
        None
      case Some(i) => Some(i + 1)
  }

  /** Interns one expression: a render-equal entry is reused, otherwise the
      expression is appended. Returns the new pool and the expression's slot. */
  function Intern(pool: seq<Node>, x: Node, render: Node -> string): (r: (seq<Node>, nat))
    ensures r.1 < |r.0| && render(r.0[r.1]) == render(x)
    ensures Rendered(pool, render(x), render) ==> r.0 == pool
    ensures !Rendered(pool, render(x), render) ==> r.0 == pool + [x] && r.1 == |pool|
    ensures Distinct(pool, render) ==> Distinct(r.0, render)
  {
    match Lookup(pool, render(x), render)
    case Some(i) => (pool, i)
    case None => (pool + [x], |pool|)
  }

  /** Interns `xs` left to right, returning the pool and the slot of each element. */
  function InternAll(pool: seq<Node>, xs: seq<Node>, render: Node -> string): (r: (seq<Node>, seq<nat>))
    ensures |r.1| == |xs|
    decreases |xs|
  {
    if |xs| == 0 then (pool, [])
    else
      var prior := InternAll(pool, xs[..|xs| - 1], render);
      var step := Intern(prior.0, xs[|xs| - 1], render);
      (step.0, prior.1 + [step.1])
  }

  /** Interning keeps the pool as a prefix, gives each element a slot that
      renders like it, takes every new slot for some element, and keeps the
      pool duplicate-free. */
  lemma {:induction false} InternAllFacts(pool: seq<Node>, xs: seq<Node>, render: Node -> string)
    ensures var r := InternAll(pool, xs, render);
      && |pool| <= |r.0| && r.0[..|pool|] == pool
      && (forall j :: 0 <= j < |xs| ==> r.1[j] < |r.0| && render(r.0[r.1[j]]) == render(xs[j]))
      && (forall s :: |pool| <= s < |r.0| ==> s in r.1)
      && (Distinct(pool, render) ==> Distinct(r.0, render))
    decreases |xs|
  {
    if |xs| > 0 {
      var init := xs[..|xs| - 1];
      var prior := InternAll(pool, init, render);
      var step := Intern(prior.0, xs[|xs| - 1], render);
      var r := InternAll(pool, xs, render);
      InternAllFacts(pool, init, render);
      assert r == (step.0, prior.1 + [step.1]);
      assert step.0[..|prior.0|] == prior.0;
      assert step.0[..|pool|] == prior.0[..|pool|];
      forall j | 0 <= j < |xs|
        ensures r.1[j] < |r.0| && render(r.0[r.1[j]]) == render(xs[j])
      {
        if j < |init| {
          assert r.1[j] == prior.1[j] && xs[j] == init[j];
          assert r.0[prior.1[j]] == prior.0[prior.1[j]];
        }
      }
      forall s | |pool| <= s < |r.0|
        ensures s in r.1
      {
        if s < |prior.0| {
          assert s in prior.1;
          var j :| 0 <= j < |prior.1| && prior.1[j] == s;
          assert r.1[j] == s;
        } else {
          assert r.1[|init|] == s;
        }
      }
    }
  }

  /** Reference definition of first-seen order: the elements of `xs` that no
      earlier element matches by rendering, in their order in `xs`. */
  ghost function Firsts(xs: seq<Node>, render: Node -> string): seq<Node>
    decreases |xs|
  {
    if |xs| == 0 then []
    else
      var init := xs[..|xs| - 1];
      if Rendered(init, render(xs[|xs| - 1]), render) then Firsts(init, render)
      else Firsts(init, render) + [xs[|xs| - 1]]
  }

  /** A rendering occurs in `s + [y]` iff it occurs in `s` or is `y`'s. */
  lemma RenderedSnoc(s: seq<Node>, y: Node, key: string, render: Node -> string)
    ensures Rendered(s + [y], key, render) <==> Rendered(s, key, render) || render(y) == key
  {
    if Rendered(s + [y], key, render) {
      var k :| 0 <= k < |s + [y]| && render((s + [y])[k]) == key;
      if k < |s| {
        assert (s + [y])[k] == s[k];
      }
    }
    if Rendered(s, key, render) {
      var k :| 0 <= k < |s| && render(s[k]) == key;
      assert (s + [y])[k] == s[k];
    }
    if render(y) == key {
      assert (s + [y])[|s|] == y;
    }
  }

  /** Keeping first occurrences loses no rendering. */
  lemma {:induction false} FirstsKeepRenderings(xs: seq<Node>, key: string, render: Node -> string)
    ensures Rendered(Firsts(xs, render), key, render) <==> Rendered(xs, key, render)
    decreases |xs|
  {
    if |xs| > 0 {
      var init := xs[..|xs| - 1];
      var x := xs[|xs| - 1];
      assert xs == init + [x];
      FirstsKeepRenderings(init, key, render);
      RenderedSnoc(init, x, key, render);
      if Rendered(init, render(x), render) {
        if render(x) == key {
          assert Rendered(init, key, render);
        }
      } else {
        RenderedSnoc(Firsts(init, render), x, key, render);
      }
    }
  }

  /** Interning into an empty pool yields exactly the first occurrences, in
      first-seen order. */
  lemma {:induction false} InternAllIsFirsts(xs: seq<Node>, render: Node -> string)
    ensures InternAll([], xs, render).0 == Firsts(xs, render)
    decreases |xs|
  {
    if |xs| > 0 {
      var init := xs[..|xs| - 1];
      var x := xs[|xs| - 1];
      InternAllIsFirsts(init, render);
      FirstsKeepRenderings(init, render(x), render);
    }
  }

  /** One step of `InternAll`'s definition. */
  lemma InternAllUnfold(pool: seq<Node>, zs: seq<Node>, render: Node -> string)
    requires |zs| > 0
    ensures var prior := InternAll(pool, zs[..|zs| - 1], render);
      var step := Intern(prior.0, zs[|zs| - 1], render);
      InternAll(pool, zs, render) == (step.0, prior.1 + [step.1])
  {
  }

  /** Interning a concatenation is interning its two halves in turn. */
  lemma {:induction false} InternAllAppend(pool: seq<Node>, xs: seq<Node>, ys: seq<Node>, render: Node -> string)
    ensures InternAll(pool, xs + ys, render).0 == InternAll(InternAll(pool, xs, render).0, ys, render).0
    ensures InternAll(pool, xs + ys, render).1
         == InternAll(pool, xs, render).1 + InternAll(InternAll(pool, xs, render).0, ys, render).1
    decreases |ys|
  {
    var first := InternAll(pool, xs, render);
    if |ys| == 0 {
      assert xs + ys == xs;
      assert first.1 + [] == first.1;
    } else {
      var ys' := ys[..|ys| - 1];
      var y := ys[|ys| - 1];
      assert (xs + ys)[..|xs + ys| - 1] == xs + ys';
      assert (xs + ys)[|xs + ys| - 1] == y;
      InternAllAppend(pool, xs, ys', render);
      var whole := InternAll(pool, xs + ys', render);
      var rest := InternAll(first.0, ys', render);
      var step := Intern(rest.0, y, render);
      InternAllUnfold(pool, xs + ys, render);
      InternAllUnfold(first.0, ys, render);
      assert (first.1 + rest.1) + [step.1] == first.1 + (rest.1 + [step.1]);
    }
  }

  /** In a duplicate-free pool a rendering names at most one slot. */
  lemma SlotOfRendering(pool: seq<Node>, render: Node -> string, i: nat, j: nat)
    requires Distinct(pool, render)
    requires i < |pool| && j < |pool|
    requires render(pool[i]) == render(pool[j])
    ensures i == j
  {
  }
}
