/**
 * The kernel's constructor. It records the input fields and the action list,
 * and decides whether the aggregate's output needs a final projection: when
 * the result field list and the result expression list render pairwise the
 * same, the output is already what was asked for and no projection is kept.
 */
module ResultProjection {
  import opened AggTypes

  /** What the constructor records; empty result lists mean "no projection". */
  datatype Kernel = Kernel(
    inputFields: seq<Field>,
    actions: seq<ActionNode>,
    resultFields: seq<Field>,
    resultExprs: seq<Node>)

  /** Every node is a column reference (the constructor casts them to one). */
  predicate AllFieldNodes(nodes: seq<Node>) {
    forall i :: 0 <= i < |nodes| ==> nodes[i].FieldNode?
  }

  function FieldsOf(nodes: seq<Node>): (r: seq<Field>)
    requires AllFieldNodes(nodes)
    ensures |r| == |nodes|
  {
    seq(|nodes|, i requires 0 <= i < |nodes| => nodes[i].field)
  }

  /** The two lists have equal length and render the same position by position. */
  predicate SameRendering(fieldNodes: seq<Node>, exprNodes: seq<Node>, render: Node -> string) {
    |fieldNodes| == |exprNodes| &&
    forall i :: 0 <= i < |fieldNodes| ==> render(fieldNodes[i]) == render(exprNodes[i])
  }

  /** Compares the two lists position by position, stopping at the first
      difference. */
  method IsIdentityProjection(fieldNodes: seq<Node>, exprNodes: seq<Node>, render: Node -> string)
    returns (same: bool)
    ensures same <==> SameRendering(fieldNodes, exprNodes, render)
  {
    if |fieldNodes| != |exprNodes| {
      return false;
    }
    same := true;
    var i := 0;
    while i < |fieldNodes|
      invariant 0 <= i <= |fieldNodes|
      invariant same <==> forall k :: 0 <= k < i ==> render(fieldNodes[k]) == render(exprNodes[k])
      invariant !same ==> i == |fieldNodes|
      decreases |fieldNodes| - i
    {
      if render(fieldNodes[i]) != render(exprNodes[i]) {
        same := false;
        i := |fieldNodes|;
      } else {
        i := i + 1;
      }
    }
  }

  /** Builds the kernel. The input nodes, and the result field nodes when a
      projection is kept, must be column references. A projection is kept
      exactly when the two result lists do not render the same; it then has
      the result fields as its schema and the result expressions as its
      expressions. */
  method NewKernel(inputNodes: seq<Node>, actions: seq<ActionNode>,
                   fieldNodes: seq<Node>, exprNodes: seq<Node>, render: Node -> string)
    returns (k: Kernel)
    requires AllFieldNodes(inputNodes)
    requires !SameRendering(fieldNodes, exprNodes, render) ==> AllFieldNodes(fieldNodes)
    ensures k.actions == actions
    ensures |k.inputFields| == |inputNodes|
    ensures forall i :: 0 <= i < |inputNodes| ==> k.inputFields[i] == inputNodes[i].field
    ensures SameRendering(fieldNodes, exprNodes, render) ==> k.resultFields == [] && k.resultExprs == []
    ensures !SameRendering(fieldNodes, exprNodes, render) ==>
      k.resultExprs == exprNodes && |k.resultFields| == |fieldNodes|
      && forall i :: 0 <= i < |fieldNodes| ==> k.resultFields[i] == fieldNodes[i].field
    ensures k.resultExprs != [] <==> exprNodes != [] && !SameRendering(fieldNodes, exprNodes, render)
  {
    var inputFields := FieldsOf(inputNodes);
    var same := IsIdentityProjection(fieldNodes, exprNodes, render);
    if same {
      return Kernel(inputFields, actions, [], []);
    }
    k := Kernel(inputFields, actions, FieldsOf(fieldNodes), exprNodes);
  }
}
