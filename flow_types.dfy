/** The in-memory graph that the flow builder edits: nodes, edges and the
    small sequence utilities the validator and the editor share. */
module FlowTypes {

  datatype Option<+T> = None | Some(value: T)

  /** A canvas position. Nothing in the model computes with it. */
  datatype Position = Position(x: real, y: real)

  /** A node of the flow. Its data payload maps field names (only "label" is
      ever written) to their text. */
  datatype Node = Node(id: string, nodeType: string, position: Position, data: map<string, string>)

  /** A directed edge, as a connection gesture describes it. A handle is
      absent (`null` in the connection) when the node exposes one unnamed handle. */
  datatype Edge = Edge(source: string, sourceHandle: Option<string>, target: string, targetHandle: Option<string>)

  /** The ids of `nodes`, in node order. */
  function Ids(nodes: seq<Node>): (r: seq<string>)
    ensures |r| == |nodes|
    ensures forall i :: 0 <= i < |nodes| ==> r[i] == nodes[i].id
  {
    if nodes == [] then [] else [nodes[0].id] + Ids(nodes[1..])
  }

  /** The elements of `xs` separated by `sep`, as an array's `join` builds it. */
  function Join(xs: seq<string>, sep: string): (r: string)
    ensures |xs| == 0 ==> r == ""
    ensures |xs| == 1 ==> r == xs[0]
    ensures |xs| >= 1 ==> |r| >= |xs[0]| && r[..|xs[0]|] == xs[0]
  {
    if |xs| == 0 then ""
    else if |xs| == 1 then xs[0]
    else xs[0] + sep + Join(xs[1..], sep)
  }

  /** Joining splits the same way from the right: everything but the last
      element joined, the separator, then the last element. */
  lemma {:induction false} JoinSnoc(xs: seq<string>, sep: string)
    requires |xs| >= 2
    ensures Join(xs, sep) == Join(xs[..|xs| - 1], sep) + sep + xs[|xs| - 1]
  {
    var init := xs[..|xs| - 1];
    assert init[0] == xs[0];
    if |xs| > 2 {
      JoinSnoc(xs[1..], sep);
      assert xs[1..][..|xs| - 2] == init[1..];
      assert xs[1..][|xs| - 2] == xs[|xs| - 1];
    } else {
      assert init == [xs[0]] && xs[1..] == [xs[1]];
    }
  }

  /** `a` can be obtained from `b` by deleting elements, keeping the order of the rest. */
  predicate IsSubsequence<T(==)>(a: seq<T>, b: seq<T>)
  {
    if a == [] then true
    else if b == [] then false
    else if a[0] == b[0] then IsSubsequence(a[1..], b[1..])
    else IsSubsequence(a, b[1..])
  }

  lemma {:induction false} JoinPair(a: string, b: string, sep: string)
    ensures Join([a, b], sep) == a + sep + b
  {
  }

  /** Keeping the order: mapping a subsequence to ids gives a subsequence of the ids. */
  lemma {:induction false} IdsOfSubsequence(a: seq<Node>, b: seq<Node>)
    requires IsSubsequence(a, b)
    ensures IsSubsequence(Ids(a), Ids(b))
    decreases |a| + |b|
  {
    if a == [] {
    } else if a[0] == b[0] {
      IdsOfSubsequence(a[1..], b[1..]);
      assert Ids(a)[1..] == Ids(a[1..]);
      assert Ids(b)[1..] == Ids(b[1..]);
    } else {
      IdsOfSubsequence(a, b[1..]);
      assert Ids(b)[1..] == Ids(b[1..]);
      if Ids(a)[0] == Ids(b)[0] {
        // The greedy match may pair the first ids even though the nodes differ.
        SubsequenceTail(Ids(a), Ids(b[1..]));
      }
    }
  }

  /** Dropping the first element of a subsequence leaves a subsequence. */
  lemma {:induction false} SubsequenceTail<T>(a: seq<T>, b: seq<T>)
    requires a != [] && IsSubsequence(a, b)
    ensures IsSubsequence(a[1..], b)
    decreases |b|, 1
  {
    if a[0] != b[0] {
      SubsequenceTail(a, b[1..]);
    }
    SubsequenceWeaken(a[1..], b);
  }

  /** A subsequence of a suffix is a subsequence of the whole. */
  lemma {:induction false} SubsequenceWeaken<T>(a: seq<T>, b: seq<T>)
    requires b != [] && IsSubsequence(a, b[1..])
    ensures IsSubsequence(a, b)
    decreases |b|, 0
  {
    if a != [] && a[0] == b[0] {
      SubsequenceTail(a, b[1..]);
    }
  }
}
