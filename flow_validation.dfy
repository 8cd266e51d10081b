/** The save-time check of a flow and the statistics derived from the same
    entry/exit computation. Everything here is a pure function of the node
    and edge sequences. */
module FlowValidation {
  import opened FlowTypes

  /** The fixed start of the message of a flow that has more than one entry node. */
  const SaveErrorPrefix: string :=
    "Cannot save Flow: More than one node has empty target handles. Nodes without incoming connections: "

  datatype FlowValidationResult = FlowValidationResult(isValid: bool, errorMessage: string)

  datatype FlowStats = FlowStats(
    totalNodes: nat,
    totalEdges: nat,
    startNodes: nat,
    endNodes: nat,
    startNodeIds: seq<string>,
    endNodeIds: seq<string>)

  /** The end of an edge at which a node is looked up: an outgoing edge has
      the node as its source, an incoming edge as its target. */
  datatype End = Source | Target

  function EndOf(e: Edge, end: End): string
  {
    match end
    case Source => e.source
    case Target => e.target
  }

  /** Some edge has `id` at its `end`. */
  predicate Touches(edges: seq<Edge>, id: string, end: End)
  {
    exists i :: 0 <= i < |edges| && EndOf(edges[i], end) == id
  }

  /** The nodes, in node order, that no edge has at its `end`: with `Target`
      the entry nodes (no incoming edge), with `Source` the exit nodes (no
      outgoing edge). */
  function NodesWithout(nodes: seq<Node>, edges: seq<Edge>, end: End): (r: seq<Node>)
    ensures |r| <= |nodes|
    ensures forall n :: n in r <==> n in nodes && !Touches(edges, n.id, end)
  {
    if nodes == [] then []
    else if Touches(edges, nodes[0].id, end) then NodesWithout(nodes[1..], edges, end)
    else [nodes[0]] + NodesWithout(nodes[1..], edges, end)
  }

  /** No two distinct positions of `nodes` both hold a node that no edge has
      at its `end`. */
  predicate AtMostOneWithout(nodes: seq<Node>, edges: seq<Edge>, end: End)
  {
    forall i, j :: 0 <= i < j < |nodes| && !Touches(edges, nodes[i].id, end) ==> Touches(edges, nodes[j].id, end)
  }

  /** The set of node ids that some edge points to. */
  function Targets(edges: seq<Edge>): set<string>
  {
    set i | 0 <= i < |edges| :: edges[i].target
  }

  /** The save-time check: a flow of more than one node may have at most one
      node without an incoming edge; otherwise the message lists those nodes. */
  function ValidateFlow(nodes: seq<Node>, edges: seq<Edge>): (r: FlowValidationResult)
    ensures r.isValid <==> r.errorMessage == ""
    ensures |nodes| <= 1 ==> r.isValid
    ensures r.isValid <==> |NodesWithout(nodes, edges, Target)| <= 1
    ensures !r.isValid ==>
      r.errorMessage == SaveErrorPrefix + Join(Ids(NodesWithout(nodes, edges, Target)), ", ")
  {
    if |nodes| <= 1 then
      FlowValidationResult(true, "")
    else
      var entries := NodesWithout(nodes, edges, Target);
      if |entries| > 1 then
        FlowValidationResult(false, SaveErrorPrefix + Join(Ids(entries), ", "))
      else
        FlowValidationResult(true, "")
  }

  /** Counts and id lists of entry and exit nodes, for reporting only. */
  function GetFlowStats(nodes: seq<Node>, edges: seq<Edge>): (r: FlowStats)
    ensures r.totalNodes == |nodes| && r.totalEdges == |edges|
    ensures r.startNodes == |r.startNodeIds| <= |nodes|
    ensures r.endNodes == |r.endNodeIds| <= |nodes|
  {
    var starts := NodesWithout(nodes, edges, Target);
    var ends := NodesWithout(nodes, edges, Source);
    FlowStats(|nodes|, |edges|, |starts|, |ends|, Ids(starts), Ids(ends))
  }

  // ---------------------------------------------------------------------
  // The filter

  /** The filter keeps the order of the nodes it keeps. */
  lemma {:induction false} NodesWithoutIsSubsequence(nodes: seq<Node>, edges: seq<Edge>, end: End)
    ensures IsSubsequence(NodesWithout(nodes, edges, end), nodes)
  {
    if nodes != [] {
      var rest := NodesWithout(nodes[1..], edges, end);
      NodesWithoutIsSubsequence(nodes[1..], edges, end);
      if Touches(edges, nodes[0].id, end) {
        SubsequenceWeaken(rest, nodes);
      } else {
        assert ([nodes[0]] + rest)[1..] == rest;
      }
    }
  }

  /** Filtering a concatenation filters each part. */
  lemma {:induction false} NodesWithoutAppend(a: seq<Node>, b: seq<Node>, edges: seq<Edge>, end: End)
    ensures NodesWithout(a + b, edges, end) == NodesWithout(a, edges, end) + NodesWithout(b, edges, end)
  {
    if a != [] {
      assert (a + b)[1..] == a[1..] + b;
      NodesWithoutAppend(a[1..], b, edges, end);
    } else {
      assert a + b == b;
    }
  }

  /** "At most one node is kept by the filter" is the same as "no two
      positions hold nodes the filter keeps". */
  lemma {:induction false} AtMostOneWithoutIff(nodes: seq<Node>, edges: seq<Edge>, end: End)
    ensures |NodesWithout(nodes, edges, end)| <= 1 <==> AtMostOneWithout(nodes, edges, end)
  {
    if nodes != [] {
      var tail := nodes[1..];
      AtMostOneWithoutIff(tail, edges, end);
      if Touches(edges, nodes[0].id, end) {
        if AtMostOneWithout(tail, edges, end) {
          forall i, j | 0 <= i < j < |nodes| && !Touches(edges, nodes[i].id, end)
            ensures Touches(edges, nodes[j].id, end)
          {
            assert i > 0 && nodes[i] == tail[i - 1] && nodes[j] == tail[j - 1];
          }
        } else {
          var i, j :| 0 <= i < j < |tail| && !Touches(edges, tail[i].id, end) && !Touches(edges, tail[j].id, end);
          assert nodes[i + 1] == tail[i] && nodes[j + 1] == tail[j];
        }
      } else {
        var rest := NodesWithout(tail, edges, end);
        if rest == [] {
          forall i, j | 0 <= i < j < |nodes| && !Touches(edges, nodes[i].id, end)
            ensures Touches(edges, nodes[j].id, end)
          {
            assert nodes[j] == tail[j - 1] && nodes[j] in tail;
          }
        } else {
          assert rest[0] in tail;
          var j :| 0 <= j < |tail| && tail[j] == rest[0];
          assert nodes[j + 1] == tail[j];
        }
      }
    }
  }

  /** The number of nodes the filter keeps does not depend on the order of the nodes. */
  lemma {:induction false} NodesWithoutCountIgnoresOrder(n1: seq<Node>, n2: seq<Node>, edges: seq<Edge>, end: End)
    requires multiset(n1) == multiset(n2)
    ensures |NodesWithout(n1, edges, end)| == |NodesWithout(n2, edges, end)|
    decreases |n1|
  {
    if n1 == [] {
      assert |n2| == |multiset(n2)| == 0;
      assert n2 == [];
    } else {
      var k := IndexOf(n2, n1[0]);
      var rest1, rest2 := n1[..0] + n1[1..], n2[..k] + n2[k + 1..];
      assert multiset(rest1) == multiset(rest2) by {
        MultisetRemoveAt(n1, 0);
        MultisetRemoveAt(n2, k);
      }
      assert |rest1| < |n1|;
      calc {
        |NodesWithout(n1, edges, end)|;
      == { CountWithoutRemoveAt(n1, 0, edges, end); }
        |NodesWithout([n1[0]], edges, end)| + |NodesWithout(rest1, edges, end)|;
      == { NodesWithoutCountIgnoresOrder(rest1, rest2, edges, end); }
        |NodesWithout([n1[0]], edges, end)| + |NodesWithout(rest2, edges, end)|;
      == { CountWithoutRemoveAt(n2, k, edges, end); }
        |NodesWithout(n2, edges, end)|;
      }
    }
  }

  /** Taking one node out of a list takes out its own contribution to the count. */
  lemma CountWithoutRemoveAt(s: seq<Node>, k: nat, edges: seq<Edge>, end: End)
    requires k < |s|
    ensures |NodesWithout(s, edges, end)|
      == |NodesWithout([s[k]], edges, end)| + |NodesWithout(s[..k] + s[k + 1..], edges, end)|
  {
    var front, back := s[..k], s[k + 1..];
    assert s == front + ([s[k]] + back);
    NodesWithoutAppend(front, [s[k]] + back, edges, end);
    NodesWithoutAppend([s[k]], back, edges, end);
    NodesWithoutAppend(front, back, edges, end);
  }

  /** The ids the filter keeps depend on the nodes only through their ids. */
  lemma {:induction false} NodesWithoutIdsFollowIds(a: seq<Node>, b: seq<Node>, edges: seq<Edge>, end: End)
    requires Ids(a) == Ids(b)
    ensures Ids(NodesWithout(a, edges, end)) == Ids(NodesWithout(b, edges, end))
  {
    if a != [] {
      assert |b| == |a| && a[0].id == Ids(a)[0] == Ids(b)[0] == b[0].id;
      assert Ids(a[1..]) == Ids(a)[1..] && Ids(b[1..]) == Ids(b)[1..];
      NodesWithoutIdsFollowIds(a[1..], b[1..], edges, end);
      var ra, rb := NodesWithout(a[1..], edges, end), NodesWithout(b[1..], edges, end);
      if !Touches(edges, a[0].id, end) {
        assert Ids([a[0]] + ra)[1..] == Ids(ra);
        assert Ids([b[0]] + rb)[1..] == Ids(rb);
      }
    }
  }

  /** A position of `x` in `s`, when `s` holds it. */
  lemma IndexOf<T>(s: seq<T>, x: T) returns (k: nat)
    requires x in multiset(s)
    ensures k < |s| && s[k] == x
  {
    assert x in s;
    k :| k < |s| && s[k] == x;
  }

  lemma MultisetRemoveAt<T>(s: seq<T>, k: nat)
    requires k < |s|
    ensures multiset(s[..k] + s[k + 1..]) == multiset(s) - multiset{s[k]}
  {
    assert s == s[..k] + [s[k]] + s[k + 1..];
  }

  /** The filter reads the edges only through which ids they have at `end`. */
  lemma {:induction false} NodesWithoutAgree(nodes: seq<Node>, e1: seq<Edge>, e2: seq<Edge>, end: End)
    requires forall id :: Touches(e1, id, end) <==> Touches(e2, id, end)
    ensures NodesWithout(nodes, e1, end) == NodesWithout(nodes, e2, end)
  {
    if nodes != [] {
      NodesWithoutAgree(nodes[1..], e1, e2, end);
    }
  }

  lemma TouchesTarget(edges: seq<Edge>, id: string)
    ensures Touches(edges, id, Target) <==> id in Targets(edges)
  {
  }

  // ---------------------------------------------------------------------
  // validateFlow

  /** A flow of zero or one node is valid, whatever its edges. */
  lemma ValidateFlowSmall(nodes: seq<Node>, edges: seq<Edge>)
    requires |nodes| <= 1
    ensures ValidateFlow(nodes, edges) == FlowValidationResult(true, "")
  {
  }

  /** The flow is valid exactly when no two of its nodes both lack an incoming edge. */
  lemma ValidIffAtMostOneEntry(nodes: seq<Node>, edges: seq<Edge>)
    ensures ValidateFlow(nodes, edges).isValid <==> AtMostOneWithout(nodes, edges, Target)
  {
    AtMostOneWithoutIff(nodes, edges, Target);
  }

  /** An invalid flow's message names exactly the ids of the nodes without an
      incoming edge, in node order. */
  lemma InvalidMessageNamesEntries(nodes: seq<Node>, edges: seq<Edge>)
    requires !ValidateFlow(nodes, edges).isValid
    ensures var msg := ValidateFlow(nodes, edges).errorMessage;
      && msg == SaveErrorPrefix + Join(Ids(NodesWithout(nodes, edges, Target)), ", ")
      && |msg| > |SaveErrorPrefix| && msg[..|SaveErrorPrefix|] == SaveErrorPrefix
    ensures var entries := NodesWithout(nodes, edges, Target);
      |entries| >= 2 && IsSubsequence(entries, nodes)
      && forall n :: n in entries <==> n in nodes && !Touches(edges, n.id, Target)
  {
    var entries := NodesWithout(nodes, edges, Target);
    NodesWithoutIsSubsequence(nodes, edges, Target);
    var ids := Ids(entries);
    assert Join(ids, ", ") == ids[0] + ", " + Join(ids[1..], ", ");
  }

  /** The check depends on the edges only through the set of their targets. */
  lemma ValidateFlowDependsOnTargets(nodes: seq<Node>, e1: seq<Edge>, e2: seq<Edge>)
    requires Targets(e1) == Targets(e2)
    ensures ValidateFlow(nodes, e1) == ValidateFlow(nodes, e2)
  {
    forall id ensures Touches(e1, id, Target) <==> Touches(e2, id, Target) {
      TouchesTarget(e1, id);
      TouchesTarget(e2, id);
    }
    NodesWithoutAgree(nodes, e1, e2, Target);
  }

  /** Reordering the edges does not change the check. */
  lemma ValidateFlowIgnoresEdgeOrder(nodes: seq<Node>, e1: seq<Edge>, e2: seq<Edge>)
    requires multiset(e1) == multiset(e2)
    ensures ValidateFlow(nodes, e1) == ValidateFlow(nodes, e2)
  {
    TargetsOfPermutation(e1, e2);
    TargetsOfPermutation(e2, e1);
    ValidateFlowDependsOnTargets(nodes, e1, e2);
  }

  lemma TargetsOfPermutation(e1: seq<Edge>, e2: seq<Edge>)
    requires multiset(e1) == multiset(e2)
    ensures Targets(e1) <= Targets(e2)
  {
    forall t | t in Targets(e1) ensures t in Targets(e2) {
      var i :| 0 <= i < |e1| && e1[i].target == t;
      assert e1[i] in multiset(e2);
      var j :| 0 <= j < |e2| && e2[j] == e1[i];
    }
  }

  /** Changing the sources of the edges, targets kept, does not change the check. */
  lemma ValidateFlowIgnoresSources(nodes: seq<Node>, e1: seq<Edge>, e2: seq<Edge>)
    requires |e1| == |e2|
    requires forall i :: 0 <= i < |e1| ==> e1[i].target == e2[i].target
    ensures ValidateFlow(nodes, e1) == ValidateFlow(nodes, e2)
  {
    assert Targets(e1) == Targets(e2);
    ValidateFlowDependsOnTargets(nodes, e1, e2);
  }

  /** Reordering the nodes does not change whether the flow is valid. */
  lemma ValidityIgnoresNodeOrder(n1: seq<Node>, n2: seq<Node>, edges: seq<Edge>)
    requires multiset(n1) == multiset(n2)
    ensures ValidateFlow(n1, edges).isValid == ValidateFlow(n2, edges).isValid
  {
    NodesWithoutCountIgnoresOrder(n1, n2, edges, Target);
  }

  /** The message does depend on node order: it lists the entry nodes as they
      come in the node list. */
  lemma MessageFollowsNodeOrder()
    ensures var a := Node("1", "textNode", Position(0.0, 0.0), map[]);
      var b := Node("2", "textNode", Position(0.0, 0.0), map[]);
      ValidateFlow([a, b], []).errorMessage != ValidateFlow([b, a], []).errorMessage
  {
    var a := Node("1", "textNode", Position(0.0, 0.0), map[]);
    var b := Node("2", "textNode", Position(0.0, 0.0), map[]);
    ExampleTwoUnconnected(a, b);
    ExampleTwoUnconnected(b, a);
    var m1 := ValidateFlow([a, b], []).errorMessage;
    var m2 := ValidateFlow([b, a], []).errorMessage;
    assert m1[|SaveErrorPrefix|] == '1';
    assert m2[|SaveErrorPrefix|] == '2';
  }

  /** Two nodes and no edges: both are entries, so the flow is rejected and
      the message names both in order. */
  lemma ExampleTwoUnconnected(a: Node, b: Node)
    ensures ValidateFlow([a, b], []) == FlowValidationResult(false, SaveErrorPrefix + a.id + ", " + b.id)
  {
    assert NodesWithout([a, b], [], Target) == [a, b] by {
      assert [a, b][1..] == [b];
    }
    assert Ids([a, b]) == [a.id, b.id];
    JoinPair(a.id, b.id, ", ");
    assert SaveErrorPrefix + (a.id + ", " + b.id) == SaveErrorPrefix + a.id + ", " + b.id;
  }

  /** Two nodes joined by one edge: a single entry, so the flow is accepted. */
  lemma ExampleTwoConnected(a: Node, b: Node, e: Edge)
    requires e.source == a.id && e.target == b.id
    ensures ValidateFlow([a, b], [e]).isValid
  {
    assert Touches([e], b.id, Target) by {
      assert EndOf([e][0], Target) == b.id;
    }
    assert [a, b][1..] == [b];
    assert NodesWithout([b], [e], Target) == [];
  }

  /** Three nodes, one edge from the first to the second: the first and the
      third are entries, named in that order. */
  lemma ExampleThreeOneEdge(a: Node, b: Node, c: Node, e: Edge)
    requires a.id != b.id && c.id != b.id
    requires e.source == a.id && e.target == b.id
    ensures ValidateFlow([a, b, c], [e]) == FlowValidationResult(false, SaveErrorPrefix + a.id + ", " + c.id)
  {
    assert Touches([e], b.id, Target) by {
      assert EndOf([e][0], Target) == b.id;
    }
    assert !Touches([e], a.id, Target) && !Touches([e], c.id, Target) by {
      assert forall i :: 0 <= i < |[e]| ==> EndOf([e][i], Target) == b.id;
    }
    assert [a, b, c][1..] == [b, c];
    assert [b, c][1..] == [c];
    assert NodesWithout([a, b, c], [e], Target) == [a, c];
    assert Ids([a, c]) == [a.id, c.id];
    JoinPair(a.id, c.id, ", ");
    assert SaveErrorPrefix + (a.id + ", " + c.id) == SaveErrorPrefix + a.id + ", " + c.id;
  }

  // ---------------------------------------------------------------------
  // getFlowStats

  /** An id is in the id list of the filter exactly when some node carries it
      and no edge has it at `end`. */
  lemma IdsWithout(nodes: seq<Node>, edges: seq<Edge>, end: End, id: string)
    ensures id in Ids(NodesWithout(nodes, edges, end))
      <==> (exists i :: 0 <= i < |nodes| && nodes[i].id == id) && !Touches(edges, id, end)
  {
  }

  /** The start and end id lists hold exactly the ids of the nodes without an
      incoming, respectively outgoing, edge, in node order. */
  lemma FlowStatsIds(nodes: seq<Node>, edges: seq<Edge>)
    ensures var r := GetFlowStats(nodes, edges);
      && IsSubsequence(r.startNodeIds, Ids(nodes))
      && IsSubsequence(r.endNodeIds, Ids(nodes))
      && (forall id :: id in r.startNodeIds <==>
            (exists i :: 0 <= i < |nodes| && nodes[i].id == id) && !Touches(edges, id, Target))
      && (forall id :: id in r.endNodeIds <==>
            (exists i :: 0 <= i < |nodes| && nodes[i].id == id) && !Touches(edges, id, Source))
  {
    NodesWithoutIsSubsequence(nodes, edges, Target);
    NodesWithoutIsSubsequence(nodes, edges, Source);
    IdsOfSubsequence(NodesWithout(nodes, edges, Target), nodes);
    IdsOfSubsequence(NodesWithout(nodes, edges, Source), nodes);
    forall id
      ensures id in Ids(NodesWithout(nodes, edges, Target))
        <==> (exists i :: 0 <= i < |nodes| && nodes[i].id == id) && !Touches(edges, id, Target)
      ensures id in Ids(NodesWithout(nodes, edges, Source))
        <==> (exists i :: 0 <= i < |nodes| && nodes[i].id == id) && !Touches(edges, id, Source)
    {
      IdsWithout(nodes, edges, Target, id);
      IdsWithout(nodes, edges, Source, id);
    }
  }

  /** The check fails exactly when the statistics
      count more than one start node, and it names the start node ids. */
  lemma FlowStatsAgreeWithValidation(nodes: seq<Node>, edges: seq<Edge>)
    ensures var v := ValidateFlow(nodes, edges);
      var s := GetFlowStats(nodes, edges);
      && (!v.isValid <==> s.startNodes > 1)
      && (!v.isValid ==> v.errorMessage == SaveErrorPrefix + Join(s.startNodeIds, ", "))
  {
  }
}
