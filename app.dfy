/** The top-level editor component: it owns the node list, the edge list and
    the error banner text, and its handlers change them. */
module App {
  import opened FlowTypes
  import opened FlowValidation

  /** The banner text of a rejected connection. */
  const DuplicateSourceMessage: string := "A source handle can only have one outgoing connection."

  /** The (source, source handle) pairs the edges leave from. */
  function SourceKeys(edges: seq<Edge>): set<(string, Option<string>)>
  {
    set i | 0 <= i < |edges| :: (edges[i].source, edges[i].sourceHandle)
  }

  /** Some existing edge leaves the same node from the same handle as `c`. */
  predicate SourceHasEdge(edges: seq<Edge>, c: Edge)
    ensures SourceHasEdge(edges, c) <==> (c.source, c.sourceHandle) in SourceKeys(edges)
  {
    exists i :: 0 <= i < |edges| && edges[i].source == c.source && edges[i].sourceHandle == c.sourceHandle
  }

  /** No two edges leave the same node from the same handle. */
  predicate SourceHandlesUnique(edges: seq<Edge>)
  {
    forall i, j :: 0 <= i < j < |edges| ==>
      edges[i].source != edges[j].source || edges[i].sourceHandle != edges[j].sourceHandle
  }

  /** On edges that keep the rule, appending `c` keeps it exactly when no
      edge leaves `c`'s source handle yet: the connect check is neither too
      strict nor too lax. */
  lemma AppendKeepsUniqueIff(edges: seq<Edge>, c: Edge)
    requires SourceHandlesUnique(edges)
    ensures SourceHandlesUnique(edges + [c]) <==> !SourceHasEdge(edges, c)
  {
    var all := edges + [c];
    if SourceHasEdge(edges, c) {
      var i :| 0 <= i < |edges| && edges[i].source == c.source && edges[i].sourceHandle == c.sourceHandle;
      assert all[i] == edges[i] && all[|edges|] == c;
    } else {
      forall i, j | 0 <= i < j < |all|
        ensures all[i].source != all[j].source || all[i].sourceHandle != all[j].sourceHandle
      {
        if j == |edges| {
          assert all[i] == edges[i];
        } else {
          assert all[i] == edges[i] && all[j] == edges[j];
        }
      }
    }
  }

  /** Whether a connection is rejected never depends on its target end: a
      node may receive any number of edges, and a self-loop is judged like
      any other edge. */
  lemma RejectionIgnoresTarget(edges: seq<Edge>, c: Edge, target: string, targetHandle: Option<string>)
    ensures SourceHasEdge(edges, c) <==> SourceHasEdge(edges, c.(target := target, targetHandle := targetHandle))
  {
  }

  /** The character of a decimal digit. */
  function Digit(d: nat): (ch: char)
    requires d < 10
    ensures '0' <= ch <= '9'
  {
    (48 + d) as char
  }

  /** The number a nonempty or empty string of decimal digits denotes. */
  function DecimalValue(s: string): nat
    requires forall i :: 0 <= i < |s| ==> '0' <= s[i] <= '9'
  {
    if s == [] then 0 else DecimalValue(s[..|s| - 1]) * 10 + (s[|s| - 1] as int - 48)
  }

  /** The decimal text of `n`, as a template string renders a non-negative integer. */
  function DecimalString(n: nat): (s: string)
    ensures |s| >= 1
    ensures forall i :: 0 <= i < |s| ==> '0' <= s[i] <= '9'
    ensures DecimalValue(s) == n
    ensures |s| > 1 ==> s[0] != '0'
  {
    if n < 10 then
      var s := [Digit(n)];
      assert s[..0] == [];
      s
    else
      var prefix := DecimalString(n / 10);
      var s := prefix + [Digit(n % 10)];
      assert s[..|s| - 1] == prefix;
      s
  }

  /** Distinct numbers have distinct decimal texts: each text reads back as its number. */
  lemma DecimalStringInjective(a: nat, b: nat)
    ensures DecimalString(a) == DecimalString(b) <==> a == b
  {
  }

  /** The id a new node gets: its type, an underscore and the clock reading. */
  function NodeId(nodeType: string, now: nat): (r: string)
    ensures |r| > |nodeType| + 1 && r[..|nodeType|] == nodeType && r[|nodeType|] == '_'
    ensures forall i :: |nodeType| < i < |r| ==> '0' <= r[i] <= '9'
    ensures DecimalValue(r[|nodeType| + 1..]) == now
    ensures |r| > |nodeType| + 2 ==> r[|nodeType| + 1] != '0'
  {
    var digits := DecimalString(now);
    var r := nodeType + "_" + digits;
    assert r[|nodeType| + 1..] == digits;
    r
  }

  /** Two nodes of the same type get the same id exactly when they are
      created at the same clock reading. */
  lemma NodeIdInjective(nodeType: string, a: nat, b: nat)
    ensures NodeId(nodeType, a) == NodeId(nodeType, b) <==> a == b
  {
  }

  /** The label a node of type `nodeType` starts with. */
  function DefaultLabel(nodeType: string): (r: string)
    ensures r == "text message" <==> nodeType == "textNode"
    ensures nodeType != "textNode" ==> r == "New Node"
  {
    if nodeType == "textNode" then "text message" else "New Node"
  }

  /** Every node whose id is `nodeId` gets `data` merged into its payload,
      the given keys overriding; every other node is left as it is. */
  function MergeNodeData(nodes: seq<Node>, nodeId: string, data: map<string, string>): (r: seq<Node>)
    ensures |r| == |nodes|
    ensures forall i :: 0 <= i < |nodes| ==>
      r[i].id == nodes[i].id && r[i].nodeType == nodes[i].nodeType && r[i].position == nodes[i].position
    ensures forall i :: 0 <= i < |nodes| && nodes[i].id != nodeId ==> r[i] == nodes[i]
    ensures forall i :: 0 <= i < |nodes| && nodes[i].id == nodeId ==>
      r[i].data.Keys == nodes[i].data.Keys + data.Keys
    ensures forall i, k :: 0 <= i < |nodes| && nodes[i].id == nodeId && k in data ==>
      r[i].data[k] == data[k]
    ensures forall i, k :: 0 <= i < |nodes| && nodes[i].id == nodeId && k in nodes[i].data && k !in data ==>
      r[i].data[k] == nodes[i].data[k]
  {
    if nodes == [] then []
    else
      var n := nodes[0];
      var head := if n.id == nodeId then n.(data := n.data + data) else n;
      [head] + MergeNodeData(nodes[1..], nodeId, data)
  }

  /** Updating a node id that no node carries changes nothing. */
  lemma MergeUnknownId(nodes: seq<Node>, nodeId: string, data: map<string, string>)
    requires forall i :: 0 <= i < |nodes| ==> nodes[i].id != nodeId
    ensures MergeNodeData(nodes, nodeId, data) == nodes
  {
  }

  /** Merging the same data twice is the same as merging it once. */
  lemma MergeIdempotent(nodes: seq<Node>, nodeId: string, data: map<string, string>)
    ensures var once := MergeNodeData(nodes, nodeId, data);
      MergeNodeData(once, nodeId, data) == once
  {
    var once := MergeNodeData(nodes, nodeId, data);
    var twice := MergeNodeData(once, nodeId, data);
    forall i | 0 <= i < |nodes| ensures twice[i] == once[i] {
      if nodes[i].id == nodeId {
        assert twice[i].data == once[i].data;
      }
    }
  }

  /** Merging node data keeps the node ids, and so the whole save-time
      result, verdict and message alike. */
  lemma MergeKeepsValidation(nodes: seq<Node>, edges: seq<Edge>, nodeId: string, data: map<string, string>)
    ensures Ids(MergeNodeData(nodes, nodeId, data)) == Ids(nodes)
    ensures ValidateFlow(MergeNodeData(nodes, nodeId, data), edges) == ValidateFlow(nodes, edges)
  {
    var merged := MergeNodeData(nodes, nodeId, data);
    assert Ids(merged) == Ids(nodes);
    NodesWithoutIdsFollowIds(merged, nodes, edges, Target);
    var e1, e2 := NodesWithout(merged, edges, Target), NodesWithout(nodes, edges, Target);
    assert |e1| == |Ids(e1)| == |Ids(e2)| == |e2|;
  }

  /** The editor state owned by the top-level component. */
  class FlowBuilder {
    var nodes: seq<Node>
    var edges: seq<Edge>
    var errorMessage: string

    /** At most one edge leaves each source handle. */
    ghost predicate Valid()
      reads this
    {
      SourceHandlesUnique(edges)
    }

    /** The editor starts with an empty canvas and no banner. */
    constructor ()
      ensures Valid()
      ensures nodes == [] && edges == [] && errorMessage == ""
    {
      nodes, edges, errorMessage := [], [], "";
    }

    /** A connection gesture: rejected with a banner when its source handle
        already has an outgoing edge, otherwise appended and the banner cleared. */
    method OnConnect(c: Edge)
      modifies this`edges, this`errorMessage
      ensures SourceHasEdge(old(edges), c) ==> edges == old(edges) && errorMessage == DuplicateSourceMessage
      ensures !SourceHasEdge(old(edges), c) ==> edges == old(edges) + [c] && errorMessage == ""
      ensures old(Valid()) ==> Valid()
    {
      if SourceHasEdge(edges, c) {
        errorMessage := DuplicateSourceMessage;
        return;
      }
      if SourceHandlesUnique(edges) {
        AppendKeepsUniqueIff(edges, c);
      }
      edges := edges + [c];
      errorMessage := "";
    }

    /** Appends one node of type `nodeType` at `position`, created at clock
        reading `now`, with its type's default label. */
    method AddNode(nodeType: string, position: Position, now: nat)
      modifies this`nodes
      ensures |nodes| == |old(nodes)| + 1 && nodes[..|old(nodes)|] == old(nodes)
      ensures nodes[|old(nodes)|] == Node(NodeId(nodeType, now), nodeType, position, map["label" := DefaultLabel(nodeType)])
      ensures nodes[|old(nodes)|].data["label"] == (if nodeType == "textNode" then "text message" else "New Node")
    {
      var node := Node(NodeId(nodeType, now), nodeType, position, map["label" := DefaultLabel(nodeType)]);
      nodes := nodes + [node];
    }

    /** A drop on the canvas: a drop carrying no type adds nothing, any
        other adds a node of that type. */
    method OnDrop(dropType: string, position: Position, now: nat)
      modifies this`nodes
      ensures dropType == "" ==> nodes == old(nodes)
      ensures dropType != "" ==>
        nodes == old(nodes) + [Node(NodeId(dropType, now), dropType, position, map["label" := DefaultLabel(dropType)])]
    {
      if dropType == "" {
        return;
      }
      AddNode(dropType, position, now);
    }

    /** Merges `data` into the payload of the nodes with id `nodeId`. */
    method UpdateNodeData(nodeId: string, data: map<string, string>)
      modifies this`nodes
      ensures nodes == MergeNodeData(old(nodes), nodeId, data)
    {
      nodes := MergeNodeData(nodes, nodeId, data);
    }

    /** The save button: shows the validator's message when the flow is
        rejected and clears the banner when it is accepted; `saved` reports
        whether the flow was accepted. */
    method HandleSave() returns (saved: bool)
      modifies this`errorMessage
      ensures saved == ValidateFlow(nodes, edges).isValid
      ensures !saved ==> errorMessage == ValidateFlow(nodes, edges).errorMessage && errorMessage != ""
      ensures saved ==> errorMessage == ""
    {
      var validation := ValidateFlow(nodes, edges);
      if !validation.isValid {
        errorMessage := validation.errorMessage;
        return false;
      }
      errorMessage := "";
      return true;
    }
  }
}
