# Chatbot flow builder: graph rules and save-time validation

The flow builder is a visual editor for chatbot flows. Users drop message
nodes on a canvas and connect them with directed edges. They edit each
node's text and save the flow. The rendering, dragging and connection
routing belong to a graph UI library. The original logic is small. It
consists of two parts:

- **The flow validator** (`src/utils/flowValidation.ts`). `validateFlow`
  accepts a flow of zero or one node outright. With more nodes it rejects
  the flow when more than one node has no incoming edge. The rejection
  message starts with a fixed prefix and lists those "entry" nodes' ids in
  node order, joined by `", "`. `getFlowStats` reports node and edge
  counts, plus the ids of the entry nodes and of the exit nodes (nodes with
  no outgoing edge).
- **The editor's state handlers** (`src/App.tsx`). The top-level component
  owns the node list, the edge list and the error banner text. `onConnect`
  refuses a connection whose `(source, sourceHandle)` already has an
  outgoing edge. `addNode` appends a node with its type's default label.
  `updateNodeData` merges a partial payload into the matching node.
  `onDrop` ignores a drop without a type. `handleSave` runs the validator
  and sets or clears the banner.

The Dafny project has three modules:

- `FlowTypes` (`flow_types.dfy`) holds nodes, edges and positions. It also
  holds `Ids`, `Join` (an array's `join`) and an order-preserving
  subsequence predicate.
- `FlowValidation` (`flow_validation.dfy`) holds `validateFlow` and
  `getFlowStats` as pure functions, with lemmas about them. Entry and exit
  nodes come from one filter, `NodesWithout`, parametrised by the end of
  the edge it looks at.
- `App` (`app.dfy`) holds the class `FlowBuilder`. Its fields `nodes`,
  `edges` and `errorMessage` are the component's state, and each handler is
  a method with a field-precise `modifies` frame. The pure updater bodies
  are functions: the `some` check is `SourceHasEdge`, and the map-and-spread
  merge is `MergeNodeData`. The object invariant `Valid()` is the
  connection rule: no two edges share a `(source, sourceHandle)`.

Modelling choices:

- A node's data (`Record<string, any>`) is a `map<string, string>`. The
  editor only ever writes the string field `label`. Dafny's right-biased
  map union `old + data` is the object spread `{...old, ...data}`.
- A connection's handles are `Option<string>`, because the connection
  carries `string | null`.
- `addNode` builds the id as `` `${type}_${Date.now()}` ``. The clock
  reading is a `now: nat` parameter, and the id is the type, `_` and the
  decimal text of `now`, which reads back as `now` (`DecimalString`).
- Ids are not guaranteed fresh: two nodes of the same type created at the
  same clock reading get the same id (`NodeIdInjective`).
- Only the verdict ignores node order (`ValidityIgnoresNodeOrder`); the
  message lists entry nodes in node order (`MessageFollowsNodeOrder`).
- The library's `addEdge` is modelled as appending the connection to the
  edge list, exactly as given, handles included.

## Model

| member | source | states |
|---|---|---|
| `FlowValidation.NodesWithout` | src/utils/flowValidation.ts:29-31 | the filter keeps exactly the nodes whose id no edge has at the given end (target: no incoming edge; source: no outgoing edge), and never yields more nodes than it was given |
| `FlowValidation.ValidateFlow` | src/utils/flowValidation.ts:19-47 | valid iff the message is empty; zero or one node is always valid; valid iff at most one node lacks an incoming edge; an invalid result's message is the fixed prefix followed by the entry node ids joined by ", " |
| `FlowValidation.ValidateFlowSmall` | src/utils/flowValidation.ts:21-26 | a flow with at most one node is valid with the empty message, whatever its edges |
| `FlowValidation.AtMostOneWithoutIff` | src/utils/flowValidation.ts:29-34 | the filter keeps at most one node iff no two positions of the node list both hold a node it keeps |
| `FlowValidation.ValidIffAtMostOneEntry` | src/utils/flowValidation.ts:29-46 | the flow is valid iff no two distinct nodes both lack an incoming edge (an independent, count-free statement of the rule) |
| `FlowValidation.InvalidMessageNamesEntries` | src/utils/flowValidation.ts:34-39 | an invalid message is the fixed prefix followed by the ids of the entry nodes joined by ", ", so it strictly extends the prefix; those entry nodes are at least two, in node order, and exactly the nodes without an incoming edge |
| `FlowValidation.NodesWithoutIsSubsequence` | src/utils/flowValidation.ts:54-60 | entry and exit nodes come out in the order of the node list (an order-preserving subsequence) |
| `FlowValidation.NodesWithoutAppend` | src/utils/flowValidation.ts:29-31 | filtering a concatenation of node lists filters each part |
| `FlowValidation.NodesWithoutCountIgnoresOrder` | src/utils/flowValidation.ts:29-34 | the number of entry (or exit) nodes is the same for any permutation of the node list |
| `FlowValidation.NodesWithoutAgree` | src/utils/flowValidation.ts:29-31 | the filter depends on the edges only through which ids occur at the chosen end |
| `FlowValidation.NodesWithoutIdsFollowIds` | src/utils/flowValidation.ts:29-35 | two node lists with the same ids give the same kept ids, whatever else the nodes carry |
| `FlowValidation.ValidateFlowDependsOnTargets` | src/utils/flowValidation.ts:29-31 | two edge lists with the same set of targets give the same result |
| `FlowValidation.ValidateFlowIgnoresEdgeOrder` | src/utils/flowValidation.ts:29-31 | reordering the edge list does not change the result |
| `FlowValidation.ValidateFlowIgnoresSources` | src/utils/flowValidation.ts:29-31 | changing edge sources while keeping targets does not change the result |
| `FlowValidation.ValidityIgnoresNodeOrder` | src/utils/flowValidation.ts:29-34 | reordering the node list does not change whether the flow is valid |
| `FlowValidation.MessageFollowsNodeOrder` | src/utils/flowValidation.ts:35-38 | for some pair of unconnected nodes (ids "1" and "2"), swapping their places in the node list changes the message |
| `FlowValidation.ExampleTwoUnconnected` | src/utils/flowValidation.ts:19-47 | two nodes and no edges: invalid, message names both ids in order |
| `FlowValidation.ExampleTwoConnected` | src/utils/flowValidation.ts:19-47 | two nodes with an edge from the first to the second: valid |
| `FlowValidation.ExampleThreeOneEdge` | src/utils/flowValidation.ts:19-47 | three nodes with one edge from the first to the second: invalid, message names the first and third ids |
| `FlowValidation.GetFlowStats` | src/utils/flowValidation.ts:53-70 | totalNodes and totalEdges are the list lengths; startNodes and endNodes are the lengths of the id lists, at most the node count |
| `FlowValidation.IdsWithout` | src/utils/flowValidation.ts:54-68 | an id is listed iff some node carries it and no edge has it at the chosen end |
| `FlowValidation.FlowStatsIds` | src/utils/flowValidation.ts:54-68 | startNodeIds and endNodeIds are order-preserving subsequences of the node ids holding exactly the ids with no incoming, respectively no outgoing, edge |
| `FlowValidation.FlowStatsAgreeWithValidation` | src/utils/flowValidation.ts:29-56 | for every flow, the check fails iff startNodes > 1, and a failing check's message is the prefix followed by startNodeIds joined by ", " |
| `FlowTypes.Ids` | src/utils/flowValidation.ts:67-68 | the id list has one entry per node, the i-th being the i-th node's id |
| `FlowTypes.Join` | src/utils/flowValidation.ts:35 | joining nothing gives "", one id gives that id, and a join always starts with its first element |
| `FlowTypes.JoinSnoc` | src/utils/flowValidation.ts:35 | a join of two or more elements is the join of all but the last, the separator, then the last |
| `FlowTypes.IdsOfSubsequence` | src/utils/flowValidation.ts:67-68 | mapping an order-preserving subsequence of nodes to ids gives an order-preserving subsequence of the ids |
| `App.SourceHasEdge` | src/App.tsx:51-53 | a connection's source handle is taken iff its (source, sourceHandle) pair is among the pairs the existing edges leave from |
| `App.AppendKeepsUniqueIff` | src/App.tsx:51-61 | on edges that already obey the one-edge-per-source-handle rule, appending a connection keeps the rule iff no edge leaves its (source, sourceHandle) |
| `App.RejectionIgnoresTarget` | src/App.tsx:51-53 | whether a connection is rejected does not depend on its target or target handle, so fan-in and self-loops are allowed |
| `App.DecimalString` | src/App.tsx:89 | the clock reading renders as a nonempty string of decimal digits with no leading zero whose decimal value is the reading itself |
| `App.DecimalStringInjective` | src/App.tsx:89 | distinct clock readings render differently |
| `App.NodeId` | src/App.tsx:89 | the id is the node type, then "_", then digits with no leading zero whose decimal value is the clock reading |
| `App.NodeIdInjective` | src/App.tsx:89 | two nodes of the same type get equal ids iff they are created at the same clock reading |
| `App.DefaultLabel` | src/App.tsx:95 | the label is "text message" exactly for type textNode, and "New Node" for every other type |
| `App.MergeNodeData` | src/App.tsx:144-147 | same length, ids, types and positions; nodes with another id unchanged; a matching node's keys are the union, the given keys take the given values and the other keys keep theirs |
| `App.MergeUnknownId` | src/App.tsx:142-151 | an id no node carries leaves the node list unchanged |
| `App.MergeIdempotent` | src/App.tsx:145-147 | merging the same data twice equals merging it once |
| `App.MergeKeepsValidation` | src/App.tsx:145-146 | a data update keeps the node ids and hence the whole save result, verdict and message |
| `App.FlowBuilder.constructor` | src/App.tsx:30-37 | the editor starts with no nodes, no edges, an empty banner, and the connection rule holding |
| `App.FlowBuilder.OnConnect` | src/App.tsx:48-65 | if an edge already leaves the connection's (source, sourceHandle), the edges are unchanged and the banner is the fixed duplicate message; otherwise the connection is appended and the banner cleared; the one-edge-per-source-handle invariant is preserved; nodes are untouched |
| `App.FlowBuilder.AddNode` | src/App.tsx:87-102 | exactly one node is appended, with the id built from type and clock, the given type and position, and label "text message" for textNode and "New Node" otherwise; existing nodes unchanged |
| `App.FlowBuilder.OnDrop` | src/App.tsx:117-136 | a drop with an empty type leaves the nodes unchanged; any other appends the node AddNode creates |
| `App.FlowBuilder.UpdateNodeData` | src/App.tsx:142-151 | the node list becomes the merge of the old list with the given data at the given id; edges and banner untouched |
| `App.FlowBuilder.HandleSave` | src/App.tsx:157-169 | the banner becomes the validator's nonempty message iff validation fails and is cleared otherwise; the result reports acceptance; nodes and edges untouched |

## Left out

- Timed banner clearing (`setTimeout` after 3 and 5 seconds) is left out. It is event-loop timing, not sequential logic.
- The selected node (`selectedNodeId`, `onNodeClick`, `onPaneClick`, the `find` for the settings panel) is left out. It is display state that no rule reads.
- `console.log` and `alert` on a successful save are left out. `HandleSave` returns the acceptance as `saved` instead.
- Drop-position arithmetic from DOM coordinates is left out. A position is an opaque value passed in.
- The clock (`Date.now()`) is left out. Its reading is the `now` parameter of `AddNode` and `OnDrop`.
- The graph library's own handlers are left out: node and edge changes from dragging or deletion (`onNodesChange`, `onEdgesChange`), the id `addEdge` assigns to an edge, and its internal handling.
- Node data values other than strings are left out. The editor writes only the string `label`.
- OnConnect: the one-edge-per-source-handle rule is proved only under the assumption that the library's `addEdge` stores the connection exactly as given, its `null` source handle included. The duplicate check compares handles with strict equality, so if the stored edge carried `undefined` instead, the check would never match a text node's unnamed handle; the library's code is not part of this model.
- Rendering and styling are left out. The components under `src/components/` only present state and forward user actions to handlers the model covers. SettingsPanel forwards text edits to `updateNodeData` (`UpdateNodeData`). The header forwards the Save click to `handleSave` (`HandleSave`). NodesPanel passes the node type to `onDrop` through the drag data (`OnDrop`'s `dropType`).
