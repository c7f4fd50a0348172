# Zest graph demos: naming and index bookkeeping

The repository holds two demonstration programs for the Zest graph widget.
Almost everything they do is delegated to SWT and Zest. This project models
the small amount of logic that is their own:

- **GraphViewer demo** (`ZestGraphViewer.java`). The viewer's input is a list
  of relationship names. `addNode` appends `"node0"` to an empty list and
  otherwise `"node<n> to node<n-1>"`, where n is the current size. The content
  provider splits a name at its first `" to "` into a source and a
  destination. The label provider shows an edge icon for names that contain
  `" to "` and a node icon for the rest.
- **Graph demo** (`ZestGraph.java`). `addNode` builds an avoid list of the
  existing indices and asks `getRandom` for the new node's index. It then asks
  for one connection target, and on a coin flip for a second. `getRandom` is
  a rejection loop. A double click changes the border of each selected node:
  a black border becomes red, and any other border, including a node's
  initial one, becomes black.

Modules:

- `Wrappers` (wrappers.dfy): `Option` and `Result`.
- `JavaStrings` (java_strings.dfy): the `String` operations the naming relies
  on. These are `indexOf`, `contains`, slicing for `substring`, and the
  decimal form of a non-negative `int` in string concatenation.
- `ZestGraphViewer` (graph_viewer.dfy): Java references as seen by the
  providers (`Obj`: null, a String, or any other object), the providers, the
  naming convention, and the class `Viewer`. Its field `input` is the list
  `addNode` extends in place.
- `ZestGraph` (graph.dfy): the border toggle, rejection sampling, the index
  picks and the class `Graph`. Its fields are the node labels, the border
  colours and the connections (index pairs).

Randomness is a parameter. Each `getRandom` call receives the stream of
values its draws `Math.round(Math.random() * max)` produce, as a finite
sequence. Each value lies between 0 and `max` inclusive: in [0, max] when
`max` is non-negative, and in [max, 0] when it is negative. The call returns the
first value not in the avoid list. If no value in the stream qualifies, the
call has not returned within those draws (`None`, or a `Stuck` outcome of
`addNode`). The coin `Math.random() > 0.5` is a boolean parameter.

Zest does not say whether `graph.getNodes()` is a live view of the node list
or a snapshot. `Graph.liveNodeList` fixes one of the two for each graph, and
every property below is proved for both.

The doc comment of `getRandom` says it returns a value "between 1 and" the
maximum. The code can return 0, and the model follows the code.

The naming round trip needs more than "the source part holds no `" to "`".
Splitting `a + " to " + b` gives back `a` and `b` exactly when `a + " to"`
holds no `" to "`. A source such as `"x to"` ends in `" to"`, and its name
`"x to to y"` splits into `"x"` and `"to y"`. The names `addNode` builds never
have this shape, because a node name holds no blank.

## Model

| member | source | states |
|---|---|---|
| `JavaStrings.IndexFrom` | ca.footeware.zest.graph/src/ca/footeware/zest/graph/ZestGraphViewer.java:46 | the result is -1 or an occurrence at or after the start index, and no occurrence lies between the start and the result |
| `JavaStrings.IndexOf` | ca.footeware.zest.graph/src/ca/footeware/zest/graph/ZestGraphViewer.java:46 | the result is non-negative exactly when the pattern occurs; then it is the first occurrence; otherwise it is -1 |
| `JavaStrings.Contains` | ca.footeware.zest.graph/src/ca/footeware/zest/graph/ZestGraphViewer.java:44 | true exactly when the pattern occurs somewhere in the string |
| `JavaStrings.NatToString` | ca.footeware.zest.graph/src/ca/footeware/zest/graph/ZestGraphViewer.java:203 | the decimal form of a size: non-empty, digits only, a leading '0' only for zero, a single digit exactly below ten, and "0" for zero |
| `JavaStrings.DigitsValueOfNatToString` | ca.footeware.zest.graph/src/ca/footeware/zest/graph/ZestGraphViewer.java:209 | reading the decimal form back gives the number |
| `JavaStrings.NatToStringInjective` | ca.footeware.zest.graph/src/ca/footeware/zest/graph/ZestGraphViewer.java:209 | different numbers have different decimal forms |
| `ZestGraphViewer.GetSource` | ca.footeware.zest.graph/src/ca/footeware/zest/graph/ZestGraphViewer.java:37-52 | for a String that contains " to ", a String that is exactly the prefix before its first " to "; null for strings without it and for non-strings |
| `ZestGraphViewer.GetDestination` | ca.footeware.zest.graph/src/ca/footeware/zest/graph/ZestGraphViewer.java:64-80 | for a String that contains " to ", exactly the suffix after its first " to "; any other argument is returned unchanged |
| `ZestGraphViewer.GetElements` | ca.footeware.zest.graph/src/ca/footeware/zest/graph/ZestGraphViewer.java:58-62 | the elements of the input list, same length, same order |
| `ZestGraphViewer.GetImage` | ca.footeware.zest.graph/src/ca/footeware/zest/graph/ZestGraphViewer.java:103-110 | the edge image exactly for a String containing " to ", the node image exactly for any other String, NullPointerException exactly for null, ClassCastException exactly for a non-String |
| `ZestGraphViewer.InputName` | ca.footeware.zest.graph/src/ca/footeware/zest/graph/ZestGraphViewer.java:203-209 | the name for position k: "node0" for k = 0, and otherwise a name that starts with "node" and has " to " right after "node"+k |
| `ZestGraphViewer.JoinThenSplit` | ca.footeware.zest.graph/src/ca/footeware/zest/graph/ZestGraphViewer.java:44-76 | splitting a + " to " + b yields source a, and likewise destination b, if and only if a + " to" holds no " to " |
| `ZestGraphViewer.SplitThenJoin` | ca.footeware.zest.graph/src/ca/footeware/zest/graph/ZestGraphViewer.java:44-76 | for a name containing " to ", source + " to " + destination is the name again |
| `ZestGraphViewer.JoinAround` | ca.footeware.zest.graph/src/ca/footeware/zest/graph/ZestGraphViewer.java:46-74 | a string is the part before an occurrence of " to ", then " to ", then the part after it |
| `ZestGraphViewer.AmbiguousSourceName` | ca.footeware.zest.graph/src/ca/footeware/zest/graph/ZestGraphViewer.java:46 | "x to" holds no " to ", yet "x to to y" splits into "x" and "to y" |
| `ZestGraphViewer.NodeNameSplitsCleanly` | ca.footeware.zest.graph/src/ca/footeware/zest/graph/ZestGraphViewer.java:209 | "node" + k + " to" holds no " to ", so node names survive the round trip |
| `ZestGraphViewer.InputNameParses` | ca.footeware.zest.graph/src/ca/footeware/zest/graph/ZestGraphViewer.java:200-210 | the first name is "node0", with no source, itself as destination and the node image; the k-th name (k >= 1) has source "node"+k, destination "node"+(k-1) and the edge image |
| `ZestGraphViewer.NodeNameInjective` | ca.footeware.zest.graph/src/ca/footeware/zest/graph/ZestGraphViewer.java:209 | node names of different indices differ |
| `ZestGraphViewer.ElementsDescribePath` | ca.footeware.zest.graph/src/ca/footeware/zest/graph/ZestGraphViewer.java:37-110 | in a well-formed input, element 0 is a node whose destination is "node0"; element k >= 1 is an edge from "node"+k to "node"+(k-1) |
| `ZestGraphViewer.Viewer.constructor` | ca.footeware.zest.graph/src/ca/footeware/zest/graph/ZestGraphViewer.java:136 | the input starts empty, which satisfies the naming invariant |
| `ZestGraphViewer.Viewer.Elements` | ca.footeware.zest.graph/src/ca/footeware/zest/graph/ZestGraphViewer.java:58-62 | the provider's view of the current input: one String per element, in order |
| `ZestGraphViewer.Viewer.AddNode` | ca.footeware.zest.graph/src/ca/footeware/zest/graph/ZestGraphViewer.java:197-210 | appends exactly one name, the one for the old size; earlier elements are unchanged; the invariant input[0] == "node0", input[k] == "node"+k+" to node"+(k-1) is preserved |
| `ZestGraph.ToggleBorder` | ca.footeware.zest.graph/src/ca/footeware/zest/graph/ZestGraph.java:69 | the result is red exactly when the colour was black, and black exactly when it was not |
| `ZestGraph.ToggleBorderTwice` | ca.footeware.zest.graph/src/ca/footeware/zest/graph/ZestGraph.java:69 | toggling twice restores black and red; any other colour becomes red |
| `ZestGraph.ToggleAll` | ca.footeware.zest.graph/src/ca/footeware/zest/graph/ZestGraph.java:65-70 | toggling the selection in turn keeps one border per node |
| `ZestGraph.ToggleAllSelected` | ca.footeware.zest.graph/src/ca/footeware/zest/graph/ZestGraph.java:65-70 | with no node selected twice, a node's border is toggled if it is selected and unchanged otherwise |
| `ZestGraph.ToggleAllCount` | ca.footeware.zest.graph/src/ca/footeware/zest/graph/ZestGraph.java:65-70 | for any selection, including one that lists a node more than once, each node's border is toggled once for every time the node is listed |
| `ZestGraph.ToggleAllTwice` | ca.footeware.zest.graph/src/ca/footeware/zest/graph/ZestGraph.java:60-72 | two double clicks on the same selection restore every border when the selected borders were black or red, for any selection, repeats included; unselected borders may have any colour |
| `ZestGraph.PossibleDraw` | ca.footeware.zest.graph/src/ca/footeware/zest/graph/ZestGraph.java:147 | the values `Math.round(Math.random() * max)` can take: [0, max] for max >= 0 and [max, 0] for max < 0, that is 0 or a value of the sign of max no larger in magnitude; 0 and max are both possible |
| `ZestGraph.Sample` | ca.footeware.zest.graph/src/ca/footeware/zest/graph/ZestGraph.java:144-148 | a value is accepted exactly when some draw is outside the avoid list; it is then the first such draw and not in the avoid list |
| `ZestGraph.GetRandom` | ca.footeware.zest.graph/src/ca/footeware/zest/graph/ZestGraph.java:140-151 | the loop returns what Sample accepts; a returned value lies between 0 and max and is not in the avoid list |
| `ZestGraph.NoFreeValueNeverReturns` | ca.footeware.zest.graph/src/ca/footeware/zest/graph/ZestGraph.java:145-148 | if every possible draw is to be avoided, no stream of draws makes the loop return |
| `ZestGraph.FreeValueCanBeReturned` | ca.footeware.zest.graph/src/ca/footeware/zest/graph/ZestGraph.java:145-148 | every possible draw outside the avoid list is a possible result |
| `ZestGraph.BuildAvoidList` | ca.footeware.zest.graph/src/ca/footeware/zest/graph/ZestGraph.java:160-165 | the avoid list is exactly 0, 1, ..., n-1 in order |
| `ZestGraph.NewIndexIsNodeCount` | ca.footeware.zest.graph/src/ca/footeware/zest/graph/ZestGraph.java:169 | with max n and avoid list [0..n), the only admissible value is n, and it is admissible |
| `ZestGraph.Listed` | ca.footeware.zest.graph/src/ca/footeware/zest/graph/ZestGraph.java:159-190 | the size of `nodes` once the new node exists: n + 1 exactly when `getNodes()` is a live view, and n for a snapshot |
| `ZestGraph.FirstTargetIsExistingNode` | ca.footeware.zest.graph/src/ca/footeware/zest/graph/ZestGraph.java:176-181 | for a live or a snapshot node list, an accepted first target is an existing node in [0, n-1], never the new node, and such a draw exists |
| `ZestGraph.SecondTargetIsOtherNode` | ca.footeware.zest.graph/src/ca/footeware/zest/graph/ZestGraph.java:184-194 | an accepted second target is an existing node other than the first target; some value is admissible if and only if at least two nodes exist |
| `ZestGraph.OnlyNodeZeroSecondPickHangs` | ca.footeware.zest.graph/src/ca/footeware/zest/graph/ZestGraph.java:75-190 | with node0 alone, the second pick has no admissible value and returns on no stream of draws |
| `ZestGraph.NodeLabel` | ca.footeware.zest.graph/src/ca/footeware/zest/graph/ZestGraph.java:171 | the new node's label: "node " followed by digits that read as its index, with a leading 0 only for index 0 |
| `ZestGraph.Graph.constructor` | ca.footeware.zest.graph/src/ca/footeware/zest/graph/ZestGraph.java:53-75 | the graph starts with "Node 0" alone and no connections |
| `ZestGraph.Graph.AppendNode` | ca.footeware.zest.graph/src/ca/footeware/zest/graph/ZestGraph.java:171 | the new node joins the end of the node list with the label built from the drawn index, which must be the node count n ("node n"), and the default border; the graph invariant is kept |
| `ZestGraph.Graph.Connect` | ca.footeware.zest.graph/src/ca/footeware/zest/graph/ZestGraph.java:181 | appends one connection from the newest node to an older one not yet connected to it; the graph invariant is kept |
| `ZestGraph.Graph.AddNodeAndFirstEdge` | ca.footeware.zest.graph/src/ca/footeware/zest/graph/ZestGraph.java:158-181 | the new node gets index n and label "node n"; it is connected to one existing node; or a rejection loop that can stop has not yet stopped |
| `ZestGraph.Graph.AddSecondEdge` | ca.footeware.zest.graph/src/ca/footeware/zest/graph/ZestGraph.java:184-194 | adds one connection from the newest node to an existing node other than the first target, or none; the pick can stop if and only if two old nodes exist |
| `ZestGraph.Graph.AddNode` | ca.footeware.zest.graph/src/ca/footeware/zest/graph/ZestGraph.java:156-196 | as written: preserves the graph invariant (no self-edge, no duplicate edge, labels "node k"); adds one node with index n and one or two distinct targets below n; with node0 alone and the coin set, it never completes |
| `ZestGraph.Graph.AddNodeGuarded` | ca.footeware.zest.graph/src/ca/footeware/zest/graph/ZestGraph.java:184-194 | corrected: as AddNode, but the second connection is made only when two nodes exist, and every rejection loop it enters can stop |
| `ZestGraph.Graph.DoubleClick` | ca.footeware.zest.graph/src/ca/footeware/zest/graph/ZestGraph.java:60-72 | toggles the border of each selected node in selection order and changes nothing else |

## Findings

| source | as written | input that shows it | evidently intended | confidence | as-written member | corrected member |
|---|---|---|---|---|---|---|
| ca.footeware.zest.graph/src/ca/footeware/zest/graph/ZestGraph.java:184-190 | the second connection is attempted whenever `Math.random() > 0.5`, drawing from [0, nodes.size()-1] while avoiding the new index and the first target | the first click on "Add Node" while only Node 0 exists, with the coin above 0.5: every candidate (0, and 1 too if the node list is live) is avoided, and the do-while loop spins forever on the UI thread | make a second connection only when another existing node is available | high; not executed | `ZestGraph.Graph.AddNode` (with `ZestGraph.OnlyNodeZeroSecondPickHangs`) | `ZestGraph.Graph.AddNodeGuarded` |

## Left out

- SWT shell and display setup, buttons, listeners and the event loop. These are GUI plumbing.
- Zest `Graph`, `GraphNode`, `GraphConnection` and `GraphViewer` creation, the spring layout, `applyLayout` and `refresh`. These are library calls. Nodes and connections are modelled as labels, borders and index pairs.
- The distribution of `Math.random()` and `Math.round`. Only the set of possible outcomes is modelled, as streams of draws. That the rejection loop stops with probability 1 when a free value exists is not stated. The model states only that such a value exists and that some stream returns it.
- `getWeight` (the constant 0), `getText`, `dispose`, `inputChanged`, the image objects and all `System.err` logging.
- The avoid list built but never used in `ZestGraphViewer.addNode` (lines 188-193), and `viewer.getNodeElements()`. This is dead code.
- The casts in the double-click handler: the event source is taken to be the graph, and the selection is modelled as node indices. Selecting a connection would raise ClassCastException; that case is not modelled.
- `getElements` on an input that is not a `List<String>`: the demo always passes an `ArrayList`.
- Java `int` overflow of list sizes and indices. The model uses unbounded integers, and overflow would need more than 2^31 nodes.
