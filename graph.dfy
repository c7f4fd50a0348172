/**
 * The bookkeeping of the Graph demo: random indices for new nodes and
 * their connections, chosen by rejection sampling, and the border colour
 * a double click toggles.
 *
 * `Math.random()` is not modelled as a distribution. Each call of
 * `getRandom` is given the stream of values its draws
 * `Math.round(Math.random() * max)` produce, as a finite sequence; a call
 * that has not accepted a value within that stream has not returned yet.
 */
module ZestGraph {
  import opened Wrappers
  import opened JavaStrings

  // ---------------------------------------------------------------------
  // Border colours

  /** A border colour, compared by identity as the handler compares Color objects. */
  datatype Color = Black | Red | OtherColor(id: nat)

  /** The double-click expression: black becomes red, every other colour black. */
  function ToggleBorder(c: Color): (r: Color)
    ensures r == Red <==> c == Black
    ensures r == Black <==> c != Black
  {
    if c == Black then Red else Black
  }

  /** Toggling twice restores black and red; any other colour ends up red. */
  lemma ToggleBorderTwice(c: Color)
    ensures c == Black || c == Red ==> ToggleBorder(ToggleBorder(c)) == c
    ensures c.OtherColor? ==> ToggleBorder(ToggleBorder(c)) == Red
  {
  }

  /** The borders after the handler has toggled each selected node in turn. */
  function ToggleAll(borders: seq<Color>, selection: seq<nat>): (r: seq<Color>)
    requires forall i :: 0 <= i < |selection| ==> selection[i] < |borders|
    ensures |r| == |borders|
    decreases |selection|
  {
    if selection == [] then borders
    else
      var before := ToggleAll(borders, selection[..|selection| - 1]);
      var k := selection[|selection| - 1];
      before[k := ToggleBorder(before[k])]
  }

  predicate Distinct(s: seq<nat>): (b: bool)
  {
    forall p, q :: 0 <= p < q < |s| ==> s[p] != s[q]
  }

  /** With no node selected twice, exactly the selected nodes are toggled, once each. */
  lemma {:induction false} ToggleAllSelected(borders: seq<Color>, selection: seq<nat>, i: nat)
    requires forall j :: 0 <= j < |selection| ==> selection[j] < |borders|
    requires Distinct(selection)
    requires i < |borders|
    ensures ToggleAll(borders, selection)[i] == if i in selection then ToggleBorder(borders[i]) else borders[i]
    decreases |selection|
  {
    if selection != [] {
      var init := selection[..|selection| - 1];
      var k := selection[|selection| - 1];
      assert selection == init + [k];
      ToggleAllSelected(borders, init, i);
      assert i == k ==> i !in init;
    }
  }

  /** The colour after `k` toggles. */
  function ToggleN(c: Color, k: nat): (r: Color)
  {
    if k == 0 then c else ToggleBorder(ToggleN(c, k - 1))
  }

  /** How many times `i` is listed in `selection`. */
  function Count(selection: seq<nat>, i: nat): (r: nat)
    ensures r <= |selection|
    ensures r == 0 <==> i !in selection
  {
    if selection == [] then 0
    else
      var init := selection[..|selection| - 1];
      assert selection == init + [selection[|selection| - 1]];
      Count(init, i) + if selection[|selection| - 1] == i then 1 else 0
  }

  /** Toggling j times and then k times is toggling j + k times. */
  lemma {:induction false} ToggleNAdd(c: Color, j: nat, k: nat)
    ensures ToggleN(ToggleN(c, j), k) == ToggleN(c, j + k)
    decreases k
  {
    if k > 0 {
      ToggleNAdd(c, j, k - 1);
    }
  }

  /** An even number of toggles restores black and red. */
  lemma {:induction false} ToggleNEven(c: Color, k: nat)
    requires c == Black || c == Red
    ensures ToggleN(c, 2 * k) == c
    decreases k
  {
    if k > 0 {
      ToggleNEven(c, k - 1);
      ToggleBorderTwice(c);
      assert ToggleN(c, 2 * k) == ToggleBorder(ToggleBorder(ToggleN(c, 2 * (k - 1))));
    }
  }

  /** For any selection, repeats included, each node is toggled once for every time it is listed. */
  lemma {:induction false} ToggleAllCount(borders: seq<Color>, selection: seq<nat>, i: nat)
    requires forall j :: 0 <= j < |selection| ==> selection[j] < |borders|
    requires i < |borders|
    ensures ToggleAll(borders, selection)[i] == ToggleN(borders[i], Count(selection, i))
    decreases |selection|
  {
    if selection != [] {
      var init := selection[..|selection| - 1];
      assert forall j :: 0 <= j < |init| ==> init[j] == selection[j];
      ToggleAllCount(borders, init, i);
    }
  }

  /**
   * Double-clicking the same selection twice restores every border, as long
   * as the selected nodes' borders were black or red; unselected nodes are
   * left alone whatever their colour.
   */
  lemma ToggleAllTwice(borders: seq<Color>, selection: seq<nat>)
    requires forall j :: 0 <= j < |selection| ==> selection[j] < |borders|
    requires forall j :: 0 <= j < |selection| ==> borders[selection[j]] == Black || borders[selection[j]] == Red
    ensures ToggleAll(ToggleAll(borders, selection), selection) == borders
  {
    var once := ToggleAll(borders, selection);
    var twice := ToggleAll(once, selection);
    forall i | 0 <= i < |borders|
      ensures twice[i] == borders[i]
    {
      var k := Count(selection, i);
      ToggleAllCount(borders, selection, i);
      ToggleAllCount(once, selection, i);
      ToggleNAdd(borders[i], k, k);
      if k > 0 {
        var j :| 0 <= j < |selection| && selection[j] == i;
        ToggleNEven(borders[i], k);
        assert k + k == 2 * k;
      }
    }
  }

  // ---------------------------------------------------------------------
  // Rejection sampling

  /**
   * The values `Math.round(Math.random() * max)` can take: 0 to max for a
   * non-negative max, max to 0 for a negative one. That is, 0 or a value of
   * the sign of max that is no larger than max in magnitude; both 0 and max
   * itself are possible.
   */
  predicate PossibleDraw(v: int, max: int): (b: bool)
    ensures b <==> v == 0 || ((v < 0) == (max < 0) && Abs(v) <= Abs(max))
    ensures v == 0 || v == max ==> b
  {
    if max >= 0 then 0 <= v <= max else max <= v <= 0
  }

  function Abs(x: int): (a: nat)
  {
    if x < 0 then -x else x
  }

  predicate AllPossible(draws: seq<int>, max: int): (b: bool)
  {
    forall i :: 0 <= i < |draws| ==> PossibleDraw(draws[i], max)
  }

  /** Some value a draw can produce is not to be avoided, so the rejection loop can stop. */
  ghost predicate HasFreeValue(max: int, avoid: seq<int>): (b: bool)
  {
    exists v :: PossibleDraw(v, max) && v !in avoid
  }

  /** What the do-while loop of `getRandom` accepts from a stream of draws: the first value not to be avoided. */
  function Sample(avoid: seq<int>, draws: seq<int>): (r: Option<int>)
    ensures r.Some? <==> exists i :: 0 <= i < |draws| && draws[i] !in avoid
    ensures r.Some? ==>
      (exists i :: 0 <= i < |draws| && draws[i] == r.value && (forall j :: 0 <= j < i ==> draws[j] in avoid))
    ensures r.Some? ==> r.value !in avoid
  {
    if draws == [] then None
    else if draws[0] !in avoid then Some(draws[0])
    else
      var rest := Sample(avoid, draws[1..]);
      assert forall i :: 1 <= i < |draws| ==> draws[i] == draws[1..][i - 1];
      rest
  }

  /**
   * `getRandom(max, avoid)`: draws until a value outside `avoid` comes up.
   * Whatever it returns lies between 0 and max and is not in `avoid`.
   */
  method GetRandom(max: int, avoid: seq<int>, draws: seq<int>) returns (r: Option<int>)
    requires AllPossible(draws, max)
    ensures r == Sample(avoid, draws)
    ensures r.Some? ==> PossibleDraw(r.value, max) && r.value !in avoid
  {
    r := None;
    var i := 0;
    while r.None? && i < |draws|
      invariant 0 <= i <= |draws|
      invariant r.None? ==> Sample(avoid, draws) == Sample(avoid, draws[i..])
      invariant r.Some? ==> r == Sample(avoid, draws)
      decreases |draws| - i
    {
      var rand := draws[i];
      assert draws[i..][1..] == draws[i + 1..];
      i := i + 1;
      if rand !in avoid {
        r := Some(rand);
      }
    }
  }

  /** When every possible draw is to be avoided, no stream of draws ever makes `getRandom` return. */
  lemma NoFreeValueNeverReturns(max: int, avoid: seq<int>, draws: seq<int>)
    requires AllPossible(draws, max)
    requires !HasFreeValue(max, avoid)
    ensures Sample(avoid, draws) == None
  {
  }

  /** Every free value is a possible result: a stream that starts with it returns it. */
  lemma FreeValueCanBeReturned(max: int, avoid: seq<int>, v: int)
    requires PossibleDraw(v, max) && v !in avoid
    ensures AllPossible([v], max) && Sample(avoid, [v]) == Some(v)
  {
  }

  // ---------------------------------------------------------------------
  // The indices addNode picks

  /** [0, 1, ..., n-1]. */
  function Indices(n: nat): (r: seq<int>)
    ensures |r| == n
    ensures forall k :: 0 <= k < n ==> r[k] == k
  {
    seq(n, k => k)
  }

  /** The avoid list of `addNode`: the index of every existing node, in order. */
  method BuildAvoidList(n: nat) returns (avoid: seq<int>)
    ensures |avoid| == n
    ensures forall k :: 0 <= k < n ==> avoid[k] == k
  {
    avoid := [];
    var i := 0;
    while i < n
      invariant 0 <= i <= n
      invariant |avoid| == i
      invariant forall k :: 0 <= k < i ==> avoid[k] == k
    {
      avoid := avoid + [i];
      i := i + 1;
    }
  }

  /** The only index that draws up to n can give outside [0, n) is n itself. */
  lemma NewIndexIsNodeCount(n: nat, v: int)
    ensures PossibleDraw(v, n) && v !in Indices(n) <==> v == n
    ensures HasFreeValue(n, Indices(n))
  {
    if 0 <= v < n {
      assert Indices(n)[v] == v;
    }
    assert PossibleDraw(n, n) && n !in Indices(n);
  }

  /** The size of `nodes` once the new node exists: one more if `getNodes()` is a live view. */
  function Listed(n: nat, live: bool): (r: nat)
    ensures n <= r <= n + 1
    ensures r == n + 1 <==> live
  {
    if live then n + 1 else n
  }

  /**
   * The first target: drawn up to `nodes.size() - 1` avoiding the new
   * index n, it is always one of the n existing nodes, and such a draw exists.
   */
  lemma FirstTargetIsExistingNode(n: nat, live: bool, v: int)
    requires n >= 1
    ensures PossibleDraw(v, Listed(n, live) - 1) && v !in [n] ==> 0 <= v < n
    ensures HasFreeValue(Listed(n, live) - 1, [n])
  {
    assert PossibleDraw(0, Listed(n, live) - 1) && 0 !in [n];
  }

  /**
   * The second target: drawn over the same range avoiding the new index
   * and the first target, it is an existing node other than the first, and
   * such a draw exists exactly when there are at least two existing nodes.
   */
  lemma SecondTargetIsOtherNode(n: nat, live: bool, first: int, v: int)
    requires 0 <= first < n
    ensures PossibleDraw(v, Listed(n, live) - 1) && v !in [n, first] ==> 0 <= v < n && v != first
    ensures HasFreeValue(Listed(n, live) - 1, [n, first]) <==> n >= 2
  {
    if n >= 2 {
      var w := if first == 0 then 1 else 0;
      assert PossibleDraw(w, Listed(n, live) - 1) && w !in [n, first];
    }
  }

  /**
   * The first click on "Add Node", with node0 alone: when the coin asks for
   * a second connection, every candidate is the new node or the first
   * target, so no stream of draws ever ends that pick.
   */
  lemma OnlyNodeZeroSecondPickHangs(live: bool, draws: seq<int>)
    requires AllPossible(draws, Listed(1, live) - 1)
    ensures !HasFreeValue(Listed(1, live) - 1, [1, 0])
    ensures Sample([1, 0], draws) == None
  {
    SecondTargetIsOtherNode(1, live, 0, 0);
    NoFreeValueNeverReturns(Listed(1, live) - 1, [1, 0], draws);
  }

  // ---------------------------------------------------------------------
  // The graph

  /** The three calls of `getRandom` in `addNode`. */
  datatype Stage = NewIndex | FirstTarget | SecondTarget

  /** The bound `addNode` passes to `getRandom` at a stage, when the graph had n nodes. */
  function PickMax(stage: Stage, n: nat, live: bool): (m: int)
  {
    if stage == NewIndex then n else Listed(n, live) - 1
  }

  /** The avoid list at a stage: all existing indices first, then the indices picked so far. */
  function PickAvoid(stage: Stage, n: nat, picked: seq<int>): (avoid: seq<int>)
  {
    if stage == NewIndex then Indices(n) else picked
  }

  /** The rejection loop of that stage can stop. */
  ghost predicate PickCanStop(stage: Stage, n: nat, live: bool, picked: seq<int>): (b: bool)
  {
    HasFreeValue(PickMax(stage, n, live), PickAvoid(stage, n, picked))
  }

  /** A connection from the node at index `source` to the node at index `target`. */
  datatype Connection = Connection(source: nat, target: nat)

  /**
   * How a click on "Add Node" ends: the new node's index and the targets
   * it was connected to, or the stage whose `getRandom` has not returned
   * within its draws, with the indices picked before it.
   */
  datatype AddOutcome = Added(newIndex: nat, targets: seq<nat>) | Stuck(stage: Stage, picked: seq<int>)

  /** The connections from `source` to each of `targets`, in order. */
  function Edges(source: nat, targets: seq<nat>): (r: seq<Connection>)
  {
    seq(|targets|, i requires 0 <= i < |targets| => Connection(source, targets[i]))
  }

  /** The label `addNode` gives its node: "node " followed by digits that read as `k`. */
  function NodeLabel(k: nat): (r: string)
    ensures |r| > 5 && r[..5] == "node "
    ensures forall i :: 5 <= i < |r| ==> IsDigit(r[i])
    ensures DigitsValue(r[5..]) == k
    ensures r[5] == '0' <==> k == 0
  {
    var r := "node " + NatToString(k);
    assert r[5..] == NatToString(k);
    DigitsValueOfNatToString(k);
    r
  }

  /** The draws of the stage that got stuck. */
  function StageDraws(stage: Stage, newDraws: seq<int>, firstDraws: seq<int>, secondDraws: seq<int>): (r: seq<int>)
  {
    match stage
    case NewIndex => newDraws
    case FirstTarget => firstDraws
    case SecondTarget => secondDraws
  }

  /**
   * The graph widget as `addNode` and the double-click handler see it: node
   * labels and border colours by index, and the connections. Whether
   * `getNodes()` is a live view of the node list or a snapshot is a
   * property of the widget library, fixed for a graph.
   */
  class Graph {
    var labels: seq<string>
    var borders: seq<Color>
    var connections: seq<Connection>
    const defaultBorder: Color
    const liveNodeList: bool

    /**
     * "Node 0" followed by "node k" at each index k, one border per node,
     * and connections that each run from a later node to an earlier one
     * (so none is a self-edge), no two alike.
     */
    ghost predicate Valid()
      reads this
    {
      |labels| >= 1 && |borders| == |labels|
      && labels[0] == "Node 0"
      && (forall k :: 1 <= k < |labels| ==> labels[k] == NodeLabel(k))
      && (forall i :: 0 <= i < |connections| ==> connections[i].target < connections[i].source < |labels|)
      && (forall i, j :: 0 <= i < j < |connections| ==> connections[i] != connections[j])
    }

    /** The graph `main` builds: node0 alone. */
    constructor (defaultBorder: Color, liveNodeList: bool)
      ensures Valid()
      ensures labels == ["Node 0"] && borders == [defaultBorder] && connections == []
      ensures this.defaultBorder == defaultBorder && this.liveNodeList == liveNodeList
    {
      this.defaultBorder := defaultBorder;
      this.liveNodeList := liveNodeList;
      labels := ["Node 0"];
      borders := [defaultBorder];
      connections := [];
    }

    /** Creating the new node: its label and the default border join the end of the node list. */
    method AppendNode(idx: nat)
      requires Valid()
      requires idx == |labels|
      modifies this`labels, this`borders
      ensures Valid()
      ensures labels == old(labels) + [NodeLabel(idx)] && borders == old(borders) + [defaultBorder]
    {
      labels := labels + [NodeLabel(idx)];
      borders := borders + [defaultBorder];
    }

    /** Creating a connection from the newest node to an older one that it is not yet connected to. */
    method Connect(target: nat)
      requires Valid()
      requires target < |labels| - 1
      requires Connection(|labels| - 1, target) !in connections
      modifies this`connections
      ensures Valid()
      ensures connections == old(connections) + [Connection(|labels| - 1, target)]
    {
      connections := connections + [Connection(|labels| - 1, target)];
    }

    /**
     * `addNode` up to the first connection: the avoid list, the new node's
     * index (always the node count), the new node, and its first connection
     * to an existing node.
     */
    method AddNodeAndFirstEdge(newDraws: seq<int>, firstDraws: seq<int>) returns (outcome: AddOutcome)
      requires Valid()
      requires AllPossible(newDraws, PickMax(NewIndex, |labels|, liveNodeList))
      requires AllPossible(firstDraws, PickMax(FirstTarget, |labels|, liveNodeList))
      modifies this
      ensures Valid()
      ensures outcome.Added? ==> (outcome.newIndex == old(|labels|) && |outcome.targets| == 1
        && outcome.targets[0] < outcome.newIndex
        && connections == old(connections) + Edges(outcome.newIndex, outcome.targets))
      ensures outcome.Stuck? ==> outcome.stage != SecondTarget
      ensures outcome.Stuck? && outcome.stage == NewIndex ==>
        outcome.picked == [] && labels == old(labels) && borders == old(borders) && connections == old(connections)
      ensures !(outcome.Stuck? && outcome.stage == NewIndex) ==>
        labels == old(labels) + [NodeLabel(old(|labels|))] && borders == old(borders) + [defaultBorder]
      ensures outcome.Stuck? && outcome.stage == FirstTarget ==>
        outcome.picked == [old(|labels|)] && connections == old(connections)
      ensures outcome.Stuck? ==>
        Sample(PickAvoid(outcome.stage, old(|labels|), outcome.picked), StageDraws(outcome.stage, newDraws, firstDraws, [])) == None
        && PickCanStop(outcome.stage, old(|labels|), liveNodeList, outcome.picked)
    {
      var n := |labels|;
      var avoid := BuildAvoidList(n);
      assert avoid == Indices(n);
      NewIndexIsNodeCount(n, n);
      var newIdx := GetRandom(n, avoid, newDraws);
      if newIdx.None? {
        return Stuck(NewIndex, []);
      }
      NewIndexIsNodeCount(n, newIdx.value);
      var idx: nat := newIdx.value;
      assert forall i :: 0 <= i < |connections| ==> connections[i].source < idx;
      AppendNode(idx);

      var listed := Listed(n, liveNodeList);
      FirstTargetIsExistingNode(n, liveNodeList, 0);
      var first := GetRandom(listed - 1, [idx], firstDraws);
      if first.None? {
        return Stuck(FirstTarget, [idx]);
      }
      FirstTargetIsExistingNode(n, liveNodeList, first.value);
      var target: nat := first.value;
      Connect(target);
      outcome := Added(idx, [target]);
      assert Edges(idx, [target]) == [Connection(idx, target)];
    }

    /**
     * The optional second connection of `addNode`, from the newest node to
     * an existing node other than its first target.
     */
    method AddSecondEdge(first: nat, secondDraws: seq<int>) returns (second: Option<nat>)
      requires Valid()
      requires |labels| >= 2 && first < |labels| - 1
      requires forall i :: 0 <= i < |connections| && connections[i].source == |labels| - 1 ==>
        connections[i].target == first
      requires AllPossible(secondDraws, PickMax(SecondTarget, |labels| - 1, liveNodeList))
      modifies this`connections
      ensures Valid()
      ensures second.Some? ==> (second.value < |labels| - 1 && second.value != first
        && connections == old(connections) + [Connection(|labels| - 1, second.value)])
      ensures second.None? ==> (connections == old(connections)
        && Sample([|labels| - 1, first], secondDraws) == None)
      ensures PickCanStop(SecondTarget, |labels| - 1, liveNodeList, [|labels| - 1, first]) <==> |labels| >= 3
    {
      var n := |labels| - 1;
      SecondTargetIsOtherNode(n, liveNodeList, first, 0);
      var pick := GetRandom(Listed(n, liveNodeList) - 1, [n, first], secondDraws);
      if pick.None? {
        return None;
      }
      SecondTargetIsOtherNode(n, liveNodeList, first, pick.value);
      var target: nat := pick.value;
      Connect(target);
      second := Some(target);
    }

    /**
     * `addNode` as written: the first connection always, the second when
     * the coin says so. With node0 alone a second connection has no
     * candidate, and that pick never returns.
     */
    method AddNode(newDraws: seq<int>, firstDraws: seq<int>, coin: bool, secondDraws: seq<int>)
      returns (outcome: AddOutcome)
      requires Valid()
      requires AllPossible(newDraws, PickMax(NewIndex, |labels|, liveNodeList))
      requires AllPossible(firstDraws, PickMax(FirstTarget, |labels|, liveNodeList))
      requires AllPossible(secondDraws, PickMax(SecondTarget, |labels|, liveNodeList))
      modifies this
      ensures Valid()
      ensures outcome.Stuck? && outcome.stage == NewIndex ==>
        outcome.picked == [] && labels == old(labels) && borders == old(borders) && connections == old(connections)
      ensures !(outcome.Stuck? && outcome.stage == NewIndex) ==>
        labels == old(labels) + [NodeLabel(old(|labels|))] && borders == old(borders) + [defaultBorder]
      ensures outcome.Added? ==> (outcome.newIndex == old(|labels|)
        && |outcome.targets| == (if coin then 2 else 1)
        && (forall i :: 0 <= i < |outcome.targets| ==> outcome.targets[i] < outcome.newIndex)
        && Distinct(outcome.targets)
        && connections == old(connections) + Edges(outcome.newIndex, outcome.targets))
      ensures outcome.Stuck? && outcome.stage == FirstTarget ==>
        outcome.picked == [old(|labels|)] && connections == old(connections)
      ensures outcome.Stuck? && outcome.stage == SecondTarget ==>
        coin && |outcome.picked| == 2 && outcome.picked[0] == old(|labels|)
        && 0 <= outcome.picked[1] < old(|labels|)
        && connections == old(connections) + [Connection(old(|labels|), outcome.picked[1])]
      ensures outcome.Stuck? ==>
        Sample(PickAvoid(outcome.stage, old(|labels|), outcome.picked),
               StageDraws(outcome.stage, newDraws, firstDraws, secondDraws)) == None
      ensures outcome.Stuck? ==>
        (PickCanStop(outcome.stage, old(|labels|), liveNodeList, outcome.picked)
         <==> outcome.stage != SecondTarget || old(|labels|) >= 2)
      ensures old(|labels|) == 1 && coin ==> outcome.Stuck?
    {
      outcome := AddNodeAndFirstEdge(newDraws, firstDraws);
      if outcome.Added? && coin {
        var idx, first := outcome.newIndex, outcome.targets[0];
        var second := AddSecondEdge(first, secondDraws);
        if second.None? {
          outcome := Stuck(SecondTarget, [idx, first]);
        } else {
          outcome := Added(idx, [first, second.value]);
        }
      }
    }

    /**
     * `addNode` with the second connection skipped while fewer than two
     * nodes exist: every rejection loop it enters can stop.
     */
    method AddNodeGuarded(newDraws: seq<int>, firstDraws: seq<int>, coin: bool, secondDraws: seq<int>)
      returns (outcome: AddOutcome)
      requires Valid()
      requires AllPossible(newDraws, PickMax(NewIndex, |labels|, liveNodeList))
      requires AllPossible(firstDraws, PickMax(FirstTarget, |labels|, liveNodeList))
      requires AllPossible(secondDraws, PickMax(SecondTarget, |labels|, liveNodeList))
      modifies this
      ensures Valid()
      ensures outcome.Stuck? && outcome.stage == NewIndex ==>
        outcome.picked == [] && labels == old(labels) && borders == old(borders) && connections == old(connections)
      ensures !(outcome.Stuck? && outcome.stage == NewIndex) ==>
        labels == old(labels) + [NodeLabel(old(|labels|))] && borders == old(borders) + [defaultBorder]
      ensures outcome.Added? ==> (outcome.newIndex == old(|labels|)
        && |outcome.targets| == (if coin && old(|labels|) >= 2 then 2 else 1)
        && (forall i :: 0 <= i < |outcome.targets| ==> outcome.targets[i] < outcome.newIndex)
        && Distinct(outcome.targets)
        && connections == old(connections) + Edges(outcome.newIndex, outcome.targets))
      ensures outcome.Stuck? && outcome.stage == FirstTarget ==>
        outcome.picked == [old(|labels|)] && connections == old(connections)
      ensures outcome.Stuck? && outcome.stage == SecondTarget ==>
        coin && old(|labels|) >= 2 && |outcome.picked| == 2 && outcome.picked[0] == old(|labels|)
        && 0 <= outcome.picked[1] < old(|labels|)
        && connections == old(connections) + [Connection(old(|labels|), outcome.picked[1])]
      ensures outcome.Stuck? ==>
        Sample(PickAvoid(outcome.stage, old(|labels|), outcome.picked),
               StageDraws(outcome.stage, newDraws, firstDraws, secondDraws)) == None
      ensures outcome.Stuck? ==> PickCanStop(outcome.stage, old(|labels|), liveNodeList, outcome.picked)
    {
      var n := |labels|;
      outcome := AddNodeAndFirstEdge(newDraws, firstDraws);
      if outcome.Added? && coin && n >= 2 {
        var idx, first := outcome.newIndex, outcome.targets[0];
        var second := AddSecondEdge(first, secondDraws);
        if second.None? {
          outcome := Stuck(SecondTarget, [idx, first]);
        } else {
          outcome := Added(idx, [first, second.value]);
        }
      }
    }

    /** The double-click handler: toggles the border of every selected node, in selection order. */
    method DoubleClick(selection: seq<nat>)
      requires Valid()
      requires forall i :: 0 <= i < |selection| ==> selection[i] < |borders|
      modifies this`borders
      ensures Valid()
      ensures borders == ToggleAll(old(borders), selection)
    {
      var j := 0;
      while j < |selection|
        invariant 0 <= j <= |selection|
        invariant borders == ToggleAll(old(borders), selection[..j])
      {
        var k := selection[j];
        assert selection[..j + 1][..j] == selection[..j];
        borders := borders[k := ToggleBorder(borders[k])];
        j := j + 1;
      }
      assert selection[..j] == selection;
    }
  }
}
