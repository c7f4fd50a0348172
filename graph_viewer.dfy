/**
 * The content provider, the label provider and the input list of the
 * GraphViewer demo. Every element of the viewer's input is a String naming
 * a relationship: "node0" for the first, then "node<k> to node<k-1>".
 * The content provider splits such a name at its first " to " into a
 * source and a destination, and the label provider shows an edge icon for
 * names that contain " to " and a node icon for the rest.
 */
module ZestGraphViewer {
  import opened Wrappers
  import opened JavaStrings

  const NODE_PREFIX: string := "node"
  const EDGE_CONJUNCTION: string := " to "

  /** A Java reference as the providers see it: null, a String, or an object of any other class. */
  datatype Obj = Null | Str(value: string) | NonString(id: nat)

  /** The two icons of the label provider. */
  datatype Image = NodeImage | EdgeImage

  /** The exceptions `getImage` can raise. */
  datatype Fault = ClassCastException | NullPointerException

  /** The first " to " in `s` starts at index `i`. */
  ghost predicate FirstSplitAt(s: string, i: int): (b: bool)
  {
    OccursAt(s, EDGE_CONJUNCTION, i) && forall j :: 0 <= j < i ==> !OccursAt(s, EDGE_CONJUNCTION, j)
  }

  /**
   * `getSource`: for a String that contains " to ", exactly the part before
   * its first " to "; null for every other argument.
   */
  function GetSource(rel: Obj): (r: Obj)
    ensures rel.Str? && Occurs(rel.value, EDGE_CONJUNCTION) ==>
      r.Str? && |r.value| <= |rel.value| && r.value == rel.value[..|r.value|] && FirstSplitAt(rel.value, |r.value|)
    ensures !(rel.Str? && Occurs(rel.value, EDGE_CONJUNCTION)) ==> r == Null
  {
    if rel.Str? && Contains(rel.value, EDGE_CONJUNCTION) then
      Str(rel.value[..IndexOf(rel.value, EDGE_CONJUNCTION)])
    else
      Null
  }

  /**
   * `getDestination`: for a String that contains " to ", exactly the part
   * after its first " to "; every other argument is returned unchanged.
   */
  function GetDestination(rel: Obj): (r: Obj)
    ensures rel.Str? && Occurs(rel.value, EDGE_CONJUNCTION) ==>
      r.Str? && |r.value| + |EDGE_CONJUNCTION| <= |rel.value|
      && r.value == rel.value[|rel.value| - |r.value|..]
      && FirstSplitAt(rel.value, |rel.value| - |r.value| - |EDGE_CONJUNCTION|)
    ensures !(rel.Str? && Occurs(rel.value, EDGE_CONJUNCTION)) ==> r == rel
  {
    if rel.Str? && Contains(rel.value, EDGE_CONJUNCTION) then
      Str(rel.value[IndexOf(rel.value, EDGE_CONJUNCTION) + |EDGE_CONJUNCTION|..])
    else
      rel
  }

  /** `getElements`: the input list as an array, element by element in the same order. */
  function GetElements(input: seq<string>): (r: seq<Obj>)
    ensures |r| == |input|
    ensures forall i :: 0 <= i < |input| ==> r[i] == Str(input[i])
  {
    seq(|input|, i requires 0 <= i < |input| => Str(input[i]))
  }

  /**
   * `getImage`. Its condition uses the non-short-circuit `&`, so the cast and
   * the call to `contains` happen whatever `instanceof` says: a null argument
   * raises NullPointerException and any other non-String ClassCastException.
   */
  function GetImage(element: Obj): (r: Result<Image, Fault>)
    ensures r == Ok(EdgeImage) <==> element.Str? && Occurs(element.value, EDGE_CONJUNCTION)
    ensures r == Ok(NodeImage) <==> element.Str? && !Occurs(element.value, EDGE_CONJUNCTION)
    ensures r == Err(NullPointerException) <==> element.Null?
    ensures r == Err(ClassCastException) <==> element.NonString?
  {
    match element
    case Null => Err(NullPointerException)
    case NonString(_) => Err(ClassCastException)
    case Str(s) => if Contains(s, EDGE_CONJUNCTION) then Ok(EdgeImage) else Ok(NodeImage)
  }

  /** "node" followed by the decimal form of `k`. */
  function NodeName(k: nat): (r: string)
  {
    NODE_PREFIX + NatToString(k)
  }

  /** The name of the relationship from `source` to `destination`. */
  function EdgeName(source: string, destination: string): (r: string)
  {
    source + EDGE_CONJUNCTION + destination
  }

  /**
   * The k-th element `addNode` puts in the input list: "node0" first, and
   * "node<k> to node<k-1>" after it, so every name starts with the node
   * prefix and holds the separator exactly when it is not the first.
   */
  function InputName(k: nat): (r: string)
    ensures |r| >= 5 && r[..4] == NODE_PREFIX
    ensures k == 0 ==> r == "node0"
    ensures k >= 1 ==> OccursAt(r, EDGE_CONJUNCTION, |NodeName(k)|)
  {
    if k == 0 then NodeName(0) else EdgeName(NodeName(k), NodeName(k - 1))
  }

  /**
   * Joining and splitting again. Splitting `a + " to " + b` gives back `a`
   * and `b` exactly when the first " to " is the one inserted, which is when
   * `a + " to"` holds no " to ". It is not enough that `a` holds none: an `a`
   * ending in " to" loses that ending (see AmbiguousSourceName).
   */
  lemma JoinThenSplit(a: string, b: string)
    ensures GetSource(Str(EdgeName(a, b))) == Str(a) <==> !Occurs(a + " to", EDGE_CONJUNCTION)
    ensures GetDestination(Str(EdgeName(a, b))) == Str(b) <==> !Occurs(a + " to", EDGE_CONJUNCTION)
  {
    var s := EdgeName(a, b);
    var p := a + " to";
    assert s[|a|..|a| + 4] == EDGE_CONJUNCTION;
    assert OccursAt(s, EDGE_CONJUNCTION, |a|);
    // An occurrence inside `a + " to"` is an occurrence in `s` before index |a|, and conversely.
    assert forall j :: 0 <= j < |a| ==> (OccursAt(s, EDGE_CONJUNCTION, j) <==> OccursAt(p, EDGE_CONJUNCTION, j)) by {
      forall j | 0 <= j < |a|
        ensures OccursAt(s, EDGE_CONJUNCTION, j) <==> OccursAt(p, EDGE_CONJUNCTION, j)
      {
        assert s[j..j + 4] == p[j..j + 4];
      }
    }
    assert forall j :: OccursAt(p, EDGE_CONJUNCTION, j) ==> j < |a|;
    var src := GetSource(Str(s));
    var dst := GetDestination(Str(s));
    assert |src.value| == |s| - |dst.value| - 4;
    if !Occurs(p, EDGE_CONJUNCTION) {
      assert FirstSplitAt(s, |a|);
      assert |src.value| == |a|;
      assert s[|a| + 4..] == b;
    } else {
      var j :| OccursAt(p, EDGE_CONJUNCTION, j);
      assert |src.value| <= j < |a|;
    }
  }

  /** Splitting a name that contains " to " and joining the parts gives the name back. */
  lemma SplitThenJoin(s: string)
    requires Occurs(s, EDGE_CONJUNCTION)
    ensures GetSource(Str(s)).Str? && GetDestination(Str(s)).Str?
    ensures EdgeName(GetSource(Str(s)).value, GetDestination(Str(s)).value) == s
  {
    var i := IndexOf(s, EDGE_CONJUNCTION);
    var source, destination := GetSource(Str(s)), GetDestination(Str(s));
    assert source == Str(s[..i]);
    assert destination == Str(s[i + 4..]);
    JoinAround(s, i);
    assert EdgeName(source.value, destination.value) == s;
  }

  lemma JoinAround(s: string, i: nat)
    requires OccursAt(s, EDGE_CONJUNCTION, i)
    ensures EdgeName(s[..i], s[i + 4..]) == s
  {
    assert s[i..i + 4] == EDGE_CONJUNCTION;
    assert s == s[..i] + s[i..];
    assert s[i..] == s[i..i + 4] + s[i + 4..];
  }

  /** A source name that ends in " to" does not survive the round trip, though it holds no " to ". */
  lemma AmbiguousSourceName()
    ensures !Occurs("x to", EDGE_CONJUNCTION)
    ensures GetSource(Str(EdgeName("x to", "y"))) == Str("x")
    ensures GetDestination(Str(EdgeName("x to", "y"))) == Str("to y")
  {
    assert "x to"[0..4][0] == 'x';
    assert !OccursAt("x to", EDGE_CONJUNCTION, 0);
    var s := EdgeName("x to", "y");
    assert s == "x to to y";
    assert s[1..5] == EDGE_CONJUNCTION;
    assert s[0..4][0] == 'x';
    var i := IndexOf(s, EDGE_CONJUNCTION);
    assert OccursAt(s, EDGE_CONJUNCTION, 1) && !OccursAt(s, EDGE_CONJUNCTION, 0);
    assert i == 1;
    assert s[..1] == "x";
    assert s[5..] == "to y";
  }

  /** A node name holds no blank, so it can never hide a " to ". */
  lemma NodeNameSplitsCleanly(k: nat)
    ensures !Occurs(NodeName(k) + " to", EDGE_CONJUNCTION)
  {
    var d := NatToString(k);
    var p := NodeName(k) + " to";
    assert p == NODE_PREFIX + d + " to";
    forall j | 0 <= j && j + 4 <= |p|
      ensures !OccursAt(p, EDGE_CONJUNCTION, j)
    {
      assert p[j..j + 4][0] == p[j];
      if j < 4 {
        assert p[j] == NODE_PREFIX[j];
      } else {
        assert p[j] == d[j - 4];
        assert IsDigit(d[j - 4]);
      }
    }
  }

  /**
   * The names `addNode` builds parse as intended: "node0" is a node name,
   * its own destination and without a source; for k >= 1 the k-th name is
   * an edge from node k to node k-1.
   */
  lemma InputNameParses(k: nat)
    ensures k == 0 ==> InputName(k) == "node0"
    ensures k == 0 ==> GetSource(Str(InputName(k))) == Null
    ensures k == 0 ==> GetDestination(Str(InputName(k))) == Str(InputName(k))
    ensures k >= 1 ==> GetSource(Str(InputName(k))) == Str(NodeName(k))
    ensures k >= 1 ==> GetDestination(Str(InputName(k))) == Str(NodeName(k - 1))
    ensures GetImage(Str(InputName(k))) == Ok(if k == 0 then NodeImage else EdgeImage)
  {
    if k == 0 {
      assert NatToString(0) == "0";
      assert InputName(0) == "node0";
      NodeNameSplitsCleanly(0);
      assert forall j :: OccursAt("node0", EDGE_CONJUNCTION, j) ==> OccursAt(NodeName(0) + " to", EDGE_CONJUNCTION, j) by {
        forall j | OccursAt("node0", EDGE_CONJUNCTION, j)
          ensures OccursAt(NodeName(0) + " to", EDGE_CONJUNCTION, j)
        {
          assert ("node0" + " to")[j..j + 4] == "node0"[j..j + 4];
        }
      }
    } else {
      NodeNameSplitsCleanly(k);
      JoinThenSplit(NodeName(k), NodeName(k - 1));
      var s := InputName(k);
      assert s[|NodeName(k)|..|NodeName(k)| + 4] == EDGE_CONJUNCTION;
      assert OccursAt(s, EDGE_CONJUNCTION, |NodeName(k)|);
    }
  }

  /** Different indices give different node names, so the input names a simple path. */
  lemma NodeNameInjective(j: nat, k: nat)
    ensures NodeName(j) == NodeName(k) ==> j == k
  {
    if NodeName(j) == NodeName(k) {
      assert NatToString(j) == NodeName(j)[4..];
      assert NatToString(k) == NodeName(k)[4..];
      NatToStringInjective(j, k);
    }
  }

  /** The viewer's input list, which `addNode` extends in place. */
  class Viewer {
    var input: seq<string>

    /** Each element is the name `addNode` gives to its position. */
    ghost predicate Valid()
      reads this
    {
      forall k :: 0 <= k < |input| ==> input[k] == InputName(k)
    }

    /** The viewer is given an empty list as its input. */
    constructor ()
      ensures Valid() && input == []
    {
      input := [];
    }

    /** `getElements` of the current input. */
    function Elements(): (r: seq<Obj>)
      reads this
      ensures |r| == |input|
      ensures forall k :: 0 <= k < |r| ==> r[k].Str? && r[k].value == input[k]
    {
      GetElements(input)
    }

    /**
     * `addNode`: appends "node0" to an empty list, and otherwise
     * "node<n> to node<n-1>" where n is the current size.
     */
    method AddNode()
      requires Valid()
      modifies this
      ensures Valid()
      ensures |input| == |old(input)| + 1
      ensures input[..|old(input)|] == old(input)
      ensures input[|old(input)|] == InputName(|old(input)|)
    {
      var n := |input|;
      var name;
      if n == 0 {
        name := NODE_PREFIX + NatToString(n);
      } else {
        var source, destination := NODE_PREFIX + NatToString(n), NODE_PREFIX + NatToString(n - 1);
        name := NODE_PREFIX + NatToString(n) + " to " + NODE_PREFIX + NatToString(n - 1);
        assert name == EdgeName(source, destination);
      }
      assert name == InputName(n);
      ghost var before := input;
      input := input + [name];
      forall k | 0 <= k < |input|
        ensures input[k] == InputName(k)
      {
        if k < n {
          assert input[k] == before[k];
        }
      }
    }
  }

  /**
   * Every element of a well-formed input, as handed to the providers: the
   * first is a node, and every later one is an edge from its own index to
   * the one before.
   */
  lemma ElementsDescribePath(v: Viewer, k: nat)
    requires v.Valid() && k < |v.input|
    ensures GetImage(v.Elements()[k]) == Ok(if k == 0 then NodeImage else EdgeImage)
    ensures k == 0 ==> GetDestination(v.Elements()[k]) == Str("node0")
    ensures k >= 1 ==> GetSource(v.Elements()[k]) == Str(NodeName(k))
    ensures k >= 1 ==> GetDestination(v.Elements()[k]) == Str(NodeName(k - 1))
  {
    InputNameParses(k);
  }
}
