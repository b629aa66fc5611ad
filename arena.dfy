/** The node records of the tree (`node_t`, tree.h:22-28) kept in an arena: a pointer is an
    index into a sequence of records and NIL stands for NULL. Records are only ever appended,
    and a child is always allocated after the node that owns it, so an owned child has a larger
    index than its owner and a parent a smaller one than its child. */
module Arena {
  import opened TreeTypes
  import opened Shape

  /** One `node_t`: its text, the two children it owns and the non-owning back-link. */
  datatype Cell = Cell(question: string, yes: Ptr, no: Ptr, parent: Ptr)

  predicate InRange(nodes: seq<Cell>, p: Ptr)
  {
    0 <= p < |nodes|
  }

  /** `is_leaf`: a node that owns neither child. */
  predicate IsLeaf(nodes: seq<Cell>, p: Ptr)
  {
    InRange(nodes, p) && nodes[p].yes == NIL && nodes[p].no == NIL
  }

  /** The record at `i` is linked correctly: its children lie after it and point back to it,
      its two children differ, and its parent lies before it and owns it. */
  predicate CellOk(nodes: seq<Cell>, i: int)
    requires 0 <= i < |nodes|
  {
    var c := nodes[i];
    (c.yes == NIL || i < c.yes < |nodes|)
    && (c.no == NIL || i < c.no < |nodes|)
    && (c.parent == NIL || 0 <= c.parent < i)
    && (c.yes != NIL ==> nodes[c.yes].parent == i && c.yes != c.no)
    && (c.no != NIL ==> nodes[c.no].parent == i)
    && (c.parent != NIL ==> nodes[c.parent].yes == i || nodes[c.parent].no == i)
  }

  /** Every record is linked correctly: the records form a forest in which `parent` is the
      back-link of exactly the `yes` or `no` field that holds a node. */
  predicate Consistent(nodes: seq<Cell>)
  {
    forall i :: 0 <= i < |nodes| ==> CellOk(nodes, i)
  }

  /** Every back-link is NULL or points at a record. */
  predicate ParentsInRange(nodes: seq<Cell>)
  {
    forall i :: 0 <= i < |nodes| ==> nodes[i].parent == NIL || InRange(nodes, nodes[i].parent)
  }

  /** The subtree owned by `p`: what the count, the serialiser and the search see. */
  function Value(nodes: seq<Cell>, p: Ptr): Subtree
    decreases |nodes| - p
  {
    if !InRange(nodes, p) then Nil
    else
      Node(nodes[p].question,
           if p < nodes[p].yes then Value(nodes, nodes[p].yes) else Nil,
           if p < nodes[p].no then Value(nodes, nodes[p].no) else Nil)
  }

  /** `x` lies in the subtree owned by `p`. */
  predicate Under(nodes: seq<Cell>, x: Ptr, p: Ptr)
    decreases |nodes| - p
  {
    InRange(nodes, p)
    && (x == p
        || (p < nodes[p].yes && Under(nodes, x, nodes[p].yes))
        || (p < nodes[p].no && Under(nodes, x, nodes[p].no)))
  }

  lemma ConsistentParents(nodes: seq<Cell>)
    requires Consistent(nodes)
    ensures ParentsInRange(nodes)
  {
    forall i | 0 <= i < |nodes|
      ensures nodes[i].parent == NIL || InRange(nodes, nodes[i].parent)
    {
      assert CellOk(nodes, i);
    }
  }

  /** Whether a node is a leaf depends only on its two child fields: in a consistent store a
      node is a leaf exactly when the subtree it owns has no children. */
  lemma LeafIffNoChildren(nodes: seq<Cell>, p: Ptr)
    requires Consistent(nodes) && InRange(nodes, p)
    ensures IsLeaf(nodes, p) <==> Value(nodes, p).yes == Nil && Value(nodes, p).no == Nil
  {
    assert CellOk(nodes, p);
  }

  /** A node lies in the subtree of `p` only at or after `p`. */
  lemma {:induction false} UnderIndex(nodes: seq<Cell>, x: Ptr, p: Ptr)
    requires Under(nodes, x, p)
    ensures InRange(nodes, x) && p <= x
    decreases |nodes| - p
  {
    if x != p {
      if p < nodes[p].yes && Under(nodes, x, nodes[p].yes) {
        UnderIndex(nodes, x, nodes[p].yes);
      } else {
        UnderIndex(nodes, x, nodes[p].no);
      }
    }
  }

  /** Below the top of a subtree, the parent of a node is in the subtree too. */
  lemma {:induction false} UnderParent(nodes: seq<Cell>, x: Ptr, p: Ptr)
    requires Consistent(nodes) && Under(nodes, x, p) && x != p
    ensures InRange(nodes, x) && nodes[x].parent != NIL && Under(nodes, nodes[x].parent, p)
    decreases |nodes| - p
  {
    UnderIndex(nodes, x, p);
    assert CellOk(nodes, p);
    var c := if p < nodes[p].yes && Under(nodes, x, nodes[p].yes) then nodes[p].yes else nodes[p].no;
    assert Under(nodes, x, c);
    if x == c {
      assert CellOk(nodes, c);
    } else {
      UnderParent(nodes, x, c);
    }
  }

  /** The subtrees containing one node are nested: the ancestors of a node form a chain. */
  lemma {:induction false} UnderChain(nodes: seq<Cell>, x: Ptr, a: Ptr, b: Ptr)
    requires Consistent(nodes) && Under(nodes, x, a) && Under(nodes, x, b)
    ensures Under(nodes, a, b) || Under(nodes, b, a)
    decreases x
  {
    UnderIndex(nodes, x, a);
    if x != a && x != b {
      UnderParent(nodes, x, a);
      UnderParent(nodes, x, b);
      assert CellOk(nodes, x);
      UnderChain(nodes, nodes[x].parent, a, b);
    }
  }

  /** The two subtrees owned by one node share no node. */
  lemma ChildrenDisjoint(nodes: seq<Cell>, p: Ptr, x: Ptr)
    requires Consistent(nodes) && InRange(nodes, p)
    requires p < nodes[p].yes && p < nodes[p].no
    ensures !(Under(nodes, x, nodes[p].yes) && Under(nodes, x, nodes[p].no))
  {
    var y, n := nodes[p].yes, nodes[p].no;
    assert CellOk(nodes, p);
    if Under(nodes, x, y) && Under(nodes, x, n) {
      UnderChain(nodes, x, y, n);
      if Under(nodes, y, n) {
        UnderParent(nodes, y, n);
        UnderIndex(nodes, p, n);
      } else {
        UnderParent(nodes, n, y);
        UnderIndex(nodes, p, y);
      }
      assert false;
    }
  }

  /** Two stores agree from `lo` on: every record from `lo` up to the end of `a` has the
      same text and children in `b` (back-links may differ). */
  predicate Agree(a: seq<Cell>, b: seq<Cell>, lo: int)
  {
    |a| <= |b|
    && forall i :: 0 <= lo <= i < |a| ==>
         b[i].question == a[i].question && b[i].yes == a[i].yes && b[i].no == a[i].no
  }

  /** The subtree owned by `p` depends only on the records from `p` on. */
  lemma {:induction false} ValueFrame(a: seq<Cell>, b: seq<Cell>, p: Ptr)
    requires Consistent(a) && Agree(a, b, p) && InRange(a, p)
    ensures Value(b, p) == Value(a, p)
    decreases |a| - p
  {
    assert CellOk(a, p);
    var y, n := a[p].yes, a[p].no;
    if y != NIL {
      ValueFrame(a, b, y);
    }
    if n != NIL {
      ValueFrame(a, b, n);
    }
  }

  /** A store whose first records are exactly `a` agrees with `a`. */
  lemma PrefixAgree(a: seq<Cell>, b: seq<Cell>, lo: int)
    requires |a| <= |b| && b[..|a|] == a
    ensures Agree(a, b, lo)
  {
    forall i | 0 <= lo <= i < |a|
      ensures b[i] == a[i]
    {
      assert b[..|a|][i] == b[i];
    }
  }

  /** A store agrees with itself grown by records appended at its end. */
  lemma AgreeAppend(a: seq<Cell>, extra: seq<Cell>, p: Ptr)
    requires 0 <= p
    ensures Agree(a, a + extra, p)
  {
  }

  /** `nodes` with the text of `x` replaced. */
  function Relabel(nodes: seq<Cell>, x: Ptr, q: string): (r: seq<Cell>)
    requires InRange(nodes, x)
    ensures |r| == |nodes| && r[x].question == q
  {
    nodes[x := nodes[x].(question := q)]
  }

  lemma RelabelConsistent(nodes: seq<Cell>, x: Ptr, q: string)
    requires Consistent(nodes) && InRange(nodes, x)
    ensures Consistent(Relabel(nodes, x, q))
  {
    var r := Relabel(nodes, x, q);
    forall i | 0 <= i < |r|
      ensures CellOk(r, i)
    {
      assert CellOk(nodes, i);
    }
  }

  /** Changing a text changes no node count. */
  lemma {:induction false} RelabelCount(nodes: seq<Cell>, x: Ptr, q: string, p: Ptr)
    requires InRange(nodes, x)
    ensures Count(Value(Relabel(nodes, x, q), p)) == Count(Value(nodes, p))
    decreases |nodes| - p
  {
    var r := Relabel(nodes, x, q);
    if InRange(nodes, p) {
      var y, n := nodes[p].yes, nodes[p].no;
      assert r[p].yes == y && r[p].no == n;
      if p < y {
        RelabelCount(nodes, x, q, y);
      }
      if p < n {
        RelabelCount(nodes, x, q, n);
      }
    }
  }

  /** A record that owns nothing and has no parent, appended at the end, keeps a store
      consistent. */
  lemma AppendLoneConsistent(nodes: seq<Cell>, q: string)
    requires Consistent(nodes)
    ensures Consistent(nodes + [Cell(q, NIL, NIL, NIL)])
  {
    var r := nodes + [Cell(q, NIL, NIL, NIL)];
    forall i | 0 <= i < |r|
      ensures CellOk(r, i)
    {
      if i < |nodes| {
        assert CellOk(nodes, i);
      }
    }
  }

  /** The store after a successful `tree_split_node` on the leaf `x` (tree.cpp:135-178): `x`
      takes the text `feature`, a new leaf holding `newObject` becomes its `yes` child and a
      new leaf holding the old text its `no` child, both linked back to `x`. */
  function SplitCells(nodes: seq<Cell>, x: Ptr, feature: string, newObject: string): (r: seq<Cell>)
    requires IsLeaf(nodes, x)
    ensures |r| == |nodes| + 2
  {
    var n := |nodes|;
    nodes[x := nodes[x].(question := feature, yes := n, no := n + 1)]
      + [Cell(newObject, NIL, NIL, x), Cell(nodes[x].question, NIL, NIL, x)]
  }

  /** No record names a leaf as its parent. */
  lemma LeafOwnsNothing(nodes: seq<Cell>, x: Ptr, i: int)
    requires Consistent(nodes) && IsLeaf(nodes, x) && 0 <= i < |nodes|
    ensures nodes[i].parent != x
  {
    assert CellOk(nodes, i);
  }

  /** Splitting a leaf keeps the store consistent. */
  lemma SplitConsistent(nodes: seq<Cell>, x: Ptr, feature: string, newObject: string)
    requires Consistent(nodes) && IsLeaf(nodes, x)
    ensures Consistent(SplitCells(nodes, x, feature, newObject))
  {
    var r := SplitCells(nodes, x, feature, newObject);
    var n := |nodes|;
    forall i | 0 <= i < |r|
      ensures CellOk(r, i)
    {
      if i < n {
        assert CellOk(nodes, i);
        if i != x {
          LeafOwnsNothing(nodes, x, i);
        }
      }
    }
  }

  /** After the split, `x` owns exactly a question over the new object (`yes`) and the old
      object (`no`). */
  lemma SplitShape(nodes: seq<Cell>, x: Ptr, feature: string, newObject: string)
    requires IsLeaf(nodes, x)
    ensures Value(SplitCells(nodes, x, feature, newObject), x)
         == Node(feature, Node(newObject, Nil, Nil), Node(nodes[x].question, Nil, Nil))
  {
    var r := SplitCells(nodes, x, feature, newObject);
    var n := |nodes|;
    assert Value(r, n) == Node(newObject, Nil, Nil);
    assert Value(r, n + 1) == Node(nodes[x].question, Nil, Nil);
  }

  /** A subtree that does not contain the split leaf is unchanged by the split. */
  lemma {:induction false} SplitElsewhere(nodes: seq<Cell>, x: Ptr, feature: string, newObject: string, p: Ptr)
    requires Consistent(nodes) && IsLeaf(nodes, x)
    requires p < |nodes| && !Under(nodes, x, p)
    ensures Value(SplitCells(nodes, x, feature, newObject), p) == Value(nodes, p)
    decreases |nodes| - p
  {
    var r := SplitCells(nodes, x, feature, newObject);
    if InRange(nodes, p) {
      assert CellOk(nodes, p);
      assert r[p] == nodes[p];
      var y, n := nodes[p].yes, nodes[p].no;
      if p < y {
        SplitElsewhere(nodes, x, feature, newObject, y);
      }
      if p < n {
        SplitElsewhere(nodes, x, feature, newObject, n);
      }
    }
  }

  /** A subtree that contains the split leaf grows by exactly two nodes. */
  lemma {:induction false} SplitCount(nodes: seq<Cell>, x: Ptr, feature: string, newObject: string, p: Ptr)
    requires Consistent(nodes) && IsLeaf(nodes, x) && Under(nodes, x, p)
    ensures Count(Value(SplitCells(nodes, x, feature, newObject), p)) == Count(Value(nodes, p)) + 2
    decreases |nodes| - p
  {
    var r := SplitCells(nodes, x, feature, newObject);
    if p == x {
      SplitShape(nodes, x, feature, newObject);
    } else {
      assert CellOk(nodes, p);
      assert r[p] == nodes[p];
      var y, n := nodes[p].yes, nodes[p].no;
      if p < y && Under(nodes, x, y) {
        SplitCount(nodes, x, feature, newObject, y);
        if p < n {
          ChildrenDisjoint(nodes, p, x);
          SplitElsewhere(nodes, x, feature, newObject, n);
        }
      } else {
        SplitCount(nodes, x, feature, newObject, n);
        if p < y {
          SplitElsewhere(nodes, x, feature, newObject, y);
        }
      }
    }
  }

  /** The store a split leaves when its `no` child cannot be made: `x` has the new text, and
      the `yes` record made for the new object is destroyed again, so it stays behind unlinked.
      It stays consistent and every subtree keeps its node count. */
  function DroppedChildCells(nodes: seq<Cell>, x: Ptr, feature: string, newObject: string): (r: seq<Cell>)
    requires InRange(nodes, x)
    ensures |r| == |nodes| + 1
  {
    Relabel(nodes, x, feature) + [Cell(newObject, NIL, NIL, NIL)]
  }

  lemma DroppedChildKeepsCount(nodes: seq<Cell>, x: Ptr, feature: string, newObject: string, p: Ptr)
    requires Consistent(nodes) && InRange(nodes, x) && p < |nodes|
    ensures Consistent(DroppedChildCells(nodes, x, feature, newObject))
    ensures Count(Value(DroppedChildCells(nodes, x, feature, newObject), p)) == Count(Value(nodes, p))
    ensures InRange(nodes, p) ==> DroppedChildCells(nodes, x, feature, newObject)[p].parent == nodes[p].parent
  {
    var relabelled := Relabel(nodes, x, feature);
    var r := DroppedChildCells(nodes, x, feature, newObject);
    RelabelConsistent(nodes, x, feature);
    AppendLoneConsistent(relabelled, newObject);
    RelabelCount(nodes, x, feature, p);
    if InRange(nodes, p) {
      AgreeAppend(relabelled, [Cell(newObject, NIL, NIL, NIL)], p);
      ValueFrame(relabelled, r, p);
    }
  }

  /** A successful split keeps the store consistent; the subtree of `p` grows by two nodes
      when it contains the split leaf and keeps its count otherwise. */
  lemma SplitKeepsCount(nodes: seq<Cell>, x: Ptr, feature: string, newObject: string, p: Ptr)
    requires Consistent(nodes) && IsLeaf(nodes, x) && p < |nodes|
    ensures Consistent(SplitCells(nodes, x, feature, newObject))
    ensures Under(nodes, x, p)
      ==> Count(Value(SplitCells(nodes, x, feature, newObject), p)) == Count(Value(nodes, p)) + 2
    ensures !Under(nodes, x, p)
      ==> Count(Value(SplitCells(nodes, x, feature, newObject), p)) == Count(Value(nodes, p))
    ensures InRange(nodes, p) ==> SplitCells(nodes, x, feature, newObject)[p].parent == nodes[p].parent
  {
    SplitConsistent(nodes, x, feature, newObject);
    if Under(nodes, x, p) {
      SplitCount(nodes, x, feature, newObject, p);
    } else {
      SplitElsewhere(nodes, x, feature, newObject, p);
    }
  }

  /** `nodes` after `p` takes `c` as its `yes` (or `no`) child and `c` takes `p` as parent. */
  function Attach(nodes: seq<Cell>, p: Ptr, c: Ptr, isYes: bool): (r: seq<Cell>)
    requires InRange(nodes, p) && InRange(nodes, c)
    ensures |r| == |nodes|
  {
    var owner := if isYes then nodes[p].(yes := c) else nodes[p].(no := c);
    var r := nodes[p := owner];
    r[c := r[c].(parent := p)]
  }

  /** Attaching a parentless node after `p` to an empty child field of `p` keeps the store
      consistent. */
  lemma AttachConsistent(nodes: seq<Cell>, p: Ptr, c: Ptr, isYes: bool)
    requires Consistent(nodes) && InRange(nodes, p) && p < c < |nodes| && nodes[c].parent == NIL
    requires isYes ==> nodes[p].yes == NIL && nodes[p].no == NIL
    requires !isYes ==> nodes[p].no == NIL
    ensures Consistent(Attach(nodes, p, c, isYes))
  {
    var r := Attach(nodes, p, c, isYes);
    assert CellOk(nodes, p);
    forall i | 0 <= i < |r|
      ensures CellOk(r, i)
    {
      assert CellOk(nodes, i);
    }
  }

  /** Attaching changes no text and no child field from `c` on. */
  lemma AttachAgrees(nodes: seq<Cell>, p: Ptr, c: Ptr, isYes: bool)
    requires InRange(nodes, p) && p < c < |nodes|
    ensures Agree(nodes, Attach(nodes, p, c, isYes), c)
  {
  }
}
