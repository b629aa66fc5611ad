/** The tree object (`tree_t`, tree.h:30-34) and the operations that change it in place:
    construction, node creation, the leaf split, the parser steps that build nodes while they
    read, and the whole-tree replacement after a load (tree.cpp:34-210, 614-721, 784-841). */
module Store {
  import opened TreeTypes
  import opened Text
  import opened Shape
  import opened Grammar
  import opened Cursor
  import opened Arena

  /** Which allocation inside `tree_split_node` fails, if any: the copy of the old text, the
      `yes` node or the `no` node. */
  datatype AllocFailure = NoFailure | FailOldLabelCopy | FailYesNode | FailNoNode

  /** What reading one node leaves behind when the grammar gives `r`: on success the cursor
      stops where the grammar stops and `node` is NULL or a new parentless record that owns
      exactly the tree the grammar read; on failure the error is the grammar's. */
  ghost predicate NodeRead(nodes: seq<Cell>, n0: int, r: Result<(Subtree, nat)>,
                           err: TreeError, node: Ptr, p: nat)
  {
    match r
    case Ok((t, k)) =>
      err == NoError && p == k && Value(nodes, node) == t
      && (node == NIL || (InRange(nodes, node) && n0 <= node && nodes[node].parent == NIL))
    case Err(e) => err == e
  }

  /** As `NodeRead`, for a child read on behalf of `owner`: the new record links back to it. */
  ghost predicate ChildRead(nodes: seq<Cell>, n0: int, r: Result<(Subtree, nat)>,
                            err: TreeError, child: Ptr, p: nat, owner: Ptr)
  {
    match r
    case Ok((t, k)) =>
      err == NoError && p == k && Value(nodes, child) == t
      && (child == NIL || (InRange(nodes, child) && n0 <= child && nodes[child].parent == owner))
    case Err(e) => err == e
  }

  class Tree {
    /** Every record allocated so far; freed or unreachable records stay behind unreachable. */
    var nodes: seq<Cell>
    var root: Ptr
    var size: nat

    /** The records are consistently linked and the root, if any, has no parent. */
    ghost predicate Valid()
      reads this
    {
      Consistent(nodes) && (root == NIL || (InRange(nodes, root) && nodes[root].parent == NIL))
    }

    /** The tree this object holds. */
    function Contents(): Subtree
      reads this
    {
      Value(nodes, root)
    }

    /** What `tree_verify` checks: the stored size is the number of nodes reachable from the
        root. */
    predicate SizeAgrees()
      reads this
    {
      size == Count(Value(nodes, root))
    }

    /** A zero-initialised `tree_t`: no root, size 0. */
    constructor ()
      ensures Valid() && SizeAgrees()
      ensures nodes == [] && root == NIL && size == 0
    {
      nodes := [];
      root := NIL;
      size := 0;
    }

    /** `tree_create_node`: a new record with the given text and neither children nor parent.
        When the allocation fails no record is made and the pointer written is NULL. */
    method CreateNode(phrase: string, allocationFails: bool) returns (err: TreeError, node: Ptr)
      modifies this`nodes
      ensures allocationFails ==> err == Allocation && node == NIL && nodes == old(nodes)
      ensures !allocationFails ==> err == NoError && node == |old(nodes)|
      ensures !allocationFails ==> nodes == old(nodes) + [Cell(phrase, NIL, NIL, NIL)]
    {
      if allocationFails {
        return Allocation, NIL;
      }
      node := |nodes|;
      nodes := nodes + [Cell(phrase, NIL, NIL, NIL)];
      err := NoError;
    }

    /** `tree_set_parent`: a NULL child is left alone. */
    method SetParent(child: Ptr, parent: Ptr)
      requires child == NIL || InRange(nodes, child)
      modifies this`nodes
      ensures child == NIL ==> nodes == old(nodes)
      ensures child != NIL ==> nodes == old(nodes)[child := old(nodes)[child].(parent := parent)]
    {
      if child != NIL {
        nodes := nodes[child := nodes[child].(parent := parent)];
      }
    }

    /** `tree_constructor`: the tree becomes the single leaf "nothing" with size 1; when the
        allocation fails it is left empty with size 0. Records held before are not freed. */
    method Init(allocationFails: bool) returns (err: TreeError)
      requires Valid()
      modifies this
      ensures Valid() && SizeAgrees()
      ensures allocationFails ==> err == Allocation && nodes == old(nodes) && root == NIL && size == 0
      ensures !allocationFails ==> err == NoError && size == 1
      ensures !allocationFails ==> nodes == old(nodes) + [Cell("nothing", NIL, NIL, NIL)]
      ensures !allocationFails ==> root == |old(nodes)| && Contents() == Node("nothing", Nil, Nil)
    {
      root := NIL;
      size := 0;
      var r;
      err, r := CreateNode("nothing", allocationFails);
      root := r;
      if err == NoError {
        size := 1;
        AppendLoneConsistent(old(nodes), "nothing");
      }
    }

    /** `tree_destructor`: the tree becomes empty; its records are freed and so become
        unreachable garbage here. */
    method Destroy()
      modifies this`root, this`size
      ensures root == NIL && size == 0
    {
      root := NIL;
      size := 0;
    }

    /** `tree_split_node` on the leaf `x` (tree.cpp:135-178). On success `x` asks `feature`, its
        `yes` child is a new leaf `newObject`, its `no` child a new leaf with the old text, both
        link back to `x`, and `size` grows by 2. The text of `x` is overwritten before the
        children are made and is not restored when making one of them fails; a `yes` child
        already made is destroyed again when the `no` child cannot be made. */
    method SplitNode(x: Ptr, feature: string, newObject: string, failure: AllocFailure)
      returns (err: TreeError)
      requires Valid() && IsLeaf(nodes, x)
      modifies this
      ensures Valid() && root == old(root)
      ensures failure == NoFailure ==> err == NoError && size == old(size) + 2
      ensures failure == NoFailure ==> nodes == SplitCells(old(nodes), x, feature, newObject)
      ensures failure != NoFailure ==> err == Allocation && size == old(size)
      ensures failure == FailOldLabelCopy ==> nodes == old(nodes)
      ensures failure == FailYesNode ==> nodes == Relabel(old(nodes), x, feature)
      ensures failure == FailNoNode ==> nodes == DroppedChildCells(old(nodes), x, feature, newObject)
      ensures Under(old(nodes), x, root) && failure == NoFailure
        ==> Count(Contents()) == old(Count(Contents())) + 2
      ensures !(Under(old(nodes), x, root) && failure == NoFailure)
        ==> Count(Contents()) == old(Count(Contents()))
    {
      var n0 := nodes;
      if failure == FailOldLabelCopy {
        return Allocation;
      }
      var oldObject := nodes[x].question;
      nodes := nodes[x := nodes[x].(question := feature)];
      var yes, no;
      err, yes := CreateNode(newObject, failure == FailYesNode);
      nodes := nodes[x := nodes[x].(yes := yes)];
      if err != NoError {
        assert nodes == Relabel(n0, x, feature);
        RelabelConsistent(n0, x, feature);
        RelabelCount(n0, x, feature, root);
        return;
      }
      err, no := CreateNode(oldObject, failure == FailNoNode);
      nodes := nodes[x := nodes[x].(no := no)];
      if err != NoError {
        nodes := nodes[x := nodes[x].(yes := NIL)];
        assert nodes[x] == n0[x].(question := feature);
        assert nodes == DroppedChildCells(n0, x, feature, newObject);
        DroppedChildKeepsCount(n0, x, feature, newObject, root);
        return;
      }
      SetParent(yes, x);
      SetParent(no, x);
      size := size + 2;
      assert nodes == SplitCells(n0, x, feature, newObject);
      SplitKeepsCount(n0, x, feature, newObject, root);
    }

    /** `read_node` (tree.cpp:695-721): white space, then `(` with a quoted label and two
        children, or `nil`. Records already present are left as they were. */
    method ReadNode(s: string, pos: nat) returns (err: TreeError, node: Ptr, p: nat)
      requires pos <= |s| && Consistent(nodes)
      modifies this`nodes
      ensures Consistent(nodes) && |old(nodes)| <= |nodes| && nodes[..|old(nodes)|] == old(nodes)
      ensures NodeRead(nodes, |old(nodes)|, ParseNode(s, pos), err, node, p)
      decreases |s| - pos, 2
    {
      p := MovePositionUntilGetNotSpace(s, pos);
      if At(s, p) == '(' {
        p := MovePositionUntilGetNotSpace(s, p + 1);
        var phrase;
        err, phrase, p := ReadPhraseInQuote(s, p);
        if err != NoError {
          return err, NIL, p;
        }
        err, node, p := CreateNodeAndReadChildren(s, p, phrase);
      } else {
        err, p := ReadNilNode(s, p);
        node := NIL;
      }
    }

    /** `create_node_and_read_children` (tree.cpp:652-667): a new node holding `phrase`, its
        `yes` child, its `no` child, then `)`. When a child cannot be read the new node is
        dropped (`read_child_node` destroys it and clears the pointer). */
    method CreateNodeAndReadChildren(s: string, k: nat, phrase: string)
      returns (err: TreeError, node: Ptr, p: nat)
      requires k <= |s| && Consistent(nodes)
      modifies this`nodes
      ensures Consistent(nodes) && |old(nodes)| <= |nodes| && nodes[..|old(nodes)|] == old(nodes)
      ensures NodeRead(nodes, |old(nodes)|, ParseChildren(s, k, phrase), err, node, p)
      decreases |s| - k + 1, 1
    {
      var n0 := nodes;
      var owner;
      err, owner := CreateNode(phrase, false);
      AppendLoneConsistent(n0, phrase);
      var n1 := nodes;
      var yes, no;
      err, yes, p := ReadChildNode(s, k, owner, true);
      if err != NoError {
        assert nodes[..|n0|] == nodes[..|n1|][..|n0|];
        return err, NIL, p;
      }
      var n2 := nodes;
      err, no, p := ReadChildNode(s, p, owner, false);
      assert nodes[..|n0|] == nodes[..|n2|][..|n0|];
      assert nodes[..|n0|] == n2[..|n0|] by {
        assert n2[..|n0|] == n2[..|n1|][..|n0|];
      }
      if err != NoError {
        return err, NIL, p;
      }
      if yes != NIL {
        forall i | yes <= i < |n2|
          ensures nodes[i] == n2[i]
        {
          assert nodes[..|n2|][i] == nodes[i];
        }
        ValueFrame(n2, nodes, yes);
      }
      err, p := CheckSymbol(s, p, ')');
      node := owner;
    }

    /** `read_child_node` (tree.cpp:614-634): a node, stored in the `yes` (or `no`) field of
        `owner` and linked back to it, then white space. */
    method ReadChildNode(s: string, k: nat, owner: Ptr, isYes: bool)
      returns (err: TreeError, child: Ptr, p: nat)
      requires k <= |s| && Consistent(nodes) && InRange(nodes, owner)
      requires isYes ==> nodes[owner].yes == NIL && nodes[owner].no == NIL
      requires !isYes ==> nodes[owner].no == NIL
      modifies this`nodes
      ensures Consistent(nodes) && |old(nodes)| <= |nodes|
      ensures nodes[..|old(nodes)|] == old(nodes)[owner := nodes[owner]]
      ensures ParseChild(s, k).Err? ==> nodes[owner] == old(nodes)[owner]
      ensures ParseChild(s, k).Ok? && isYes ==> nodes[owner] == old(nodes)[owner].(yes := child)
      ensures ParseChild(s, k).Ok? && !isYes ==> nodes[owner] == old(nodes)[owner].(no := child)
      ensures ChildRead(nodes, |old(nodes)|, ParseChild(s, k), err, child, p, owner)
      decreases |s| - k + 1, 0
    {
      err, child, p := ReadNode(s, k);
      if err != NoError {
        return;
      }
      var before := nodes;
      if isYes {
        nodes := nodes[owner := nodes[owner].(yes := child)];
      } else {
        nodes := nodes[owner := nodes[owner].(no := child)];
      }
      if child != NIL {
        nodes := nodes[child := nodes[child].(parent := owner)];
        assert nodes == Attach(before, owner, child, isYes);
        AttachConsistent(before, owner, child, isYes);
        AttachAgrees(before, owner, child, isYes);
        ValueFrame(before, nodes, child);
      } else {
        assert nodes == before;
      }
      p := MovePositionUntilGetNotSpace(s, p);
    }

    /** `replace_tree`: the old tree is destroyed, the new root installed and the size set to
        its node count. */
    method ReplaceTree(newRoot: Ptr)
      requires Consistent(nodes) && InRange(nodes, newRoot) && nodes[newRoot].parent == NIL
      modifies this`root, this`size
      ensures Valid() && SizeAgrees() && root == newRoot
    {
      Destroy();
      root := newRoot;
      size := Count(Value(nodes, newRoot));
    }

    /** `load_tree_from_file` on the text of the file (tree.cpp:812-841): the tree is replaced
        only when the whole text parses; otherwise it is left exactly as it was. A text that
        holds only `nil` is reported as a null pointer. */
    method LoadTree(s: string) returns (err: TreeError)
      requires Valid()
      modifies this
      ensures Valid()
      ensures Load(s).Ok? ==> err == NoError && Contents() == Load(s).value && SizeAgrees()
      ensures Load(s).Err? ==> err == Load(s).error && root == old(root) && size == old(size)
      ensures Load(s).Err? ==> Contents() == old(Contents())
    {
      if |s| == 0 {
        return OpeningFile;
      }
      var n0 := nodes;
      var newRoot, p;
      err, newRoot, p := ReadNode(s, 0);
      if err == NoError {
        if newRoot == NIL {
          err := NullPtr;
        } else {
          err := ValidateNoExtraChars(s, p, newRoot);
        }
      }
      if err != NoError {
        if root != NIL {
          PrefixAgree(n0, nodes, root);
          ValueFrame(n0, nodes, root);
        }
        return;
      }
      ReplaceTree(newRoot);
    }
  }

  /** `tree_verify`: NULL for a missing tree, a size mismatch when the stored size differs
      from the node count, no error otherwise. Nothing is changed. */
  method TreeVerify(tree: Tree?) returns (err: TreeError)
    ensures tree == null ==> err == NullPtr
    ensures tree != null ==> (err == NoError <==> tree.SizeAgrees())
    ensures tree != null && err != NoError ==> err == SizeMismatch
  {
    if tree == null {
      return NullPtr;
    }
    var actual := Count(Value(tree.nodes, tree.root));
    if actual != tree.size {
      return SizeMismatch;
    }
    return NoError;
  }
}
