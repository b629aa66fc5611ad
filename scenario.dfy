/** The learning session of tree_tests.cpp:10-67: five splits grow the starting tree into
    eleven nodes, which `tree_verify` accepts. */
module Scenario {
  import opened TreeTypes
  import opened Shape
  import opened Arena
  import opened Store

  /** The tree the five sessions leave behind. */
  function FinalTree(): Subtree
  {
    Node("has tail",
      Node("barks",
        Node("dog", Nil, Nil),
        Node("live in Thailand", Node("snake", Nil, Nil), Node("cat", Nil, Nil))),
      Node("can fly",
        Node("bird", Nil, Nil),
        Node("can swim", Node("fish", Nil, Nil), Node("nothing", Nil, Nil))))
  }

  /** The records after the five sessions, in the order they were allocated. */
  function FinalCells(): seq<Cell>
  {
    Cells(5)
  }

  /** The records after the first `k` sessions. */
  function Cells(k: nat): seq<Cell>
  {
    match k
    case 0 => [Cell("nothing", NIL, NIL, NIL)]
    case 1 => [Cell("has tail", 1, 2, NIL), Cell("cat", NIL, NIL, 0), Cell("nothing", NIL, NIL, 0)]
    case 2 => [Cell("has tail", 1, 2, NIL), Cell("barks", 3, 4, 0), Cell("nothing", NIL, NIL, 0),
               Cell("dog", NIL, NIL, 1), Cell("cat", NIL, NIL, 1)]
    case 3 => [Cell("has tail", 1, 2, NIL), Cell("barks", 3, 4, 0), Cell("can fly", 5, 6, 0),
               Cell("dog", NIL, NIL, 1), Cell("cat", NIL, NIL, 1),
               Cell("bird", NIL, NIL, 2), Cell("nothing", NIL, NIL, 2)]
    case 4 => [Cell("has tail", 1, 2, NIL), Cell("barks", 3, 4, 0), Cell("can fly", 5, 6, 0),
               Cell("dog", NIL, NIL, 1), Cell("cat", NIL, NIL, 1),
               Cell("bird", NIL, NIL, 2), Cell("can swim", 7, 8, 2),
               Cell("fish", NIL, NIL, 6), Cell("nothing", NIL, NIL, 6)]
    case _ => [Cell("has tail", 1, 2, NIL), Cell("barks", 3, 4, 0), Cell("can fly", 5, 6, 0),
               Cell("dog", NIL, NIL, 1), Cell("live in Thailand", 9, 10, 1),
               Cell("bird", NIL, NIL, 2), Cell("can swim", 7, 8, 2),
               Cell("fish", NIL, NIL, 6), Cell("nothing", NIL, NIL, 6),
               Cell("snake", NIL, NIL, 4), Cell("cat", NIL, NIL, 4)]
  }

  /** Session `k + 1` of the test splits a leaf of the records after session `k` and leaves
      the records after session `k + 1`. */
  lemma SessionStep(k: nat, x: Ptr, feature: string, newObject: string)
    requires k < 5
    requires x == [0, 1, 2, 6, 4][k]
    requires feature == ["has tail", "barks", "can fly", "can swim", "live in Thailand"][k]
    requires newObject == ["cat", "dog", "bird", "fish", "snake"][k]
    ensures IsLeaf(Cells(k), x) && SplitCells(Cells(k), x, feature, newObject) == Cells(k + 1)
  {
  }

  /** The records above hold the final tree, read from the first record down. */
  lemma FinalCellsHoldFinalTree()
    ensures Value(FinalCells(), 0) == FinalTree()
  {
    var c := FinalCells();
    assert Value(c, 9) == Node("snake", Nil, Nil);
    assert Value(c, 10) == Node("cat", Nil, Nil);
    assert Value(c, 7) == Node("fish", Nil, Nil);
    assert Value(c, 8) == Node("nothing", Nil, Nil);
    assert Value(c, 3) == Node("dog", Nil, Nil);
    assert Value(c, 5) == Node("bird", Nil, Nil);
    assert Value(c, 4) == FinalTree().yes.no;
    assert Value(c, 6) == FinalTree().no.no;
    assert Value(c, 1) == FinalTree().yes;
    assert Value(c, 2) == FinalTree().no;
  }

  /** One session of the test: the leaf `x` of the records after session `k` learns
      `newObject`, told apart from the old object by `feature`. */
  method Learn(tree: Tree, k: nat, x: Ptr, feature: string, newObject: string)
    requires k < 5 && tree.Valid() && tree.nodes == Cells(k)
    requires x == [0, 1, 2, 6, 4][k]
    requires feature == ["has tail", "barks", "can fly", "can swim", "live in Thailand"][k]
    requires newObject == ["cat", "dog", "bird", "fish", "snake"][k]
    modifies tree
    ensures tree.Valid() && tree.nodes == Cells(k + 1)
    ensures tree.root == old(tree.root) && tree.size == old(tree.size) + 2
  {
    SessionStep(k, x, feature, newObject);
    var err := tree.SplitNode(x, feature, newObject, NoFailure);
  }

  /** Adds "cat", "dog", "bird", "fish" and "snake" in the order of the test, each time
      splitting the leaf the test names by its position below the root; the final tree has
      eleven nodes and passes `tree_verify`. */
  method LearningSession() returns (tree: Tree, verdict: TreeError)
    ensures tree.nodes == FinalCells() && tree.root == 0 && tree.size == 11
    ensures tree.Contents() == FinalTree()
    ensures verdict == NoError
  {
    tree := new Tree();
    var err := tree.Init(false);
    var root := tree.root;
    Learn(tree, 0, root, "has tail", "cat");
    var catNode := tree.nodes[root].yes;
    Learn(tree, 1, catNode, "barks", "dog");
    var nothingNode := tree.nodes[root].no;
    Learn(tree, 2, nothingNode, "can fly", "bird");
    var noFlyNode := tree.nodes[tree.nodes[root].no].no;
    Learn(tree, 3, noFlyNode, "can swim", "fish");
    var noBarkNode := tree.nodes[tree.nodes[root].yes].no;
    Learn(tree, 4, noBarkNode, "live in Thailand", "snake");
    FinalCellsHoldFinalTree();
    verdict := TreeVerify(tree);
  }
}
