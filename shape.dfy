/** Structural recursion over the owned part of a tree: node count and the text format. */
module Shape {
  import opened TreeTypes

  /** `count_nodes_recursive`: an absent subtree counts 0, a node counts itself and its children. */
  function Count(t: Subtree): (n: nat)
    ensures n == 0 <==> t == Nil
  {
    match t
    case Nil => 0
    case Node(_, yes, no) => Count(yes) + Count(no) + 1
  }

  /** A label the text format can carry: non-empty, no quote, no NUL, fits the label buffer. */
  predicate WritableLabel(phrase: string)
  {
    0 < |phrase| < MAX_LENGTH_OF_ANSWER
    && forall k :: 0 <= k < |phrase| ==> phrase[k] != '"' && phrase[k] != '\0'
  }

  /** Every label in the tree is writable. */
  predicate WellLabelled(t: Subtree)
  {
    match t
    case Nil => true
    case Node(q, yes, no) => WritableLabel(q) && WellLabelled(yes) && WellLabelled(no)
  }

  /** `save_tree_to_file_recursive` / `print_tree_node`: preorder, `nil` for an absent child,
      `("label" <yes> <no>)` for a node. */
  function Serialize(t: Subtree): (text: string)
    ensures |text| >= 3
    ensures text[0] == '(' <==> t.Node?
    ensures text[0] == 'n' <==> t == Nil
    decreases t, 1
  {
    match t
    case Nil => "nil"
    case Node(q, yes, no) => SerializeNode(q, yes, no)
  }

  /** The text of one node: its label in quotes, then its two children, in parentheses. */
  function SerializeNode(q: string, yes: Subtree, no: Subtree): (text: string)
    ensures |text| >= 3 && text[0] == '('
    decreases Node(q, yes, no), 0
  {
    "(\"" + q + "\" " + Serialize(yes) + " " + Serialize(no) + ")"
  }
}
