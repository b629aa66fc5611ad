/** The records and capacity constants of the decision tree (tree.h). */
module TreeTypes {

  /** Size of the buffers that hold one label or one answer. */
  const MAX_LENGTH_OF_ANSWER: nat := 1024

  /** Capacity of the path array filled by the walk from a leaf to the root. */
  const MAX_PATH_DEPTH: nat := 512

  /** Pointers to nodes are indices into the node store; NIL stands for NULL. */
  type Ptr = int
  const NIL: Ptr := -1

  /** The error codes the tree functions return. */
  datatype TreeError =
    | NoError
    | Allocation
    | NullPtr
    | Constructor
    | OpeningFile
    | SizeMismatch
    | Structure
    | Syntax

  /** One step of a path: at `questionNode` the path went to `yes` (true) or `no` (false). */
  datatype PathStep = PathStep(questionNode: Ptr, answer: bool)

  /** The owned part of a node: its text and the two subtrees it owns (no parent link). */
  datatype Subtree = Nil | Node(question: string, yes: Subtree, no: Subtree)

  datatype Result<T> = Ok(value: T) | Err(error: TreeError)
}
