/** The path and query engine (tree.cpp:425-527, 874-896): the case-insensitive search for a
    leaf, the walk from a leaf up to the root, the common tail of two paths and the text of a
    definition. */
module Query {
  import opened TreeTypes
  import opened Text
  import opened Arena

  /** The leaf `p` carries `phrase`, compared after case folding. */
  predicate Matches(nodes: seq<Cell>, p: Ptr, phrase: string)
  {
    IsLeaf(nodes, p) && Lower(nodes[p].question) == Lower(phrase)
  }

  /** `find_leaf_by_phrase`: depth first, `yes` before `no`; only leaves are compared. */
  function FindLeafByPhrase(nodes: seq<Cell>, p: Ptr, phrase: string): (r: Ptr)
    ensures r == NIL || (Matches(nodes, r, phrase) && Under(nodes, r, p))
    decreases |nodes| - p
  {
    if !InRange(nodes, p) then NIL
    else if Matches(nodes, p, phrase) then p
    else
      var y := if p < nodes[p].yes then FindLeafByPhrase(nodes, nodes[p].yes, phrase) else NIL;
      if y != NIL then y
      else if p < nodes[p].no then FindLeafByPhrase(nodes, nodes[p].no, phrase)
      else NIL
  }

  /** The leaves of the subtree of `p`, in preorder with `yes` before `no`. */
  function Leaves(nodes: seq<Cell>, p: Ptr): seq<Ptr>
    decreases |nodes| - p
  {
    if !InRange(nodes, p) then []
    else if IsLeaf(nodes, p) then [p]
    else
      (if p < nodes[p].yes then Leaves(nodes, nodes[p].yes) else [])
      + (if p < nodes[p].no then Leaves(nodes, nodes[p].no) else [])
  }

  /** The position of the first leaf in `leaves` that carries `phrase`, or `|leaves|`. */
  function FirstMatchIndex(nodes: seq<Cell>, leaves: seq<Ptr>, phrase: string): (j: nat)
    ensures j <= |leaves|
    ensures forall i :: 0 <= i < j ==> !Matches(nodes, leaves[i], phrase)
    ensures j < |leaves| ==> Matches(nodes, leaves[j], phrase)
  {
    if |leaves| == 0 then 0
    else if Matches(nodes, leaves[0], phrase) then 0
    else 1 + FirstMatchIndex(nodes, leaves[1..], phrase)
  }

  /** The first leaf in `leaves` that carries `phrase`, or NIL. */
  function FirstMatch(nodes: seq<Cell>, leaves: seq<Ptr>, phrase: string): Ptr
  {
    var j := FirstMatchIndex(nodes, leaves, phrase);
    if j < |leaves| then leaves[j] else NIL
  }

  /** The first match in two lists one after the other is the first match in the first list,
      or else the first match in the second. */
  lemma {:induction false} FirstMatchConcat(nodes: seq<Cell>, a: seq<Ptr>, b: seq<Ptr>, phrase: string)
    ensures FirstMatch(nodes, a + b, phrase)
         == if FirstMatch(nodes, a, phrase) != NIL then FirstMatch(nodes, a, phrase)
            else FirstMatch(nodes, b, phrase)
  {
    if |a| > 0 && !Matches(nodes, a[0], phrase) {
      assert (a + b)[1..] == a[1..] + b;
      FirstMatchConcat(nodes, a[1..], b, phrase);
    } else if |a| == 0 {
      assert a + b == b;
    }
  }

  /** The search returns the first leaf in preorder (`yes` before `no`) whose folded text is
      the folded phrase, and NULL when no leaf carries it. */
  lemma {:induction false} FindIsFirstMatch(nodes: seq<Cell>, p: Ptr, phrase: string)
    ensures FindLeafByPhrase(nodes, p, phrase) == FirstMatch(nodes, Leaves(nodes, p), phrase)
    decreases |nodes| - p
  {
    if InRange(nodes, p) && !IsLeaf(nodes, p) {
      var y, n := nodes[p].yes, nodes[p].no;
      var ly := if p < y then Leaves(nodes, y) else [];
      var ln := if p < n then Leaves(nodes, n) else [];
      if p < y {
        FindIsFirstMatch(nodes, y, phrase);
      }
      if p < n {
        FindIsFirstMatch(nodes, n, phrase);
      }
      FirstMatchConcat(nodes, ly, ln, phrase);
    }
  }

  /** The search ignores letter case in the phrase: searching for its folded form finds the
      same leaf. */
  lemma {:induction false} FindIgnoresCase(nodes: seq<Cell>, p: Ptr, phrase: string)
    ensures FindLeafByPhrase(nodes, p, Lower(phrase)) == FindLeafByPhrase(nodes, p, phrase)
    decreases |nodes| - p
  {
    LowerIdempotent(phrase);
    if InRange(nodes, p) {
      if p < nodes[p].yes {
        FindIgnoresCase(nodes, nodes[p].yes, phrase);
      }
      if p < nodes[p].no {
        FindIgnoresCase(nodes, nodes[p].no, phrase);
      }
    }
  }

  /** The walk `build_path_from_leaf_to_root` performs from `cur`, with room for `budget` more
      steps: each step names the parent and whether `cur` is its `yes` child; a parent that
      owns `cur` through neither field is a structure error. */
  function Ascend(nodes: seq<Cell>, cur: Ptr, budget: nat): (r: Result<seq<PathStep>>)
    requires ParentsInRange(nodes) && InRange(nodes, cur)
    ensures r.Ok? ==> |r.value| <= budget
    ensures r.Err? ==> r.error == Structure
    decreases budget
  {
    var parent := nodes[cur].parent;
    if parent == NIL || budget == 0 then Ok([])
    else if nodes[parent].yes == cur || nodes[parent].no == cur then
      match Ascend(nodes, parent, budget - 1)
      case Ok(rest) => Ok([PathStep(parent, nodes[parent].yes == cur)] + rest)
      case Err(e) => Err(e)
    else Err(Structure)
  }

  /** `steps` already recorded in front of the rest of a walk. */
  function Prepend(steps: seq<PathStep>, r: Result<seq<PathStep>>): Result<seq<PathStep>>
  {
    match r
    case Ok(rest) => Ok(steps + rest)
    case Err(e) => Err(e)
  }

  lemma PrependNothing(r: Result<seq<PathStep>>)
    ensures Prepend([], r) == r
  {
    if r.Ok? {
      assert [] + r.value == r.value;
    }
  }

  lemma PrependStep(done: seq<PathStep>, step: PathStep, r: Result<seq<PathStep>>)
    ensures Prepend(done, Prepend([step], r)) == Prepend(done + [step], r)
  {
    if r.Ok? {
      assert done + ([step] + r.value) == done + [step] + r.value;
    }
  }

  /** The child of the question node of `step` that the step's answer selects. */
  function Selected(nodes: seq<Cell>, step: PathStep): Ptr
    requires InRange(nodes, step.questionNode)
  {
    if step.answer then nodes[step.questionNode].yes else nodes[step.questionNode].no
  }

  /** `steps` lead up from `cur`: each step's question node is the parent of the node before
      it, and its answer selects that node among the parent's children. */
  predicate IsPathFrom(nodes: seq<Cell>, cur: Ptr, steps: seq<PathStep>)
    decreases |steps|
  {
    |steps| == 0
    || (InRange(nodes, cur) && InRange(nodes, steps[0].questionNode)
        && steps[0].questionNode == nodes[cur].parent
        && Selected(nodes, steps[0]) == cur
        && IsPathFrom(nodes, steps[0].questionNode, steps[1..]))
  }

  /** The node a path ends at: its last question node, or `cur` itself for no step. */
  function Top(cur: Ptr, steps: seq<PathStep>): Ptr
  {
    if |steps| == 0 then cur else steps[|steps| - 1].questionNode
  }

  /** Every recorded path goes from child to parent, with the answer naming the child field
      the walk came up through. */
  lemma {:induction false} AscendIsPath(nodes: seq<Cell>, cur: Ptr, budget: nat)
    requires ParentsInRange(nodes) && InRange(nodes, cur) && Ascend(nodes, cur, budget).Ok?
    ensures IsPathFrom(nodes, cur, Ascend(nodes, cur, budget).value)
    decreases budget
  {
    var parent := nodes[cur].parent;
    if parent != NIL && budget != 0 {
      AscendIsPath(nodes, parent, budget - 1);
      var steps := Ascend(nodes, cur, budget).value;
      assert steps[1..] == Ascend(nodes, parent, budget - 1).value;
    }
  }

  /** In a consistent store the walk never reports a broken structure, and unless it stops
      at the step limit it ends at a node without parent: the root. */
  lemma {:induction false} AscendReachesRoot(nodes: seq<Cell>, cur: Ptr, budget: nat)
    requires Consistent(nodes) && InRange(nodes, cur)
    ensures ParentsInRange(nodes)
    ensures Ascend(nodes, cur, budget).Ok?
    ensures |Ascend(nodes, cur, budget).value| < budget
        ==> InRange(nodes, Top(cur, Ascend(nodes, cur, budget).value))
            && nodes[Top(cur, Ascend(nodes, cur, budget).value)].parent == NIL
    decreases budget
  {
    ConsistentParents(nodes);
    var parent := nodes[cur].parent;
    assert CellOk(nodes, cur);
    if parent != NIL && budget != 0 {
      AscendReachesRoot(nodes, parent, budget - 1);
      var rest := Ascend(nodes, parent, budget - 1).value;
      var steps := Ascend(nodes, cur, budget).value;
      assert steps == [PathStep(parent, nodes[parent].yes == cur)] + rest;
      assert Top(cur, steps) == Top(parent, rest);
    }
  }

  /** `build_path_from_leaf_to_root`: walks parent links from `leaf`, writing one step per
      level into `path`, for at most MAX_PATH_DEPTH steps. */
  method BuildPathFromLeafToRoot(nodes: seq<Cell>, leaf: Ptr, path: array<PathStep>)
    returns (err: TreeError, stepCount: int)
    requires ParentsInRange(nodes) && (leaf == NIL || InRange(nodes, leaf))
    requires path.Length >= MAX_PATH_DEPTH
    modifies path
    ensures leaf == NIL ==> err == NullPtr
    ensures leaf != NIL && Ascend(nodes, leaf, MAX_PATH_DEPTH).Err?
      ==> err == Ascend(nodes, leaf, MAX_PATH_DEPTH).error
    ensures leaf != NIL && Ascend(nodes, leaf, MAX_PATH_DEPTH).Ok?
      ==> err == NoError && 0 <= stepCount <= path.Length
          && path[..stepCount] == Ascend(nodes, leaf, MAX_PATH_DEPTH).value
  {
    if leaf == NIL {
      return NullPtr, 0;
    }
    stepCount := 0;
    var current := leaf;
    PrependNothing(Ascend(nodes, leaf, MAX_PATH_DEPTH));
    while nodes[current].parent != NIL && stepCount < MAX_PATH_DEPTH
      invariant 0 <= stepCount <= MAX_PATH_DEPTH && InRange(nodes, current)
      invariant Ascend(nodes, leaf, MAX_PATH_DEPTH)
             == Prepend(path[..stepCount], Ascend(nodes, current, MAX_PATH_DEPTH - stepCount))
      decreases MAX_PATH_DEPTH - stepCount
    {
      var parent := nodes[current].parent;
      ghost var done := path[..stepCount];
      var answer: bool;
      if nodes[parent].yes == current {
        answer := true;
      } else if nodes[parent].no == current {
        answer := false;
      } else {
        return Structure, stepCount;
      }
      path[stepCount] := PathStep(parent, answer);
      assert path[..stepCount + 1] == done + [PathStep(parent, answer)];
      PrependStep(done, PathStep(parent, answer), Ascend(nodes, parent, MAX_PATH_DEPTH - stepCount - 1));
      stepCount := stepCount + 1;
      current := parent;
    }
    err := NoError;
  }

  /** The step `i` places before the end of `a`. */
  function FromEnd(a: seq<PathStep>, i: int): PathStep
    requires 0 <= i < |a|
  {
    a[|a| - 1 - i]
  }

  /** The last `k` steps of `a` and of `b` are the same steps. */
  predicate SameLast(a: seq<PathStep>, b: seq<PathStep>, k: int)
  {
    0 <= k <= |a| && k <= |b| && a[|a| - k..] == b[|b| - k..]
  }

  /** Two paths that differ at some position from their ends share no longer tail. */
  lemma DifferentAt(a: seq<PathStep>, b: seq<PathStep>, i: int, k: int)
    requires 0 <= i < |a| && i < |b| && FromEnd(a, i) != FromEnd(b, i) && i < k
    ensures !SameLast(a, b, k)
  {
  }

  /** Tails that agree step by step are the same tail. */
  lemma SameLastOfSteps(a: seq<PathStep>, b: seq<PathStep>, k: int)
    requires 0 <= k <= |a| && k <= |b|
    requires forall i :: 0 <= i < k ==> FromEnd(a, i) == FromEnd(b, i)
    ensures SameLast(a, b, k)
  {
    var ta, tb := a[|a| - k..], b[|b| - k..];
    forall j | 0 <= j < k
      ensures ta[j] == tb[j]
    {
      assert FromEnd(a, k - 1 - j) == FromEnd(b, k - 1 - j);
    }
  }

  /** When the first `k` steps from the end agree and the next ones differ (or one path has
      no more), the common tail has length exactly `k`. */
  lemma LongestTail(a: seq<PathStep>, b: seq<PathStep>, k: int)
    requires 0 <= k <= |a| && k <= |b|
    requires forall i :: 0 <= i < k ==> FromEnd(a, i) == FromEnd(b, i)
    requires k < |a| && k < |b| ==> FromEnd(a, k) != FromEnd(b, k)
    ensures SameLast(a, b, k)
    ensures forall j :: k < j ==> !SameLast(a, b, j)
  {
    SameLastOfSteps(a, b, k);
    forall j | k < j
      ensures !SameLast(a, b, j)
    {
      if k < |a| && k < |b| {
        DifferentAt(a, b, k, j);
      }
    }
  }

  /** `find_common_steps`: the length of the longest common tail of the two paths, that is
      the largest `k` up to the shorter length whose last `k` steps agree in node and answer. */
  method FindCommonSteps(path1: array<PathStep>, steps1: int, path2: array<PathStep>, steps2: int)
    returns (common: int)
    requires 0 <= steps1 <= path1.Length && 0 <= steps2 <= path2.Length
    ensures SameLast(path1[..steps1], path2[..steps2], common)
    ensures forall k :: common < k ==> !SameLast(path1[..steps1], path2[..steps2], k)
  {
    common := 0;
    var minSteps := if steps1 < steps2 then steps1 else steps2;
    ghost var a, b := path1[..steps1], path2[..steps2];
    var i := 0;
    while i < minSteps
      invariant 0 <= i <= minSteps && common == i
      invariant forall j :: 0 <= j < i ==> FromEnd(a, j) == FromEnd(b, j)
    {
      var index1 := steps1 - 1 - i;
      var index2 := steps2 - 1 - i;
      assert FromEnd(a, i) == path1[index1] && FromEnd(b, i) == path2[index2];
      if path1[index1].questionNode == path2[index2].questionNode
        && path1[index1].answer == path2[index2].answer
      {
        common := common + 1;
      } else {
        break;
      }
      i := i + 1;
    }
    LongestTail(a, b, common);
  }

  /** Every step of the path names a record. */
  predicate StepsInRange(nodes: seq<Cell>, steps: seq<PathStep>)
  {
    forall i :: 0 <= i < |steps| ==> InRange(nodes, steps[i].questionNode)
  }

  lemma StepsInRangeSlice(nodes: seq<Cell>, steps: seq<PathStep>, lo: int, hi: int)
    requires StepsInRange(nodes, steps) && 0 <= lo <= hi <= |steps|
    ensures StepsInRange(nodes, steps[lo..hi])
  {
    forall i | 0 <= i < hi - lo
      ensures InRange(nodes, steps[lo..hi][i].questionNode)
    {
      assert steps[lo..hi][i] == steps[lo + i];
    }
  }

  /** What `print_definition` writes for one step: "not " when the path went to `no`, then
      the question. */
  function Feature(nodes: seq<Cell>, step: PathStep): string
    requires InRange(nodes, step.questionNode)
  {
    (if step.answer then "" else "not ") + nodes[step.questionNode].question
  }

  /** The features of steps `hi - 1` down to 0, in that order, separated by commas. */
  function Features(nodes: seq<Cell>, steps: seq<PathStep>, hi: int): string
    requires StepsInRange(nodes, steps) && 0 <= hi <= |steps|
    decreases hi
  {
    if hi == 0 then ""
    else Feature(nodes, steps[hi - 1]) + (if hi > 1 then ", " else "") + Features(nodes, steps, hi - 1)
  }

  /** The definition of a path: its steps from the root side down to the leaf. */
  function Definition(nodes: seq<Cell>, steps: seq<PathStep>): string
    requires StepsInRange(nodes, steps)
  {
    Features(nodes, steps, |steps|)
  }

  /** What one round of `print_definition` writes after `before` is `before` followed by
      the feature of step `i` and, unless it was the last step, a comma. */
  lemma PrintStep(nodes: seq<Cell>, steps: seq<PathStep>, i: int, before: string, text: string)
    requires StepsInRange(nodes, steps) && 0 <= i < |steps|
    requires text == (if steps[i].answer then before else before + "not ")
                     + nodes[steps[i].questionNode].question + (if i > 0 then ", " else "")
    ensures text + Features(nodes, steps, i) == before + Features(nodes, steps, i + 1)
  {
    var f := Feature(nodes, steps[i]);
    var sep := if i > 0 then ", " else "";
    assert text == before + f + sep;
    assert Features(nodes, steps, i + 1) == f + sep + Features(nodes, steps, i);
  }

  /** `print_definition`: the steps from the last recorded (nearest the root) to the first,
      each negated when the path went to `no`, separated by commas, then a newline. */
  method PrintDefinition(nodes: seq<Cell>, path: array<PathStep>, stepCount: int) returns (text: string)
    requires 0 <= stepCount <= path.Length && StepsInRange(nodes, path[..stepCount])
    ensures text == Definition(nodes, path[..stepCount]) + "\n"
  {
    ghost var steps := path[..stepCount];
    text := "";
    var i := stepCount - 1;
    while i >= 0
      invariant -1 <= i < stepCount
      invariant text + Features(nodes, steps, i + 1) == Features(nodes, steps, stepCount)
    {
      assert path[i] == steps[i];
      ghost var before := text;
      if !path[i].answer {
        text := text + "not ";
      }
      text := text + nodes[path[i].questionNode].question;
      if i > 0 {
        text := text + ", ";
      }
      PrintStep(nodes, steps, i, before, text);
      i := i - 1;
    }
    text := text + "\n";
  }

  lemma {:induction false} FeaturesOfPrefix(nodes: seq<Cell>, steps: seq<PathStep>, k: int, hi: int)
    requires StepsInRange(nodes, steps) && 0 <= hi <= k <= |steps|
    ensures StepsInRange(nodes, steps[..k])
    ensures Features(nodes, steps[..k], hi) == Features(nodes, steps, hi)
    decreases hi
  {
    StepsInRangeSlice(nodes, steps, 0, k);
    assert steps[..k] == steps[0..k];
    if hi > 0 {
      FeaturesOfPrefix(nodes, steps, k, hi - 1);
      assert steps[..k][hi - 1] == steps[hi - 1];
    }
  }

  /** One unfolding of `Features` above its lowest step. */
  lemma FeaturesUnfold(nodes: seq<Cell>, steps: seq<PathStep>, hi: int)
    requires 1 < hi <= |steps| && StepsInRange(nodes, steps)
    ensures Features(nodes, steps, hi)
         == Feature(nodes, steps[hi - 1]) + ", " + Features(nodes, steps, hi - 1)
  {
  }

  lemma JoinAssoc(f: string, rest: string, low: string)
    ensures f + ", " + (rest + ", " + low) == (f + ", " + rest) + ", " + low
  {
  }

  lemma FeaturesAboveBase(nodes: seq<Cell>, steps: seq<PathStep>, k: int)
    requires 0 < k < |steps| && StepsInRange(nodes, steps) && StepsInRange(nodes, steps[k..])
    ensures Features(nodes, steps, k + 1)
         == Features(nodes, steps[k..], 1) + ", " + Features(nodes, steps, k)
  {
    assert steps[k..][0] == steps[k];
    FeaturesUnfold(nodes, steps, k + 1);
  }

  lemma {:induction false} FeaturesAbove(nodes: seq<Cell>, steps: seq<PathStep>, k: int, hi: int)
    requires 0 < k < hi <= |steps| && StepsInRange(nodes, steps) && StepsInRange(nodes, steps[k..])
    ensures Features(nodes, steps, hi)
         == Features(nodes, steps[k..], hi - k) + ", " + Features(nodes, steps, k)
    decreases hi
  {
    if hi - 1 > k {
      var upper := steps[k..];
      assert upper[hi - 1 - k] == steps[hi - 1];
      FeaturesAbove(nodes, steps, k, hi - 1);
      FeaturesUnfold(nodes, steps, hi);
      FeaturesUnfold(nodes, upper, hi - k);
      JoinAssoc(Feature(nodes, steps[hi - 1]), Features(nodes, upper, hi - 1 - k), Features(nodes, steps, k));
    } else {
      FeaturesAboveBase(nodes, steps, k);
    }
  }

  /** The definition of a whole path is the definition of its upper part (steps `k` on,
      nearer the root), a comma, then the definition of its lower part (steps before `k`):
      the split `print_comparison_results` makes between common and distinguishing features. */
  lemma DefinitionSplit(nodes: seq<Cell>, steps: seq<PathStep>, k: int)
    requires StepsInRange(nodes, steps) && 0 < k < |steps|
    ensures StepsInRange(nodes, steps[k..]) && StepsInRange(nodes, steps[..k])
    ensures Definition(nodes, steps)
         == Definition(nodes, steps[k..]) + ", " + Definition(nodes, steps[..k])
  {
    StepsInRangeSlice(nodes, steps, k, |steps|);
    assert steps[k..] == steps[k..|steps|];
    FeaturesAbove(nodes, steps, k, |steps|);
    FeaturesOfPrefix(nodes, steps, k, k);
  }
}
