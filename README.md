# Akinator decision tree, modelled in Dafny

The akinator game keeps its knowledge in a binary decision tree. Inner nodes hold yes/no
questions and leaves hold objects. When the game guesses wrong it "learns": it splits the
leaf it reached into a question with two new leaves. The tree is saved in a parenthesised
preorder text format and read back by a recursive-descent parser. A path engine can walk
from a leaf up to the root, render the path as a definition, and compare two objects by the
common tail of their paths.

This project models that engine (`tree.cpp` with its types in `tree.h`) and proves what it
promises.

- `tree_types.dfy` (`TreeTypes`): the error codes, the constants MAX_LENGTH_OF_ANSWER
  (1024) and MAX_PATH_DEPTH (512), a path step, and the value view of a tree (`Subtree`).
- `text.dfy` (`Text`): C-locale `isspace`/`tolower`, case folding, and the
  forbidden-phrase filter.
- `shape.dfy` (`Shape`): the recursive node count and the serialiser.
- `grammar.dfy` (`Grammar`): the text format as the parser reads it, written as pure
  functions over the input and a cursor index.
- `cursor.dfy` (`Cursor`): the parser helpers that only move the cursor, as methods proved
  equal to the grammar.
- `round_trip.dfy` (`RoundTrip`): the serialiser and the parser are inverse, and the
  parser rejects each malformed input.
- `arena.dfy` (`Arena`): the `node_t` records as an arena. A pointer is an index and NIL is
  NULL. This module defines consistency of the links, the subtree a record owns, and the
  leaf split on records.
- `store.dfy` (`Store`): the `tree_t` object as a class whose methods change it in place:
  construction, node creation, the split, the parser steps that build records, the
  whole-tree replacement, and `tree_verify`.
- `query.dfy` (`Query`): the leaf search, the walk to the root, the common tail of two
  paths, and the definition text.
- `findings.dfy` (`Findings`): two departures of the code from its evident intent, each
  shown on a concrete input.
- `scenario.dfy` (`Scenario`): the five learning sessions of `tree_tests.cpp`.

In the arena a child is always allocated after the node that owns it. Owned children
therefore have larger indices than their owner, and both the subtree view (`Arena.Value`)
and the parent walk terminate. `Arena.Consistent` says the links form a forest in which
`parent` is the back-link of exactly the `yes` or `no` field that holds the node.

Where the code and its documentation disagree, the model follows the code. The split
is not atomic: the label of the split node is overwritten before the children are
allocated, and a later allocation failure does not restore it.

## Model

| member | source | states |
|---|---|---|
| Shape.Count | tree.cpp:40-46 | the node count of a subtree is zero exactly for the empty subtree |
| Arena.LeafIffNoChildren | tree.cpp:34-37 | in a consistent store a record is a leaf exactly when its subtree has two empty children |
| Arena.UnderParent | tree.h:22-28 | every node strictly inside a subtree has a parent, and that parent lies inside the same subtree |
| Arena.ChildrenDisjoint | tree.h:22-28 | no node lies under both the `yes` and the `no` child of a node |
| Store.TreeVerify | tree.cpp:49-60 | a null tree gives NULL_PTR; otherwise the result is NO_ERROR exactly when the stored size equals the node count and SIZE_MISMATCH otherwise; nothing changes |
| Store.Tree.constructor | tree.h:30-34 | a zero-initialised tree: no records, no root, size 0, consistent |
| Store.Tree.CreateNode | tree.cpp:109-132 | on success, one new record with the text and no links is appended and its index returned; on allocation failure nothing changes and the error is ALLOCATION |
| Store.Tree.SetParent | tree.cpp:98-106 | a NULL child changes nothing; otherwise only that record's back-link is set |
| Store.Tree.Init | tree.cpp:181-196 | success gives the single leaf "nothing" as root with size 1, so the size check holds; allocation failure leaves no root and size 0 |
| Store.Tree.Destroy | tree.cpp:199-210 | no root and size 0 afterwards |
| Store.Tree.SplitNode | tree.cpp:135-178 | success gives exactly `SplitCells` and size + 2. Copy failure changes nothing. `yes` failure leaves only the label replaced. `no` failure leaves the label replaced and the `yes` record unlinked. Consistency is kept, and the root's node count grows by 2 exactly when the split leaf is in the tree and the split succeeds |
| Arena.SplitShape | tree.cpp:135-178 | after a split the former leaf is the question `feature` with a `yes` leaf for the new object and a `no` leaf holding the old object |
| Arena.SplitConsistent | tree.cpp:170-173 | a split keeps every link consistent: both new leaves link back to the split node |
| Arena.SplitCount | tree.cpp:175 | every subtree containing the split leaf grows by exactly two nodes |
| Arena.SplitElsewhere | tree.cpp:135-178 | every subtree not containing the split leaf is unchanged |
| Arena.DroppedChildKeepsCount | tree.cpp:162-170 | when the `no` child cannot be made, the store stays consistent and every subtree keeps its node count |
| Arena.RelabelCount | tree.cpp:146-147 | overwriting a label changes no node count |
| Scenario.LearningSession | tree_tests.cpp:10-67 | the five sessions of the test give the expected eleven-node tree of size 11, and `tree_verify` reports NO_ERROR |
| Text.Lower | tree.cpp:246-249 | folding keeps the length and folds each character |
| Text.LowerIdempotent | tree.cpp:238-253 | folding a folded text changes nothing |
| Text.StringToLowerCopy | tree.cpp:238-253 | the in-place loop over the copy yields the folded text |
| Text.ContainsNegativeWords | tree.cpp:257-285 | the result is 1 exactly when some forbidden phrase occurs in the folded text, else 0 |
| Text.NegativeWordsInContext | tree.cpp:257-285 | a text that contains a forbidden phrase still does after text is added on either side |
| Shape.Serialize | tree.cpp:368-383 | the text of a node starts with `(` and the text of an empty subtree with `n` (`nil`) |
| Cursor.MovePositionUntilGetNotSpace | tree.cpp:590-597 | the cursor stops at the first character that is not white space |
| Cursor.CheckSymbol | tree.cpp:600-611 | success exactly when the expected character is under the cursor, which then moves past it; otherwise SYNTAX and no move |
| Cursor.ReadPhraseInQuote | tree.cpp:670-692 | reads exactly what the grammar's `ParsePhrase` reads, to the same place, with its error |
| Cursor.ReadNilNode | tree.cpp:637-649 | reads exactly what the grammar's `ParseNil` reads, to the same place, with its error |
| Cursor.ValidateNoExtraChars | tree.cpp:784-798 | NO_ERROR exactly when only white space remains, SYNTAX otherwise |
| Grammar.ParsePhrase | tree.cpp:670-692 | an accepted label is non-empty and fits the label buffer, and the cursor moves forward; every failure is SYNTAX |
| Grammar.ParsedPhraseWritable | tree.cpp:670-692 | every label the parser accepts has no quote and no NUL, so the serialiser can write it again |
| Grammar.ParseNode | tree.cpp:695-721 | a successful read moves the cursor forward and every failure is SYNTAX |
| Store.Tree.ReadNode | tree.cpp:695-721 | builds records owning exactly the tree the grammar reads, stops where the grammar stops, and leaves older records untouched |
| Store.Tree.CreateNodeAndReadChildren | tree.cpp:652-667 | the new record owns the two children the grammar reads and is closed by `)`; older records stay untouched |
| Store.Tree.ReadChildNode | tree.cpp:614-634 | the child read is stored in the owner's `yes` or `no` field and links back to the owner; on error the owner is unchanged |
| Store.Tree.ReplaceTree | tree.cpp:801-809 | the new root is installed and the size set to its node count, so the size check holds |
| Store.Tree.LoadTree | tree.cpp:812-841 | on a clean parse the tree holds exactly the parsed tree and the size check holds; on any error the error is returned and the root, the size and the held tree are unchanged |
| RoundTrip.LoadSerialized | tree.cpp:368-383 | loading the text the serialiser writes for a tree with writable labels gives back the same tree |
| RoundTrip.ParseSerialized | tree.cpp:695-721 | wherever a serialised tree stands in the input, the parser reads it back and stops right after it |
| RoundTrip.LoadedWellLabelled | tree.cpp:812-841 | every tree loaded has writable labels, so saving it and loading it again gives the same tree |
| RoundTrip.TrailingGarbageRejected | tree.cpp:784-798 | a serialised tree followed by anything but white space is a SYNTAX error |
| RoundTrip.MissingCloseParenRejected | tree.cpp:652-667 | a serialised tree whose final `)` is missing is a SYNTAX error |
| RoundTrip.RejectsBadStart | tree.cpp:637-649 | any text whose node starts, after white space, with neither `(` nor `nil` is a SYNTAX error |
| RoundTrip.RejectsMissingQuote | tree.cpp:670-678 | any text whose node opens with `(` but whose label does not open with a quote is a SYNTAX error |
| RoundTrip.RejectsEmptyLabel | tree.cpp:680-683 | any text whose node opens with `(` and an empty quoted label is a SYNTAX error |
| Query.FindLeafByPhrase | tree.cpp:425-457 | the result is NULL or a leaf of the searched subtree whose folded label equals the folded query |
| Query.FindIsFirstMatch | tree.cpp:425-457 | the search returns the first matching leaf in `yes`-before-`no` preorder, and NULL when no leaf matches |
| Query.FirstMatchIndex | tree.cpp:443-456 | the index is that of the first matching leaf: none before it matches |
| Query.FindIgnoresCase | tree.cpp:432-434 | searching for the folded query finds the same leaf as searching for the query |
| Query.AscendIsPath | tree.cpp:479-511 | every recorded step names the parent of the node below it, and its answer is true exactly when that node is the parent's `yes` |
| Query.AscendReachesRoot | tree.cpp:479-511 | in a consistent store the walk never reports STRUCTURE, and unless it stops at the step limit it ends at the root |
| Query.BuildPathFromLeafToRoot | tree.cpp:479-511 | NULL_PTR for a NULL leaf; otherwise the path written holds exactly the steps of the walk, at most MAX_PATH_DEPTH of them, or the walk's STRUCTURE error |
| Query.FindCommonSteps | tree.cpp:874-896 | the result is the largest count for which the last steps of both paths agree in node and answer |
| Query.PrintDefinition | tree.cpp:514-527 | the text is the features from the root-side step down to the leaf-side step, each prefixed `not ` after a `no` answer, comma-separated, then a newline |
| Query.DefinitionSplit | tree.cpp:844-871 | the definition of a path is the common part (its upper steps), a comma, then the distinguishing part (its lower steps) |
| Findings.LongLabelOverflows | tree.cpp:711-713 | a quoted label of 1024 or more letters is accepted by the scan as written but does not fit the label buffer; the corrected parser rejects it |
| Findings.CorrectedPhraseIsBoundedScan | tree.cpp:670-692 | the corrected parser accepts exactly the labels the scan as written reads that fit the buffer, and reads them to the same place |
| Findings.NilFileAborts | tree.cpp:784-787 | a file holding only `nil` parses to a NULL root and fails the assertion as written; the corrected load reports NULL_PTR |
| Findings.CorrectedLoadMatches | tree.cpp:812-841 | the corrected load differs from the load as written only where that aborts |

## Left out

- Console input, text-to-speech output, the graphical window and the HTML/Graphviz dump are
  not modelled. These are interactive or foreign-library code.
- Opening, sizing and reading the file are not modelled. The parser works on the file's text,
  and an empty text stands for the OPENING_FILE error.
- Writing the serialised text to a file is not modelled. `Shape.Serialize` is the text
  written.
- `strdup`/`calloc` failures appear only as explicit failure choices. The model covers the
  copy of the old label, the `yes` node and the `no` node in the split, and the root in
  `tree_constructor`.
- A failure of `strdup(feature)` is not modelled. It leaves a NULL label.
- A failure of the label copy inside `tree_create_node` is not modelled. It frees the node but
  leaves the caller's pointer dangling.
- Allocation failures while parsing are not modelled.
- Store.Tree.SplitNode: requires the node to be a leaf. The code would also split an inner
  node and leak its children.
- Store.Tree.ReadNode: the NULL out-pointer check of `read_node` is not modelled. The node
  index is returned instead of written through a pointer.
- Freed records are kept in the arena as unreachable garbage. The leak of a node whose
  closing `)` is missing is not visible.
- Query.FindLeafByPhrase: a failing `string_to_lower_copy` (NULL) is not modelled.
- Text.ContainsNegativeWords: the NULL-input result is not modelled.
- Text labels are modelled as character sequences without an embedded NUL; C string
  functions would stop at one.
- The size field is an unbounded natural. The `size_t` wrap-around is not modelled.

## Findings

| source | as written | input that shows it | evidently intended | confidence | as-written member | corrected member |
|---|---|---|---|---|---|---|
| tree.cpp:682 | `%[^"]` without a field width copies the whole label into the 1024-byte `phrase` buffer of `read_node` (tree.cpp:711) | a node whose quoted label is 1024 letters long | labels longer than 1023 characters are rejected, not written past the buffer | not executed | Findings.LongLabelOverflows | Grammar.ParsePhrase |
| tree.cpp:787 | a file holding only `nil` parses to a NULL root, which reaches `assert(tree_root != NULL)` in `validate_no_extra_chars` and aborts | the file text `nil` | the empty tree is reported as an error and the current tree kept | not executed | Findings.NilFileAborts | Store.Tree.LoadTree |
