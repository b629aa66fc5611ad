/** The text format as the recursive-descent parser reads it (tree.cpp:590-721, 784-841),
    stated as pure functions over the input and a cursor index. */
module Grammar {
  import opened TreeTypes
  import opened Text
  import opened Shape

  /** The first index at or after `i` that does not hold white space. */
  function SpacesEnd(s: string, i: nat): (j: nat)
    requires i <= |s|
    ensures i <= j <= |s|
    ensures !IsSpace(At(s, j))
    decreases |s| - i
  {
    if i < |s| && IsSpace(s[i]) then SpacesEnd(s, i + 1) else i
  }

  /** The first index at or after `i` that holds a quote or the end of the text. */
  function QuoteEnd(s: string, i: nat): (j: nat)
    requires i <= |s|
    ensures i <= j <= |s|
    ensures At(s, j) == '"' || At(s, j) == '\0'
    decreases |s| - i
  {
    if i < |s| && s[i] != '"' && s[i] != '\0' then QuoteEnd(s, i + 1) else i
  }

  /** No quote and no NUL lies between `i` and `QuoteEnd(s, i)`. */
  lemma {:induction false} QuoteEndClean(s: string, i: nat)
    requires i <= |s|
    ensures forall k :: i <= k < QuoteEnd(s, i) ==> s[k] != '"' && s[k] != '\0'
    decreases |s| - i
  {
    if i < |s| && s[i] != '"' && s[i] != '\0' {
      QuoteEndClean(s, i + 1);
    }
  }

  /** What `sscanf` with `%[^"]` and no field width stores when it starts at `i`. */
  function PhraseSpan(s: string, i: nat): string
    requires i <= |s|
  {
    s[i..QuoteEnd(s, i)]
  }

  /** `read_phrase_in_quote`: an opening quote, a non-empty label, the closing quote (whose
      absence is not reported), then white space. A label that would not fit the label
      buffer is rejected. */
  function ParsePhrase(s: string, i: nat): (r: Result<(string, nat)>)
    requires i <= |s|
    ensures r.Ok? ==> i < r.value.1 <= |s| && 0 < |r.value.0| < MAX_LENGTH_OF_ANSWER
    ensures r.Err? ==> r.error == Syntax
  {
    if At(s, i) != '"' then Err(Syntax)
    else
      var phrase := PhraseSpan(s, i + 1);
      if |phrase| == 0 || |phrase| >= MAX_LENGTH_OF_ANSWER then Err(Syntax)
      else
        var e := i + 1 + |phrase|;
        var after := if At(s, e) == '"' then e + 1 else e;
        Ok((phrase, SpacesEnd(s, after)))
  }

  /** Every label the parser accepts is one the text format can carry. */
  lemma ParsedPhraseWritable(s: string, i: nat)
    requires i <= |s| && ParsePhrase(s, i).Ok?
    ensures WritableLabel(ParsePhrase(s, i).value.0)
  {
    QuoteEndClean(s, i + 1);
  }

  /** `read_nil_node`: white space, then the three letters `nil`. */
  function ParseNil(s: string, i: nat): (r: Result<(Subtree, nat)>)
    requires i <= |s|
    ensures r.Ok? ==> r.value.0 == Nil && i < r.value.1 <= |s|
    ensures r.Err? ==> r.error == Syntax
  {
    var j := SpacesEnd(s, i);
    if At(s, j) == 'n' && At(s, j + 1) == 'i' && At(s, j + 2) == 'l' then Ok((Nil, j + 3))
    else Err(Syntax)
  }

  /** `read_node`: white space, then either `(` with a quoted label and two children, or `nil`.
      On success the result holds the subtree and the index just past it. */
  function ParseNode(s: string, i: nat): (r: Result<(Subtree, nat)>)
    requires i <= |s|
    ensures r.Ok? ==> i < r.value.1 <= |s|
    ensures r.Err? ==> r.error == Syntax
    decreases |s| - i, 2
  {
    var j := SpacesEnd(s, i);
    if At(s, j) == '(' then
      match ParsePhrase(s, SpacesEnd(s, j + 1))
      case Err(e) => Err(e)
      case Ok((phrase, k)) => ParseChildren(s, k, phrase)
    else ParseNil(s, j)
  }

  /** `create_node_and_read_children`: the `yes` child, the `no` child, then `)`. */
  function ParseChildren(s: string, k: nat, phrase: string): (r: Result<(Subtree, nat)>)
    requires k <= |s|
    ensures r.Ok? ==> k < r.value.1 <= |s|
    ensures r.Err? ==> r.error == Syntax
    decreases |s| - k + 1, 1
  {
    match ParseChild(s, k)
    case Err(e) => Err(e)
    case Ok((yes, k1)) =>
      match ParseChild(s, k1)
      case Err(e) => Err(e)
      case Ok((no, k2)) =>
        if At(s, k2) == ')' then Ok((Node(phrase, yes, no), k2 + 1)) else Err(Syntax)
  }

  /** `read_child_node`: a node followed by white space. */
  function ParseChild(s: string, k: nat): (r: Result<(Subtree, nat)>)
    requires k <= |s|
    ensures r.Ok? ==> k < r.value.1 <= |s|
    ensures r.Err? ==> r.error == Syntax
    decreases |s| - k + 1, 0
  {
    match ParseNode(s, k)
    case Err(e) => Err(e)
    case Ok((t, p)) => Ok((t, SpacesEnd(s, p)))
  }

  /** `load_tree_from_file` on the text of the file: an empty file is an opening error; the
      text must hold one node and nothing but white space after it. A text that holds only
      `nil` yields no root and is reported as a null pointer. */
  function Load(s: string): (r: Result<Subtree>)
  {
    if |s| == 0 then Err(OpeningFile)
    else
      match ParseNode(s, 0)
      case Err(e) => Err(e)
      case Ok((t, p)) =>
        if t == Nil then Err(NullPtr)
        else if At(s, SpacesEnd(s, p)) != '\0' then Err(Syntax)
        else Ok(t)
  }
}
