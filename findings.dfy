/** Two places where the parser as written (tree.cpp:669-721, 784-841) departs from what it
    evidently intends, each modelled as written beside the corrected definition the rest of
    the model uses (`Grammar.ParsePhrase`, `Grammar.Load`). */
module Findings {
  import opened TreeTypes
  import opened Text
  import opened Grammar
  import opened RoundTrip

  /** `read_phrase_in_quote` as written: the scan `%[^"]` has no field width, so the whole
      run of characters up to the next quote is stored, however long it is. */
  function ParsePhraseAsWritten(s: string, i: nat): (r: Result<(string, nat)>)
    requires i <= |s|
    ensures r.Ok? ==> i < r.value.1 <= |s| && 0 < |r.value.0|
    ensures r.Err? ==> r.error == Syntax
  {
    if At(s, i) != '"' then Err(Syntax)
    else
      var phrase := PhraseSpan(s, i + 1);
      if |phrase| == 0 then Err(Syntax)
      else
        var e := i + 1 + |phrase|;
        var after := if At(s, e) == '"' then e + 1 else e;
        Ok((phrase, SpacesEnd(s, after)))
  }

  /** The buffer `read_node` passes to the scan holds MAX_LENGTH_OF_ANSWER characters, the
      terminating NUL included. */
  predicate FitsLabelBuffer(phrase: string)
  {
    |phrase| < MAX_LENGTH_OF_ANSWER
  }

  /** `n` copies of `c`. */
  function Repeat(c: char, n: nat): (r: string)
    ensures |r| == n
    ensures forall k :: 0 <= k < n ==> r[k] == c
  {
    if n == 0 then [] else [c] + Repeat(c, n - 1)
  }

  /** A label between quotes, as it stands in the text format. */
  function Quoted(w: string): string
  {
    ['"'] + w + ['"']
  }

  /** The scan stops exactly at the closing quote of a label free of quotes and NULs. */
  lemma QuotedSpan(w: string)
    requires forall k :: 0 <= k < |w| ==> w[k] != '"' && w[k] != '\0'
    ensures PhraseSpan(Quoted(w), 1) == w
  {
    var s := Quoted(w);
    assert s[1..|w| + 1] == w;
    OccursSlice(s, 1, |w| + 1);
    QuoteEndAfter(s, 1, w);
  }

  /** Any label of MAX_LENGTH_OF_ANSWER letters or more is accepted by the scan as written
      and does not fit the buffer it is stored in; the corrected parser rejects it. With
      `n == 1024` this is the input `"aaa…a"` holding 1024 letters. */
  lemma LongLabelOverflows(n: nat)
    requires n >= MAX_LENGTH_OF_ANSWER
    ensures ParsePhraseAsWritten(Quoted(Repeat('a', n)), 0) == Ok((Repeat('a', n), n + 2))
    ensures !FitsLabelBuffer(ParsePhraseAsWritten(Quoted(Repeat('a', n)), 0).value.0)
    ensures ParsePhrase(Quoted(Repeat('a', n)), 0) == Err(Syntax)
  {
    var w := Repeat('a', n);
    QuotedSpan(w);
    assert Quoted(w)[n + 1] == '"';
  }

  /** The corrected parser accepts exactly the labels the scan as written reads and that fit
      the buffer, and then reads the same label to the same place. */
  lemma CorrectedPhraseIsBoundedScan(s: string, i: nat)
    requires i <= |s|
    ensures ParsePhrase(s, i).Ok?
        <==> ParsePhraseAsWritten(s, i).Ok? && FitsLabelBuffer(ParsePhraseAsWritten(s, i).value.0)
    ensures ParsePhrase(s, i).Ok? ==> ParsePhrase(s, i) == ParsePhraseAsWritten(s, i)
  {
  }

  /** What loading a text ends in as written: a tree, an error code, or the failed
      `assert(tree_root != NULL)` of `validate_no_extra_chars` (tree.cpp:787), which ends
      the program. */
  datatype LoadOutcome = Loaded(tree: Subtree) | Failed(error: TreeError) | AssertionFails

  /** `load_tree_from_file` as written: a text that is a single `nil` reaches
      `validate_no_extra_chars` with a NULL root. */
  function LoadAsWritten(s: string): (r: LoadOutcome)
    ensures r.Loaded? ==> r.tree.Node?
  {
    if |s| == 0 then Failed(OpeningFile)
    else
      match ParseNode(s, 0)
      case Err(e) => Failed(e)
      case Ok((t, p)) =>
        if t == Nil then AssertionFails
        else if At(s, SpacesEnd(s, p)) != '\0' then Failed(Syntax)
        else Loaded(t)
  }

  /** The file holding `nil` aborts the program as written; the corrected load reports a
      null pointer instead. */
  lemma NilFileAborts()
    ensures ParseNode("nil", 0) == Ok((Nil, 3))
    ensures LoadAsWritten("nil") == AssertionFails
    ensures Load("nil") == Err(NullPtr)
  {
    assert SpacesEnd("nil", 0) == 0;
  }

  /** The corrected load differs from the load as written only where the latter aborts, and
      there it reports a null pointer. */
  lemma CorrectedLoadMatches(s: string)
    ensures LoadAsWritten(s) == AssertionFails <==> Load(s) == Err(NullPtr)
    ensures LoadAsWritten(s).Loaded? <==> Load(s).Ok?
    ensures Load(s).Ok? ==> LoadAsWritten(s).tree == Load(s).value
    ensures LoadAsWritten(s).Failed? ==> Load(s) == Err(LoadAsWritten(s).error)
  {
  }
}
