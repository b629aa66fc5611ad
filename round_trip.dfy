/** What the parser accepts and rejects, and that it reads back what the serialiser writes. */
module RoundTrip {
  import opened TreeTypes
  import opened Text
  import opened Shape
  import opened Grammar

  /** The text `w` appears in `s` starting at index `i`. */
  predicate Occurs(s: string, i: nat, w: string)
    decreases |w|
  {
    i + |w| <= |s| && (|w| == 0 || (s[i] == w[0] && Occurs(s, i + 1, w[1..])))
  }

  lemma {:induction false} OccursIndex(s: string, i: nat, w: string, k: nat)
    requires Occurs(s, i, w) && k < |w|
    ensures s[i + k] == w[k]
    decreases k
  {
    if k > 0 {
      OccursIndex(s, i + 1, w[1..], k - 1);
    }
  }

  /** What occurs inside an occurring text occurs in the enclosing one. */
  lemma {:induction false} OccursTrans(s: string, i: nat, w: string, off: nat, v: string)
    requires Occurs(s, i, w) && Occurs(w, off, v)
    ensures Occurs(s, i + off, v)
    decreases |v|
  {
    if |v| > 0 {
      OccursIndex(s, i, w, off);
      OccursTrans(s, i, w, off + 1, v[1..]);
    }
  }

  /** An occurrence that ends by index `n` survives cutting the text at `n`. */
  lemma {:induction false} OccursPrefix(w: string, off: nat, v: string, n: nat)
    requires Occurs(w, off, v) && off + |v| <= n <= |w|
    ensures Occurs(w[..n], off, v)
    decreases |v|
  {
    if |v| > 0 {
      OccursPrefix(w, off + 1, v[1..], n);
    }
  }

  /** Every slice of a text occurs where it was cut from. */
  lemma {:induction false} OccursSlice(s: string, i: nat, j: nat)
    requires i <= j <= |s|
    ensures Occurs(s, i, s[i..j])
    decreases j - i
  {
    if i < j {
      assert s[i..j][1..] == s[i + 1..j];
      OccursSlice(s, i + 1, j);
    }
  }

  lemma OccursWhole(s: string)
    ensures Occurs(s, 0, s)
  {
    OccursSlice(s, 0, |s|);
    assert s[0..|s|] == s;
  }

  /** An occurrence is the slice of the text at its place. */
  lemma {:induction false} SliceOfOccurs(s: string, i: nat, w: string)
    requires Occurs(s, i, w)
    ensures s[i..i + |w|] == w
    decreases |w|
  {
    if |w| > 0 {
      SliceOfOccurs(s, i + 1, w[1..]);
      assert s[i..i + |w|] == [s[i]] + s[i + 1..i + |w|];
      assert w == [w[0]] + w[1..];
    }
  }

  /** `w` is laid out as the text of a node with label `q` and children texts `sy` and `sn`. */
  predicate NodeTextLayout(w: string, q: string, sy: string, sn: string)
  {
    |w| == |q| + |sy| + |sn| + 6
    && w[0] == '(' && w[1] == '"' && w[|q| + 2] == '"' && w[|q| + 3] == ' '
    && w[|q| + |sy| + 4] == ' ' && w[|w| - 1] == ')'
    && Occurs(w, 2, q) && Occurs(w, |q| + 4, sy) && Occurs(w, |q| + |sy| + 5, sn)
  }

  /** A text put between two others occurs right after the first. */
  lemma OccursBetween(a: string, w: string, b: string)
    ensures Occurs(a + w + b, |a|, w)
  {
    var s := a + w + b;
    assert s[|a|..|a| + |w|] == w;
    OccursSlice(s, |a|, |a| + |w|);
  }

  /** The characters of a node's text, position by position. */
  lemma NodeTextLayoutOf(q: string, sy: string, sn: string)
    ensures NodeTextLayout("(\"" + q + "\" " + sy + " " + sn + ")", q, sy, sn)
  {
    var w := "(\"" + q + "\" " + sy + " " + sn + ")";
    OccursBetween("(\"", q, "\" " + sy + " " + sn + ")");
    assert "(\"" + q + ("\" " + sy + " " + sn + ")") == w;
    OccursBetween("(\"" + q + "\" ", sy, " " + sn + ")");
    assert "(\"" + q + "\" " + sy + (" " + sn + ")") == w;
    OccursBetween("(\"" + q + "\" " + sy + " ", sn, ")");
  }

  /** The characters of a serialised node, position by position. */
  lemma SerializedNodeLayout(q: string, yes: Subtree, no: Subtree)
    ensures NodeTextLayout(Serialize(Node(q, yes, no)), q, Serialize(yes), Serialize(no))
  {
    NodeTextLayoutOf(q, Serialize(yes), Serialize(no));
  }

  /** The text of a node with label `q` and children texts `sy` and `sn` stands in `s` at
      `i`, up to (not including) its closing parenthesis. */
  predicate NodeAt(s: string, i: nat, q: string, sy: string, sn: string)
  {
    i + |q| + |sy| + |sn| + 5 <= |s|
    && s[i] == '(' && s[i + 1] == '"' && s[i + |q| + 2] == '"' && s[i + |q| + 3] == ' '
    && s[i + |q| + |sy| + 4] == ' '
    && Occurs(s, i + 2, q) && Occurs(s, i + |q| + 4, sy) && Occurs(s, i + |q| + |sy| + 5, sn)
  }

  lemma HeadOccurs(s: string, i: nat, w: string, q: string, sy: string, sn: string)
    requires NodeTextLayout(w, q, sy, sn) && Occurs(s, i, w[..|w| - 1])
    ensures s[i] == '(' && s[i + 1] == '"' && s[i + |q| + 2] == '"' && s[i + |q| + 3] == ' '
    ensures Occurs(s, i + 2, q)
  {
    var u := w[..|w| - 1];
    OccursIndex(s, i, u, 0);
    OccursIndex(s, i, u, 1);
    OccursIndex(s, i, u, |q| + 2);
    OccursIndex(s, i, u, |q| + 3);
    OccursPrefix(w, 2, q, |w| - 1);
    OccursTrans(s, i, u, 2, q);
  }

  lemma PiecesOccur(s: string, i: nat, w: string, q: string, sy: string, sn: string)
    requires NodeTextLayout(w, q, sy, sn) && Occurs(s, i, w[..|w| - 1])
    ensures s[i + |q| + |sy| + 4] == ' '
    ensures Occurs(s, i + |q| + 4, sy) && Occurs(s, i + |q| + |sy| + 5, sn)
  {
    var u := w[..|w| - 1];
    OccursIndex(s, i, u, |q| + |sy| + 4);
    OccursPrefix(w, |q| + 4, sy, |w| - 1);
    OccursTrans(s, i, u, |q| + 4, sy);
    OccursPrefix(w, |q| + |sy| + 5, sn, |w| - 1);
    OccursTrans(s, i, u, |q| + |sy| + 5, sn);
  }

  /** Where the pieces of a node's text stand, once the text occurs in `s` (its closing
      parenthesis aside). */
  lemma NodeAtOfText(s: string, i: nat, w: string, q: string, sy: string, sn: string)
    requires NodeTextLayout(w, q, sy, sn) && Occurs(s, i, w[..|w| - 1])
    ensures NodeAt(s, i, q, sy, sn)
  {
    HeadOccurs(s, i, w, q, sy, sn);
    PiecesOccur(s, i, w, q, sy, sn);
  }

  /** A whole occurrence of a node's text holds its closing parenthesis and the rest. */
  lemma WholeNodeOccurs(s: string, i: nat, w: string, q: string, sy: string, sn: string)
    requires NodeTextLayout(w, q, sy, sn) && Occurs(s, i, w)
    ensures i + |w| <= |s| && s[i + |w| - 1] == ')' && Occurs(s, i, w[..|w| - 1])
  {
    OccursIndex(s, i, w, |w| - 1);
    OccursSlice(w, 0, |w| - 1);
    assert w[0..|w| - 1] == w[..|w| - 1];
    OccursTrans(s, i, w, 0, w[..|w| - 1]);
  }

  lemma {:induction false} QuoteEndAfter(s: string, a: nat, w: string)
    requires Occurs(s, a, w)
    requires forall k :: 0 <= k < |w| ==> w[k] != '"' && w[k] != '\0'
    requires At(s, a + |w|) == '"'
    ensures QuoteEnd(s, a) == a + |w|
    decreases |w|
  {
    if |w| > 0 {
      QuoteEndAfter(s, a + 1, w[1..]);
    }
  }

  lemma SpacesEndStop(s: string, i: nat)
    requires i <= |s| && !IsSpace(At(s, i))
    ensures SpacesEnd(s, i) == i
  {
  }

  lemma SpacesEndOne(s: string, i: nat)
    requires i < |s| && IsSpace(s[i]) && !IsSpace(At(s, i + 1))
    ensures SpacesEnd(s, i) == i + 1
  {
    SpacesEndStop(s, i + 1);
  }

  /** A label that occurs in the text and is closed by a quote is what the scan returns. */
  lemma SpanOfLabel(s: string, a: nat, q: string)
    requires WritableLabel(q)
    requires Occurs(s, a, q) && a + |q| < |s| && s[a + |q|] == '"'
    ensures PhraseSpan(s, a) == q
  {
    QuoteEndAfter(s, a, q);
    SliceOfOccurs(s, a, q);
  }

  lemma PhraseParses(s: string, i: nat, q: string)
    requires 0 < |q| < MAX_LENGTH_OF_ANSWER && i + |q| + 3 <= |s|
    requires s[i] == '"' && PhraseSpan(s, i + 1) == q && s[i + |q| + 1] == '"'
    requires SpacesEnd(s, i + |q| + 2) == i + |q| + 3
    ensures ParsePhrase(s, i) == Ok((q, i + |q| + 3))
  {
  }

  lemma NodeParses(s: string, i: nat, q: string, k: nat)
    requires i + 1 <= |s| && k <= |s|
    requires s[i] == '(' && SpacesEnd(s, i + 1) == i + 1
    requires ParsePhrase(s, i + 1) == Ok((q, k))
    ensures ParseNode(s, i) == ParseChildren(s, k, q)
  {
    SpacesEndStop(s, i);
  }

  lemma ChildParses(s: string, k: nat, t: Subtree, p: nat, next: nat)
    requires k <= |s| && p <= |s|
    requires ParseNode(s, k) == Ok((t, p)) && SpacesEnd(s, p) == next
    ensures ParseChild(s, k) == Ok((t, next))
  {
  }

  /** The header of a node with label `q` stands at `i`: the parenthesis, the quoted label
      and a space, followed by something that is not white space. */
  predicate HeaderAt(s: string, i: nat, q: string)
  {
    i + |q| + 4 <= |s|
    && s[i] == '(' && s[i + 1] == '"' && s[i + |q| + 2] == '"' && s[i + |q| + 3] == ' '
    && Occurs(s, i + 2, q) && !IsSpace(At(s, i + |q| + 4))
  }

  /** The header of a serialised node hands over to its children. */
  lemma HeaderStep(s: string, i: nat, q: string)
    requires WritableLabel(q) && HeaderAt(s, i, q)
    ensures ParseNode(s, i) == ParseChildren(s, i + |q| + 4, q)
  {
    SpanOfLabel(s, i + 2, q);
    SpacesEndOne(s, i + |q| + 3);
    PhraseParses(s, i + 1, q);
    SpacesEndStop(s, i + 1);
    NodeParses(s, i, q, i + |q| + 4);
  }

  /** The parser reads a serialised tree back, wherever the text of it stands in the input,
      and stops right after it. */
  lemma {:induction false} ParseSerialized(t: Subtree, s: string, i: nat)
    requires WellLabelled(t)
    requires Occurs(s, i, Serialize(t))
    ensures ParseNode(s, i) == Ok((t, i + |Serialize(t)|))
    decreases t, 5
  {
    match t
    case Nil =>
      NilParses(s, i);
    case Node(q, yes, no) =>
      SerializedNodeAt(q, yes, no, s, i);
      SerializedNodeParse(q, yes, no, s, i);
  }

  lemma NilParses(s: string, i: nat)
    requires Occurs(s, i, "nil")
    ensures ParseNode(s, i) == Ok((Nil, i + 3))
  {
    OccursIndex(s, i, "nil", 0);
    OccursIndex(s, i, "nil", 1);
    OccursIndex(s, i, "nil", 2);
    SpacesEndStop(s, i);
  }

  /** Where the pieces of a serialised node stand, once its text occurs in `s`. */
  lemma SerializedNodeAt(q: string, yes: Subtree, no: Subtree, s: string, i: nat)
    requires Occurs(s, i, Serialize(Node(q, yes, no)))
    ensures NodeAt(s, i, q, Serialize(yes), Serialize(no))
    ensures i + |q| + |Serialize(yes)| + |Serialize(no)| + 6 <= |s|
    ensures s[i + |q| + |Serialize(yes)| + |Serialize(no)| + 5] == ')'
  {
    var w := Serialize(Node(q, yes, no));
    SerializedNodeLayout(q, yes, no);
    WholeNodeOccurs(s, i, w, q, Serialize(yes), Serialize(no));
    NodeAtOfText(s, i, w, q, Serialize(yes), Serialize(no));
  }

  /** A serialised node, found in the text with its closing parenthesis. */
  lemma {:induction false} SerializedNodeParse(q: string, yes: Subtree, no: Subtree, s: string, i: nat)
    requires WellLabelled(Node(q, yes, no))
    requires NodeAt(s, i, q, Serialize(yes), Serialize(no))
    requires i + |q| + |Serialize(yes)| + |Serialize(no)| + 6 <= |s|
    requires s[i + |q| + |Serialize(yes)| + |Serialize(no)| + 5] == ')'
    ensures ParseNode(s, i) == Ok((Node(q, yes, no), i + |q| + |Serialize(yes)| + |Serialize(no)| + 6))
    decreases Node(q, yes, no), 3
  {
    SerializedChildrenRead(q, yes, no, s, i);
    NodeReads(s, i, q, yes, no, |Serialize(yes)|, |Serialize(no)|);
  }

  /** Both children of a serialised node parse back, each from its own place in the text. */
  lemma {:induction false} SerializedChildrenRead(q: string, yes: Subtree, no: Subtree, s: string, i: nat)
    requires WellLabelled(Node(q, yes, no))
    requires NodeAt(s, i, q, Serialize(yes), Serialize(no))
    requires !IsSpace(At(s, i + |q| + |Serialize(yes)| + |Serialize(no)| + 5))
    ensures ChildrenAt(s, i, q, yes, no, |Serialize(yes)|, |Serialize(no)|)
    decreases Node(q, yes, no), 2
  {
    var sy, sn := Serialize(yes), Serialize(no);
    ChildStartsNonSpace(yes, s, i + |q| + 4);
    HeaderOfNode(s, i, q, sy, sn);
    ChildStartsNonSpace(no, s, i + |q| + |sy| + 5);
    SpacesEndOne(s, i + |q| + |sy| + 4);
    ChildStep(yes, s, i + |q| + 4, i + |q| + |sy| + 5);
    SpacesEndStop(s, i + |q| + |sy| + |sn| + 5);
    ChildStep(no, s, i + |q| + |sy| + 5, i + |q| + |sy| + |sn| + 5);
  }

  /** The text of a subtree starts with `(` or `n`, neither of which is white space. */
  lemma ChildStartsNonSpace(t: Subtree, s: string, k: nat)
    requires Occurs(s, k, Serialize(t))
    ensures k < |s| && !IsSpace(s[k]) && !IsSpace(At(s, k))
  {
    OccursIndex(s, k, Serialize(t), 0);
  }

  /** A node laid out in the text, with no white space before its first child, has its
      header in place. */
  lemma HeaderOfNode(s: string, i: nat, q: string, sy: string, sn: string)
    requires NodeAt(s, i, q, sy, sn) && !IsSpace(At(s, i + |q| + 4))
    ensures HeaderAt(s, i, q)
  {
  }

  /** A serialised child is read in full, with the white space after it. */
  lemma {:induction false} ChildStep(t: Subtree, s: string, k: nat, next: nat)
    requires WellLabelled(t) && Occurs(s, k, Serialize(t))
    requires SpacesEnd(s, k + |Serialize(t)|) == next
    ensures ParseChild(s, k) == Ok((t, next))
    decreases t, 6
  {
    ParseSerialized(t, s, k);
    ChildParses(s, k, t, k + |Serialize(t)|, next);
  }

  /** The header of a node stands at `i` and its two children, `ly` and `ln` characters long
      and one space apart, stand after it, each read in full with the white space after it. */
  predicate ChildrenAt(s: string, i: nat, q: string, yes: Subtree, no: Subtree, ly: nat, ln: nat)
  {
    HeaderAt(s, i, q) && i + |q| + ly + ln + 5 <= |s|
    && ParseChild(s, i + |q| + 4) == Ok((yes, i + |q| + ly + 5))
    && ParseChild(s, i + |q| + ly + 5) == Ok((no, i + |q| + ly + ln + 5))
  }

  /** Children read in place, then the closing parenthesis: the node is complete. */
  lemma ChildrenParse(s: string, i: nat, q: string, yes: Subtree, no: Subtree, ly: nat, ln: nat)
    requires ChildrenAt(s, i, q, yes, no, ly, ln)
    requires At(s, i + |q| + ly + ln + 5) == ')'
    ensures ParseChildren(s, i + |q| + 4, q) == Ok((Node(q, yes, no), i + |q| + ly + ln + 6))
  {
  }

  /** Children read in place, but no closing parenthesis: a syntax error. */
  lemma ChildrenUnclosed(s: string, i: nat, q: string, yes: Subtree, no: Subtree, ly: nat, ln: nat)
    requires ChildrenAt(s, i, q, yes, no, ly, ln)
    requires At(s, i + |q| + ly + ln + 5) != ')'
    ensures ParseChildren(s, i + |q| + 4, q) == Err(Syntax)
  {
  }

  /** A node whose children read in place reads as the whole node, given its closing
      parenthesis. */
  lemma NodeReads(s: string, i: nat, q: string, yes: Subtree, no: Subtree, ly: nat, ln: nat)
    requires WritableLabel(q) && ChildrenAt(s, i, q, yes, no, ly, ln)
    requires At(s, i + |q| + ly + ln + 5) == ')'
    ensures ParseNode(s, i) == Ok((Node(q, yes, no), i + |q| + ly + ln + 6))
  {
    HeaderStep(s, i, q);
    ChildrenParse(s, i, q, yes, no, ly, ln);
  }

  /** A node whose children read in place but whose closing parenthesis is missing does not
      read. */
  lemma NodeUnclosed(s: string, i: nat, q: string, yes: Subtree, no: Subtree, ly: nat, ln: nat)
    requires WritableLabel(q) && ChildrenAt(s, i, q, yes, no, ly, ln)
    requires At(s, i + |q| + ly + ln + 5) != ')'
    ensures ParseNode(s, i) == Err(Syntax)
  {
    HeaderStep(s, i, q);
    ChildrenUnclosed(s, i, q, yes, no, ly, ln);
  }

  /** Loading a text whose root parsed to a node. */
  lemma LoadParsed(s: string, t: Subtree, p: nat)
    requires |s| > 0 && p <= |s| && t.Node?
    requires ParseNode(s, 0) == Ok((t, p))
    ensures Load(s) == if At(s, SpacesEnd(s, p)) != '\0' then Err(Syntax) else Ok(t)
  {
  }

  /** Loading a text whose root did not parse. */
  lemma LoadFailed(s: string, e: TreeError)
    requires |s| > 0 && ParseNode(s, 0) == Err(e)
    ensures Load(s) == Err(e)
  {
  }

  /** Loading the text the serialiser wrote gives back the same tree. */
  lemma LoadSerialized(t: Subtree)
    requires t.Node? && WellLabelled(t)
    ensures Load(Serialize(t)) == Ok(t)
  {
    var s := Serialize(t);
    OccursWhole(s);
    ParseSerialized(t, s, 0);
    SpacesEndStop(s, |s|);
    LoadParsed(s, t, |s|);
  }

  /** Every tree the parser accepts carries only writable labels: non-empty, without
      quotes, and short enough for the label buffer. */
  lemma {:induction false} ParsedNodeWellLabelled(s: string, i: nat)
    requires i <= |s|
    requires ParseNode(s, i).Ok?
    ensures WellLabelled(ParseNode(s, i).value.0)
    decreases |s| - i, 2
  {
    var j := SpacesEnd(s, i);
    if At(s, j) == '(' {
      var (phrase, k) := ParsePhrase(s, SpacesEnd(s, j + 1)).value;
      ParsedPhraseWritable(s, SpacesEnd(s, j + 1));
      ParsedChildrenWellLabelled(s, k, phrase);
    }
  }

  lemma {:induction false} ParsedChildrenWellLabelled(s: string, k: nat, phrase: string)
    requires k <= |s| && WritableLabel(phrase)
    requires ParseChildren(s, k, phrase).Ok?
    ensures WellLabelled(ParseChildren(s, k, phrase).value.0)
    decreases |s| - k + 1, 1
  {
    var (yes, k1) := ParseChild(s, k).value;
    ParsedNodeWellLabelled(s, k);
    ParsedNodeWellLabelled(s, k1);
  }

  /** A successful load yields a rooted tree whose labels are all writable. */
  lemma LoadedWellLabelled(s: string)
    requires Load(s).Ok?
    ensures Load(s).value.Node? && WellLabelled(Load(s).value)
  {
    ParsedNodeWellLabelled(s, 0);
  }

  /** Skipping white space in a text that starts with `a` happens inside the part after `a`. */
  lemma {:induction false} SpacesEndShift(a: string, b: string, k: nat)
    requires k <= |b|
    ensures SpacesEnd(a + b, |a| + k) == |a| + SpacesEnd(b, k)
    decreases |b| - k
  {
    if k < |b| && IsSpace(b[k]) {
      SpacesEndShift(a, b, k + 1);
    }
  }

  lemma AtShift(a: string, b: string, k: nat)
    ensures At(a + b, |a| + k) == At(b, k)
  {
  }

  /** A serialised tree at the start of a longer text is read in full. */
  lemma ParseSerializedPrefix(t: Subtree, g: string)
    requires WellLabelled(t)
    ensures ParseNode(Serialize(t) + g, 0) == Ok((t, |Serialize(t)|))
  {
    var w := Serialize(t);
    OccursSlice(w + g, 0, |w|);
    assert (w + g)[0..|w|] == w;
    ParseSerialized(t, w + g, 0);
  }

  /** What stops the white-space scan after a prefix is what stops it in the rest. */
  lemma StopAfterPrefix(w: string, g: string)
    ensures At(w + g, SpacesEnd(w + g, |w|)) == At(g, SpacesEnd(g, 0))
  {
    SpacesEndShift(w, g, 0);
    AtShift(w, g, SpacesEnd(g, 0));
  }

  /** Anything but white space after a complete tree makes the load fail with a syntax error. */
  lemma TrailingGarbageRejected(t: Subtree, g: string)
    requires t.Node? && WellLabelled(t)
    requires At(g, SpacesEnd(g, 0)) != '\0'
    ensures Load(Serialize(t) + g) == Err(Syntax)
  {
    ParseSerializedPrefix(t, g);
    StopAfterPrefix(Serialize(t), g);
    LoadParsed(Serialize(t) + g, t, |Serialize(t)|);
  }

  /** A serialised node whose closing parenthesis is cut off at the end of the text does not
      parse. */
  lemma UnclosedParse(t: Subtree, s: string, i: nat)
    requires t.Node? && WellLabelled(t)
    requires i + |Serialize(t)| - 1 == |s|
    requires Occurs(s, i, Serialize(t)[..|Serialize(t)| - 1])
    ensures ParseNode(s, i) == Err(Syntax)
  {
    var w, q, yes, no := Serialize(t), t.question, t.yes, t.no;
    SerializedNodeLayout(q, yes, no);
    NodeAtOfText(s, i, w, q, Serialize(yes), Serialize(no));
    UnclosedNode(q, yes, no, s, i);
  }

  lemma UnclosedNode(q: string, yes: Subtree, no: Subtree, s: string, i: nat)
    requires WellLabelled(Node(q, yes, no))
    requires NodeAt(s, i, q, Serialize(yes), Serialize(no))
    requires i + |q| + |Serialize(yes)| + |Serialize(no)| + 5 == |s|
    ensures ParseNode(s, i) == Err(Syntax)
  {
    SerializedChildrenRead(q, yes, no, s, i);
    NodeUnclosed(s, i, q, yes, no, |Serialize(yes)|, |Serialize(no)|);
  }

  /** A tree whose closing parenthesis is missing is rejected with a syntax error. */
  lemma MissingCloseParenRejected(t: Subtree)
    requires t.Node? && WellLabelled(t)
    ensures Load(Serialize(t)[..|Serialize(t)| - 1]) == Err(Syntax)
  {
    var w := Serialize(t);
    var s := w[..|w| - 1];
    OccursWhole(s);
    UnclosedParse(t, s, 0);
    LoadFailed(s, Syntax);
  }

  /** A text whose node starts with neither `(` nor `nil` is a syntax error. */
  lemma RejectsBadStart(s: string)
    requires |s| > 0 && At(s, SpacesEnd(s, 0)) != '('
    requires !(At(s, SpacesEnd(s, 0)) == 'n' && At(s, SpacesEnd(s, 0) + 1) == 'i'
               && At(s, SpacesEnd(s, 0) + 2) == 'l')
    ensures Load(s) == Err(Syntax)
  {
  }

  /** A text whose node opens with `(` but whose label does not open with a quote is a
      syntax error. */
  lemma RejectsMissingQuote(s: string)
    requires |s| > 0 && At(s, SpacesEnd(s, 0)) == '('
    requires At(s, SpacesEnd(s, SpacesEnd(s, 0) + 1)) != '"'
    ensures Load(s) == Err(Syntax)
  {
  }

  /** A text whose node opens with `(` and an empty quoted label is a syntax error. */
  lemma RejectsEmptyLabel(s: string)
    requires |s| > 0 && At(s, SpacesEnd(s, 0)) == '('
    requires At(s, SpacesEnd(s, SpacesEnd(s, 0) + 1)) == '"'
    requires At(s, SpacesEnd(s, SpacesEnd(s, 0) + 1) + 1) == '"'
    ensures Load(s) == Err(Syntax)
  {
  }
}
