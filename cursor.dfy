/** The parser's cursor steps that allocate no node (tree.cpp:590-721, 784-798). The cursor is
    an index into the text; each method returns where it leaves it. */
module Cursor {
  import opened TreeTypes
  import opened Text
  import opened Shape
  import opened Grammar

  /** `move_position_until_get_not_space`. */
  method MovePositionUntilGetNotSpace(s: string, pos: nat) returns (p: nat)
    requires pos <= |s|
    ensures p == SpacesEnd(s, pos)
  {
    p := pos;
    while IsSpace(At(s, p))
      invariant pos <= p <= |s|
      invariant SpacesEnd(s, p) == SpacesEnd(s, pos)
      decreases |s| - p
    {
      p := p + 1;
    }
  }

  /** `check_symbol`: consumes one character exactly when it is the expected one. */
  method CheckSymbol(s: string, pos: nat, expected: char) returns (err: TreeError, p: nat)
    requires pos <= |s|
    requires expected != '\0'
    ensures err == NoError || err == Syntax
    ensures err == NoError <==> At(s, pos) == expected
    ensures p == if err == NoError then pos + 1 else pos
    ensures p <= |s|
  {
    if At(s, pos) != expected {
      return Syntax, pos;
    }
    return NoError, pos + 1;
  }

  /** `read_phrase_in_quote`. */
  method ReadPhraseInQuote(s: string, pos: nat) returns (err: TreeError, phrase: string, p: nat)
    requires pos <= |s|
    ensures p <= |s| && (err == NoError ==> pos < p)
    ensures match ParsePhrase(s, pos)
      case Ok((q, k)) => err == NoError && phrase == q && p == k
      case Err(e) => err == e
  {
    err, p := CheckSymbol(s, pos, '"');
    if err != NoError {
      return err, [], p;
    }
    var start := p;
    while At(s, p) != '"' && At(s, p) != '\0'
      invariant start <= p <= |s|
      invariant QuoteEnd(s, p) == QuoteEnd(s, start)
      decreases |s| - p
    {
      p := p + 1;
    }
    if p == start || p - start >= MAX_LENGTH_OF_ANSWER {
      return Syntax, [], p;
    }
    phrase := s[start..p];
    var ignored;
    ignored, p := CheckSymbol(s, p, '"');
    p := MovePositionUntilGetNotSpace(s, p);
  }

  /** `read_nil_node`: on success the node read is NULL. */
  method ReadNilNode(s: string, pos: nat) returns (err: TreeError, p: nat)
    requires pos <= |s|
    ensures p <= |s|
    ensures match ParseNil(s, pos)
      case Ok((_, k)) => err == NoError && p == k
      case Err(e) => err == e
  {
    p := MovePositionUntilGetNotSpace(s, pos);
    if At(s, p) == 'n' && At(s, p + 1) == 'i' && At(s, p + 2) == 'l' {
      return NoError, p + 3;
    }
    return Syntax, p;
  }

  /** `validate_no_extra_chars`: only white space may follow the top-level node. The source
      asserts that the tree read is not NULL. */
  method ValidateNoExtraChars(s: string, pos: nat, treeRoot: Ptr) returns (err: TreeError)
    requires pos <= |s|
    requires treeRoot != NIL
    ensures err == NoError || err == Syntax
    ensures err == NoError <==> At(s, SpacesEnd(s, pos)) == '\0'
  {
    var p := MovePositionUntilGetNotSpace(s, pos);
    if At(s, p) != '\0' {
      return Syntax;
    }
    return NoError;
  }
}
