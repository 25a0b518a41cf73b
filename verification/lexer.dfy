/**
 * The lexer of the regular-expression front end: every character of the input
 * becomes exactly one token, whose kind is a fixed function of the character.
 */
module Lexer {
  import opened Results

  /** The ten token kinds; every non-operator character is a `Literal`. */
  datatype TokenKind =
    | Or | Star | Plus | QuestionMark
    | OpenParen | ClosedParen | OpenSquareBracket | ClosedSquareBracket
    | Dash | Literal

  /** A token pairs its kind with the character it was read from. */
  datatype Token = Token(kind: TokenKind, content: char)

  /** The nine characters that have an operator kind of their own. */
  const OperatorChars: string := "|*+?()[]-"

  /** The operator character that a kind stands for; `Literal` has none. */
  function TokenValue(kind: TokenKind): (v: Option<char>)
    ensures v.None? <==> kind == Literal
    ensures v.Some? ==> v.value in OperatorChars
  {
    match kind
    case Or => Some('|')
    case Star => Some('*')
    case Plus => Some('+')
    case QuestionMark => Some('?')
    case OpenParen => Some('(')
    case ClosedParen => Some(')')
    case OpenSquareBracket => Some('[')
    case ClosedSquareBracket => Some(']')
    case Dash => Some('-')
    case Literal => None
  }

  /** The kind of one character: its operator kind, or `Literal` for every other character. */
  function TypeToken(ch: char): (kind: TokenKind)
    ensures kind == Literal <==> ch !in OperatorChars
    ensures kind != Literal ==> TokenValue(kind) == Some(ch)
  {
    if ch == '|' then Or
    else if ch == '*' then Star
    else if ch == '+' then Plus
    else if ch == '?' then QuestionMark
    else if ch == '(' then OpenParen
    else if ch == ')' then ClosedParen
    else if ch == '[' then OpenSquareBracket
    else if ch == ']' then ClosedSquareBracket
    else if ch == '-' then Dash
    else Literal
  }

  /** `TokenValue` inverts `TypeToken` on every operator kind. */
  lemma TokenValueInverts(kind: TokenKind)
    requires kind != Literal
    ensures TokenValue(kind).Some? && TypeToken(TokenValue(kind).value) == kind
  {
  }

  /** The lexer: one token per character, in order, carrying that character. */
  function Lex(regex: string): (tokens: seq<Token>)
    ensures |tokens| == |regex|
    ensures forall i :: 0 <= i < |regex| ==> tokens[i] == Token(TypeToken(regex[i]), regex[i])
  {
    seq(|regex|, i requires 0 <= i < |regex| => Token(TypeToken(regex[i]), regex[i]))
  }

  /** The characters a token sequence was read from. */
  function Contents(tokens: seq<Token>): (s: string)
    ensures |s| == |tokens|
  {
    if tokens == [] then [] else [tokens[0].content] + Contents(tokens[1..])
  }

  /** Lexing loses nothing: the tokens' contents spell the input again. */
  lemma {:induction false} LexRoundTrip(regex: string)
    ensures Contents(Lex(regex)) == regex
  {
    if regex != [] {
      assert Lex(regex)[1..] == Lex(regex[1..]);
      LexRoundTrip(regex[1..]);
    }
  }
}
