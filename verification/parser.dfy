/**
 * The recursive-descent parser of the regular-expression front end.
 *
 * Grammar (no backtracking, both binary operators nest to the right):
 *   E := T ('|' E)?          alternation
 *   T := C T?                concatenation, only when the next token is a literal, '(' or '['
 *   C := (lit | '(' E ')' | '[' L ']') ('*' | '+' | '?')?
 *   L := the body of a bracket class, up to (not including) ']'
 *
 * The functions Expression, Term, Component and ClassBody state, for a token
 * sequence and a cursor position, what the parser yields; the class
 * RegexParser is the parser itself, whose cursor field advances as it matches
 * tokens, and each of its methods is proved to agree with the function for
 * its grammar level.
 */
module Parser {
  import opened Results
  import opened Lexer

  /** The abstract syntax tree; one case per node class of the source. */
  datatype AstNode =
    | OrNode(left: AstNode, right: AstNode)
    | SeqNode(left: AstNode, right: AstNode)
    | StarNode(inner: AstNode)
    | PlusNode(inner: AstNode)
    | QuestionMarkNode(inner: AstNode)
    | LiteralNode(ch: char)
    | SquareBracketNode(clas: set<char>)

  /** Why a parse fails, with the cursor position at which it did. */
  datatype ParseError =
    | UnexpectedToken(pos: nat)            // tokens remain after a complete expression
    | UnexpectedComponent(pos: nat)        // no component can start here
    | ExpectedToken(kind: TokenKind, pos: nat) // a required ')' or ']' is missing
    | RangeWithoutStart(pos: nat)          // a range dash with no pending literal to pop

  /** A parsed node and the cursor position after it. */
  datatype Parsed = Parsed(ast: AstNode, next: nat)

  /** A scanned bracket-class body and the cursor position after it. */
  datatype Scanned = Scanned(clas: set<char>, next: nat)

  /** Does the token at `pos` exist and have kind `kind`? */
  predicate At(tokens: seq<Token>, pos: nat, kind: TokenKind) {
    pos < |tokens| && tokens[pos].kind == kind
  }

  /** Can the token at `pos` start another component of a concatenation? */
  predicate StartsComponent(tokens: seq<Token>, pos: nat) {
    At(tokens, pos, Literal) || At(tokens, pos, OpenParen) || At(tokens, pos, OpenSquareBracket)
  }

  predicate IsScalar(i: int) {
    0 <= i < 0xD800 || 0xE000 <= i < 0x11_0000
  }

  /** The characters whose code points lie in [lo, hi). */
  function CodePoints(lo: int, hi: int): (r: set<char>)
    ensures forall c :: c in r <==> lo <= c as int < hi
  {
    var r := set i: int | lo <= i < hi && IsScalar(i) :: i as char;
    assert forall c: char :: lo <= c as int < hi ==> c in r by {
      forall c: char | lo <= c as int < hi ensures c in r {
        assert IsScalar(c as int) && (c as int) as char == c;
      }
    }
    r
  }

  /** The inclusive range lo..hi of a bracket class; empty when lo > hi. */
  function CharRange(lo: char, hi: char): (r: set<char>)
    ensures forall c :: c in r <==> lo <= c <= hi
  {
    CodePoints(lo as int, hi as int + 1)
  }

  /**
   * The bracket-class body from `pos`, given the characters collected so far
   * (`clas`) and the literals still pending as range starts (`que`). A scan
   * never drops a character it has collected, and it fails only at a range
   * dash.
   */
  function ClassBody(tokens: seq<Token>, pos: nat, clas: set<char>, que: seq<char>): (r: Result<Scanned, ParseError>)
    requires pos <= |tokens|
    ensures r.Ok? ==> pos <= r.value.next <= |tokens|
    ensures r.Ok? ==> r.value.next == |tokens| || At(tokens, r.value.next, ClosedSquareBracket)
    ensures r.Ok? ==> clas <= r.value.clas
    ensures r.Err? ==> r.error.RangeWithoutStart? && pos <= r.error.pos && At(tokens, r.error.pos, Dash)
    decreases |tokens| - pos
  {
    if pos == |tokens| then Ok(Scanned(clas, pos))
    else
      match tokens[pos].kind
      case ClosedSquareBracket => Ok(Scanned(clas, pos))
      case Literal =>
        ClassBody(tokens, pos + 1, clas + {tokens[pos].content}, que + [tokens[pos].content])
      case Dash =>
        if |clas| == 0 || pos + 1 == |tokens| || tokens[pos + 1].kind == ClosedSquareBracket then
          ClassBody(tokens, pos + 1, clas + {'-'}, que)
        else if que == [] then
          Err(RangeWithoutStart(pos))
        else
          ClassBody(tokens, pos + 2, clas + CharRange(que[|que| - 1], tokens[pos + 1].content), que[..|que| - 1])
      case _ => ClassBody(tokens, pos + 1, clas, que)
  }

  /** Wraps an atom in the quantifier that follows it, if any (at most one). */
  function Quantified(tokens: seq<Token>, atom: Parsed): (r: Parsed)
    requires atom.next <= |tokens|
    ensures r.next == atom.next || r.next == atom.next + 1
  {
    if At(tokens, atom.next, Star) then Parsed(StarNode(atom.ast), atom.next + 1)
    else if At(tokens, atom.next, Plus) then Parsed(PlusNode(atom.ast), atom.next + 1)
    else if At(tokens, atom.next, QuestionMark) then Parsed(QuestionMarkNode(atom.ast), atom.next + 1)
    else atom
  }

  /** E := T ('|' E)? */
  function Expression(tokens: seq<Token>, pos: nat): (r: Result<Parsed, ParseError>)
    requires pos <= |tokens|
    ensures r.Ok? ==> pos < r.value.next <= |tokens|
    decreases |tokens| - pos, 3
  {
    match Term(tokens, pos)
    case Err(e) => Err(e)
    case Ok(t) =>
      if At(tokens, t.next, Or) then
        match Expression(tokens, t.next + 1)
        case Err(e) => Err(e)
        case Ok(rest) => Ok(Parsed(OrNode(t.ast, rest.ast), rest.next))
      else Ok(t)
  }

  /** T := C T?, continued only when the next token can start a component. */
  function Term(tokens: seq<Token>, pos: nat): (r: Result<Parsed, ParseError>)
    requires pos <= |tokens|
    ensures r.Ok? ==> pos < r.value.next <= |tokens|
    decreases |tokens| - pos, 2
  {
    match Component(tokens, pos)
    case Err(e) => Err(e)
    case Ok(c) =>
      if StartsComponent(tokens, c.next) then
        match Term(tokens, c.next)
        case Err(e) => Err(e)
        case Ok(rest) => Ok(Parsed(SeqNode(c.ast, rest.ast), rest.next))
      else Ok(c)
  }

  /** C := atom quantifier?; a successful C consumes at least one token. */
  function Component(tokens: seq<Token>, pos: nat): (r: Result<Parsed, ParseError>)
    requires pos <= |tokens|
    ensures r.Ok? ==> pos < r.value.next <= |tokens|
    ensures r.Err? && !At(tokens, pos, Literal) && !At(tokens, pos, OpenParen) && !At(tokens, pos, OpenSquareBracket)
            ==> r.error == UnexpectedComponent(pos)
    decreases |tokens| - pos, 1
  {
    match Atom(tokens, pos)
    case Err(e) => Err(e)
    case Ok(a) => Ok(Quantified(tokens, a))
  }

  /** The atom of a component: a literal, '(' E ')' or '[' L ']'. */
  function Atom(tokens: seq<Token>, pos: nat): (r: Result<Parsed, ParseError>)
    requires pos <= |tokens|
    ensures r.Ok? ==> pos < r.value.next <= |tokens|
    ensures r.Err? && !At(tokens, pos, Literal) && !At(tokens, pos, OpenParen) && !At(tokens, pos, OpenSquareBracket)
            ==> r.error == UnexpectedComponent(pos)
    decreases |tokens| - pos, 0
  {
    if At(tokens, pos, Literal) then
      Ok(Parsed(LiteralNode(tokens[pos].content), pos + 1))
    else if At(tokens, pos, OpenParen) then
      match Expression(tokens, pos + 1)
      case Err(e) => Err(e)
      case Ok(inner) =>
        if At(tokens, inner.next, ClosedParen) then Ok(Parsed(inner.ast, inner.next + 1))
        else Err(ExpectedToken(ClosedParen, inner.next))
    else if At(tokens, pos, OpenSquareBracket) then
      match ClassBody(tokens, pos + 1, {}, [])
      case Err(e) => Err(e)
      case Ok(body) =>
        if At(tokens, body.next, ClosedSquareBracket) then Ok(Parsed(SquareBracketNode(body.clas), body.next + 1))
        else Err(ExpectedToken(ClosedSquareBracket, body.next))
    else Err(UnexpectedComponent(pos))
  }

  /** A whole token sequence parsed from `pos`: an expression that leaves no token behind. */
  function ParseFrom(tokens: seq<Token>, pos: nat): (r: Result<AstNode, ParseError>)
    requires pos <= |tokens|
    ensures r.Ok? ==> Expression(tokens, pos).Ok? && Expression(tokens, pos).value.next == |tokens|
  {
    match Expression(tokens, pos)
    case Err(e) => Err(e)
    case Ok(p) => if p.next < |tokens| then Err(UnexpectedToken(p.next)) else Ok(p.ast)
  }

  /** Lexing followed by parsing from the first token. */
  function ParseRegex(regex: string): Result<AstNode, ParseError> {
    ParseFrom(Lex(regex), 0)
  }

  /** Drops the cursor position from a parse outcome. */
  function AstOf(r: Result<Parsed, ParseError>): Result<AstNode, ParseError> {
    match r
    case Ok(p) => Ok(p.ast)
    case Err(e) => Err(e)
  }

  /** Drops the cursor position from a class-body outcome. */
  function ClassOf(r: Result<Scanned, ParseError>): Result<set<char>, ParseError> {
    match r
    case Ok(s) => Ok(s.clas)
    case Err(e) => Err(e)
  }

  /** A literal in a class body is added and becomes the pending range start. */
  lemma ClassBodyLiteral(tokens: seq<Token>, pos: nat, clas: set<char>, que: seq<char>)
    requires pos < |tokens| && tokens[pos].kind == Literal
    ensures ClassBody(tokens, pos, clas, que) ==
      ClassBody(tokens, pos + 1, clas + {tokens[pos].content}, que + [tokens[pos].content])
  {
  }

  /** A dash at the start of a class, at the end of the input or before ']' is a literal '-'. */
  lemma ClassBodyDash(tokens: seq<Token>, pos: nat, clas: set<char>, que: seq<char>)
    requires pos < |tokens| && tokens[pos].kind == Dash
    requires |clas| == 0 || pos + 1 == |tokens| || tokens[pos + 1].kind == ClosedSquareBracket
    ensures ClassBody(tokens, pos, clas, que) == ClassBody(tokens, pos + 1, clas + {'-'}, que)
  {
  }

  /** Any other dash pops the last pending literal and adds the range up to the next token. */
  lemma ClassBodyRange(tokens: seq<Token>, pos: nat, clas: set<char>, que: seq<char>)
    requires pos + 1 < |tokens| && tokens[pos].kind == Dash && |clas| != 0
    requires tokens[pos + 1].kind != ClosedSquareBracket && que != []
    ensures ClassBody(tokens, pos, clas, que) ==
      ClassBody(tokens, pos + 2, clas + CharRange(que[|que| - 1], tokens[pos + 1].content), que[..|que| - 1])
  {
  }

  /** Every other token kind inside a class is skipped. */
  lemma ClassBodyOther(tokens: seq<Token>, pos: nat, clas: set<char>, que: seq<char>)
    requires pos < |tokens| && tokens[pos].kind !in {ClosedSquareBracket, Literal, Dash}
    ensures ClassBody(tokens, pos, clas, que) == ClassBody(tokens, pos + 1, clas, que)
  {
  }

  /** The parser object: a token stream and the cursor `currToken` into it. */
  class RegexParser {
    const tokenStream: seq<Token>
    var currToken: nat

    constructor (tokenStream: seq<Token>)
      ensures this.tokenStream == tokenStream && currToken == 0
    {
      this.tokenStream := tokenStream;
      currToken := 0;
    }

    /** Entry point: an expression, then no token may remain. */
    method Parse() returns (r: Result<AstNode, ParseError>)
      requires currToken <= |tokenStream|
      modifies this
      ensures r == ParseFrom(tokenStream, old(currToken))
    {
      r := ParseE();
      if r.Ok? && currToken < |tokenStream| {
        r := Err(UnexpectedToken(currToken));
      }
    }

    method ParseE() returns (r: Result<AstNode, ParseError>)
      requires currToken <= |tokenStream|
      modifies this
      decreases |tokenStream| - currToken, 2
      ensures r == AstOf(Expression(tokenStream, old(currToken)))
      ensures r.Ok? ==> currToken == Expression(tokenStream, old(currToken)).value.next
    {
      r := ParseT();
      if r.Err? {
        return;
      }
      var isOr := Match(Or);
      if isOr {
        var right := ParseE();
        if right.Err? {
          return right;
        }
        r := Ok(OrNode(r.value, right.value));
      }
    }

    method ParseT() returns (r: Result<AstNode, ParseError>)
      requires currToken <= |tokenStream|
      modifies this
      decreases |tokenStream| - currToken, 1
      ensures r == AstOf(Term(tokenStream, old(currToken)))
      ensures r.Ok? ==> currToken == Term(tokenStream, old(currToken)).value.next
    {
      r := ParseC();
      if r.Err? {
        return;
      }
      if currToken < |tokenStream| {
        var ttype := tokenStream[currToken].kind;
        if ttype == Literal || ttype == OpenParen || ttype == OpenSquareBracket {
          var right := ParseT();
          if right.Err? {
            return right;
          }
          r := Ok(SeqNode(r.value, right.value));
        }
      }
    }

    method ParseC() returns (r: Result<AstNode, ParseError>)
      requires currToken <= |tokenStream|
      modifies this
      decreases |tokenStream| - currToken, 0
      ensures r == AstOf(Component(tokenStream, old(currToken)))
      ensures r.Ok? ==> currToken == Component(tokenStream, old(currToken)).value.next
    {
      ghost var pos := currToken;
      var ast: AstNode;
      var isLiteral := Match(Literal);
      if isLiteral {
        ast := LiteralNode(tokenStream[currToken - 1].content);
      } else {
        var isParen := Match(OpenParen);
        if isParen {
          var inner := ParseE();
          if inner.Err? {
            return inner;
          }
          var closed := Expect(ClosedParen);
          if !closed {
            return Err(ExpectedToken(ClosedParen, currToken));
          }
          ast := inner.value;
        } else {
          var isBracket := Match(OpenSquareBracket);
          if isBracket {
            var clas := ParseL();
            if clas.Err? {
              return Err(clas.error);
            }
            var closed := Expect(ClosedSquareBracket);
            if !closed {
              return Err(ExpectedToken(ClosedSquareBracket, currToken));
            }
            ast := SquareBracketNode(clas.value);
          } else {
            return Err(UnexpectedComponent(currToken));
          }
        }
      }
      assert Atom(tokenStream, pos) == Ok(Parsed(ast, currToken));
      var isStar := Match(Star);
      if isStar {
        ast := StarNode(ast);
      } else {
        var isPlus := Match(Plus);
        if isPlus {
          ast := PlusNode(ast);
        } else {
          var isQuestion := Match(QuestionMark);
          if isQuestion {
            ast := QuestionMarkNode(ast);
          }
        }
      }
      r := Ok(ast);
    }

    /** The bracket-class body: collects characters up to, not including, ']'. */
    method ParseL() returns (r: Result<set<char>, ParseError>)
      requires currToken <= |tokenStream|
      modifies this
      ensures r == ClassOf(ClassBody(tokenStream, old(currToken), {}, []))
      ensures r.Ok? ==> currToken == ClassBody(tokenStream, old(currToken), {}, []).value.next
    {
      var pos := currToken;
      ghost var spec := ClassBody(tokenStream, pos, {}, []);
      var clas: set<char> := {};
      var que: seq<char> := [];
      while pos < |tokenStream|
        invariant pos <= |tokenStream|
        invariant ClassBody(tokenStream, pos, clas, que) == spec
        decreases |tokenStream| - pos
      {
        var ttype := tokenStream[pos].kind;
        if ttype == ClosedSquareBracket {
          break;
        } else if ttype == Literal {
          var ch := tokenStream[pos].content;
          ClassBodyLiteral(tokenStream, pos, clas, que);
          clas := clas + {ch};
          que := que + [ch];
        } else if ttype == Dash {
          if |clas| == 0 || pos + 1 == |tokenStream| || tokenStream[pos + 1].kind == ClosedSquareBracket {
            ClassBodyDash(tokenStream, pos, clas, que);
            clas := clas + {'-'};
          } else {
            if que == [] {
              currToken := pos;
              return Err(RangeWithoutStart(pos));
            }
            var start := que[|que| - 1];
            var end := tokenStream[pos + 1].content;
            ClassBodyRange(tokenStream, pos, clas, que);
            assert CharRange(start, end) == CodePoints(start as int, end as int + 1);
            que := que[..|que| - 1];
            clas := AddRange(clas, start as int, end as int);
            pos := pos + 1;
          }
        } else {
          ClassBodyOther(tokenStream, pos, clas, que);
        }
        pos := pos + 1;
      }
      currToken := pos;
      r := Ok(clas);
    }

    /** Adds every character with code point start..end inclusive, one at a time. */
    static method AddRange(clas: set<char>, start: int, end: int) returns (r: set<char>)
      ensures r == clas + CodePoints(start, end + 1)
    {
      r := clas;
      var i := start;
      while i <= end
        invariant start <= i && (i <= end + 1 || i == start)
        invariant r == clas + CodePoints(start, i)
      {
        if IsScalar(i) {
          r := r + {i as char};
        }
        i := i + 1;
      }
      assert CodePoints(start, i) == CodePoints(start, end + 1);
    }

    /** Consumes the current token when it has kind `ttype`. */
    method Match(ttype: TokenKind) returns (matched: bool)
      modifies this
      ensures matched == At(tokenStream, old(currToken), ttype)
      ensures currToken == if matched then old(currToken) + 1 else old(currToken)
    {
      if currToken >= |tokenStream| {
        return false;
      }
      if tokenStream[currToken].kind == ttype {
        currToken := currToken + 1;
        return true;
      }
      return false;
    }

    /** Like Match, but a missing token is an error for the caller to raise. */
    method Expect(ttype: TokenKind) returns (found: bool)
      modifies this
      ensures found == At(tokenStream, old(currToken), ttype)
      ensures currToken == if found then old(currToken) + 1 else old(currToken)
    {
      found := Match(ttype);
    }
  }
}
