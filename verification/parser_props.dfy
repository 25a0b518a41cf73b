/** Properties of the parser: the inputs it rejects, the shapes it builds, bracket classes. */
module ParserProperties {
  import opened Results
  import opened Lexer
  import opened Parser

  lemma RejectsEmpty()
    ensures ParseRegex("") == Err(UnexpectedComponent(0))
  {
  }

  lemma RejectsLoneStar()
    ensures ParseRegex("*") == Err(UnexpectedComponent(0))
  {
    assert Lex("*") == [Token(Star, '*')];
  }

  lemma RejectsDoubleQuantifier()
    ensures ParseRegex("a**") == Err(UnexpectedToken(2))
  {
    var t := Lex("a**");
    assert t == [Token(Literal, 'a'), Token(Star, '*'), Token(Star, '*')];
    assert Component(t, 0) == Ok(Parsed(StarNode(LiteralNode('a')), 2));
    assert Term(t, 0) == Ok(Parsed(StarNode(LiteralNode('a')), 2));
  }

  lemma RightNestingSeq()
    ensures ParseRegex("abc") == Ok(SeqNode(LiteralNode('a'), SeqNode(LiteralNode('b'), LiteralNode('c'))))
  {
    var t := Lex("abc");
    assert t == [Token(Literal, 'a'), Token(Literal, 'b'), Token(Literal, 'c')];
    assert Term(t, 2) == Ok(Parsed(LiteralNode('c'), 3));
    assert Term(t, 1) == Ok(Parsed(SeqNode(LiteralNode('b'), LiteralNode('c')), 3));
    assert Term(t, 0) == Ok(Parsed(SeqNode(LiteralNode('a'), SeqNode(LiteralNode('b'), LiteralNode('c'))), 3));
  }

  lemma RejectsClosingParen()
    ensures ParseRegex(")") == Err(UnexpectedComponent(0))
  {
    assert Lex(")") == [Token(ClosedParen, ')')];
  }

  lemma RejectsDashOutsideBrackets()
    ensures ParseRegex("a-b") == Err(UnexpectedToken(1))
  {
    var t := Lex("a-b");
    assert t == [Token(Literal, 'a'), Token(Dash, '-'), Token(Literal, 'b')];
    assert Term(t, 0) == Ok(Parsed(LiteralNode('a'), 1));
  }

  lemma RejectsUnclosedParen()
    ensures ParseRegex("(") == Err(UnexpectedComponent(1))
  {
    var t := Lex("(");
    assert t == [Token(OpenParen, '(')];
    assert Component(t, 1) == Err(UnexpectedComponent(1));
  }

  lemma RejectsUnclosedBracket()
    ensures ParseRegex("[a-") == Err(ExpectedToken(ClosedSquareBracket, 3))
  {
    var t := Lex("[a-");
    assert |t| == 3 && t[0].kind == OpenSquareBracket && t[1] == Token(Literal, 'a') && t[2].kind == Dash;
    UnclosedBracketTokens(t);
  }

  lemma UnclosedBracketTokens(t: seq<Token>)
    requires |t| == 3 && t[0].kind == OpenSquareBracket && t[1] == Token(Literal, 'a') && t[2].kind == Dash
    ensures ParseFrom(t, 0) == Err(ExpectedToken(ClosedSquareBracket, 3))
  {
    var none: set<char>, nothing: seq<char> := {}, [];
    assert none + {'a'} == {'a'} && nothing + ['a'] == ['a'] && {'a'} + {'-'} == {'a', '-'};
    assert ClassBody(t, 3, {'a', '-'}, ['a']) == Ok(Scanned({'a', '-'}, 3));
    assert ClassBody(t, 2, {'a'}, ['a']) == ClassBody(t, 3, {'a', '-'}, ['a']);
    assert ClassBody(t, 1, {}, []) == ClassBody(t, 2, {'a'}, ['a']);
    assert Component(t, 0) == Err(ExpectedToken(ClosedSquareBracket, 3));
    assert Term(t, 0) == Err(ExpectedToken(ClosedSquareBracket, 3));
  }

  lemma RejectsRangeAfterRange()
    ensures ParseRegex("[a-c-e]") == Err(RangeWithoutStart(4))
  {
    var t := Lex("[a-c-e]");
    assert |t| == 7 && t[0].kind == OpenSquareBracket;
    assert t[1] == Token(Literal, 'a') && t[2].kind == Dash && t[3] == Token(Literal, 'c');
    assert t[4].kind == Dash && t[5].kind == Literal;
    RangeAfterRangeTokens(t);
  }

  lemma RangeAfterRangeTokens(t: seq<Token>)
    requires |t| == 7 && t[0].kind == OpenSquareBracket
    requires t[1] == Token(Literal, 'a') && t[2].kind == Dash && t[3] == Token(Literal, 'c')
    requires t[4].kind == Dash && t[5].kind == Literal
    ensures ParseFrom(t, 0) == Err(RangeWithoutStart(4))
  {
    var none: set<char>, nothing: seq<char> := {}, [];
    assert none + {'a'} == {'a'} && nothing + ['a'] == ['a'] && ['a'][..0] == [];
    var range := {'a'} + CharRange('a', 'c');
    assert ClassBody(t, 4, range, []) == Err(RangeWithoutStart(4));
    assert ClassBody(t, 2, {'a'}, ['a']) == ClassBody(t, 4, range, []);
    assert ClassBody(t, 1, {}, []) == ClassBody(t, 2, {'a'}, ['a']);
    assert Component(t, 0) == Err(RangeWithoutStart(4));
    assert Term(t, 0) == Err(RangeWithoutStart(4));
  }

  lemma RejectsRangeAfterLiteralDash()
    ensures ParseRegex("[--x]") == Err(RangeWithoutStart(2))
  {
    var t := Lex("[--x]");
    assert |t| == 5 && t[0].kind == OpenSquareBracket && t[1].kind == Dash && t[2].kind == Dash;
    assert t[3].kind == Literal;
    RangeAfterLiteralDashTokens(t);
  }

  lemma RangeAfterLiteralDashTokens(t: seq<Token>)
    requires |t| == 5 && t[0].kind == OpenSquareBracket && t[1].kind == Dash && t[2].kind == Dash
    requires t[3].kind == Literal
    ensures ParseFrom(t, 0) == Err(RangeWithoutStart(2))
  {
    var none: set<char> := {};
    assert none + {'-'} == {'-'};
    assert ClassBody(t, 2, {'-'}, []) == Err(RangeWithoutStart(2));
    assert ClassBody(t, 1, {}, []) == ClassBody(t, 2, {'-'}, []);
    assert Component(t, 0) == Err(RangeWithoutStart(2));
    assert Term(t, 0) == Err(RangeWithoutStart(2));
  }

  lemma RangeClass()
    ensures ParseRegex("[a-c]") == Ok(SquareBracketNode({'a', 'b', 'c'}))
  {
    var t := Lex("[a-c]");
    assert |t| == 5 && t[0].kind == OpenSquareBracket && t[1] == Token(Literal, 'a');
    assert t[2].kind == Dash && t[3] == Token(Literal, 'c') && t[4].kind == ClosedSquareBracket;
    RangeClassTokens(t);
  }

  lemma RangeClassTokens(t: seq<Token>)
    requires |t| == 5 && t[0].kind == OpenSquareBracket && t[1] == Token(Literal, 'a')
    requires t[2].kind == Dash && t[3] == Token(Literal, 'c') && t[4].kind == ClosedSquareBracket
    ensures ParseFrom(t, 0) == Ok(SquareBracketNode({'a', 'b', 'c'}))
  {
    var none: set<char>, nothing: seq<char> := {}, [];
    assert none + {'a'} == {'a'} && nothing + ['a'] == ['a'] && ['a'][..0] == [];
    assert {'a'} + CharRange('a', 'c') == {'a', 'b', 'c'};
    assert ClassBody(t, 4, {'a', 'b', 'c'}, []) == Ok(Scanned({'a', 'b', 'c'}, 4));
    assert ClassBody(t, 2, {'a'}, ['a']) == ClassBody(t, 4, {'a', 'b', 'c'}, []);
    assert ClassBody(t, 1, {}, []) == ClassBody(t, 2, {'a'}, ['a']);
    assert Component(t, 0) == Ok(Parsed(SquareBracketNode({'a', 'b', 'c'}), 5));
    assert Term(t, 0) == Ok(Parsed(SquareBracketNode({'a', 'b', 'c'}), 5));
  }

  lemma LeadingDashIsLiteral()
    ensures ParseRegex("[-ac]") == Ok(SquareBracketNode({'a', 'c', '-'}))
  {
    var t := Lex("[-ac]");
    assert |t| == 5 && t[0].kind == OpenSquareBracket && t[1].kind == Dash;
    assert t[2] == Token(Literal, 'a') && t[3] == Token(Literal, 'c') && t[4].kind == ClosedSquareBracket;
    LeadingDashTokens(t);
  }

  lemma LeadingDashTokens(t: seq<Token>)
    requires |t| == 5 && t[0].kind == OpenSquareBracket && t[1].kind == Dash
    requires t[2] == Token(Literal, 'a') && t[3] == Token(Literal, 'c') && t[4].kind == ClosedSquareBracket
    ensures ParseFrom(t, 0) == Ok(SquareBracketNode({'a', 'c', '-'}))
  {
    var none: set<char>, nothing: seq<char> := {}, [];
    assert none + {'-'} == {'-'} && {'-'} + {'a'} == {'-', 'a'} && {'-', 'a'} + {'c'} == {'a', 'c', '-'};
    assert nothing + ['a'] == ['a'] && ['a'] + ['c'] == ['a', 'c'];
    assert ClassBody(t, 4, {'a', 'c', '-'}, ['a', 'c']) == Ok(Scanned({'a', 'c', '-'}, 4));
    assert ClassBody(t, 3, {'-', 'a'}, ['a']) == ClassBody(t, 4, {'a', 'c', '-'}, ['a', 'c']);
    assert ClassBody(t, 2, {'-'}, []) == ClassBody(t, 3, {'-', 'a'}, ['a']);
    assert ClassBody(t, 1, {}, []) == ClassBody(t, 2, {'-'}, []);
    assert Component(t, 0) == Ok(Parsed(SquareBracketNode({'a', 'c', '-'}), 5));
    assert Term(t, 0) == Ok(Parsed(SquareBracketNode({'a', 'c', '-'}), 5));
  }

  lemma TrailingDashIsLiteral()
    ensures ParseRegex("[ac-]") == Ok(SquareBracketNode({'a', 'c', '-'}))
  {
    var t := Lex("[ac-]");
    assert |t| == 5 && t[0].kind == OpenSquareBracket && t[1] == Token(Literal, 'a');
    assert t[2] == Token(Literal, 'c') && t[3].kind == Dash && t[4].kind == ClosedSquareBracket;
    TrailingDashTokens(t);
  }

  lemma TrailingDashTokens(t: seq<Token>)
    requires |t| == 5 && t[0].kind == OpenSquareBracket && t[1] == Token(Literal, 'a')
    requires t[2] == Token(Literal, 'c') && t[3].kind == Dash && t[4].kind == ClosedSquareBracket
    ensures ParseFrom(t, 0) == Ok(SquareBracketNode({'a', 'c', '-'}))
  {
    var none: set<char>, nothing: seq<char> := {}, [];
    assert none + {'a'} == {'a'} && {'a'} + {'c'} == {'a', 'c'} && {'a', 'c'} + {'-'} == {'a', 'c', '-'};
    assert nothing + ['a'] == ['a'] && ['a'] + ['c'] == ['a', 'c'];
    assert ClassBody(t, 4, {'a', 'c', '-'}, ['a', 'c']) == Ok(Scanned({'a', 'c', '-'}, 4));
    assert ClassBody(t, 3, {'a', 'c'}, ['a', 'c']) == ClassBody(t, 4, {'a', 'c', '-'}, ['a', 'c']);
    assert ClassBody(t, 2, {'a'}, ['a']) == ClassBody(t, 3, {'a', 'c'}, ['a', 'c']);
    assert ClassBody(t, 1, {}, []) == ClassBody(t, 2, {'a'}, ['a']);
    assert Component(t, 0) == Ok(Parsed(SquareBracketNode({'a', 'c', '-'}), 5));
    assert Term(t, 0) == Ok(Parsed(SquareBracketNode({'a', 'c', '-'}), 5));
  }

  lemma ReversedRangeKeepsStart()
    ensures ParseRegex("[c-a]") == Ok(SquareBracketNode({'c'}))
  {
    var t := Lex("[c-a]");
    assert |t| == 5 && t[0].kind == OpenSquareBracket && t[1] == Token(Literal, 'c');
    assert t[2].kind == Dash && t[3] == Token(Literal, 'a') && t[4].kind == ClosedSquareBracket;
    ReversedRangeTokens(t);
  }

  lemma ReversedRangeTokens(t: seq<Token>)
    requires |t| == 5 && t[0].kind == OpenSquareBracket && t[1] == Token(Literal, 'c')
    requires t[2].kind == Dash && t[3] == Token(Literal, 'a') && t[4].kind == ClosedSquareBracket
    ensures ParseFrom(t, 0) == Ok(SquareBracketNode({'c'}))
  {
    var none: set<char>, nothing: seq<char> := {}, [];
    assert none + {'c'} == {'c'} && nothing + ['c'] == ['c'] && ['c'][..0] == [];
    assert CharRange('c', 'a') == {};
    assert {'c'} + CharRange('c', 'a') == {'c'};
    assert ClassBody(t, 4, {'c'}, []) == Ok(Scanned({'c'}, 4));
    assert ClassBody(t, 2, {'c'}, ['c']) == ClassBody(t, 4, {'c'}, []);
    assert ClassBody(t, 1, {}, []) == ClassBody(t, 2, {'c'}, ['c']);
    assert Component(t, 0) == Ok(Parsed(SquareBracketNode({'c'}), 5));
    assert Term(t, 0) == Ok(Parsed(SquareBracketNode({'c'}), 5));
  }

  /** A class body stops at the first `]` after its start, or at the end of the tokens. */
  lemma {:induction false} ClassBodyStopsAtFirst(tokens: seq<Token>, pos: nat, clas: set<char>, que: seq<char>, i: nat)
    requires pos <= i <= |tokens| && ClassBody(tokens, pos, clas, que).Ok?
    ensures i < ClassBody(tokens, pos, clas, que).value.next ==> !At(tokens, i, ClosedSquareBracket)
    decreases |tokens| - pos
  {
    var r := ClassBody(tokens, pos, clas, que);
    if pos < i < r.value.next {
      var k := tokens[pos].kind;
      var c := tokens[pos].content;
      if k == Literal {
        ClassBodyLiteral(tokens, pos, clas, que);
        ClassBodyStopsAtFirst(tokens, pos + 1, clas + {c}, que + [c], i);
      } else if k == Dash && (|clas| == 0 || pos + 1 == |tokens| || tokens[pos + 1].kind == ClosedSquareBracket) {
        ClassBodyDash(tokens, pos, clas, que);
        ClassBodyStopsAtFirst(tokens, pos + 1, clas + {'-'}, que, i);
      } else if k == Dash {
        ClassBodyRange(tokens, pos, clas, que);
        if pos + 1 < i {
          ClassBodyStopsAtFirst(tokens, pos + 2, clas + CharRange(que[|que| - 1], tokens[pos + 1].content), que[..|que| - 1], i);
        }
      } else {
        ClassBodyOther(tokens, pos, clas, que);
        ClassBodyStopsAtFirst(tokens, pos + 1, clas, que, i);
      }
    }
  }

  /** A literal met by the scan is in the class, whatever follows it. */
  lemma ClassBodyKeepsLiteral(tokens: seq<Token>, pos: nat, clas: set<char>, que: seq<char>)
    requires At(tokens, pos, Literal)
    ensures ClassBody(tokens, pos, clas, que).Ok? ==> tokens[pos].content in ClassBody(tokens, pos, clas, que).value.clas
  {
    ClassBodyLiteral(tokens, pos, clas, que);
  }

  /**
   * A dash with nothing collected before it, or with `]` or the end of the
   * tokens right after it, is the character `-` of the class.
   */
  lemma ClassBodyKeepsDash(tokens: seq<Token>, pos: nat, clas: set<char>, que: seq<char>)
    requires At(tokens, pos, Dash)
    requires clas == {} || pos + 1 == |tokens| || At(tokens, pos + 1, ClosedSquareBracket)
    ensures ClassBody(tokens, pos, clas, que).Ok? ==> '-' in ClassBody(tokens, pos, clas, que).value.clas
  {
    ClassBodyDash(tokens, pos, clas, que);
  }

  /**
   * `x-y` inside a class: `x` is collected and at once popped again as the
   * start of the range, which adds every character from `x` to `y`; the
   * scan goes on after `y` with the pending starts as they were.
   */
  lemma ClassBodyAddsRange(tokens: seq<Token>, pos: nat, clas: set<char>, que: seq<char>)
    requires pos + 2 < |tokens| && At(tokens, pos, Literal) && At(tokens, pos + 1, Dash)
    requires !At(tokens, pos + 2, ClosedSquareBracket)
    ensures ClassBody(tokens, pos, clas, que) ==
      ClassBody(tokens, pos + 3, clas + {tokens[pos].content} + CharRange(tokens[pos].content, tokens[pos + 2].content), que)
    ensures ClassBody(tokens, pos, clas, que).Ok? ==>
      CharRange(tokens[pos].content, tokens[pos + 2].content) <= ClassBody(tokens, pos, clas, que).value.clas
  {
    var x := tokens[pos].content;
    ClassBodyLiteral(tokens, pos, clas, que);
    assert (que + [x])[..|que + [x]| - 1] == que;
    ClassBodyRange(tokens, pos + 1, clas + {x}, que + [x]);
  }

  /** The characters of tokens[lo..hi]. */
  function TokenChars(tokens: seq<Token>, lo: nat, hi: nat): set<char>
    requires lo <= hi <= |tokens|
    decreases hi - lo
  {
    if lo == hi then {} else {tokens[lo].content} + TokenChars(tokens, lo + 1, hi)
  }

  /** A class body made only of literals up to `]` (or the end) is exactly the set of those literals. */
  lemma {:induction false} ClassOfLiterals(tokens: seq<Token>, pos: nat, end: nat, clas: set<char>, que: seq<char>)
    requires pos <= end <= |tokens| && (end == |tokens| || At(tokens, end, ClosedSquareBracket))
    requires forall i :: pos <= i < end ==> At(tokens, i, Literal)
    ensures ClassBody(tokens, pos, clas, que) == Ok(Scanned(clas + TokenChars(tokens, pos, end), end))
    decreases end - pos
  {
    if pos < end {
      var c := tokens[pos].content;
      assert At(tokens, pos, Literal);
      ClassBodyLiteral(tokens, pos, clas, que);
      ClassOfLiterals(tokens, pos + 1, end, clas + {c}, que + [c]);
      assert clas + {c} + TokenChars(tokens, pos + 1, end) == clas + TokenChars(tokens, pos, end);
    } else {
      assert clas + TokenChars(tokens, pos, end) == clas;
    }
  }

  lemma RightNestingOr()
    ensures ParseRegex("a|b|c") == Ok(OrNode(LiteralNode('a'), OrNode(LiteralNode('b'), LiteralNode('c'))))
  {
    var t := Lex("a|b|c");
    assert |t| == 5 && t[0] == Token(Literal, 'a') && t[1].kind == Or;
    assert t[2] == Token(Literal, 'b') && t[3].kind == Or && t[4] == Token(Literal, 'c');
    RightNestingOrTokens(t);
  }

  lemma RightNestingOrTokens(t: seq<Token>)
    requires |t| == 5 && t[0] == Token(Literal, 'a') && t[1].kind == Or
    requires t[2] == Token(Literal, 'b') && t[3].kind == Or && t[4] == Token(Literal, 'c')
    ensures ParseFrom(t, 0) == Ok(OrNode(LiteralNode('a'), OrNode(LiteralNode('b'), LiteralNode('c'))))
  {
    assert Component(t, 4) == Ok(Parsed(LiteralNode('c'), 5));
    assert Term(t, 4) == Ok(Parsed(LiteralNode('c'), 5));
    assert Expression(t, 4) == Ok(Parsed(LiteralNode('c'), 5));
    assert Component(t, 2) == Ok(Parsed(LiteralNode('b'), 3));
    assert Term(t, 2) == Ok(Parsed(LiteralNode('b'), 3));
    assert Expression(t, 2) == Ok(Parsed(OrNode(LiteralNode('b'), LiteralNode('c')), 5));
    assert Component(t, 0) == Ok(Parsed(LiteralNode('a'), 1));
    assert Term(t, 0) == Ok(Parsed(LiteralNode('a'), 1));
  }

  /** The right-nested concatenation of the characters of a non-empty string. */
  function LiteralChain(s: string): AstNode
    requires |s| > 0
  {
    if |s| == 1 then LiteralNode(s[0]) else SeqNode(LiteralNode(s[0]), LiteralChain(s[1..]))
  }

  predicate NoOperators(s: string) {
    forall i :: 0 <= i < |s| ==> s[i] !in OperatorChars
  }

  lemma {:induction false} TermOfLiterals(s: string, pos: nat)
    requires NoOperators(s) && pos < |s|
    ensures Term(Lex(s), pos) == Ok(Parsed(LiteralChain(s[pos..]), |s|))
    decreases |s| - pos
  {
    var t := Lex(s);
    assert Component(t, pos) == Ok(Parsed(LiteralNode(s[pos]), pos + 1));
    if pos + 1 < |s| {
      TermOfLiterals(s, pos + 1);
      assert s[pos..][1..] == s[pos + 1..];
    }
  }

  /**
   * A non-empty string without operator characters parses to the
   * concatenation of its characters, nested to the right.
   */
  lemma LiteralStringParses(s: string)
    requires |s| > 0 && NoOperators(s)
    ensures ParseRegex(s) == Ok(LiteralChain(s))
  {
    TermOfLiterals(s, 0);
    assert s[0..] == s;
  }

  /** The number of tokens of a kind among tokens[lo..hi]. */
  function CountKind(tokens: seq<Token>, kind: TokenKind, lo: nat, hi: nat): nat
    requires lo <= hi <= |tokens|
    decreases hi - lo
  {
    if lo == hi then 0 else CountKind(tokens, kind, lo, hi - 1) + (if tokens[hi - 1].kind == kind then 1 else 0)
  }

  lemma {:induction false} CountKindSplit(tokens: seq<Token>, kind: TokenKind, lo: nat, mid: nat, hi: nat)
    requires lo <= mid <= hi <= |tokens|
    ensures CountKind(tokens, kind, lo, hi) == CountKind(tokens, kind, lo, mid) + CountKind(tokens, kind, mid, hi)
    decreases hi - mid
  {
    if mid < hi {
      CountKindSplit(tokens, kind, lo, mid, hi - 1);
    }
  }

  /** The number of Or nodes in a tree. */
  function OrCount(ast: AstNode): nat {
    match ast
    case OrNode(l, r) => 1 + OrCount(l) + OrCount(r)
    case SeqNode(l, r) => OrCount(l) + OrCount(r)
    case StarNode(x) => OrCount(x)
    case PlusNode(x) => OrCount(x)
    case QuestionMarkNode(x) => OrCount(x)
    case LiteralNode(_) => 0
    case SquareBracketNode(_) => 0
  }

  /** An Or node is built only where a '|' token was matched. */
  lemma {:induction false} ExpressionOrs(tokens: seq<Token>, pos: nat)
    requires pos <= |tokens|
    ensures Expression(tokens, pos).Ok? ==>
      OrCount(Expression(tokens, pos).value.ast) <= CountKind(tokens, Or, pos, Expression(tokens, pos).value.next)
    decreases |tokens| - pos, 3
  {
    TermOrs(tokens, pos);
    var t := Term(tokens, pos);
    if t.Ok? && At(tokens, t.value.next, Or) {
      ExpressionOrs(tokens, t.value.next + 1);
      var rest := Expression(tokens, t.value.next + 1);
      if rest.Ok? {
        assert Expression(tokens, pos) == Ok(Parsed(OrNode(t.value.ast, rest.value.ast), rest.value.next));
        CountKindSplit(tokens, Or, pos, t.value.next, rest.value.next);
        CountKindSplit(tokens, Or, t.value.next, t.value.next + 1, rest.value.next);
        assert CountKind(tokens, Or, t.value.next, t.value.next + 1) == 1;
      }
    }
  }

  lemma {:induction false} TermOrs(tokens: seq<Token>, pos: nat)
    requires pos <= |tokens|
    ensures Term(tokens, pos).Ok? ==>
      OrCount(Term(tokens, pos).value.ast) <= CountKind(tokens, Or, pos, Term(tokens, pos).value.next)
    decreases |tokens| - pos, 2
  {
    ComponentOrs(tokens, pos);
    var c := Component(tokens, pos);
    if c.Ok? && StartsComponent(tokens, c.value.next) {
      TermOrs(tokens, c.value.next);
      var rest := Term(tokens, c.value.next);
      if rest.Ok? {
        CountKindSplit(tokens, Or, pos, c.value.next, rest.value.next);
      }
    }
  }

  lemma {:induction false} ComponentOrs(tokens: seq<Token>, pos: nat)
    requires pos <= |tokens|
    ensures Component(tokens, pos).Ok? ==>
      OrCount(Component(tokens, pos).value.ast) <= CountKind(tokens, Or, pos, Component(tokens, pos).value.next)
    decreases |tokens| - pos, 1
  {
    AtomOrs(tokens, pos);
    var a := Atom(tokens, pos);
    if a.Ok? {
      var q := Quantified(tokens, a.value);
      assert Component(tokens, pos) == Ok(q);
      assert OrCount(q.ast) == OrCount(a.value.ast);
      CountKindSplit(tokens, Or, pos, a.value.next, q.next);
    }
  }

  lemma {:induction false} AtomOrs(tokens: seq<Token>, pos: nat)
    requires pos <= |tokens|
    ensures Atom(tokens, pos).Ok? ==>
      OrCount(Atom(tokens, pos).value.ast) <= CountKind(tokens, Or, pos, Atom(tokens, pos).value.next)
    decreases |tokens| - pos, 0
  {
    if !At(tokens, pos, Literal) && At(tokens, pos, OpenParen) {
      ExpressionOrs(tokens, pos + 1);
      var inner := Expression(tokens, pos + 1);
      if inner.Ok? && At(tokens, inner.value.next, ClosedParen) {
        assert Atom(tokens, pos) == Ok(Parsed(inner.value.ast, inner.value.next + 1));
        CountKindSplit(tokens, Or, pos, pos + 1, inner.value.next);
        CountKindSplit(tokens, Or, pos, inner.value.next, inner.value.next + 1);
      }
    }
  }

  /** A successful parse holds no more Or nodes than the input has '|' characters. */
  lemma OrNodesFromBars(regex: string)
    ensures ParseRegex(regex).Ok? ==> OrCount(ParseRegex(regex).value) <= CountKind(Lex(regex), Or, 0, |regex|)
  {
    ExpressionOrs(Lex(regex), 0);
  }
}
