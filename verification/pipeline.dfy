/**
 * The stage chaining of the conversion service: lex and parse the regular
 * expression, build the Thompson NFA and export it, convert the export to a
 * DFA and export that, then minimise the exported DFA. Each stage meets what
 * the next one demands, and the three dictionaries recognise the same words.
 */
module Pipeline {
  import opened Results
  import opened Lexer
  import opened Parser
  import Thompson
  import opened Numbering
  import opened NfaExport
  import opened NfaSemantics
  import opened NfaWalks
  import opened NfaToDfa
  import opened Partitions
  import opened Minimize
  import ParserProperties
  import LiteralLanguage

  /** The three dictionaries the conversion hands on: the NFA, the DFA and the minimised DFA. */
  datatype Stages = Stages(nfa: NfaDict, dfa: DfaDict, minDfa: DfaDict)

  /**
   * `d` is the export of the subset automaton under the numbering
   * (`nameMap`, `order`): the start subset's id first, and an entry for
   * every non-sink subset, under its id, with its flag and its edges.
   */
  ghost predicate ExportsDfa(alphabet: set<string>, states: seq<Subset>, start: Subset, accept: seq<Subset>,
                             table: TransitionTable, nameMap: map<Subset, nat>, order: seq<Subset>, d: DfaDict) {
    && Numbered(nameMap, order)
    && start in nameMap && d.start == nameMap[start]
    && (forall i :: 0 <= i < |states| && states[i] != {} ==> ExportsState(alphabet, table, accept, states[i], nameMap, d.entries))
    && (forall i :: i in d.entries ==> i < |order| && order[i] in states && order[i] != {})
  }

  /** Every non-sink subset of the list is exported. */
  lemma ExportsMember(alphabet: set<string>, states: seq<Subset>, start: Subset, accept: seq<Subset>,
                      table: TransitionTable, nameMap: map<Subset, nat>, order: seq<Subset>, d: DfaDict, q: Subset)
    requires ExportsDfa(alphabet, states, start, accept, table, nameMap, order, d)
    requires q in states && q != {}
    ensures ExportsState(alphabet, table, accept, q, nameMap, d.entries)
  {
    var i :| 0 <= i < |states| && states[i] == q;
  }

  /** The empty subset is a sink: every step from it stays empty. */
  lemma {:induction false} SinkRun(nfa: NfaDict, word: string)
    ensures SubsetRun(nfa, {}, word) == {}
    decreases |word|
  {
    if word != [] {
      var a := [word[0]];
      assert MoveSet(nfa, {}, a) == {};
      ClosureLeast(nfa, {}, {});
      SinkRun(nfa, word[1..]);
    }
  }

  /**
   * The exported DFA dictionary satisfies what the minimiser demands: its
   * start id is a state and every edge leads to a state.
   */
  lemma ExportedDfaFits(nfa: NfaDict, alphabet: set<string>, states: seq<Subset>, start: Subset, accept: seq<Subset>,
                        table: TransitionTable, nameMap: map<Subset, nat>, order: seq<Subset>, d: DfaDict)
    requires SubsetAutomaton(nfa, alphabet, states, start, accept, table)
    requires ExportsDfa(alphabet, states, start, accept, table, nameMap, order, d)
    requires start != {}
    ensures d.start in d.entries && TargetsAreStates(d)
  {
    ExportsMember(alphabet, states, start, accept, table, nameMap, order, d, start);
    forall s, a | s in d.entries && a in d.entries[s].edges ensures d.entries[s].edges[a] in d.entries {
      var q := order[s];
      assert nameMap[q] == s;
      ExportsMember(alphabet, states, start, accept, table, nameMap, order, d, q);
      assert RowComplete(nfa, alphabet, table, Elems(states), q);
      var r := Row(table, q)[a];
      ExportsMember(alphabet, states, start, accept, table, nameMap, order, d, r);
    }
  }

  /**
   * Reading a word from the id of a non-sink subset `q`: no outcome when a
   * symbol is outside the alphabet or the subset simulation runs into the
   * sink, and otherwise whether the subset reached holds an accepting NFA
   * state.
   */
  lemma {:induction false} ExportedOutcome(nfa: NfaDict, alphabet: set<string>, states: seq<Subset>, start: Subset,
                                           accept: seq<Subset>, table: TransitionTable, nameMap: map<Subset, nat>,
                                           order: seq<Subset>, d: DfaDict, q: Subset, word: string)
    requires SubsetAutomaton(nfa, alphabet, states, start, accept, table)
    requires ExportsDfa(alphabet, states, start, accept, table, nameMap, order, d)
    requires q in states && q != {}
    ensures q in nameMap
    ensures Outcome(d, nameMap[q], Symbols(word)) ==
      if InAlphabet(alphabet, word) && SubsetRun(nfa, q, word) != {} then Some(Accepting(nfa, SubsetRun(nfa, q, word))) else None
    decreases |word|
  {
    ExportsMember(alphabet, states, start, accept, table, nameMap, order, d, q);
    var s := nameMap[q];
    SymbolsCons(word);
    if word != [] {
      var a := [word[0]];
      InAlphabetCons(alphabet, word);
      assert RowComplete(nfa, alphabet, table, Elems(states), q);
      if a in alphabet {
        var r := Row(table, q)[a];
        assert r == SubsetStep(nfa, q, a);
        if r == {} {
          assert a !in d.entries[s].edges;
          SinkRun(nfa, word[1..]);
        } else {
          OutcomeCons(d, s, a, Symbols(word[1..]));
          assert [a] + Symbols(word[1..]) == Symbols(word);
          ExportedOutcome(nfa, alphabet, states, start, accept, table, nameMap, order, d, r, word[1..]);
        }
      }
    }
  }

  /** The exported DFA accepts exactly the words the NFA accepts. */
  lemma ExportedLanguage(nfa: NfaDict, alphabet: set<string>, states: seq<Subset>, start: Subset, accept: seq<Subset>,
                         table: TransitionTable, nameMap: map<Subset, nat>, order: seq<Subset>, d: DfaDict, word: string)
    requires SubsetAutomaton(nfa, alphabet, states, start, accept, table)
    requires ExportsDfa(alphabet, states, start, accept, table, nameMap, order, d)
    ensures Outcome(d, d.start, Symbols(word)) == Some(true) <==> NfaAccepts(nfa, word)
  {
    assert nfa.start in start;
    ExportedOutcome(nfa, alphabet, states, start, accept, table, nameMap, order, d, start, word);
    SubsetAutomatonLanguage(nfa, alphabet, states, start, accept, table, word);
    AcceptsIffSubsetRun(nfa, word);
  }

  /**
   * When `regex` is a non-empty string without operators, the export of
   * the NFA built from its parse accepts exactly the word `regex`.
   */
  lemma LiteralExport(regex: string, f: Thompson.Fragment, dect: map<nat, nat>, order: seq<nat>, d: NfaDict)
    requires |regex| > 0 && ParserProperties.NoOperators(regex)
    requires ParseRegex(regex).Ok? && f == Thompson.Build(ParseRegex(regex).value, 0)
    requires Numbered(dect, order) && f.start in dect && d.start == dect[f.start]
    requires ExportsStates(f.states, f.accept, f.states.Keys, dect, order, d.entries)
    requires forall i :: i in d.entries ==> i < |order| && order[i] in f.states
    ensures forall word :: NfaAccepts(d, word) <==> word == regex
  {
    ParserProperties.LiteralStringParses(regex);
    forall word ensures NfaAccepts(d, word) <==> word == regex {
      LiteralLanguage.LiteralChainLanguage(regex, dect, order, d, word);
    }
  }

  /**
   * The stages after the subset construction: the exported DFA recognises
   * the words the NFA accepts, its quotient by a stable partition gives
   * every word the same outcome, has no more states, and has no two
   * states that behave alike.
   */
  lemma StagesAgree(nfa: NfaDict, alphabet: set<string>, states: seq<Subset>, start: Subset, accept: seq<Subset>,
                    table: TransitionTable, nameMap: map<Subset, nat>, order: seq<Subset>, d: DfaDict,
                    p: Partition, out: DfaDict)
    requires SubsetAutomaton(nfa, alphabet, states, start, accept, table)
    requires ExportsDfa(alphabet, states, start, accept, table, nameMap, order, d)
    requires Partitioning(d, p) && NoEmpty(p) && Quotient(d, p, out)
    ensures forall word ::
      (Outcome(d, d.start, Symbols(word)) == Some(true) <==> NfaAccepts(nfa, word)) &&
      Outcome(out, out.start, Symbols(word)) == Outcome(d, d.start, Symbols(word))
    ensures |out.entries| <= |d.entries|
    ensures forall k, l :: k in out.entries && l in out.entries && Equivalent(out, k, l) ==> k == l
  {
    QuotientSize(d, p, out);
    forall word
      ensures (Outcome(d, d.start, Symbols(word)) == Some(true) <==> NfaAccepts(nfa, word)) &&
        Outcome(out, out.start, Symbols(word)) == Outcome(d, d.start, Symbols(word))
    {
      ExportedLanguage(nfa, alphabet, states, start, accept, table, nameMap, order, d, word);
      QuotientLanguage(d, p, out, Symbols(word));
    }
    forall k, l | k in out.entries && l in out.entries && Equivalent(out, k, l) ensures k == l {
      QuotientMinimal(d, p, out, k, l);
    }
  }

  /** When the NFA accepts only `regex` and the DFAs agree with it, the minimised DFA accepts only `regex`. */
  lemma LiteralStages(regex: string, st: Stages)
    requires forall word :: NfaAccepts(st.nfa, word) <==> word == regex
    requires forall word ::
      (Outcome(st.dfa, st.dfa.start, Symbols(word)) == Some(true) <==> NfaAccepts(st.nfa, word)) &&
      Outcome(st.minDfa, st.minDfa.start, Symbols(word)) == Outcome(st.dfa, st.dfa.start, Symbols(word))
    ensures forall word :: Outcome(st.minDfa, st.minDfa.start, Symbols(word)) == Some(true) <==> word == regex
  {
  }

  /**
   * The conversion of `regex`: a parse error when the parser rejects it;
   * otherwise the NFA, DFA and minimised DFA dictionaries, where the NFA
   * and both DFAs recognise the same words, both DFAs start at id 0, and
   * the minimised DFA has no more states than the DFA and no two states
   * that behave alike.
   */
  method ProcessRegex(regex: string) returns (r: Result<Stages, ParseError>)
    ensures r.Err? <==> ParseRegex(regex).Err?
    ensures r.Err? ==> r.error == ParseRegex(regex).error
    ensures r.Ok? ==> r.value.nfa.start == 0 && r.value.dfa.start == 0
    ensures r.Ok? ==> forall word ::
      (Outcome(r.value.dfa, r.value.dfa.start, Symbols(word)) == Some(true) <==> NfaAccepts(r.value.nfa, word)) &&
      Outcome(r.value.minDfa, r.value.minDfa.start, Symbols(word)) == Outcome(r.value.dfa, r.value.dfa.start, Symbols(word))
    ensures r.Ok? ==> |r.value.minDfa.entries| <= |r.value.dfa.entries|
    ensures r.Ok? ==> forall k, l ::
      k in r.value.minDfa.entries && l in r.value.minDfa.entries && Equivalent(r.value.minDfa, k, l) ==> k == l
    ensures |regex| > 0 && ParserProperties.NoOperators(regex) ==> r.Ok? && forall word ::
      (NfaAccepts(r.value.nfa, word) <==> word == regex) &&
      (Outcome(r.value.minDfa, r.value.minDfa.start, Symbols(word)) == Some(true) <==> word == regex)
  {
    var tokens := Lex(regex);
    var parser := new RegexParser(tokens);
    var ast := parser.Parse();
    if ast.Err? {
      if |regex| > 0 && ParserProperties.NoOperators(regex) {
        ParserProperties.LiteralStringParses(regex);
      }
      return Err(ast.error);
    }
    var f := Thompson.Build(ast.value, 0);
    var nfaObj := new Nfa(f.start, f.accept, f.states);
    var nfaDict := nfaObj.ToDict();
    var converter := new NfaToDfaConverter(nfaDict);
    var dfaObj := converter.Convert();
    var dfaDict := dfaObj.ToDict();
    assert nfaDict.start in dfaObj.startState;
    ExportedDfaFits(nfaDict, dfaObj.alphabet, dfaObj.states, dfaObj.startState, dfaObj.acceptStates,
                    dfaObj.transitionFunction, dfaObj.nameMap, dfaObj.order, dfaDict);
    var minimizer := new Minimizer(dfaDict);
    var minDict := minimizer.ToDict();
    StagesAgree(nfaDict, dfaObj.alphabet, dfaObj.states, dfaObj.startState, dfaObj.acceptStates,
                dfaObj.transitionFunction, dfaObj.nameMap, dfaObj.order, dfaDict, minimizer.partition, minDict);
    if |regex| > 0 && ParserProperties.NoOperators(regex) {
      LiteralExport(regex, f, nfaObj.dect, nfaObj.order, nfaDict);
      LiteralStages(regex, Stages(nfaDict, dfaDict, minDict));
    }
    r := Ok(Stages(nfaDict, dfaDict, minDict));
  }
}
