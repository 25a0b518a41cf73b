/**
 * The subset construction: the converter explores the epsilon-closed
 * subsets of NFA states reachable from the closure of the start state, one
 * symbol at a time in first-come first-served order, and the resulting DFA
 * can run a word and export itself as a dictionary of integer ids. A DFA
 * state is named by the subset itself; the empty subset is the sink.
 */
module NfaToDfa {
  import opened Results
  import opened Numbering
  import opened NfaExport
  import opened NfaSemantics
  import opened NfaWalks

  type Subset = set<nat>
  type TransitionTable = map<Subset, map<string, Subset>>

  /** One exported DFA state: its accepting flag and its edges, by symbol, to ids. */
  datatype DfaEntry = DfaEntry(terminating: bool, edges: map<string, nat>)

  /** The exported DFA: the start id and one entry per non-sink state. */
  datatype DfaDict = DfaDict(start: nat, entries: map<nat, DfaEntry>)

  /** The transitions of `state`, or none when it has no row. */
  function Row(table: TransitionTable, state: Subset): (r: map<string, Subset>)
    ensures state !in table ==> r == map[]
  {
    if state in table then table[state] else map[]
  }

  /** The state reached over `word`, one single-character symbol at a time; None once a transition is missing. */
  function Steps(table: TransitionTable, state: Subset, word: string): Option<Subset>
    decreases |word|
  {
    if word == [] then Some(state)
    else if [word[0]] in Row(table, state) then Steps(table, Row(table, state)[[word[0]]], word[1..])
    else None
  }

  /** Every character of `word`, as a one-character symbol, is in `alphabet`. */
  predicate InAlphabet(alphabet: set<string>, word: string) {
    forall i :: 0 <= i < |word| ==> [word[i]] in alphabet
  }

  /** A word is over the alphabet when its first symbol is and the rest of it is. */
  lemma InAlphabetCons(alphabet: set<string>, word: string)
    requires word != []
    ensures InAlphabet(alphabet, word) <==> [word[0]] in alphabet && InAlphabet(alphabet, word[1..])
  {
    if [word[0]] in alphabet && InAlphabet(alphabet, word[1..]) {
      forall i | 0 < i < |word| ensures [word[i]] in alphabet {
        assert word[1..][i - 1] == word[i];
      }
    }
  }

  /** No element of `s` occurs twice. */
  ghost predicate Distinct<T>(s: seq<T>) {
    forall i, j :: 0 <= i < j < |s| ==> s[i] != s[j]
  }

  /** The elements of `s`. */
  ghost function Elems(s: seq<Subset>): (r: set<Subset>)
    ensures forall x :: x in r <==> x in s
  {
    set x | x in s
  }

  /** Appending an element not yet present keeps a sequence free of repeats. */
  lemma DistinctAppend<T>(s: seq<T>, x: T)
    requires Distinct(s) && x !in s
    ensures Distinct(s + [x])
  {
  }

  /** The row of `state` maps every symbol, and only those, to the closure of the move, a known state. */
  ghost predicate RowComplete(nfa: NfaDict, alphabet: set<string>, table: TransitionTable, known: set<Subset>, state: Subset) {
    && (forall a :: a in Row(table, state) <==> a in alphabet)
    && (forall a :: a in alphabet ==> Row(table, state)[a] == SubsetStep(nfa, state, a) && Row(table, state)[a] in known)
  }

  /** Complete rows stay complete when another state's row changes and more states become known. */
  lemma RowsKept(nfa: NfaDict, alphabet: set<string>, table: TransitionTable, known: set<Subset>, rows: set<Subset>,
                 curr: Subset, row: map<string, Subset>, known': set<Subset>)
    requires forall q {:trigger RowComplete(nfa, alphabet, table, known, q)} :: q in rows ==> RowComplete(nfa, alphabet, table, known, q)
    requires curr !in rows && known <= known'
    ensures forall q {:trigger RowComplete(nfa, alphabet, table[curr := row], known', q)} :: q in rows ==> RowComplete(nfa, alphabet, table[curr := row], known', q)
  {
    forall q | q in rows ensures RowComplete(nfa, alphabet, table[curr := row], known', q) {
      assert RowComplete(nfa, alphabet, table, known, q);
      assert Row(table[curr := row], q) == Row(table, q);
    }
  }

  /** `row` maps exactly the symbols `syms` to the closures of the moves from `state`, known states. */
  ghost predicate PartialRow(nfa: NfaDict, syms: set<string>, state: Subset, row: map<string, Subset>, known: set<Subset>) {
    && (forall a :: a in row <==> a in syms)
    && (forall a :: a in row ==> row[a] == SubsetStep(nfa, state, a) && row[a] in known)
  }

  /** Adding the transition on `sym`, one of the symbols `rest` still to do, to a partial row. */
  lemma PartialRowAdd(nfa: NfaDict, alphabet: set<string>, rest: set<string>, state: Subset, row: map<string, Subset>,
                      known: set<Subset>, sym: string, target: Subset, known': set<Subset>)
    requires PartialRow(nfa, alphabet - rest, state, row, known) && known <= known'
    requires sym in rest && rest <= alphabet
    requires target == SubsetStep(nfa, state, sym) && target in known'
    ensures PartialRow(nfa, alphabet - (rest - {sym}), state, row[sym := target], known')
  {
    assert alphabet - (rest - {sym}) == (alphabet - rest) + {sym};
  }

  /**
   * The exploration from `start` is finished: every discovered subset, once
   * each, with its complete row, and exactly the accepting ones listed.
   */
  ghost predicate Explored(nfa: NfaDict, alphabet: set<string>, states: seq<Subset>, start: Subset,
                           accept: seq<Subset>, table: TransitionTable) {
    && |states| >= 1 && states[0] == start
    && Distinct(states)
    && (forall q {:trigger ClosedSubset(nfa, q)} :: q in states ==> ClosedSubset(nfa, q))
    && (forall q :: q in table ==> q in states)
    && (forall q {:trigger RowComplete(nfa, alphabet, table, Elems(states), q)} :: q in states ==> RowComplete(nfa, alphabet, table, Elems(states), q))
    && (forall q :: q in accept <==> q in states && Accepting(nfa, q))
    && Distinct(accept)
  }

  /** `states` lists the discovered subsets `seen`, once each, all epsilon-closed sets of NFA states. */
  ghost predicate Discovered(nfa: NfaDict, states: seq<Subset>, seen: set<Subset>) {
    && Distinct(states)
    && (forall q :: q in seen <==> q in states)
    && (forall q {:trigger ClosedSubset(nfa, q)} :: q in seen ==> ClosedSubset(nfa, q))
  }

  /** There are no more discovered subsets than subsets of the NFA's states. */
  lemma DiscoveredBound(nfa: NfaDict, states: seq<Subset>, seen: set<Subset>)
    requires Discovered(nfa, states, seen)
    ensures |seen| <= Pow2(|Universe(nfa)|)
  {
    forall q | q in seen ensures q in Subsets(Universe(nfa)) {
      assert ClosedSubset(nfa, q);
    }
    SubsetCard(seen, Subsets(Universe(nfa)));
    SubsetsCount(Universe(nfa));
  }

  /** Discovering a new epsilon-closed subset appends it to the list. */
  lemma DiscoveredAdd(nfa: NfaDict, states: seq<Subset>, seen: set<Subset>, q: Subset)
    requires Discovered(nfa, states, seen) && q !in states && ClosedSubset(nfa, q)
    ensures Discovered(nfa, states + [q], seen + {q})
  {
  }

  /**
   * Writing the row of a subset not processed before, while more subsets
   * become known, keeps the processed rows complete and completes the new one.
   */
  lemma RowsAfterExpand(nfa: NfaDict, alphabet: set<string>, table0: TransitionTable, seen0: set<Subset>,
                        processed: set<Subset>, curr: Subset, row: map<string, Subset>, seen: set<Subset>,
                        table: TransitionTable)
    requires forall q :: q in table0 ==> q in processed
    requires forall q {:trigger RowComplete(nfa, alphabet, table0, seen0, q)} :: q in processed ==> RowComplete(nfa, alphabet, table0, seen0, q)
    requires curr !in processed && seen0 <= seen
    requires PartialRow(nfa, alphabet, curr, row, seen)
    requires table == if alphabet == {} then table0 else table0[curr := row]
    ensures forall q :: q in table ==> q in processed + {curr}
    ensures forall q {:trigger RowComplete(nfa, alphabet, table, seen, q)} :: q in processed + {curr} ==> RowComplete(nfa, alphabet, table, seen, q)
  {
    RowsKept(nfa, alphabet, table0, seen0, processed, curr, row, seen);
    if alphabet == {} {
      forall q | q in processed ensures RowComplete(nfa, alphabet, table, seen, q) {
        assert RowComplete(nfa, alphabet, table0, seen0, q);
        assert Row(table, q) == Row(table0, q);
      }
      assert row == map[];
    }
  }

  /** Listing `curr` when it accepts and is not listed yet keeps exactly the accepting processed subsets listed, once each. */
  lemma AcceptStep(nfa: NfaDict, processed: set<Subset>, curr: Subset, accept0: seq<Subset>, accept: seq<Subset>)
    requires forall q :: q in accept0 <==> q in processed && Accepting(nfa, q)
    requires Distinct(accept0)
    requires accept == if Accepting(nfa, curr) && curr !in accept0 then accept0 + [curr] else accept0
    ensures forall q :: q in accept <==> q in processed + {curr} && Accepting(nfa, q)
    ensures Distinct(accept)
  {
  }

  /** Appending to a concatenation appends to its second part. */
  lemma AppendAssoc<T>(s: seq<T>, t: seq<T>, x: T)
    ensures (s + t) + [x] == s + (t + [x])
  {
  }

  /** A second update of the same key overrides the first. */
  lemma UpdateTwice<K, V>(m: map<K, V>, k: K, v1: V, v2: V)
    ensures m[k := v1][k := v2] == m[k := v2]
  {
  }

  /** Dropping a prefix no longer than the first part of a concatenation. */
  lemma SliceAppend<T>(s: seq<T>, t: seq<T>, k: nat)
    requires k <= |s|
    ensures (s + t)[k..] == s[k..] + t
  {
  }

  /** In a list free of repeats, what follows `s` does not occur in `s`. */
  lemma DistinctTail<T>(s: seq<T>, t: seq<T>, i: nat)
    requires Distinct(s + t) && |s| <= i < |s + t|
    ensures (s + t)[i] !in s
  {
    forall j | 0 <= j < |s| ensures s[j] != (s + t)[i] {
      assert (s + t)[j] == s[j];
    }
  }

  /**
   * After the `done`-th discovered subset `curr` is processed and `added` is
   * appended, the processed subsets are exactly the first `done + 1`, all discovered.
   */
  lemma ProcessedStep(states0: seq<Subset>, added: seq<Subset>, processed: set<Subset>, done: nat, curr: Subset,
                      seen: set<Subset>)
    requires done < |states0| && curr == states0[done] && Distinct(states0 + added)
    requires forall i :: 0 <= i < |states0| ==> (states0[i] in processed <==> i < done)
    requires forall q :: q in processed ==> q in states0
    requires processed <= seen && forall q :: q in seen <==> q in states0 + added
    ensures forall i :: 0 <= i < |states0 + added| ==> ((states0 + added)[i] in processed + {curr} <==> i < done + 1)
    ensures processed + {curr} <= seen
  {
    var states := states0 + added;
    assert states[done] == curr;
    forall i | 0 <= i < |states| ensures (states[i] in processed + {curr} <==> i < done + 1) {
      if i < |states0| {
        assert states[i] == states0[i];
      } else {
        DistinctTail(states0, added, i);
      }
    }
  }

  /**
   * The state of the exploration after `done` subsets were dequeued: the
   * discovered subsets `states` begin with `start`; the first `done` of
   * them are the processed ones, each with its complete row; the accepting
   * processed subsets are listed once each; and no more subsets were
   * discovered than there are sets of NFA states.
   */
  ghost predicate Exploring(nfa: NfaDict, alphabet: set<string>, start: Subset, states: seq<Subset>, done: nat,
                            seen: set<Subset>, processed: set<Subset>, table: TransitionTable, accept: seq<Subset>) {
    && done <= |states| && |states| >= 1 && states[0] == start
    && Discovered(nfa, states, seen)
    && (forall i :: 0 <= i < |states| ==> (states[i] in processed <==> i < done))
    && processed <= seen
    && (forall q :: q in table ==> q in processed)
    && (forall q {:trigger RowComplete(nfa, alphabet, table, seen, q)} :: q in processed ==> RowComplete(nfa, alphabet, table, seen, q))
    && (forall q :: q in accept <==> q in processed && Accepting(nfa, q))
    && Distinct(accept)
    && |seen| <= Pow2(|Universe(nfa)|)
  }

  /** The next subset to dequeue is discovered and not processed yet. */
  lemma ExploreHead(nfa: NfaDict, alphabet: set<string>, start: Subset, states: seq<Subset>, done: nat,
                    seen: set<Subset>, processed: set<Subset>, table: TransitionTable, accept: seq<Subset>)
    requires Exploring(nfa, alphabet, start, states, done, seen, processed, table, accept) && done < |states|
    ensures states[done] in seen && states[done] !in processed
  {
  }

  /**
   * Processing the `done`-th subset `curr` (its row written, `added`
   * discovered, and `curr` listed when it accepts) moves the exploration on
   * by one, and it either discovers something new or shortens the queue.
   */
  lemma ExploreStep(nfa: NfaDict, alphabet: set<string>, start: Subset, states0: seq<Subset>, done: nat,
                    seen0: set<Subset>, processed: set<Subset>, table0: TransitionTable, accept0: seq<Subset>,
                    curr: Subset, states: seq<Subset>, added: seq<Subset>, seen: set<Subset>, table: TransitionTable,
                    accept: seq<Subset>)
    requires Exploring(nfa, alphabet, start, states0, done, seen0, processed, table0, accept0)
    requires done < |states0| && curr == states0[done]
    requires states == states0 + added && Discovered(nfa, states, seen) && seen0 <= seen
    requires forall q :: q in table ==> q in processed + {curr}
    requires forall q {:trigger RowComplete(nfa, alphabet, table, seen, q)} :: q in processed + {curr} ==> RowComplete(nfa, alphabet, table, seen, q)
    requires accept == if Accepting(nfa, curr) && curr !in accept0 then accept0 + [curr] else accept0
    ensures Exploring(nfa, alphabet, start, states, done + 1, seen, processed + {curr}, table, accept)
    ensures seen != seen0 ==> |seen0| < |seen|
  {
    DiscoveredBound(nfa, states, seen);
    if seen != seen0 {
      StrictSubsetCard(seen0, seen);
    }
    AcceptStep(nfa, processed, curr, accept0, accept);
    ProcessedStep(states0, added, processed, done, curr, seen);
    assert states[0] == states0[0];
  }

  /** Once every discovered subset is processed, the exploration is finished. */
  lemma ExploreDone(nfa: NfaDict, alphabet: set<string>, start: Subset, states: seq<Subset>, done: nat,
                    seen: set<Subset>, processed: set<Subset>, table: TransitionTable, accept: seq<Subset>)
    requires Exploring(nfa, alphabet, start, states, done, seen, processed, table, accept) && done == |states|
    ensures Explored(nfa, alphabet, states, start, accept, table)
  {
    assert seen == Elems(states);
    assert processed == seen;
  }

  /** What the conversion produces from `nfa`. */
  ghost predicate SubsetAutomaton(nfa: NfaDict, alphabet: set<string>, states: seq<Subset>, start: Subset,
                                  accept: seq<Subset>, table: TransitionTable) {
    && alphabet == Alphabet(nfa)
    && start == Closure(nfa, {nfa.start})
    && Explored(nfa, alphabet, states, start, accept, table)
  }

  /**
   * Running the subset automaton from one of its states follows the subset
   * simulation of the NFA exactly when every symbol is in the alphabet, and
   * stops on a missing transition otherwise.
   */
  lemma {:induction false} StepsFollowSubsets(nfa: NfaDict, alphabet: set<string>, states: seq<Subset>, start: Subset,
                                              accept: seq<Subset>, table: TransitionTable, q: Subset, word: string)
    requires SubsetAutomaton(nfa, alphabet, states, start, accept, table) && q in states
    ensures InAlphabet(alphabet, word) ==> Steps(table, q, word) == Some(SubsetRun(nfa, q, word))
    ensures InAlphabet(alphabet, word) ==> SubsetRun(nfa, q, word) in states
    ensures !InAlphabet(alphabet, word) ==> Steps(table, q, word) == None
    decreases |word|
  {
    if word != [] {
      var a := [word[0]];
      assert RowComplete(nfa, alphabet, table, Elems(states), q);
      if a in alphabet {
        var next := Row(table, q)[a];
        assert next == SubsetStep(nfa, q, a) && next in states;
        StepsFollowSubsets(nfa, alphabet, states, start, accept, table, next, word[1..]);
      }
      InAlphabetCons(alphabet, word);
    }
  }

  /**
   * The converted DFA recognises the NFA's language: from its start state
   * it has a transition path exactly for the words over the alphabet, the
   * state reached is accepting exactly when the NFA accepts the word, and
   * every word the NFA accepts is over the alphabet.
   */
  lemma SubsetAutomatonLanguage(nfa: NfaDict, alphabet: set<string>, states: seq<Subset>, start: Subset,
                                accept: seq<Subset>, table: TransitionTable, word: string)
    requires SubsetAutomaton(nfa, alphabet, states, start, accept, table)
    ensures Steps(table, start, word).Some? <==> InAlphabet(alphabet, word)
    ensures Steps(table, start, word).Some? ==> (Steps(table, start, word).value in accept <==> NfaAccepts(nfa, word))
    ensures NfaAccepts(nfa, word) ==> InAlphabet(alphabet, word)
  {
    StepsFollowSubsets(nfa, alphabet, states, start, accept, table, start, word);
    AcceptsIffSubsetRun(nfa, word);
    if NfaAccepts(nfa, word) {
      var t :| Reads(nfa, {nfa.start}, word, t) && t in nfa.entries && nfa.entries[t].terminating;
      var p, labels :| Walk(nfa, p, labels) && p[0] in {nfa.start} && p[|p| - 1] == t && Spelled(labels) == Symbols(word);
      forall i | 0 <= i < |word| ensures [word[i]] in alphabet {
        SpelledInAlphabet(nfa, p, labels, word, i);
      }
    }
  }

  /** A DFA as the conversion builds it, with the memo that numbers its states for export. */
  class Dfa {
    const alphabet: set<string>
    const states: seq<Subset>
    const startState: Subset
    const acceptStates: seq<Subset>
    const transitionFunction: TransitionTable
    var nameMap: map<Subset, nat>
    var counter: nat
    ghost var order: seq<Subset>

    /** The memo hands out 0 .. counter - 1 in order of first sight. */
    ghost predicate Valid()
      reads this
    {
      counter == |order| && Numbered(nameMap, order)
    }

    constructor (alphabet: set<string>, states: seq<Subset>, startState: Subset, acceptStates: seq<Subset>,
                 transitionFunction: TransitionTable)
      ensures this.alphabet == alphabet && this.states == states && this.startState == startState
      ensures this.acceptStates == acceptStates && this.transitionFunction == transitionFunction
      ensures nameMap == map[] && counter == 0 && order == [] && Valid()
    {
      this.alphabet := alphabet;
      this.states := states;
      this.startState := startState;
      this.acceptStates := acceptStates;
      this.transitionFunction := transitionFunction;
      nameMap := map[];
      counter := 0;
      order := [];
    }

    /**
     * Whether the DFA ends in an accepting state after `input`; None where
     * a lookup of the current state or of the symbol finds no transition.
     */
    method Run(input: string) returns (r: Option<bool>)
      ensures Steps(transitionFunction, startState, input).None? ==> r == None
      ensures Steps(transitionFunction, startState, input).Some? ==>
        r == Some(Steps(transitionFunction, startState, input).value in acceptStates)
    {
      var current := startState;
      var i := 0;
      while i < |input|
        invariant 0 <= i <= |input|
        invariant Steps(transitionFunction, startState, input) == Steps(transitionFunction, current, input[i..])
      {
        var symbol := [input[i]];
        assert input[i..][0] == input[i] && input[i..][1..] == input[i + 1..];
        if current !in transitionFunction || symbol !in transitionFunction[current] {
          return None;
        }
        current := transitionFunction[current][symbol];
        i := i + 1;
      }
      assert input[i..] == [];
      return Some(current in acceptStates);
    }

    /** The id of `state`: its memoised id, or the next unused one on first sight. */
    method Num(state: Subset) returns (id: nat)
      requires Valid()
      modifies this
      ensures Valid() && state in nameMap && id == nameMap[state]
      ensures old(state in nameMap) ==> nameMap == old(nameMap) && order == old(order)
      ensures old(state !in nameMap) ==> nameMap == old(nameMap)[state := old(counter)] && order == old(order) + [state]
      ensures Extends(old(nameMap), old(order), nameMap, order)
      ensures forall p :: p in nameMap ==> p in old(nameMap) || p == state
    {
      if state !in nameMap {
        NumberedGrow(nameMap, order, state);
        nameMap := nameMap[state := counter];
        counter := counter + 1;
        order := order + [state];
      }
      id := nameMap[state];
    }

    /** The edges of `state`, by symbol, to the ids of its non-sink successors. */
    method ExportRow(state: Subset) returns (edges: map<string, nat>)
      requires Valid()
      modifies this
      ensures Valid() && Extends(old(nameMap), old(order), nameMap, order)
      ensures ExportsRow(alphabet, Row(transitionFunction, state), nameMap, edges)
      ensures state in old(nameMap) ==> state in nameMap && nameMap[state] == old(nameMap)[state]
      ensures forall p :: p in nameMap ==> p in old(nameMap) || (p != {} && p in Row(transitionFunction, state).Values)
    {
      edges := map[];
      var rest := alphabet;
      while rest != {}
        invariant rest <= alphabet
        invariant Valid() && Extends(old(nameMap), old(order), nameMap, order)
        invariant forall a :: a in edges <==> a in alphabet && a !in rest && a in Row(transitionFunction, state) && Row(transitionFunction, state)[a] != {}
        invariant forall a :: a in edges ==> Row(transitionFunction, state)[a] in nameMap && edges[a] == nameMap[Row(transitionFunction, state)[a]]
        invariant forall p :: p in nameMap ==> p in old(nameMap) || (p != {} && p in Row(transitionFunction, state).Values)
        decreases |rest|
      {
        var symbol :| symbol in rest;
        var row := Row(transitionFunction, state);
        var next := if symbol in row then row[symbol] else {};
        if next != {} {
          ghost var nameMap0, order0 := nameMap, order;
          var target := Num(next);
          ExtendsTrans(old(nameMap), old(order), nameMap0, order0, nameMap, order);
          edges := edges[symbol := target];
        }
        rest := rest - {symbol};
      }
    }

    /**
     * The dictionary: the start state's id, then, for each state but the
     * sink in list order, its accepting flag and its edges to non-sink
     * states.
     */
    method ToDict() returns (d: DfaDict)
      requires Valid()
      modifies this
      ensures Valid() && Extends(old(nameMap), old(order), nameMap, order)
      ensures startState in nameMap && d.start == nameMap[startState]
      ensures old(counter) == 0 ==> d.start == 0
      ensures forall i :: 0 <= i < |states| && states[i] != {} ==>
        ExportsState(alphabet, transitionFunction, acceptStates, states[i], nameMap, d.entries)
      ensures forall i :: i in d.entries ==> i < |order| && order[i] in states && order[i] != {}
      ensures old(nameMap) == map[] && startState != {} ==> {} !in nameMap
    {
      var start := Num(startState);
      var entries: map<nat, DfaEntry> := map[];
      for i := 0 to |states|
        invariant Valid() && Extends(old(nameMap), old(order), nameMap, order)
        invariant startState in nameMap && start == nameMap[startState]
        invariant old(counter) == 0 ==> start == 0
        invariant forall j :: 0 <= j < i && states[j] != {} ==>
          ExportsState(alphabet, transitionFunction, acceptStates, states[j], nameMap, entries)
        invariant forall k :: k in entries ==> k < |order| && order[k] in states && order[k] != {}
        invariant old(nameMap) == map[] && startState != {} ==> {} !in nameMap
      {
        var state := states[i];
        if state != {} {
          ghost var nameMap0, order0 := nameMap, order;
          var id := Num(state);
          ghost var nameMap1, order1 := nameMap, order;
          var edges := ExportRow(state);
          ExtendsTrans(nameMap0, order0, nameMap1, order1, nameMap, order);
          ExtendsTrans(old(nameMap), old(order), nameMap0, order0, nameMap, order);
          DfaStatesStable(alphabet, transitionFunction, acceptStates, states, i, nameMap0, order0, nameMap, order, entries);
          DfaStatesAdd(alphabet, transitionFunction, acceptStates, states, i, nameMap, order, entries,
                       DfaEntry(state in acceptStates, edges));
          entries := entries[id := DfaEntry(state in acceptStates, edges)];
        }
      }
      d := DfaDict(start, entries);
    }
  }

  /** `edges` holds the symbols whose successor in `row` is not the sink, each to that successor's id. */
  ghost predicate ExportsRow(alphabet: set<string>, row: map<string, Subset>, nameMap: map<Subset, nat>, edges: map<string, nat>) {
    && (forall a :: a in edges <==> a in alphabet && a in row && row[a] != {})
    && (forall a :: a in edges ==> row[a] in nameMap && edges[a] == nameMap[row[a]])
  }

  /** `state` has an id, and the entry under it holds its accepting flag and its exported row. */
  ghost predicate ExportsState(alphabet: set<string>, table: TransitionTable, accept: seq<Subset>, state: Subset,
                               nameMap: map<Subset, nat>, entries: map<nat, DfaEntry>) {
    && state in nameMap && nameMap[state] in entries
    && entries[nameMap[state]].terminating == (state in accept)
    && ExportsRow(alphabet, Row(table, state), nameMap, entries[nameMap[state]].edges)
  }

  /** A later numbering keeps the states exported so far valid. */
  lemma DfaStatesStable(alphabet: set<string>, table: TransitionTable, accept: seq<Subset>, states: seq<Subset>, i: nat,
                        nameMap: map<Subset, nat>, order: seq<Subset>, nameMap': map<Subset, nat>, order': seq<Subset>,
                        entries: map<nat, DfaEntry>)
    requires i <= |states| && Extends(nameMap, order, nameMap', order')
    requires forall j :: 0 <= j < i && states[j] != {} ==> ExportsState(alphabet, table, accept, states[j], nameMap, entries)
    ensures forall j :: 0 <= j < i && states[j] != {} ==> ExportsState(alphabet, table, accept, states[j], nameMap', entries)
  {
  }

  /** Adding the entry of the `i`-th state under its id keeps the earlier ones and exports it. */
  lemma DfaStatesAdd(alphabet: set<string>, table: TransitionTable, accept: seq<Subset>, states: seq<Subset>, i: nat,
                     nameMap: map<Subset, nat>, order: seq<Subset>, entries: map<nat, DfaEntry>, e: DfaEntry)
    requires i < |states| && states[i] != {} && Numbered(nameMap, order) && states[i] in nameMap
    requires forall j :: 0 <= j < i && states[j] != {} ==> ExportsState(alphabet, table, accept, states[j], nameMap, entries)
    requires e.terminating == (states[i] in accept) && ExportsRow(alphabet, Row(table, states[i]), nameMap, e.edges)
    ensures forall j :: 0 <= j < i + 1 && states[j] != {} ==>
      ExportsState(alphabet, table, accept, states[j], nameMap, entries[nameMap[states[i]] := e])
  {
    forall j | 0 <= j < i && states[j] != {} && states[j] != states[i]
      ensures nameMap[states[j]] != nameMap[states[i]]
    {
      NumberedInjective(nameMap, order, states[j], states[i]);
    }
  }

  /** The NFA-to-DFA converter over an exported NFA dictionary. */
  class NfaToDfaConverter {
    const nfa: NfaDict

    constructor (nfa: NfaDict)
      ensures this.nfa == nfa
    {
      this.nfa := nfa;
    }

    /** The states reachable from `states` over one `symbol` edge. */
    method Move(states: set<nat>, symbol: string) returns (out: set<nat>)
      ensures out == MoveSet(nfa, states, symbol)
    {
      MoveSetMembers(nfa, states, symbol);
      out := {};
      var rest := states;
      while rest != {}
        invariant rest <= states
        invariant forall t :: t in out <==> exists s :: s in states && s !in rest && Edge(nfa, s, symbol, t)
        decreases |rest|
      {
        var s :| s in rest;
        if s in nfa.entries {
          var nexts := if symbol in nfa.entries[s].edges then nfa.entries[s].edges[symbol] else [];
          for i := 0 to |nexts|
            invariant forall t :: t in out <==>
              (exists s' :: s' in states && s' !in rest && Edge(nfa, s', symbol, t)) || t in nexts[..i]
          {
            out := out + {nexts[i]};
          }
          assert nexts[..|nexts|] == nexts;
        }
        rest := rest - {s};
      }
    }

    /** The elements of `states` as a list, in any order. */
    method ListOf(states: set<nat>) returns (r: seq<nat>)
      ensures forall x :: x in r <==> x in states
    {
      r := [];
      var rest := states;
      while rest != {}
        invariant rest <= states
        invariant forall x :: x in r <==> x in states && x !in rest
        decreases |rest|
      {
        var x :| x in rest;
        r := r + [x];
        rest := rest - {x};
      }
    }

    /**
     * The epsilon-closure of `states`, by a depth-first walk: a stack of
     * states whose "epsilon" destinations are still to be visited.
     */
    method EpsilonClosure(states: set<nat>) returns (closure: set<nat>)
      ensures closure == Closure(nfa, states)
    {
      ghost var bound := Closure(nfa, states);
      ClosureClosed(nfa, states);
      closure := states;
      var stack := ListOf(states);
      ghost var visited: set<nat> := {};
      while stack != []
        invariant EpsClosed(nfa, bound)
        invariant states <= closure <= bound
        invariant forall x :: x in stack ==> x in closure
        invariant forall x :: x in closure ==> x in visited || x in stack
        invariant visited <= closure
        invariant forall s, t :: s in visited && Edge(nfa, s, "epsilon", t) ==> t in closure
        decreases |bound - closure|, |stack|
      {
        ghost var full := stack;
        var s := stack[|stack| - 1];
        stack := stack[..|stack| - 1];
        assert full == stack + [s];
        ghost var closure0, stack0 := closure, stack;
        if s in nfa.entries {
          var nexts := if "epsilon" in nfa.entries[s].edges then nfa.entries[s].edges["epsilon"] else [];
          assert forall t :: t in nexts <==> Edge(nfa, s, "epsilon", t);
          closure, stack := PushUnseen(nexts, closure, stack);
        }
        visited := visited + {s};
        forall x | x in closure && x !in stack ensures x in visited {
          assert x in closure0 && x !in stack0;
          assert x in full ==> x == s;
        }
        if closure != closure0 {
          DiffShrinks(bound, closure0, closure);
        }
      }
      ClosureLeast(nfa, states, closure);
    }

    /** The inner loop of the walk: each destination not yet in the closure joins it and is pushed. */
    method PushUnseen(nexts: seq<nat>, closure0: set<nat>, stack0: seq<nat>) returns (closure: set<nat>, stack: seq<nat>)
      ensures forall x :: x in closure <==> x in closure0 || x in nexts
      ensures forall x :: x in stack <==> x in stack0 || (x in nexts && x !in closure0)
      ensures closure == closure0 ==> stack == stack0
    {
      closure, stack := closure0, stack0;
      for i := 0 to |nexts|
        invariant forall x :: x in closure <==> x in closure0 || x in nexts[..i]
        invariant forall x :: x in stack <==> x in stack0 || (x in nexts[..i] && x !in closure0)
        invariant closure == closure0 ==> stack == stack0
      {
        var nxt := nexts[i];
        assert nexts[..i + 1] == nexts[..i] + [nxt];
        if nxt !in closure {
          closure := closure + {nxt};
          stack := stack + [nxt];
        }
      }
      assert nexts[..|nexts|] == nexts;
    }

    /** The input symbols: every key of every state's table except the two reserved ones. */
    method CollectAlphabet() returns (alphabet: set<string>)
      ensures alphabet == Alphabet(nfa)
    {
      AlphabetMembers(nfa);
      alphabet := {};
      var rest := nfa.entries.Keys;
      while rest != {}
        invariant rest <= nfa.entries.Keys
        invariant forall sym :: sym in alphabet <==>
          sym != "epsilon" && sym != "isTerminatingState" && exists s :: s in nfa.entries && s !in rest && sym in nfa.entries[s].edges
        decreases |rest|
      {
        var s :| s in rest;
        var keys := nfa.entries[s].edges.Keys;
        while keys != {}
          invariant keys <= nfa.entries[s].edges.Keys
          invariant forall sym :: sym in alphabet <==>
            sym != "epsilon" && sym != "isTerminatingState" &&
            ((exists s' :: s' in nfa.entries && s' !in rest && sym in nfa.entries[s'].edges) || (sym in nfa.entries[s].edges && sym !in keys))
          decreases |keys|
        {
          var sym :| sym in keys;
          if sym != "epsilon" && sym != "isTerminatingState" {
            alphabet := alphabet + {sym};
          }
          keys := keys - {sym};
        }
        rest := rest - {s};
      }
    }

    /**
     * The subset construction: starting from the closure of the start
     * state, each discovered subset in turn gets, for every symbol, the
     * closure of its move, and every subset not seen before is queued.
     */
    method Convert() returns (dfa: Dfa)
      ensures fresh(dfa) && dfa.Valid() && dfa.nameMap == map[] && dfa.counter == 0
      ensures SubsetAutomaton(nfa, dfa.alphabet, dfa.states, dfa.startState, dfa.acceptStates, dfa.transitionFunction)
    {
      var alphabet := CollectAlphabet();
      var start := EpsilonClosure({nfa.start});
      ClosureClosed(nfa, {nfa.start});
      ClosureWithin(nfa, {nfa.start});
      var dfaStates, acceptStates, table := Explore(alphabet, start);
      dfa := new Dfa(alphabet, dfaStates, start, acceptStates, table);
    }

    /** The first-come first-served loop over the queue of discovered subsets. */
    method Explore(alphabet: set<string>, start: Subset) returns (dfaStates: seq<Subset>, acceptStates: seq<Subset>, table: TransitionTable)
      requires ClosedSubset(nfa, start)
      ensures Explored(nfa, alphabet, dfaStates, start, acceptStates, table)
    {
      dfaStates := [start];
      acceptStates := [];
      table := map[];
      var queue := [start];
      ghost var done := 0;
      ghost var seen: set<Subset> := {start};
      ghost var processed: set<Subset> := {};
      DiscoveredBound(nfa, dfaStates, seen);
      while queue != []
        invariant Exploring(nfa, alphabet, start, dfaStates, done, seen, processed, table, acceptStates)
        invariant queue == dfaStates[done..]
        decreases Pow2(|Universe(nfa)|) - |seen|, |queue|
      {
        var curr := queue[0];
        queue := queue[1..];
        assert curr == dfaStates[done] && queue == dfaStates[done + 1..];
        ExploreHead(nfa, alphabet, start, dfaStates, done, seen, processed, table, acceptStates);
        ghost var seen0, states0, table0, accept0 := seen, dfaStates, table, acceptStates;
        ghost var added;
        table, dfaStates, queue, seen, added := ExpandState(alphabet, curr, processed, table, dfaStates, queue, seen);
        SliceAppend(states0, added, done + 1);
        if Accepting(nfa, curr) {
          if curr !in acceptStates {
            acceptStates := acceptStates + [curr];
          }
        }
        ExploreStep(nfa, alphabet, start, states0, done, seen0, processed, table0, accept0,
                    curr, dfaStates, added, seen, table, acceptStates);
        processed := processed + {curr};
        done := done + 1;
      }
      ExploreDone(nfa, alphabet, start, dfaStates, done, seen, processed, table, acceptStates);
    }

    /**
     * Processing one dequeued subset `curr`: its row is written, and the
     * rows of the subsets processed before stay complete.
     */
    method ExpandState(alphabet: set<string>, curr: Subset, ghost processed: set<Subset>, table0: TransitionTable,
                       states0: seq<Subset>, queue0: seq<Subset>, ghost seen0: set<Subset>)
      returns (table: TransitionTable, states: seq<Subset>, queue: seq<Subset>, ghost seen: set<Subset>,
               ghost added: seq<Subset>)
      requires curr !in processed && Discovered(nfa, states0, seen0)
      requires forall q :: q in table0 ==> q in processed
      requires forall q {:trigger RowComplete(nfa, alphabet, table0, seen0, q)} :: q in processed ==> RowComplete(nfa, alphabet, table0, seen0, q)
      ensures states == states0 + added && queue == queue0 + added
      ensures Discovered(nfa, states, seen) && seen0 <= seen
      ensures seen == seen0 ==> added == []
      ensures forall q :: q in table ==> q in processed + {curr}
      ensures forall q {:trigger RowComplete(nfa, alphabet, table, seen, q)} :: q in processed + {curr} ==> RowComplete(nfa, alphabet, table, seen, q)
    {
      ghost var row;
      table, states, queue, seen, added, row := ExpandRow(alphabet, curr, table0, states0, queue0, seen0);
      RowsAfterExpand(nfa, alphabet, table0, seen0, processed, curr, row, seen, table);
    }

    /**
     * The loop over the alphabet for one dequeued subset `curr`: its row
     * `row` is written into the table one symbol at a time, and each
     * target not discovered before is appended to the states and the queue.
     */
    method ExpandRow(alphabet: set<string>, curr: Subset, table0: TransitionTable,
                     states0: seq<Subset>, queue0: seq<Subset>, ghost seen0: set<Subset>)
      returns (table: TransitionTable, states: seq<Subset>, queue: seq<Subset>, ghost seen: set<Subset>,
               ghost added: seq<Subset>, ghost row: map<string, Subset>)
      requires curr !in table0 && Discovered(nfa, states0, seen0)
      ensures states == states0 + added && queue == queue0 + added
      ensures Discovered(nfa, states, seen) && seen0 <= seen
      ensures seen == seen0 ==> added == []
      ensures table == if alphabet == {} then table0 else table0[curr := row]
      ensures PartialRow(nfa, alphabet, curr, row, seen)
    {
      table, states, queue, seen := table0, states0, queue0, seen0;
      added := [];
      row := map[];
      var syms := alphabet;
      while syms != {}
        invariant syms <= alphabet
        invariant states == states0 + added && queue == queue0 + added
        invariant seen == seen0 ==> added == []
        invariant Discovered(nfa, states, seen) && seen0 <= seen
        invariant syms == alphabet ==> table == table0 && row == map[]
        invariant syms != alphabet ==> table == table0[curr := row]
        invariant PartialRow(nfa, alphabet - syms, curr, row, seen)
        decreases |syms|
      {
        var sym :| sym in syms;
        var mv := Move(curr, sym);
        var cl := EpsilonClosure(mv);
        SubsetStepWithin(nfa, curr, sym);
        ghost var seen1 := seen;
        if cl !in states {
          DiscoveredAdd(nfa, states, seen, cl);
          AppendAssoc(states0, added, cl);
          AppendAssoc(queue0, added, cl);
          states := states + [cl];
          queue := queue + [cl];
          added := added + [cl];
          seen := seen + {cl};
        }
        PartialRowAdd(nfa, alphabet, syms, curr, row, seen1, sym, cl, seen);
        var currRow := if curr in table then table[curr] else map[];
        assert currRow == row;
        table := table[curr := currRow[sym := cl]];
        UpdateTwice(table0, curr, row, row[sym := cl]);
        row := row[sym := cl];
        syms := syms - {sym};
      }
      assert alphabet - syms == alphabet;
    }
  }
}
