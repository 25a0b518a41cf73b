/**
 * The language of the exported NFA read off its edges directly: a walk
 * follows edges, "epsilon" edges spell nothing and every other edge spells
 * its key, and a word is accepted when a walk from the start state spells
 * it and ends in a terminating state. The subset simulation reaches
 * exactly the ends of such walks.
 */
module NfaWalks {
  import opened NfaExport
  import opened NfaSemantics

  /** `p` visits states joined, in order, by edges labelled `labels`. */
  ghost predicate Walk(nfa: NfaDict, p: seq<nat>, labels: seq<string>) {
    |p| == |labels| + 1 && forall i :: 0 <= i < |labels| ==> Edge(nfa, p[i], labels[i], p[i + 1])
  }

  /** The symbols a walk reads: its labels other than "epsilon". */
  function Spelled(labels: seq<string>): seq<string>
    decreases |labels|
  {
    if labels == [] then []
    else (if labels[0] == "epsilon" then [] else [labels[0]]) + Spelled(labels[1..])
  }

  /** The word as its sequence of one-character symbols. */
  function Symbols(word: string): seq<string>
    decreases |word|
  {
    if word == [] then [] else [[word[0]]] + Symbols(word[1..])
  }

  /** Some walk from a member of `from` to `t` spells `word`. */
  ghost predicate Reads(nfa: NfaDict, from: set<nat>, word: string, t: nat) {
    exists p, labels :: Walk(nfa, p, labels) && p[0] in from && p[|p| - 1] == t && Spelled(labels) == Symbols(word)
  }

  /** The NFA accepts `word`: a walk from the start state spells it and ends in a terminating state. */
  ghost predicate NfaAccepts(nfa: NfaDict, word: string) {
    exists t :: Reads(nfa, {nfa.start}, word, t) && t in nfa.entries && nfa.entries[t].terminating
  }

  /** `n` "epsilon" labels. */
  function EpsLabels(n: nat): (r: seq<string>)
    ensures |r| == n && Spelled(r) == []
    decreases n
  {
    if n == 0 then [] else ["epsilon"] + EpsLabels(n - 1)
  }

  /** A sequence of labels spells what its two halves spell, one after the other. */
  lemma {:induction false} SpelledAppend(a: seq<string>, b: seq<string>)
    ensures Spelled(a + b) == Spelled(a) + Spelled(b)
    decreases |a|
  {
    if a == [] {
      assert a + b == b;
    } else {
      var h := if a[0] == "epsilon" then [] else [a[0]];
      assert (a + b)[0] == a[0] && (a + b)[1..] == a[1..] + b;
      SpelledAppend(a[1..], b);
      calc {
        Spelled(a + b);
        h + Spelled(a[1..] + b);
        h + (Spelled(a[1..]) + Spelled(b));
        (h + Spelled(a[1..])) + Spelled(b);
      }
    }
  }

  /** A word spells nothing exactly when it is empty, and otherwise its first symbol first. */
  lemma SymbolsCons(word: string)
    ensures Symbols(word) == [] <==> word == []
    ensures word != [] ==> Symbols(word)[0] == [word[0]] && Symbols(word)[1..] == Symbols(word[1..])
  {
  }

  /** An "epsilon" path is a walk whose labels are all "epsilon". */
  lemma EpsPathWalk(nfa: NfaDict, p: seq<nat>)
    requires EpsPath(nfa, p)
    ensures Walk(nfa, p, EpsLabels(|p| - 1))
  {
    var labels := EpsLabels(|p| - 1);
    forall i | 0 <= i < |labels| ensures labels[i] == "epsilon" {
      EpsLabelsAt(|p| - 1, i);
    }
  }

  /** Every label of `EpsLabels(n)` is "epsilon". */
  lemma {:induction false} EpsLabelsAt(n: nat, i: nat)
    requires i < n
    ensures EpsLabels(n)[i] == "epsilon"
    decreases n
  {
    if i > 0 {
      EpsLabelsAt(n - 1, i - 1);
    }
  }

  /** Two walks, the second starting where the first ends, join into one. */
  lemma WalkAppend(nfa: NfaDict, p: seq<nat>, l: seq<string>, q: seq<nat>, m: seq<string>)
    requires Walk(nfa, p, l) && Walk(nfa, q, m) && p[|p| - 1] == q[0]
    ensures Walk(nfa, p + q[1..], l + m)
    ensures (p + q[1..])[0] == p[0] && (p + q[1..])[|p| + |q| - 2] == q[|q| - 1]
  {
    var r, n := p + q[1..], l + m;
    forall i | 0 <= i < |n| ensures Edge(nfa, r[i], n[i], r[i + 1]) {
      if i < |l| {
        assert r[i] == p[i] && n[i] == l[i] && r[i + 1] == p[i + 1];
      } else {
        var j := i - |l|;
        assert n[i] == m[j] && r[i + 1] == q[j + 1];
        if j == 0 {
          assert r[i] == p[|p| - 1] == q[0];
        } else {
          assert r[i] == q[j];
        }
      }
    }
  }

  /** The first edge of a walk, and the walk after it. */
  lemma WalkTail(nfa: NfaDict, p: seq<nat>, labels: seq<string>)
    requires Walk(nfa, p, labels) && labels != []
    ensures Edge(nfa, p[0], labels[0], p[1]) && Walk(nfa, p[1..], labels[1..])
    ensures p[1..][0] == p[1] && p[1..][|p| - 2] == p[|p| - 1]
  {
    forall i | 0 <= i < |labels| - 1 ensures Edge(nfa, p[1..][i], labels[1..][i], p[1..][i + 1]) {
      assert p[1..][i] == p[i + 1] && p[1..][i + 1] == p[i + 2] && labels[1..][i] == labels[i + 1];
    }
  }

  /**
   * A walk from `from` to `u` over "epsilon" edges, then the edge on `sym`,
   * then the walk `q`: a walk from `from` spelling `sym` and then what `q`
   * spells; `p` and `labels` are one.
   */
  lemma JoinWalk(nfa: NfaDict, from: set<nat>, u: nat, sym: string, q: seq<nat>, m: seq<string>)
    returns (p: seq<nat>, labels: seq<string>)
    requires u in Closure(nfa, from) && Walk(nfa, q, m) && Edge(nfa, u, sym, q[0]) && sym != "epsilon"
    ensures Walk(nfa, p, labels) && p[0] in from && p[|p| - 1] == q[|q| - 1] && Spelled(labels) == [sym] + Spelled(m)
  {
    var e := ClosureWalk(nfa, from, u);
    EpsPathWalk(nfa, e);
    var le := EpsLabels(|e| - 1);
    assert Walk(nfa, [u, q[0]], [sym]);
    WalkAppend(nfa, e, le, [u, q[0]], [sym]);
    var e' := e + [q[0]];
    assert e + [u, q[0]][1..] == e';
    WalkAppend(nfa, e', le + [sym], q, m);
    p, labels := e' + q[1..], (le + [sym]) + m;
    SpelledAppend(le + [sym], m);
    SpelledAppend(le, [sym]);
    assert Spelled([sym]) == [sym] by { assert [sym][1..] == []; }
  }

  /**
   * Every state the subset simulation reaches over `word` from the closure
   * of `from` ends a walk from `from` that spells `word`; `p` and `labels`
   * are one.
   */
  lemma {:induction false} RunWalk(nfa: NfaDict, from: set<nat>, word: string, t: nat)
    returns (p: seq<nat>, labels: seq<string>)
    requires t in SubsetRun(nfa, Closure(nfa, from), word)
    ensures Walk(nfa, p, labels) && p[0] in from && p[|p| - 1] == t && Spelled(labels) == Symbols(word)
    decreases |word|
  {
    if word == [] {
      p := ClosureWalk(nfa, from, t);
      EpsPathWalk(nfa, p);
      labels := EpsLabels(|p| - 1);
    } else {
      var a := [word[0]];
      var c := Closure(nfa, from);
      var from' := MoveSet(nfa, c, a);
      var q, m := RunWalk(nfa, from', word[1..], t);
      MoveSetMembers(nfa, c, a);
      var u :| u in c && Edge(nfa, u, a, q[0]);
      p, labels := JoinWalk(nfa, from, u, a, q, m);
    }
  }

  /**
   * The end of every walk that starts in the closure of `from` and spells
   * `word` is reached by the subset simulation over `word`.
   */
  lemma {:induction false} WalkRun(nfa: NfaDict, from: set<nat>, p: seq<nat>, labels: seq<string>, word: string)
    requires Walk(nfa, p, labels) && p[0] in Closure(nfa, from) && Spelled(labels) == Symbols(word)
    ensures p[|p| - 1] in SubsetRun(nfa, Closure(nfa, from), word)
    decreases |labels|
  {
    SymbolsCons(word);
    if labels != [] {
      WalkTail(nfa, p, labels);
      if labels[0] == "epsilon" {
        ClosureClosed(nfa, from);
        WalkRun(nfa, from, p[1..], labels[1..], word);
      } else {
        assert Spelled(labels) == [labels[0]] + Spelled(labels[1..]);
        var from' := MoveSet(nfa, Closure(nfa, from), labels[0]);
        MoveSetMembers(nfa, Closure(nfa, from), labels[0]);
        assert p[1] in from';
        WalkRun(nfa, from', p[1..], labels[1..], word[1..]);
      }
    }
  }

  /** The subset simulation from the start closure reaches exactly the ends of walks from the start spelling the word. */
  lemma RunReads(nfa: NfaDict, word: string, t: nat)
    ensures t in SubsetRun(nfa, Closure(nfa, {nfa.start}), word) <==> Reads(nfa, {nfa.start}, word, t)
  {
    if t in SubsetRun(nfa, Closure(nfa, {nfa.start}), word) {
      var p, labels := RunWalk(nfa, {nfa.start}, word, t);
    }
    if Reads(nfa, {nfa.start}, word, t) {
      var p, labels :| Walk(nfa, p, labels) && p[0] in {nfa.start} && p[|p| - 1] == t && Spelled(labels) == Symbols(word);
      WalkRun(nfa, {nfa.start}, p, labels, word);
    }
  }

  /** The NFA accepts a word exactly when its subset simulation from the start closure ends accepting. */
  lemma AcceptsIffSubsetRun(nfa: NfaDict, word: string)
    ensures NfaAccepts(nfa, word) <==> Accepting(nfa, SubsetRun(nfa, Closure(nfa, {nfa.start}), word))
  {
    var r := SubsetRun(nfa, Closure(nfa, {nfa.start}), word);
    if NfaAccepts(nfa, word) {
      var t :| Reads(nfa, {nfa.start}, word, t) && t in nfa.entries && nfa.entries[t].terminating;
      RunReads(nfa, word, t);
    }
    if Accepting(nfa, r) {
      var t :| t in r && t in nfa.entries && nfa.entries[t].terminating;
      RunReads(nfa, word, t);
    }
  }

  /** Every symbol a walk spells is in the alphabet. */
  lemma {:induction false} SpelledInAlphabet(nfa: NfaDict, p: seq<nat>, labels: seq<string>, word: string, i: nat)
    requires Walk(nfa, p, labels) && Spelled(labels) == Symbols(word) && i < |word|
    ensures [word[i]] in Alphabet(nfa)
    decreases |labels|
  {
    SymbolsCons(word);
    if labels != [] {
      WalkTail(nfa, p, labels);
      if labels[0] == "epsilon" {
        SpelledInAlphabet(nfa, p[1..], labels[1..], word, i);
      } else {
        assert Spelled(labels) == [labels[0]] + Spelled(labels[1..]);
        if i == 0 {
          assert labels[0] == [word[0]];
          AlphabetMembers(nfa);
        } else {
          assert word[1..][i - 1] == word[i];
          SpelledInAlphabet(nfa, p[1..], labels[1..], word[1..], i - 1);
        }
      }
    }
  }
}
