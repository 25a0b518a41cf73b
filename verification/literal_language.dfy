/**
 * The language of the NFA built for a string without operator characters.
 * The parser turns such a string into the right-nested concatenation of its
 * characters; Thompson's construction turns that into a chain of states in
 * which each character's edge is followed by an empty-string edge to the
 * next character's start; and the exported NFA accepts that one string and
 * no other.
 */
module LiteralLanguage {
  import opened Parser
  import opened ParserProperties
  import opened Thompson
  import opened Numbering
  import opened NfaExport
  import opened NfaSemantics
  import opened NfaWalks

  // ---------------------------------------------------------------------
  // The chain Thompson's construction builds for a literal string.
  // ---------------------------------------------------------------------

  /** The label of edge `m` of the chain for `s`: its characters, with empty-string edges between them. */
  function ChainLabel(s: string, m: nat): Label
    requires m < 2 * |s|
  {
    if m % 2 == 0 then Ch(s[m / 2]) else Epsilon
  }

  /** The chain for `s` continues, two states further on, as the chain for the rest of `s`. */
  lemma ChainLabelShift(s: string, m: nat)
    requires |s| > 1 && m < 2 * |s| - 2
    ensures ChainLabel(s[1..], m) == ChainLabel(s, m + 2)
  {
    assert (m + 2) % 2 == m % 2 && (m + 2) / 2 == m / 2 + 1;
  }

  /** The chain for a string of two or more characters: its first literal, joined to the chain for the rest. */
  lemma ChainUnfold(s: string, next: nat)
    requires |s| > 1
    ensures var left := Build(LiteralNode(s[0]), next);
      && left == LiteralFragment(s[0], next)
      && Build(LiteralChain(s), next) == SeqFragment(left, Build(LiteralChain(s[1..]), left.next), next)
  {
    assert LiteralChain(s) == SeqNode(LiteralNode(s[0]), LiteralChain(s[1..]));
  }

  /**
   * `f` is a line from `next`: it starts at `next`, accepts at
   * `next + 2|s| - 1`, and its only edges lead from each state but the last
   * to the following one, labelled as the chain for `s` says.
   */
  ghost predicate ChainFrom(f: Fragment, s: string, next: nat) {
    && |s| > 0 && f.start == next && f.accept == next + 2 * |s| - 1
    && forall q: nat, l, x: nat :: HasEdge(f.states, q, l, x) <==>
         next <= q < next + 2 * |s| - 1 && x == q + 1 && l == ChainLabel(s, q - next)
  }

  /** The fragment Thompson's construction builds for the literal chain of `s` is the line for `s`. */
  lemma {:induction false} ChainEdges(s: string, next: nat)
    requires |s| > 0
    ensures ChainFrom(Build(LiteralChain(s), next), s, next)
    decreases |s|
  {
    if |s| == 1 {
      assert LiteralChain(s) == LiteralNode(s[0]);
      forall q: nat, l, x: nat
        ensures HasEdge(LiteralFragment(s[0], next).states, q, l, x) <==> q == next && x == q + 1 && l == ChainLabel(s, 0)
      {
        LiteralEdge(s[0], next, q, l, x);
      }
    } else {
      var right := Build(LiteralChain(s[1..]), next + 2);
      ChainUnfold(s, next);
      ChainEdges(s[1..], next + 2);
      ChainEdgesJoin(s, next, right);
    }
  }

  /** The literal for the first character of `s` joined to the line for the rest is the line for `s`. */
  lemma ChainEdgesJoin(s: string, next: nat, right: Fragment)
    requires |s| > 1 && WellFormed(right, next + 2) && ChainFrom(right, s[1..], next + 2)
    ensures ChainFrom(SeqFragment(LiteralFragment(s[0], next), right, next), s, next)
  {
    var left := LiteralFragment(s[0], next);
    var f := SeqFragment(left, right, next);
    forall q: nat, l, x: nat
      ensures HasEdge(f.states, q, l, x) <==> next <= q < next + 2 * |s| - 1 && x == q + 1 && l == ChainLabel(s, q - next)
    {
      SeqEdge(left, right, next, q, l, x);
      LiteralEdge(s[0], next, q, l, x);
      if next + 2 <= q < next + 2 * |s| - 1 {
        ChainLabelShift(s, q - next - 2);
      }
    }
  }

  /**
   * `f` is the chain for `s` from state 0, with all of its states present.
   */
  ghost predicate Chain(f: Fragment, s: string) {
    && ChainFrom(f, s, 0)
    && (forall q :: 0 <= q <= 2 * |s| - 1 ==> q in f.states)
  }

  /** The fragment built for the literal chain of `s` is the chain for `s`. */
  lemma BuildIsChain(s: string)
    requires |s| > 0
    ensures Chain(Build(LiteralChain(s), 0), s)
  {
    ChainEdges(s, 0);
  }

  /** The keys along the exported chain: each character, with "epsilon" between consecutive ones. */
  function ChainKeys(s: string): (r: seq<string>)
    requires |s| > 0
    ensures |r| == 2 * |s| - 1
    decreases |s|
  {
    if |s| == 1 then [[s[0]]] else [[s[0]], "epsilon"] + ChainKeys(s[1..])
  }

  /** Key `m` of the chain is the key its label is exported under. */
  lemma {:induction false} ChainKeysAt(s: string, m: nat)
    requires |s| > 0 && m < 2 * |s| - 1
    ensures ChainKeys(s)[m] == LabelKey(ChainLabel(s, m))
    decreases |s|
  {
    if |s| > 1 && m >= 2 {
      ChainKeysAt(s[1..], m - 2);
      ChainLabelShift(s, m - 2);
    }
  }

  /** A symbol followed by "epsilon" spells that symbol. */
  lemma SpelledPair(head: string)
    requires head != "epsilon"
    ensures Spelled([head, "epsilon"]) == [head]
  {
    assert [head, "epsilon"][1..] == ["epsilon"] && ["epsilon"][1..] == [];
  }

  /** The chain's keys spell `s`. */
  lemma {:induction false} ChainKeysSpell(s: string)
    requires |s| > 0
    ensures Spelled(ChainKeys(s)) == Symbols(s)
    decreases |s|
  {
    var head: string := [s[0]];
    assert head != "epsilon";
    if |s| == 1 {
      assert ChainKeys(s) == [head];
      assert [head][1..] == [] && s[1..] == [];
    } else {
      ChainKeysSpell(s[1..]);
      SpelledPair(head);
      SpelledAppend([head, "epsilon"], ChainKeys(s[1..]));
      calc {
        Spelled(ChainKeys(s));
        Spelled([head, "epsilon"] + ChainKeys(s[1..]));
        [head] + Symbols(s[1..]);
        Symbols(s);
      }
    }
  }

  /** Two words that spell the same symbols are the same word. */
  lemma {:induction false} SymbolsInjective(v: string, w: string)
    requires Symbols(v) == Symbols(w)
    ensures v == w
    decreases |v|
  {
    SymbolsCons(v);
    SymbolsCons(w);
    if v != [] {
      assert [v[0]] == [w[0]];
      SymbolsInjective(v[1..], w[1..]);
      assert v == [v[0]] + v[1..] && w == [w[0]] + w[1..];
    }
  }

  // ---------------------------------------------------------------------
  // The export renames states and labels and changes nothing else.
  // ---------------------------------------------------------------------

  /**
   * `d` is the export of fragment `f` under the numbering (`dect`, `order`):
   * what `Nfa.ToDict` leaves behind for a fresh exporter.
   */
  ghost predicate ExportOf(f: Fragment, dect: map<nat, nat>, order: seq<nat>, d: NfaDict) {
    && Numbered(dect, order)
    && f.start in dect && d.start == dect[f.start]
    && ExportsStates(f.states, f.accept, f.states.Keys, dect, order, d.entries)
    && (forall i :: i in d.entries ==> i < |order| && order[i] in f.states)
  }

  /** Every edge of the export is an edge of the fragment, under the numbering. */
  lemma ExportedEdge(f: Fragment, dect: map<nat, nat>, order: seq<nat>, d: NfaDict, i: nat, k: string, j: nat)
    requires ExportOf(f, dect, order, d) && Edge(d, i, k, j)
    ensures i < |order| && j < |order| && IsLabelKey(k)
    ensures HasEdge(f.states, order[i], KeyLabel(k), order[j])
  {
    var q := order[i];
    assert dect[q] == i;
    assert ExportsEntry(f.states, f.accept, q, dect, order, d.entries[i]);
    var l := KeyLabel(k);
    LabelKeyRoundTrip(l, k);
    assert ListsIds(f.states[q][l], dect, order, d.entries[i].edges[k]);
  }

  /** Every edge of the fragment is an edge of the export, under the numbering. */
  lemma EdgeExported(f: Fragment, dect: map<nat, nat>, order: seq<nat>, d: NfaDict, q: nat, l: Label, x: nat)
    requires ExportOf(f, dect, order, d) && q in f.states && HasEdge(f.states, q, l, x)
    ensures q in dect && x in dect && Edge(d, dect[q], LabelKey(l), dect[x])
  {
    assert ExportsEntry(f.states, f.accept, q, dect, order, d.entries[dect[q]]);
    assert ListsIds(f.states[q][l], dect, order, d.entries[dect[q]].edges[LabelKey(l)]);
  }

  /** An exported state is terminating exactly when it numbers the fragment's accept state. */
  lemma ExportedTerminating(f: Fragment, dect: map<nat, nat>, order: seq<nat>, d: NfaDict, i: nat)
    requires ExportOf(f, dect, order, d) && i in d.entries
    ensures d.entries[i].terminating <==> order[i] == f.accept
  {
    var q := order[i];
    assert dect[q] == i;
    assert ExportsEntry(f.states, f.accept, q, dect, order, d.entries[i]);
  }

  // ---------------------------------------------------------------------
  // The language of the exported chain.
  // ---------------------------------------------------------------------

  /**
   * The edges of `d` are those of the exported chain for `s`: each leads
   * from the id of a chain state to the id of the next one, under that
   * state's key; and the start is the id of state 0.
   */
  ghost predicate ChainExport(s: string, order: seq<nat>, d: NfaDict) {
    && |s| > 0 && d.start < |order| && order[d.start] == 0
    && forall i: nat, k, j: nat :: Edge(d, i, k, j) ==>
         i < |order| && j < |order| && order[i] < 2 * |s| - 1 && order[j] == order[i] + 1 && k == ChainKeys(s)[order[i]]
  }

  /** One edge of the exported chain: from the id of chain state n to the id of state n + 1, under key n. */
  lemma ChainStep(s: string, f: Fragment, dect: map<nat, nat>, order: seq<nat>, d: NfaDict, i: nat, k: string, j: nat)
    requires Chain(f, s) && ExportOf(f, dect, order, d) && Edge(d, i, k, j)
    ensures i < |order| && j < |order| && order[i] < 2 * |s| - 1 && order[j] == order[i] + 1
    ensures k == ChainKeys(s)[order[i]]
  {
    ExportedEdge(f, dect, order, d, i, k, j);
    var l := KeyLabel(k);
    assert HasEdge(f.states, order[i], l, order[j]);
    LabelKeyRoundTrip(l, k);
    ChainKeysAt(s, order[i]);
  }

  /** The export of the chain for `s` is the exported chain. */
  lemma ExportIsChain(s: string, f: Fragment, dect: map<nat, nat>, order: seq<nat>, d: NfaDict)
    requires Chain(f, s) && ExportOf(f, dect, order, d)
    ensures ChainExport(s, order, d)
  {
    forall i: nat, k, j: nat | Edge(d, i, k, j)
      ensures i < |order| && j < |order| && order[i] < 2 * |s| - 1 && order[j] == order[i] + 1 && k == ChainKeys(s)[order[i]]
    {
      ChainStep(s, f, dect, order, d, i, k, j);
    }
  }

  /**
   * A walk from the start of the exported chain for `s` follows the chain:
   * its state `m` numbers chain state `m`, and its first `m` labels are the
   * chain's first `m` keys.
   */
  lemma {:induction false} ChainWalk(s: string, order: seq<nat>, d: NfaDict, p: seq<nat>, labels: seq<string>, m: nat)
    requires ChainExport(s, order, d)
    requires Walk(d, p, labels) && p[0] == d.start && m <= |labels|
    ensures m < 2 * |s| && p[m] < |order| && order[p[m]] == m
    ensures forall n :: 0 <= n < m ==> labels[n] == ChainKeys(s)[n]
    decreases m
  {
    if m > 0 {
      ChainWalk(s, order, d, p, labels, m - 1);
      assert Edge(d, p[m - 1], labels[m - 1], p[m]);
    }
  }

  /** Every edge of the chain for `s` is in its export, under the chain's key. */
  lemma ChainEdgesExported(s: string, f: Fragment, dect: map<nat, nat>, order: seq<nat>, d: NfaDict)
    requires Chain(f, s) && ExportOf(f, dect, order, d)
    ensures forall m :: 0 <= m <= 2 * |s| - 1 ==> m in dect
    ensures forall m :: 0 <= m < 2 * |s| - 1 ==> Edge(d, dect[m], ChainKeys(s)[m], dect[m + 1])
  {
    forall m | 0 <= m <= 2 * |s| - 1 ensures m in dect {
      assert m in f.states;
    }
    forall m | 0 <= m < 2 * |s| - 1 ensures Edge(d, dect[m], ChainKeys(s)[m], dect[m + 1]) {
      assert HasEdge(f.states, m, ChainLabel(s, m), m + 1);
      EdgeExported(f, dect, order, d, m, ChainLabel(s, m), m + 1);
      ChainKeysAt(s, m);
    }
  }

  /** The ids of the chain's states, joined by the chain's keys, form a walk that spells `s`. */
  lemma ChainIdsWalk(s: string, dect: map<nat, nat>, d: NfaDict) returns (p: seq<nat>, labels: seq<string>)
    requires |s| > 0
    requires forall m :: 0 <= m <= 2 * |s| - 1 ==> m in dect
    requires forall m :: 0 <= m < 2 * |s| - 1 ==> Edge(d, dect[m], ChainKeys(s)[m], dect[m + 1])
    ensures Walk(d, p, labels) && p[0] == dect[0] && p[|p| - 1] == dect[2 * |s| - 1] && Spelled(labels) == Symbols(s)
  {
    var n := 2 * |s| - 1;
    p := seq(n + 1, m requires 0 <= m <= n => dect[m]);
    labels := ChainKeys(s);
    forall m | 0 <= m < n ensures Edge(d, p[m], labels[m], p[m + 1]) {
      assert p[m] == dect[m] && p[m + 1] == dect[m + 1];
    }
    ChainKeysSpell(s);
  }

  /** The exported chain for `s` accepts `s`. */
  lemma ChainAccepts(s: string, f: Fragment, dect: map<nat, nat>, order: seq<nat>, d: NfaDict)
    requires Chain(f, s) && ExportOf(f, dect, order, d)
    ensures NfaAccepts(d, s)
  {
    var n := 2 * |s| - 1;
    ChainEdgesExported(s, f, dect, order, d);
    var p, labels := ChainIdsWalk(s, dect, d);
    assert Reads(d, {d.start}, s, dect[n]);
    assert dect[n] in d.entries && order[dect[n]] == n;
    ExportedTerminating(f, dect, order, d, dect[n]);
  }

  /** The exported chain for `s` accepts only `s`. */
  lemma ChainAcceptsOnly(s: string, f: Fragment, dect: map<nat, nat>, order: seq<nat>, d: NfaDict, w: string)
    requires Chain(f, s) && ExportOf(f, dect, order, d)
    requires NfaAccepts(d, w)
    ensures w == s
  {
    var t :| Reads(d, {d.start}, w, t) && t in d.entries && d.entries[t].terminating;
    var p, labels :| Walk(d, p, labels) && p[0] in {d.start} && p[|p| - 1] == t && Spelled(labels) == Symbols(w);
    var m := |labels|;
    ExportIsChain(s, f, dect, order, d);
    ChainWalk(s, order, d, p, labels, m);
    ExportedTerminating(f, dect, order, d, t);
    assert labels == ChainKeys(s);
    ChainKeysSpell(s);
    SymbolsInjective(w, s);
  }

  /**
   * The NFA exported for the literal chain of a non-empty string accepts
   * exactly that string.
   */
  lemma LiteralChainLanguage(s: string, dect: map<nat, nat>, order: seq<nat>, d: NfaDict, w: string)
    requires |s| > 0 && ExportOf(Build(LiteralChain(s), 0), dect, order, d)
    ensures NfaAccepts(d, w) <==> w == s
  {
    var f := Build(LiteralChain(s), 0);
    BuildIsChain(s);
    if NfaAccepts(d, w) {
      ChainAcceptsOnly(s, f, dect, order, d, w);
    }
    if w == s {
      ChainAccepts(s, f, dect, order, d);
    }
  }
}
