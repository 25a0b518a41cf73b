/**
 * The export of a Thompson NFA to the dictionary the next stage reads. Every
 * state is numbered on first sight, and the numbering is memoised in the
 * object. The empty-string label is written "epsilon", every other label as
 * its one character. Each state records whether it is the final state.
 */
module NfaExport {
  import opened Thompson
  import opened Numbering

  /** One exported state: its terminating flag and its edges, label key to target ids. */
  datatype NfaEntry = NfaEntry(terminating: bool, edges: map<string, seq<nat>>)

  /** The exported NFA: the start id and one entry per state id. */
  datatype NfaDict = NfaDict(start: nat, entries: map<nat, NfaEntry>)

  /** The key a label is written under: "epsilon" for the empty string, otherwise its character. */
  function LabelKey(l: Label): (k: string)
    ensures IsLabelKey(k)
  {
    match l
    case Epsilon => "epsilon"
    case Ch(c) => [c]
  }

  /** The keys LabelKey writes: "epsilon" and the one-character strings. */
  predicate IsLabelKey(k: string) {
    k == "epsilon" || |k| == 1
  }

  /** The label a key was written for. */
  function KeyLabel(k: string): (l: Label)
    requires IsLabelKey(k)
  {
    if k == "epsilon" then Epsilon else Ch(k[0])
  }

  /** The renaming loses nothing: keys and labels correspond one to one. */
  lemma LabelKeyRoundTrip(l: Label, k: string)
    ensures KeyLabel(LabelKey(l)) == l
    ensures IsLabelKey(k) ==> LabelKey(KeyLabel(k)) == k
    ensures LabelKey(l) == "epsilon" <==> l == Epsilon
  {
    if IsLabelKey(k) && k != "epsilon" {
      assert [k[0]] == k;
    }
  }

  /** Every destination of any label of a table. */
  function TableTargets(table: Table): (r: set<nat>)
    ensures forall l, t :: l in table && t in table[l] ==> t in r
  {
    set l, t | l in table && t in table[l] :: t
  }

  /**
   * `ids` lists the ids of exactly the states in `targets`, each once, under
   * the numbering `dect`/`order`.
   */
  ghost predicate ListsIds(targets: set<nat>, dect: map<nat, nat>, order: seq<nat>, ids: seq<nat>) {
    && (forall t :: t in targets ==> t in dect && dect[t] in ids)
    && (forall i :: i in ids ==> i < |order| && order[i] in targets)
    && (forall a, b :: 0 <= a < b < |ids| ==> ids[a] != ids[b])
  }

  /** `edges` exports the labels of `table` other than those in `rest`. */
  ghost predicate ExportsTableBut(table: Table, rest: set<Label>, dect: map<nat, nat>, order: seq<nat>,
                                  edges: map<string, seq<nat>>) {
    && (forall l :: l in table && l !in rest ==> LabelKey(l) in edges && ListsIds(table[l], dect, order, edges[LabelKey(l)]))
    && (forall k :: k in edges ==> IsLabelKey(k) && KeyLabel(k) in table && KeyLabel(k) !in rest)
  }

  /** The exported edges of one state's table: one key per label, with its targets' ids. */
  ghost predicate ExportsTable(table: Table, dect: map<nat, nat>, order: seq<nat>, edges: map<string, seq<nat>>) {
    ExportsTableBut(table, {}, dect, order, edges)
  }

  /** Exporting the targets of one more label `l`, after the numbering grew. */
  lemma ExportsTableStep(table: Table, rest: set<Label>, dect0: map<nat, nat>, order0: seq<nat>,
                         edges: map<string, seq<nat>>, l: Label, dect: map<nat, nat>, order: seq<nat>, ids: seq<nat>)
    requires ExportsTableBut(table, rest, dect0, order0, edges) && l in rest && l in table
    requires Extends(dect0, order0, dect, order) && ListsIds(table[l], dect, order, ids)
    ensures ExportsTableBut(table, rest - {l}, dect, order, edges[LabelKey(l) := ids])
  {
    forall l' | l' in table && l' !in rest
      ensures ListsIds(table[l'], dect, order, edges[LabelKey(l')])
    {
      ListsIdsStable(table[l'], dect0, order0, dect, order, edges[LabelKey(l')]);
    }
    LabelKeyRoundTrip(l, "");
    forall l' | l' in table && l' !in rest - {l}
      ensures LabelKey(l') in edges[LabelKey(l) := ids] && ListsIds(table[l'], dect, order, edges[LabelKey(l) := ids][LabelKey(l')])
    {
      LabelKeyRoundTrip(l', "");
    }
  }

  /** A later numbering keeps an exported target list valid. */
  lemma ListsIdsStable(targets: set<nat>, dect: map<nat, nat>, order: seq<nat>, dect': map<nat, nat>, order': seq<nat>, ids: seq<nat>)
    requires ListsIds(targets, dect, order, ids) && Extends(dect, order, dect', order')
    ensures ListsIds(targets, dect', order', ids)
  {
  }

  /** A later numbering keeps an exported table valid. */
  lemma ExportsTableStable(table: Table, dect: map<nat, nat>, order: seq<nat>, dect': map<nat, nat>, order': seq<nat>,
                           edges: map<string, seq<nat>>)
    requires ExportsTable(table, dect, order, edges) && Extends(dect, order, dect', order')
    ensures ExportsTable(table, dect', order', edges)
  {
    forall l | l in table ensures ListsIds(table[l], dect', order', edges[LabelKey(l)]) {
      ListsIdsStable(table[l], dect, order, dect', order', edges[LabelKey(l)]);
    }
  }

  /** The entry exported for state `q`: terminating exactly when it is the final state. */
  ghost predicate ExportsEntry(states: StateMap, finalState: nat, q: nat, dect: map<nat, nat>, order: seq<nat>, e: NfaEntry)
    requires q in states
  {
    e.terminating == (q == finalState) && ExportsTable(states[q], dect, order, e.edges)
  }

  /** Every state of `done` has its exported entry, under its id, in `entries`. */
  ghost predicate ExportsStates(states: StateMap, finalState: nat, done: set<nat>, dect: map<nat, nat>, order: seq<nat>,
                                entries: map<nat, NfaEntry>)
    requires done <= states.Keys
  {
    forall q :: q in done ==> q in dect && dect[q] in entries && ExportsEntry(states, finalState, q, dect, order, entries[dect[q]])
  }

  /** A later numbering keeps the exported entries valid. */
  lemma ExportsStatesStable(states: StateMap, finalState: nat, done: set<nat>, dect: map<nat, nat>, order: seq<nat>,
                            dect': map<nat, nat>, order': seq<nat>, entries: map<nat, NfaEntry>)
    requires done <= states.Keys
    requires ExportsStates(states, finalState, done, dect, order, entries) && Extends(dect, order, dect', order')
    ensures ExportsStates(states, finalState, done, dect', order', entries)
  {
    forall q | q in done ensures ExportsEntry(states, finalState, q, dect', order', entries[dect'[q]]) {
      ExportsTableStable(states[q], dect, order, dect', order', entries[dect[q]].edges);
    }
  }

  /** Adding the entry of one more state, under its own (new) id. */
  lemma ExportsStatesAdd(states: StateMap, finalState: nat, done: set<nat>, dect: map<nat, nat>, order: seq<nat>,
                         entries: map<nat, NfaEntry>, q: nat, e: NfaEntry)
    requires done <= states.Keys && q in states && q !in done && Numbered(dect, order)
    requires ExportsStates(states, finalState, done, dect, order, entries)
    requires q in dect && ExportsEntry(states, finalState, q, dect, order, e)
    ensures ExportsStates(states, finalState, done + {q}, dect, order, entries[dect[q] := e])
  {
    forall p | p in done ensures dect[p] != dect[q] {
      NumberedInjective(dect, order, p, q);
    }
  }

  /** Every id of `entries` numbers a state of `done`. */
  ghost predicate IdsIn<V>(entries: map<nat, V>, order: seq<nat>, done: set<nat>) {
    forall i :: i in entries ==> i < |order| && order[i] in done
  }

  /** Adding the entry of `q` under its id, after the numbering grew. */
  lemma IdsInAdd<V>(entries: map<nat, V>, order0: seq<nat>, order: seq<nat>, done: set<nat>, id: nat, q: nat, e: V)
    requires IdsIn(entries, order0, done)
    requires |order0| <= |order| && forall k :: 0 <= k < |order0| ==> order[k] == order0[k]
    requires id < |order| && order[id] == q
    ensures IdsIn(entries[id := e], order, done + {q})
  {
  }

  /** The entries of the states of `done` are exported, and only theirs. */
  ghost predicate Exporting(states: StateMap, finalState: nat, done: set<nat>, dect: map<nat, nat>, order: seq<nat>,
                            entries: map<nat, NfaEntry>) {
    && done <= states.Keys
    && ExportsStates(states, finalState, done, dect, order, entries)
    && IdsIn(entries, order, done)
  }

  /** Exporting one more state `q`, after the numbering grew, under its id. */
  lemma ExportStep(states: StateMap, finalState: nat, done: set<nat>, dect0: map<nat, nat>, order0: seq<nat>,
                   entries: map<nat, NfaEntry>, q: nat, dect: map<nat, nat>, order: seq<nat>, e: NfaEntry)
    requires Exporting(states, finalState, done, dect0, order0, entries)
    requires q in states && q !in done && Numbered(dect, order) && Extends(dect0, order0, dect, order)
    requires q in dect && ExportsEntry(states, finalState, q, dect, order, e)
    ensures Exporting(states, finalState, done + {q}, dect, order, entries[dect[q] := e])
  {
    ExportsStatesStable(states, finalState, done, dect0, order0, dect, order, entries);
    IdsInAdd(entries, order0, order, done, dect[q], q, e);
    ExportsStatesAdd(states, finalState, done, dect, order, entries, q, e);
  }

  /** Exactly one entry, the one with id `i`, is terminating. */
  predicate OneTerminating(d: NfaDict, i: nat) {
    && i in d.entries && d.entries[i].terminating
    && forall j :: j in d.entries && d.entries[j].terminating ==> j == i
  }

  /** The start and final states are states, and so is every destination. */
  ghost predicate Closed(startingState: nat, finalState: nat, states: StateMap) {
    && startingState in states && finalState in states
    && forall q :: q in states ==> TableTargets(states[q]) <= states.Keys
  }

  /** The exported NFA: the states, the final state and the id memo. */
  class Nfa {
    const startingState: nat
    const finalState: nat
    const states: StateMap
    var dect: map<nat, nat>
    var index: nat
    ghost var order: seq<nat>

    /** The memo hands out 0 .. index - 1 in order of first sight. */
    ghost predicate Valid()
      reads this
    {
      index == |order| && Numbered(dect, order)
    }

    constructor (startingState: nat, finalState: nat, states: StateMap)
      ensures this.startingState == startingState && this.finalState == finalState && this.states == states
      ensures dect == map[] && index == 0 && order == []
      ensures Valid()
    {
      this.startingState := startingState;
      this.finalState := finalState;
      this.states := states;
      dect := map[];
      index := 0;
      order := [];
    }

    /** The id of `state`: its memoised id, or the next unused one on first sight. */
    method StateToNumber(state: nat) returns (id: nat)
      requires Valid()
      modifies this
      ensures Valid() && state in dect && id == dect[state]
      ensures old(state in dect) ==> dect == old(dect) && order == old(order)
      ensures old(state !in dect) ==> dect == old(dect)[state := old(index)] && order == old(order) + [state]
      ensures Extends(old(dect), old(order), dect, order)
      ensures forall p :: p in dect ==> p in old(dect) || p == state
    {
      if state !in dect {
        NumberedGrow(dect, order, state);
        dect := dect[state := index];
        index := index + 1;
        order := order + [state];
      }
      id := dect[state];
    }

    /** The ids of a set of targets, in any order (the order of the source's set iteration). */
    method ExportTargets(targets: set<nat>) returns (ids: seq<nat>)
      requires Valid()
      modifies this
      ensures Valid() && Extends(old(dect), old(order), dect, order)
      ensures ListsIds(targets, dect, order, ids)
      ensures forall q :: q in dect ==> q in old(dect) || q in targets
      ensures (forall t :: t in targets ==> t in old(dect)) ==> dect == old(dect) && order == old(order)
    {
      ids := [];
      var rest := targets;
      while rest != {}
        invariant Valid() && Extends(old(dect), old(order), dect, order)
        invariant rest <= targets
        invariant forall t :: t in targets && t !in rest ==> t in dect && dect[t] in ids
        invariant forall i :: i in ids ==> i < |order| && order[i] in targets && order[i] !in rest
        invariant forall a, b :: 0 <= a < b < |ids| ==> ids[a] != ids[b]
        invariant forall q :: q in dect ==> q in old(dect) || q in targets
        invariant (forall t :: t in targets ==> t in old(dect)) ==> dect == old(dect) && order == old(order)
        decreases |rest|
      {
        var t :| t in rest;
        ghost var dect0, order0 := dect, order;
        var id := StateToNumber(t);
        ExtendsTrans(old(dect), old(order), dect0, order0, dect, order);
        ids := ids + [id];
        rest := rest - {t};
      }
    }

    /** One state's table, with every label renamed to its key. */
    method ExportTable(table: Table) returns (edges: map<string, seq<nat>>)
      requires Valid()
      modifies this
      ensures Valid() && Extends(old(dect), old(order), dect, order)
      ensures ExportsTable(table, dect, order, edges)
      ensures forall q :: q in dect ==> q in old(dect) || q in TableTargets(table)
      ensures (forall t :: t in TableTargets(table) ==> t in old(dect)) ==> dect == old(dect) && order == old(order)
    {
      edges := map[];
      var rest := table.Keys;
      while rest != {}
        invariant Valid() && Extends(old(dect), old(order), dect, order)
        invariant rest <= table.Keys
        invariant ExportsTableBut(table, rest, dect, order, edges)
        invariant forall q :: q in dect ==> q in old(dect) || q in TableTargets(table)
        invariant (forall t :: t in TableTargets(table) ==> t in old(dect)) ==> dect == old(dect) && order == old(order)
        decreases |rest|
      {
        var l :| l in rest;
        ghost var dect0, order0 := dect, order;
        var ids := ExportTargets(table[l]);
        ExtendsTrans(old(dect), old(order), dect0, order0, dect, order);
        ExportsTableStep(table, rest, dect0, order0, edges, l, dect, order, ids);
        edges := edges[LabelKey(l) := ids];
        rest := rest - {l};
      }
    }

    /**
     * The body of the export loop for one state: its table, then its id and
     * the final state's id (compared for the terminating flag), then its id
     * again as the dictionary key.
     */
    method ExportState(q: nat) returns (id: nat, entry: NfaEntry)
      requires Valid() && q in states
      modifies this
      ensures Valid() && Extends(old(dect), old(order), dect, order)
      ensures q in dect && id == dect[q] && ExportsEntry(states, finalState, q, dect, order, entry)
      ensures forall p :: p in dect ==> p in old(dect) || p == q || p == finalState || p in TableTargets(states[q])
      ensures Closed(startingState, finalState, states) ==> forall p :: p in dect ==> p in old(dect) || p in states
    {
      var edges := ExportTable(states[q]);
      ghost var dect0, order0 := dect, order;
      var stateId := StateToNumber(q);
      ghost var dect1, order1 := dect, order;
      var finalId := StateToNumber(finalState);
      id := StateToNumber(q);
      ExtendsTrans(dect0, order0, dect1, order1, dect, order);
      ExtendsTrans(old(dect), old(order), dect0, order0, dect, order);
      ExportsTableStable(states[q], dect0, order0, dect, order, edges);
      NumberedInjective(dect, order, q, finalState);
      entry := NfaEntry(stateId == finalId, edges);
    }

    /**
     * The dictionary: the start state's id first, then one entry per state,
     * in any order (the order of the source's dict iteration).
     */
    method ToDict() returns (d: NfaDict)
      requires Valid()
      modifies this
      ensures Valid() && Extends(old(dect), old(order), dect, order)
      ensures startingState in dect && d.start == dect[startingState]
      ensures old(index) == 0 ==> d.start == 0
      ensures ExportsStates(states, finalState, states.Keys, dect, order, d.entries)
      ensures forall i :: i in d.entries ==> i < |order| && order[i] in states
      ensures finalState in states ==> OneTerminating(d, dect[finalState])
      ensures Closed(startingState, finalState, states) ==> forall q :: q in dect ==> q in old(dect) || q in states
    {
      var start := StateToNumber(startingState);
      var entries: map<nat, NfaEntry> := map[];
      var rest := states.Keys;
      ghost var done: set<nat> := {};
      while rest != {}
        invariant Valid() && Extends(old(dect), old(order), dect, order)
        invariant startingState in dect && start == dect[startingState]
        invariant old(index) == 0 ==> start == 0
        invariant rest <= states.Keys && done == states.Keys - rest
        invariant Exporting(states, finalState, done, dect, order, entries)
        invariant Closed(startingState, finalState, states) ==> forall q :: q in dect ==> q in old(dect) || q in states
        decreases |rest|
      {
        var q :| q in rest;
        ghost var dect0, order0 := dect, order;
        var id, entry := ExportState(q);
        ExtendsTrans(old(dect), old(order), dect0, order0, dect, order);
        ExportStep(states, finalState, done, dect0, order0, entries, q, dect, order, entry);
        entries := entries[id := entry];
        rest := rest - {q};
        done := done + {q};
      }
      d := NfaDict(start, entries);
      if finalState in states {
        forall j | j in d.entries && d.entries[j].terminating ensures j == dect[finalState] {
          assert dect[order[j]] == j;
        }
      }
    }
  }
}
