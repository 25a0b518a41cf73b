/**
 * What the subset construction computes, stated on the exported NFA
 * dictionary: the destinations of a move, the epsilon-closure (the least
 * superset closed under "epsilon" edges), the input alphabet, the accepting
 * subsets, and the run of the subset automaton over a word.
 */
module NfaSemantics {
  import opened NfaExport

  /** `t` is a `sym`-destination of `s`; a state that is not a key has no edges. */
  predicate Edge(nfa: NfaDict, s: nat, sym: string, t: nat) {
    s in nfa.entries && sym in nfa.entries[s].edges && t in nfa.entries[s].edges[sym]
  }

  /** The destinations listed under `sym` for `s`, or none. */
  function Successors(nfa: NfaDict, s: nat, sym: string): seq<nat> {
    if s in nfa.entries && sym in nfa.entries[s].edges then nfa.entries[s].edges[sym] else []
  }

  /** Every destination of every edge of the NFA. */
  function AllTargets(nfa: NfaDict): set<nat> {
    set s, sym, t | s in nfa.entries && sym in nfa.entries[s].edges && t in nfa.entries[s].edges[sym] :: t
  }

  /** The union of the `sym`-destinations of the members of `states`. */
  function MoveSet(nfa: NfaDict, states: set<nat>, sym: string): set<nat> {
    set s, t | s in states && Edge(nfa, s, sym, t) && t in Successors(nfa, s, sym) :: t
  }

  /** The move holds exactly the `sym`-destinations of members, all of them destinations of edges. */
  lemma MoveSetMembers(nfa: NfaDict, states: set<nat>, sym: string)
    ensures forall t :: t in MoveSet(nfa, states, sym) <==> exists s :: s in states && Edge(nfa, s, sym, t)
    ensures MoveSet(nfa, states, sym) <= AllTargets(nfa)
  {
    forall t | t in MoveSet(nfa, states, sym) ensures t in AllTargets(nfa) {
      var s :| s in states && Edge(nfa, s, sym, t);
    }
  }

  /** No "epsilon" edge leaves `states`. */
  ghost predicate EpsClosed(nfa: NfaDict, states: set<nat>) {
    forall s, t :: s in states && Edge(nfa, s, "epsilon", t) ==> t in states
  }

  /** `states` plus one round of "epsilon" destinations. */
  function EpsStep(nfa: NfaDict, states: set<nat>): set<nat> {
    states + MoveSet(nfa, states, "epsilon")
  }

  /** One round adds exactly the "epsilon" destinations of members. */
  lemma EpsStepMembers(nfa: NfaDict, states: set<nat>)
    ensures states <= EpsStep(nfa, states) <= states + AllTargets(nfa)
    ensures forall s, t :: s in states && Edge(nfa, s, "epsilon", t) ==> t in EpsStep(nfa, states)
    ensures forall t :: t in EpsStep(nfa, states) ==> t in states || exists s :: s in states && Edge(nfa, s, "epsilon", t)
  {
    MoveSetMembers(nfa, states, "epsilon");
  }

  /** Removing more of a finite set leaves less of it. */
  lemma DiffShrinks<T>(u: set<T>, a: set<T>, b: set<T>)
    requires a < b && b - a <= u
    ensures |u - b| < |u - a|
  {
    var x :| x in b && x !in a;
    SubsetCard(u - b, (u - a) - {x});
    assert u - a == ((u - a) - {x}) + {x};
  }

  /** A subset is no larger than its superset. */
  lemma {:induction false} SubsetCard<T>(a: set<T>, b: set<T>)
    requires a <= b
    ensures |a| <= |b|
    decreases |a|
  {
    if a != {} {
      var x :| x in a;
      SubsetCard(a - {x}, b - {x});
      assert a == (a - {x}) + {x} && b == (b - {x}) + {x};
    }
  }

  /** A proper subset is smaller. */
  lemma StrictSubsetCard<T>(a: set<T>, b: set<T>)
    requires a < b
    ensures |a| < |b|
  {
    var x :| x in b && x !in a;
    SubsetCard(a, b - {x});
    assert b == (b - {x}) + {x};
  }

  /** The epsilon-closure: one-step closure repeated until nothing is added. */
  function Closure(nfa: NfaDict, states: set<nat>): (r: set<nat>)
    ensures states <= r
    decreases |AllTargets(nfa) - states|
  {
    var next := EpsStep(nfa, states);
    if next == states then states
    else
      EpsStepMembers(nfa, states);
      DiffShrinks(AllTargets(nfa), states, next);
      Closure(nfa, next)
  }

  /** The closure adds only destinations of edges. */
  lemma {:induction false} ClosureWithin(nfa: NfaDict, states: set<nat>)
    ensures Closure(nfa, states) <= states + AllTargets(nfa)
    decreases |AllTargets(nfa) - states|
  {
    var next := EpsStep(nfa, states);
    EpsStepMembers(nfa, states);
    if next != states {
      DiffShrinks(AllTargets(nfa), states, next);
      ClosureWithin(nfa, next);
    }
  }

  /** The closure is closed under "epsilon" edges. */
  lemma {:induction false} ClosureClosed(nfa: NfaDict, states: set<nat>)
    ensures EpsClosed(nfa, Closure(nfa, states))
    decreases |AllTargets(nfa) - states|
  {
    var next := EpsStep(nfa, states);
    EpsStepMembers(nfa, states);
    if next != states {
      DiffShrinks(AllTargets(nfa), states, next);
      ClosureClosed(nfa, next);
    }
  }

  /** The closure is contained in every closed superset, so it holds only reachable states. */
  lemma {:induction false} ClosureLeast(nfa: NfaDict, states: set<nat>, u: set<nat>)
    requires states <= u && EpsClosed(nfa, u)
    ensures Closure(nfa, states) <= u
    decreases |AllTargets(nfa) - states|
  {
    var next := EpsStep(nfa, states);
    EpsStepMembers(nfa, states);
    if next != states {
      DiffShrinks(AllTargets(nfa), states, next);
      ClosureLeast(nfa, next, u);
    }
  }

  /** The closure is the only closed superset contained in every closed superset. */
  lemma ClosureUnique(nfa: NfaDict, states: set<nat>, c: set<nat>)
    requires states <= c && EpsClosed(nfa, c)
    requires forall u :: states <= u && EpsClosed(nfa, u) ==> c <= u
    ensures c == Closure(nfa, states)
  {
    ClosureClosed(nfa, states);
    ClosureLeast(nfa, states, c);
  }

  /** Taking the closure twice adds nothing. */
  lemma ClosureIdempotent(nfa: NfaDict, states: set<nat>)
    ensures Closure(nfa, Closure(nfa, states)) == Closure(nfa, states)
  {
    var c := Closure(nfa, states);
    ClosureClosed(nfa, states);
    ClosureLeast(nfa, c, c);
  }

  /** `p` is a walk along "epsilon" edges. */
  ghost predicate EpsPath(nfa: NfaDict, p: seq<nat>) {
    |p| >= 1 && forall i :: 0 <= i < |p| - 1 ==> Edge(nfa, p[i], "epsilon", p[i + 1])
  }

  /** `t` is reachable from a member of `states` along "epsilon" edges alone. */
  ghost predicate EpsReachable(nfa: NfaDict, states: set<nat>, t: nat) {
    exists p :: EpsPath(nfa, p) && p[0] in states && p[|p| - 1] == t
  }

  /** An "epsilon" edge into the head of a walk extends the walk. */
  lemma PathCons(nfa: NfaDict, s: nat, p: seq<nat>)
    requires EpsPath(nfa, p) && Edge(nfa, s, "epsilon", p[0])
    ensures EpsPath(nfa, [s] + p) && ([s] + p)[|p|] == p[|p| - 1]
  {
    var p' := [s] + p;
    forall i | 0 <= i < |p'| - 1 ensures Edge(nfa, p'[i], "epsilon", p'[i + 1]) {
      if i > 0 {
        assert p'[i] == p[i - 1] && p'[i + 1] == p[i];
      }
    }
  }

  /** Dropping the first state of a walk leaves a walk. */
  lemma PathTail(nfa: NfaDict, p: seq<nat>)
    requires EpsPath(nfa, p) && |p| > 1
    ensures EpsPath(nfa, p[1..]) && p[1..][0] == p[1] && p[1..][|p| - 2] == p[|p| - 1]
  {
    var rest := p[1..];
    forall i | 0 <= i < |rest| - 1 ensures Edge(nfa, rest[i], "epsilon", rest[i + 1]) {
      assert rest[i] == p[i + 1] && rest[i + 1] == p[i + 2];
    }
  }

  /** Every member of the closure is the end of an "epsilon" walk from `states`; `p` is one. */
  lemma {:induction false} ClosureWalk(nfa: NfaDict, states: set<nat>, t: nat) returns (p: seq<nat>)
    requires t in Closure(nfa, states)
    ensures EpsPath(nfa, p) && p[0] in states && p[|p| - 1] == t
    decreases |AllTargets(nfa) - states|
  {
    var next := EpsStep(nfa, states);
    if next == states {
      p := [t];
    } else {
      EpsStepMembers(nfa, states);
      DiffShrinks(AllTargets(nfa), states, next);
      p := ClosureWalk(nfa, next, t);
      if p[0] !in states {
        var s :| s in states && Edge(nfa, s, "epsilon", p[0]);
        PathCons(nfa, s, p);
        p := [s] + p;
      }
    }
  }

  /** Everything in the closure is reachable over "epsilon" edges. */
  lemma ClosureReachable(nfa: NfaDict, states: set<nat>, t: nat)
    requires t in Closure(nfa, states)
    ensures EpsReachable(nfa, states, t)
  {
    var p := ClosureWalk(nfa, states, t);
  }

  /** A walk along "epsilon" edges that starts in a closed set stays in it. */
  lemma {:induction false} PathStaysIn(nfa: NfaDict, p: seq<nat>, c: set<nat>)
    requires EpsPath(nfa, p) && p[0] in c && EpsClosed(nfa, c)
    ensures p[|p| - 1] in c
    decreases |p|
  {
    if |p| > 1 {
      assert Edge(nfa, p[0], "epsilon", p[1]);
      PathTail(nfa, p);
      PathStaysIn(nfa, p[1..], c);
    }
  }

  /** Everything reachable over "epsilon" edges is in the closure. */
  lemma ReachableInClosure(nfa: NfaDict, states: set<nat>, t: nat)
    requires EpsReachable(nfa, states, t)
    ensures t in Closure(nfa, states)
  {
    var p :| EpsPath(nfa, p) && p[0] in states && p[|p| - 1] == t;
    ClosureClosed(nfa, states);
    PathStaysIn(nfa, p, Closure(nfa, states));
  }

  /** The input symbols: every edge key other than "epsilon" and "isTerminatingState". */
  function Alphabet(nfa: NfaDict): set<string> {
    set s, sym | s in nfa.entries && sym in nfa.entries[s].edges && sym != "epsilon" && sym != "isTerminatingState" :: sym
  }

  /** The alphabet holds exactly the keys of some state's table other than the reserved two. */
  lemma AlphabetMembers(nfa: NfaDict)
    ensures forall sym :: sym in Alphabet(nfa) <==>
      sym != "epsilon" && sym != "isTerminatingState" && exists s :: s in nfa.entries && sym in nfa.entries[s].edges
  {
  }

  /** A subset accepts when one of its members is a terminating state. */
  predicate Accepting(nfa: NfaDict, states: set<nat>) {
    exists s :: s in states && s in nfa.entries && nfa.entries[s].terminating
  }

  /** Every NFA state a subset can contain: the start and every destination. */
  function Universe(nfa: NfaDict): set<nat> {
    {nfa.start} + AllTargets(nfa)
  }

  /** A set of NFA states that a DFA state can be: epsilon-closed, holding only the start and destinations. */
  ghost predicate ClosedSubset(nfa: NfaDict, states: set<nat>) {
    states <= Universe(nfa) && EpsClosed(nfa, states)
  }

  /** The subset reached on `sym`: the closure of the move. */
  function SubsetStep(nfa: NfaDict, states: set<nat>, sym: string): set<nat> {
    Closure(nfa, MoveSet(nfa, states, sym))
  }

  /** A step reaches an epsilon-closed subset of the NFA's states. */
  lemma SubsetStepWithin(nfa: NfaDict, states: set<nat>, sym: string)
    ensures ClosedSubset(nfa, SubsetStep(nfa, states, sym))
  {
    MoveSetMembers(nfa, states, sym);
    ClosureWithin(nfa, MoveSet(nfa, states, sym));
    ClosureClosed(nfa, MoveSet(nfa, states, sym));
  }

  /** The subset automaton's run over `word`, one symbol (a one-character key) at a time. */
  function SubsetRun(nfa: NfaDict, states: set<nat>, word: string): set<nat>
    decreases |word|
  {
    if word == [] then states else SubsetRun(nfa, SubsetStep(nfa, states, [word[0]]), word[1..])
  }

  /** All subsets of `u`. */
  ghost function Subsets(u: set<nat>): (r: set<set<nat>>)
    ensures forall t :: t in r <==> t <= u
  {
    if u == {} then
      assert forall t: set<nat> :: t <= u ==> t == {};
      {{}}
    else
      var x :| x in u;
      var rest := Subsets(u - {x});
      var r := rest + set t | t in rest :: t + {x};
      assert forall t :: t <= u ==> t in r by {
        forall t | t <= u ensures t in r {
          if x in t {
            assert t - {x} in rest && t == (t - {x}) + {x};
          } else {
            assert t in rest;
          }
        }
      }
      r
  }

  /** 2 to the power n. */
  function Pow2(n: nat): nat {
    if n == 0 then 1 else 2 * Pow2(n - 1)
  }

  /** The subsets of `u` are those without `x` and those same sets with `x` added. */
  lemma SubsetsSplit(u: set<nat>, x: nat)
    requires x in u
    ensures Subsets(u) == Subsets(u - {x}) + set t | t in Subsets(u - {x}) :: t + {x}
    ensures Subsets(u - {x}) !! set t | t in Subsets(u - {x}) :: t + {x}
  {
    var rest := Subsets(u - {x});
    var added := set t | t in rest :: t + {x};
    forall t | t in Subsets(u) ensures t in rest + added {
      if x in t { assert t - {x} in rest && t == (t - {x}) + {x}; }
    }
    forall t | t in added ensures t !in rest { assert x in t; }
  }

  /** A set of n elements has 2^n subsets. */
  lemma {:induction false} SubsetsCount(u: set<nat>)
    ensures |Subsets(u)| == Pow2(|u|)
    decreases |u|
  {
    if u == {} {
      assert Subsets(u) == {{}};
    } else {
      var x :| x in u;
      assert |u - {x}| == |u| - 1 by { assert u == (u - {x}) + {x}; }
      SubsetsCount(u - {x});
      SubsetsSplit(u, x);
      AddElementCount(Subsets(u - {x}), x);
    }
  }

  /** Adding `x` to each of a family of sets without `x` keeps them apart. */
  lemma {:induction false} AddElementCount(family: set<set<nat>>, x: nat)
    requires forall t :: t in family ==> x !in t
    ensures |set t | t in family :: t + {x}| == |family|
    decreases |family|
  {
    if family != {} {
      var t0 :| t0 in family;
      var rest := family - {t0};
      AddElementCount(rest, x);
      var img := set t | t in rest :: t + {x};
      assert (set t | t in family :: t + {x}) == img + {t0 + {x}};
      assert t0 + {x} !in img by {
        forall t | t in rest ensures t + {x} != t0 + {x} {
          assert (t + {x}) - {x} == t && (t0 + {x}) - {x} == t0;
        }
      }
    }
  }
}
