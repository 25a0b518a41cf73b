/**
 * Partitions of an exported DFA's states into groups, as the minimiser
 * refines them: the group index of each state, the signature of a state
 * (for every symbol, the group of its successor, or "stuck" when it has
 * no transition), stability, and the behaviour of a state (where a
 * sequence of symbols gets stuck, or whether it ends accepting), which
 * the groups of a stable partition capture exactly.
 */
module Partitions {
  import opened Results
  import opened NfaToDfa

  /** Groups of states, in order. */
  type Partition = seq<set<nat>>

  /** Where a state goes on one symbol: into a group, or nowhere. */
  datatype Target = Stuck | Group(index: nat)

  /** A state's target on every symbol of the alphabet. */
  type Signature = map<string, Target>

  /** Every edge of the DFA leads to one of its states. */
  predicate TargetsAreStates(d: DfaDict) {
    forall s, a :: s in d.entries && a in d.entries[s].edges ==> d.entries[s].edges[a] in d.entries
  }

  /** Every edge key of every state. */
  function DfaSymbols(d: DfaDict): set<string> {
    set s, a | s in d.entries && a in d.entries[s].edges :: a
  }

  /** The states whose entry is terminating. */
  function AcceptingIds(d: DfaDict): set<nat> {
    set s | s in d.entries && d.entries[s].terminating
  }

  /** The states in some group. */
  function Union(p: Partition): (r: set<nat>)
    ensures forall i, s :: 0 <= i < |p| && s in p[i] ==> s in r
    decreases |p|
  {
    if p == [] then {} else Union(p[..|p| - 1]) + p[|p| - 1]
  }

  /** No state is in two groups. */
  ghost predicate Disjoint(p: Partition) {
    forall i, j :: 0 <= i < j < |p| ==> p[i] !! p[j]
  }

  /** No group is empty. */
  ghost predicate NoEmpty(p: Partition) {
    forall i :: 0 <= i < |p| ==> p[i] != {}
  }

  /** How many groups are not empty. */
  function NonEmptyCount(p: Partition): (n: nat)
    ensures n <= |p|
    decreases |p|
  {
    if p == [] then 0 else NonEmptyCount(p[..|p| - 1]) + (if p[|p| - 1] == {} then 0 else 1)
  }

  /** Every state of `g` with the index `i`. */
  function Indexed(g: set<nat>, i: nat): map<nat, nat>
  {
    map s | s in g :: i
  }

  /** Each state's group index; where groups overlap, the later group wins. */
  function IndexMap(p: Partition): (r: map<nat, nat>)
    ensures r.Keys == Union(p)
    ensures forall s :: s in r ==> r[s] < |p|
    decreases |p|
  {
    if p == [] then map[] else
      IndexMap(p[..|p| - 1]) + Indexed(p[|p| - 1], |p| - 1)
  }

  /** The indices after one more group: that group's states now have its index. */
  lemma IndexMapSnoc(p: Partition, i: nat)
    requires i < |p|
    ensures IndexMap(p[..i + 1]) == IndexMap(p[..i]) + Indexed(p[i], i)
  {
    var q := p[..i + 1];
    assert q[..|q| - 1] == p[..i] && q[|q| - 1] == p[i];
  }

  /** Giving one more state the index `i`. */
  lemma IndexAdd(m: map<nat, nat>, done: set<nat>, x: nat, i: nat)
    ensures (m + Indexed(done, i))[x := i] == m + Indexed(done + {x}, i)
  {
  }

  /** Moving one element from what is left to what is done keeps the two complementary. */
  lemma TakeOne<T>(all: set<T>, rest: set<T>, done: set<T>, x: T)
    requires rest <= all && done == all - rest && x in rest
    ensures rest - {x} <= all && done + {x} == all - (rest - {x}) && |rest - {x}| < |rest|
  {
  }

  /** Setting one key of `a` to `v` gives `b`, when `b` is `a` with that key set to `v`. */
  lemma SetOne<K, V>(a: map<K, V>, b: map<K, V>, k: K, v: V)
    requires b.Keys == a.Keys + {k} && b[k] == v
    requires forall x :: x in a && x != k ==> b[x] == a[x]
    ensures a[k := v] == b
  {
    var l := a[k := v];
    assert l.Keys == b.Keys;
    forall x | x in l ensures l[x] == b[x] {
    }
  }

  /** Updating the right operand of a map union at one key, where `b` is `a` with that key set to `v`. */
  lemma AddOne<K, V>(m: map<K, V>, a: map<K, V>, b: map<K, V>, k: K, v: V)
    requires b.Keys == a.Keys + {k} && b[k] == v
    requires forall x :: x in a && x != k ==> b[x] == a[x]
    ensures (m + a)[k := v] == m + b
  {
    var l, r := (m + a)[k := v], m + b;
    assert l.Keys == r.Keys;
    forall x | x in l ensures l[x] == r[x] {
    }
  }

  /** The states of two lists of groups, one after the other. */
  lemma {:induction false} UnionAppend(a: Partition, b: Partition)
    ensures Union(a + b) == Union(a) + Union(b)
    decreases |b|
  {
    if b == [] {
      assert a + b == a;
    } else {
      var b' := b[..|b| - 1];
      assert (a + b)[..|a + b| - 1] == a + b' && (a + b)[|a + b| - 1] == b[|b| - 1];
      UnionAppend(a, b');
    }
  }

  /** A prefix of groups without overlaps has none either. */
  lemma DisjointPrefix(p: Partition, n: nat)
    requires Disjoint(p) && n <= |p|
    ensures Disjoint(p[..n])
  {
    forall i, j | 0 <= i < j < n ensures p[..n][i] !! p[..n][j] {
      assert p[..n][i] == p[i] && p[..n][j] == p[j];
    }
  }

  /** Two lists of groups without overlaps, sharing no state, joined. */
  lemma DisjointAppend(a: Partition, b: Partition)
    requires Disjoint(a) && Disjoint(b) && Union(a) !! Union(b)
    ensures Disjoint(a + b)
  {
    var c := a + b;
    forall i, j | 0 <= i < j < |c| ensures c[i] !! c[j] {
      if j < |a| {
        assert c[i] == a[i] && c[j] == a[j];
      } else if i >= |a| {
        assert c[i] == b[i - |a|] && c[j] == b[j - |a|];
      } else {
        assert c[i] == a[i] && c[j] == b[j - |a|];
        forall x | x in a[i] ensures x !in b[j - |a|] {
          assert x in Union(a);
        }
      }
    }
  }

  /** Two lists of groups that are not empty, joined. */
  lemma NoEmptyAppend(a: Partition, b: Partition)
    requires NoEmpty(a) && NoEmpty(b)
    ensures NoEmpty(a + b)
  {
    forall k | 0 <= k < |a + b| ensures (a + b)[k] != {} {
      if k < |a| {
        assert (a + b)[k] == a[k];
      } else {
        assert (a + b)[k] == b[k - |a|];
      }
    }
  }

  /** In a partition without overlaps, the index of a state is the group it is in. */
  lemma {:induction false} IndexMapAt(p: Partition, i: nat, s: nat)
    requires Disjoint(p) && i < |p| && s in p[i]
    ensures s in IndexMap(p) && IndexMap(p)[s] == i
    decreases |p|
  {
    var pre := p[..|p| - 1];
    if i < |p| - 1 {
      assert p[i] !! p[|p| - 1];
      assert pre[i] == p[i];
      IndexMapAt(pre, i, s);
    }
  }

  /** A state's index names a group it is in. */
  lemma {:induction false} IndexMapIn(p: Partition, s: nat)
    requires s in IndexMap(p)
    ensures s in p[IndexMap(p)[s]]
    decreases |p|
  {
    var pre := p[..|p| - 1];
    if s !in p[|p| - 1] {
      IndexMapIn(pre, s);
      assert pre[IndexMap(pre)[s]] == p[IndexMap(pre)[s]];
    }
  }

  /** In a partition without overlaps, a state of the first `i` groups has an index below `i`. */
  lemma IndexBefore(p: Partition, i: nat, s: nat)
    requires Disjoint(p) && i <= |p| && s in Union(p[..i])
    ensures s in IndexMap(p) && IndexMap(p)[s] < i
  {
    IndexMapIn(p[..i], s);
    var j := IndexMap(p[..i])[s];
    assert p[..i][j] == p[j];
    IndexMapAt(p, j, s);
  }

  /** The groups before the last one share no state with it. */
  lemma UnionDisjointLast(p: Partition)
    requires Disjoint(p) && p != []
    ensures Union(p[..|p| - 1]) !! p[|p| - 1]
  {
    var pre := p[..|p| - 1];
    forall s | s in Union(pre) ensures s !in p[|p| - 1] {
      IndexMapIn(pre, s);
      assert pre[IndexMap(pre)[s]] == p[IndexMap(pre)[s]];
    }
  }

  /** Groups that are not empty and do not overlap are no more than the states in them. */
  lemma {:induction false} NonEmptyBound(p: Partition)
    requires Disjoint(p)
    ensures NonEmptyCount(p) <= |Union(p)|
    decreases |p|
  {
    if p != [] {
      var pre := p[..|p| - 1];
      assert Disjoint(pre) by {
        forall i, j | 0 <= i < j < |pre| ensures pre[i] !! pre[j] {
          assert pre[i] == p[i] && pre[j] == p[j];
        }
      }
      NonEmptyBound(pre);
      UnionDisjointLast(p);
    }
  }

  /** The signature of `s`: for every symbol, the group of its successor, or stuck. */
  function SignatureOf(d: DfaDict, index: map<nat, nat>, s: nat): Signature
    requires s in d.entries
    requires forall a :: a in d.entries[s].edges ==> d.entries[s].edges[a] in index
  {
    SignatureOn(d, index, s, DfaSymbols(d))
  }

  /** Where `s` goes on `a`: the group of its successor, or stuck. */
  function TargetOf(d: DfaDict, index: map<nat, nat>, s: nat, a: string): Target
    requires s in d.entries
    requires forall a :: a in d.entries[s].edges ==> d.entries[s].edges[a] in index
  {
    if a in d.entries[s].edges then Group(index[d.entries[s].edges[a]]) else Stuck
  }

  /** The signature of `s` on the symbols `syms` only. */
  function SignatureOn(d: DfaDict, index: map<nat, nat>, s: nat, syms: set<string>): Signature
    requires s in d.entries
    requires forall a :: a in d.entries[s].edges ==> d.entries[s].edges[a] in index
  {
    map a | a in syms :: TargetOf(d, index, s, a)
  }

  /** Considering one more symbol adds the target on it. */
  lemma SignatureOnAdd(d: DfaDict, index: map<nat, nat>, s: nat, syms: set<string>, a: string)
    requires s in d.entries
    requires forall a :: a in d.entries[s].edges ==> d.entries[s].edges[a] in index
    ensures SignatureOn(d, index, s, syms)[a := TargetOf(d, index, s, a)] == SignatureOn(d, index, s, syms + {a})
  {
    SetOne(SignatureOn(d, index, s, syms), SignatureOn(d, index, s, syms + {a}), a, TargetOf(d, index, s, a));
  }

  /** The groups hold exactly the DFA's states, and every edge leads to one of them. */
  predicate Fits(d: DfaDict, p: Partition) {
    TargetsAreStates(d) && Union(p) == d.entries.Keys
  }

  /** The signature of every state of `g`, under `index`. */
  function SignaturesOf(d: DfaDict, index: map<nat, nat>, g: set<nat>): map<nat, Signature>
    requires TargetsAreStates(d) && d.entries.Keys <= index.Keys && g <= d.entries.Keys
  {
    map s | s in g :: SignatureOf(d, index, s)
  }

  /** The signature of every state, under the group indices of `p`. */
  function Signatures(d: DfaDict, p: Partition): (r: map<nat, Signature>)
    requires Fits(d, p)
    ensures r.Keys == d.entries.Keys
  {
    SignaturesOf(d, IndexMap(p), d.entries.Keys)
  }

  /** The signature of a state among all signatures. */
  lemma SignaturesAt(d: DfaDict, p: Partition, s: nat)
    requires Fits(d, p) && s in d.entries
    ensures Signatures(d, p)[s] == SignatureOf(d, IndexMap(p), s)
  {
  }

  /** Adding the signature of one more state. */
  lemma SignaturesAdd(d: DfaDict, index: map<nat, nat>, m: map<nat, Signature>, g: set<nat>, st: nat)
    requires TargetsAreStates(d) && d.entries.Keys <= index.Keys && g <= d.entries.Keys && st in d.entries
    ensures (m + SignaturesOf(d, index, g))[st := SignatureOf(d, index, st)] == m + SignaturesOf(d, index, g + {st})
  {
    AddOne(m, SignaturesOf(d, index, g), SignaturesOf(d, index, g + {st}), st, SignatureOf(d, index, st));
  }

  /** The signatures of two sets of states together. */
  lemma SignaturesUnion(d: DfaDict, index: map<nat, nat>, g: set<nat>, h: set<nat>)
    requires TargetsAreStates(d) && d.entries.Keys <= index.Keys && g <= d.entries.Keys && h <= d.entries.Keys
    ensures SignaturesOf(d, index, g) + SignaturesOf(d, index, h) == SignaturesOf(d, index, g + h)
  {
  }

  /** Two states with the same signature have the same edge keys and successors in the same group. */
  lemma SignatureMoves(d: DfaDict, p: Partition, s: nat, t: nat)
    requires Fits(d, p) && s in d.entries && t in d.entries
    requires SignatureOf(d, IndexMap(p), s) == SignatureOf(d, IndexMap(p), t)
    ensures forall a :: a in d.entries[s].edges <==> a in d.entries[t].edges
    ensures forall a :: a in d.entries[s].edges ==>
      IndexMap(p)[d.entries[s].edges[a]] == IndexMap(p)[d.entries[t].edges[a]]
  {
    var sig := SignatureOf(d, IndexMap(p), s);
    forall a | a in d.entries[s].edges || a in d.entries[t].edges
      ensures a in d.entries[s].edges && a in d.entries[t].edges
      ensures IndexMap(p)[d.entries[s].edges[a]] == IndexMap(p)[d.entries[t].edges[a]]
    {
      assert a in DfaSymbols(d);
      assert sig[a] != Stuck;
    }
  }

  /** Every group holds only accepting states or only non-accepting states. */
  ghost predicate Respects(d: DfaDict, p: Partition) {
    forall i, s, t :: 0 <= i < |p| && s in p[i] && t in p[i] ==> (s in AcceptingIds(d) <==> t in AcceptingIds(d))
  }

  /** The members of every group share their signature. */
  ghost predicate Stable(d: DfaDict, p: Partition)
    requires Fits(d, p)
  {
    forall i, s, t :: 0 <= i < |p| && s in p[i] && t in p[i] ==>
      SignatureOf(d, IndexMap(p), s) == SignatureOf(d, IndexMap(p), t)
  }

  /**
   * What the symbols `syms`, read one at a time from `s`, lead to: None
   * when a state is missing or has no transition, otherwise whether the
   * state reached is terminating.
   */
  function Outcome(d: DfaDict, s: nat, syms: seq<string>): Option<bool>
    decreases |syms|
  {
    if s !in d.entries then None
    else if syms == [] then Some(d.entries[s].terminating)
    else if syms[0] in d.entries[s].edges then Outcome(d, d.entries[s].edges[syms[0]], syms[1..])
    else None
  }

  /** `s` and `t` behave alike on every sequence of symbols. */
  ghost predicate Equivalent(d: DfaDict, s: nat, t: nat) {
    forall syms :: Outcome(d, s, syms) == Outcome(d, t, syms)
  }

  /** States that behave alike are in the same group. */
  ghost predicate Coarse(d: DfaDict, p: Partition) {
    forall s, t {:trigger Equivalent(d, s, t)} :: s in d.entries && t in d.entries && Equivalent(d, s, t) ==>
      s in IndexMap(p) && t in IndexMap(p) && IndexMap(p)[s] == IndexMap(p)[t]
  }

  /** Reading a symbol first and then `syms` is reading `syms` from the successor. */
  lemma OutcomeCons(d: DfaDict, s: nat, a: string, syms: seq<string>)
    requires s in d.entries && a in d.entries[s].edges
    ensures Outcome(d, s, [a] + syms) == Outcome(d, d.entries[s].edges[a], syms)
  {
    assert ([a] + syms)[0] == a && ([a] + syms)[1..] == syms;
  }

  /** States that behave alike have the same signature under a partition that keeps them together. */
  lemma EquivalentSignature(d: DfaDict, p: Partition, s: nat, t: nat)
    requires Fits(d, p) && Coarse(d, p)
    requires s in d.entries && t in d.entries && Equivalent(d, s, t)
    ensures SignatureOf(d, IndexMap(p), s) == SignatureOf(d, IndexMap(p), t)
  {
    var es, et := d.entries[s].edges, d.entries[t].edges;
    forall a | a in es || a in et
      ensures a in es && a in et && IndexMap(p)[es[a]] == IndexMap(p)[et[a]]
    {
      assert Outcome(d, s, [a]) == Outcome(d, t, [a]);
      if a in es {
        OutcomeCons(d, s, a, []);
      } else {
        OutcomeCons(d, t, a, []);
      }
      forall syms ensures Outcome(d, es[a], syms) == Outcome(d, et[a], syms) {
        OutcomeCons(d, s, a, syms);
        OutcomeCons(d, t, a, syms);
        assert Outcome(d, s, [a] + syms) == Outcome(d, t, [a] + syms);
      }
      assert Equivalent(d, es[a], et[a]);
    }
  }

  /** Members of one group of a stable partition that respects acceptance behave alike on `syms`. */
  lemma {:induction false} StableOutcome(d: DfaDict, p: Partition, i: nat, s: nat, t: nat, syms: seq<string>)
    requires Fits(d, p) && Stable(d, p) && Respects(d, p)
    requires i < |p| && s in p[i] && t in p[i]
    ensures Outcome(d, s, syms) == Outcome(d, t, syms)
    decreases |syms|
  {
    assert s in AcceptingIds(d) <==> t in AcceptingIds(d);
    if syms != [] {
      var a := syms[0];
      SignatureMoves(d, p, s, t);
      if a in d.entries[s].edges {
        var s', t' := d.entries[s].edges[a], d.entries[t].edges[a];
        IndexMapIn(p, s');
        IndexMapIn(p, t');
        StableOutcome(d, p, IndexMap(p)[s'], s', t', syms[1..]);
      }
    }
  }
}
