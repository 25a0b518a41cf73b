/**
 * DFA minimisation by partition refinement over the exported DFA
 * dictionary. Starting from the accepting and the non-accepting states,
 * every round splits each group by signature (for every symbol, the group
 * of the successor, or stuck), until a round changes nothing. The groups
 * are then exactly the classes of states that behave alike, and the
 * quotient DFA, one state per group, behaves like the original from every
 * state.
 */
module Minimize {
  import opened Results
  import opened NfaToDfa
  import opened Partitions

  /** `s` and `t` have the same signature in `sigs`. */
  predicate SameSignature(sigs: map<nat, Signature>, s: nat, t: nat)
    requires s in sigs && t in sigs
  {
    sigs[s] == sigs[t]
  }

  /**
   * `buckets` splits the group `g` by signature: parts that are not empty
   * and cover `g`, members of one part sharing their signature and members
   * of different parts not.
   */
  ghost predicate SplitBy(g: set<nat>, sigs: map<nat, Signature>, buckets: Partition)
    requires g <= sigs.Keys
  {
    && NoEmpty(buckets)
    && Union(buckets) == g
    && (forall j, s, t {:trigger s in buckets[j], t in buckets[j]} ::
          0 <= j < |buckets| && s in buckets[j] && t in buckets[j] ==> SameSignature(sigs, s, t))
    && (forall j, k, s, t {:trigger s in buckets[j], t in buckets[k]} ::
          0 <= j < |buckets| && 0 <= k < |buckets| && s in buckets[j] && t in buckets[k] && SameSignature(sigs, s, t)
          ==> j == k)
  }

  /**
   * The buckets after `done`: one per signature met so far, listed in
   * `keys` in order of first sight, holding the members of `done` with
   * that signature.
   */
  ghost predicate Bucketed(done: set<nat>, sigs: map<nat, Signature>, members: map<Signature, set<nat>>, keys: seq<Signature>) {
    && done <= sigs.Keys
    && (forall x :: x in members <==> x in keys)
    && (forall j, k :: 0 <= j < k < |keys| ==> keys[j] != keys[k])
    && (forall x :: x in members ==> members[x] != {} && forall s :: s in members[x] <==> s in done && sigs[s] == x)
    && (forall s :: s in done ==> sigs[s] in members)
  }

  /** Putting one more state in the bucket of its signature. */
  lemma BucketAdd(done: set<nat>, sigs: map<nat, Signature>, members: map<Signature, set<nat>>, keys: seq<Signature>, st: nat)
    requires Bucketed(done, sigs, members, keys) && st in sigs && st !in done
    ensures sigs[st] in members ==> Bucketed(done + {st}, sigs, members[sigs[st] := members[sigs[st]] + {st}], keys)
    ensures sigs[st] !in members ==> Bucketed(done + {st}, sigs, members[sigs[st] := {st}], keys + [sigs[st]])
  {
  }

  /** The buckets listed in order of first sight split the whole group. */
  lemma BucketsSplit(g: set<nat>, sigs: map<nat, Signature>, members: map<Signature, set<nat>>, keys: seq<Signature>,
                     buckets: Partition)
    requires Bucketed(g, sigs, members, keys)
    requires |buckets| == |keys| && forall j :: 0 <= j < |keys| ==> buckets[j] == members[keys[j]]
    ensures SplitBy(g, sigs, buckets)
  {
    forall j | 0 <= j < |buckets| ensures buckets[j] != {} && keys[j] in members {
    }
    forall j, s | 0 <= j < |buckets| && s in buckets[j] ensures s in g && sigs[s] == keys[j] {
      assert keys[j] in members;
    }
    forall s | s in Union(buckets) ensures s in g {
      IndexMapIn(buckets, s);
    }
    forall s | s in g ensures s in Union(buckets) {
      var j :| 0 <= j < |keys| && keys[j] == sigs[s];
      assert s in buckets[j];
    }
    forall j, s, t | 0 <= j < |buckets| && s in buckets[j] && t in buckets[j] ensures SameSignature(sigs, s, t) {
    }
    forall j, k, s, t | 0 <= j < |buckets| && 0 <= k < |buckets| && s in buckets[j] && t in buckets[k] && SameSignature(sigs, s, t)
      ensures j == k
    {
    }
  }

  /** A split has a part exactly when the group is not empty, and a split into one part is the group itself. */
  lemma SplitSize(g: set<nat>, sigs: map<nat, Signature>, buckets: Partition)
    requires g <= sigs.Keys && SplitBy(g, sigs, buckets)
    ensures (g == {}) == (buckets == [])
    ensures |buckets| == 1 ==> buckets == [g]
  {
    if buckets != [] {
      var x :| x in buckets[0];
      assert x in Union(buckets);
    }
    if |buckets| == 1 {
      assert buckets[..0] == [];
      assert Union(buckets[..0]) == {};
      assert Union(buckets) == buckets[0];
      assert buckets == [buckets[0]];
    }
  }

  /** The parts of a split do not overlap. */
  lemma SplitDisjoint(g: set<nat>, sigs: map<nat, Signature>, buckets: Partition)
    requires g <= sigs.Keys && SplitBy(g, sigs, buckets)
    ensures Disjoint(buckets)
  {
    forall j, k, s | 0 <= j < |buckets| && 0 <= k < |buckets| && s in buckets[j] && s in buckets[k] ensures j == k {
      assert SameSignature(sigs, s, s);
    }
  }

  /** Members of one part share their old group and their signature. */
  ghost predicate Uniform(out: Partition, index: map<nat, nat>, sigs: map<nat, Signature>)
    requires Union(out) <= index.Keys && Union(out) <= sigs.Keys
  {
    forall k, s, t {:trigger s in out[k], t in out[k]} :: 0 <= k < |out| && s in out[k] && t in out[k] ==> index[s] == index[t] && SameSignature(sigs, s, t)
  }

  /** Members of different parts differ in their old group or their signature. */
  ghost predicate Separate(out: Partition, index: map<nat, nat>, sigs: map<nat, Signature>)
    requires Union(out) <= index.Keys && Union(out) <= sigs.Keys
  {
    forall k, l, s, t {:trigger s in out[k], t in out[l]} ::
      0 <= k < |out| && 0 <= l < |out| && s in out[k] && t in out[l] && index[s] == index[t] && SameSignature(sigs, s, t)
      ==> k == l
  }

  /**
   * After the first `i` groups of `p`: the parts so far are not empty, do
   * not overlap and cover those groups; each part keeps to one old group
   * and one signature, and no two parts share both; there is a part for
   * every old group that is not empty, and only one each exactly when
   * nothing split.
   */
  ghost predicate Refining(p: Partition, index: map<nat, nat>, sigs: map<nat, Signature>, i: nat, out: Partition)
    requires i <= |p|
  {
    && NoEmpty(out) && Disjoint(out)
    && Union(out) == Union(p[..i]) && Union(out) <= index.Keys && Union(out) <= sigs.Keys
    && Uniform(out, index, sigs) && Separate(out, index, sigs)
    && NonEmptyCount(p[..i]) <= |out|
    && (NoEmpty(p[..i]) && |out| == i ==> out == p[..i])
  }

  /** One round of refinement of `p` yields `next`: every group of `p` split by signature, in order. */
  ghost predicate Refined(d: DfaDict, p: Partition, next: Partition)
    requires Fits(d, p)
  {
    Refining(p, IndexMap(p), Signatures(d, p), |p|, next)
  }

  /** A group count of all groups that are not empty. */
  lemma {:induction false} NonEmptyCountAll(p: Partition)
    ensures NoEmpty(p) <==> NonEmptyCount(p) == |p|
    decreases |p|
  {
    if p != [] {
      var pre := p[..|p| - 1];
      NonEmptyCountAll(pre);
      assert forall i :: 0 <= i < |pre| ==> pre[i] == p[i];
    }
  }

  /** The states of the first `i` groups are states of `p`. */
  /** The signatures of the first `i + 1` groups: those of the first `i` and those of group `i`. */
  lemma SignaturesNext(d: DfaDict, p: Partition, index: map<nat, nat>, i: nat)
    requires Fits(d, p) && index == IndexMap(p) && i < |p|
    ensures Union(p[..i]) <= d.entries.Keys && Union(p[..i + 1]) <= d.entries.Keys
    ensures SignaturesOf(d, index, Union(p[..i])) + SignaturesOf(d, index, p[i]) == SignaturesOf(d, index, Union(p[..i + 1]))
    ensures p[i] == {} ==> SignaturesOf(d, index, Union(p[..i])) == SignaturesOf(d, index, Union(p[..i + 1]))
  {
    assert p[..i + 1][..i] == p[..i] && p[..i + 1][i] == p[i];
    UnionPrefix(p, i);
    UnionPrefix(p, i + 1);
    SignaturesUnion(d, index, Union(p[..i]), p[i]);
  }

  lemma UnionPrefix(p: Partition, i: nat)
    requires i <= |p|
    ensures Union(p[..i]) <= Union(p)
  {
    forall s | s in Union(p[..i]) ensures s in Union(p) {
      IndexMapIn(p[..i], s);
      assert p[..i][IndexMap(p[..i])[s]] == p[IndexMap(p[..i])[s]];
    }
  }

  /** The parts after group `i` are those before it, which hold earlier groups' states, then the split of group `i`. */
  lemma RefineSides(p: Partition, i: nat, out: Partition, buckets: Partition, k: nat, s: nat)
    requires Disjoint(p) && i < |p| && Union(out) == Union(p[..i]) && Union(buckets) == p[i]
    requires k < |out + buckets| && s in (out + buckets)[k]
    ensures s in IndexMap(p) && (k < |out| <==> IndexMap(p)[s] < i)
    ensures k < |out| ==> s in out[k]
    ensures k >= |out| ==> s in buckets[k - |out|]
  {
    if k < |out| {
      assert (out + buckets)[k] == out[k];
      IndexBefore(p, i, s);
    } else {
      assert (out + buckets)[k] == buckets[k - |out|];
      assert s in Union(buckets);
      IndexMapAt(p, i, s);
    }
  }

  /** The parts after group `i` hold states with a group index and a signature. */
  lemma RefineDomain(p: Partition, sigs: map<nat, Signature>, i: nat, out: Partition, buckets: Partition)
    requires i < |p| && Union(p) <= sigs.Keys && Union(out) == Union(p[..i]) && Union(p[..i]) <= Union(p)
    requires Union(buckets) == p[i]
    ensures Union(out + buckets) <= IndexMap(p).Keys && Union(out + buckets) <= sigs.Keys
  {
    UnionAppend(out, buckets);
  }

  /** Appending the split of group `i` keeps every part within one old group and one signature. */
  lemma RefineUniform(p: Partition, sigs: map<nat, Signature>, i: nat, out: Partition, buckets: Partition)
    requires Disjoint(p) && i < |p| && Union(p) <= sigs.Keys
    requires Union(out) == Union(p[..i]) && Union(p[..i]) <= Union(p) && Uniform(out, IndexMap(p), sigs)
    requires p[i] <= sigs.Keys && SplitBy(p[i], sigs, buckets)
    ensures Union(out + buckets) <= IndexMap(p).Keys && Union(out + buckets) <= sigs.Keys
    ensures Uniform(out + buckets, IndexMap(p), sigs)
  {
    var index, next := IndexMap(p), out + buckets;
    RefineDomain(p, sigs, i, out, buckets);
    forall k, s, t | 0 <= k < |next| && s in next[k] && t in next[k]
      ensures index[s] == index[t] && SameSignature(sigs, s, t)
    {
      UniformPair(p, sigs, i, out, buckets, k, s, t);
    }
  }

  /** Two states of one part after group `i` have the same old group and signature. */
  lemma UniformPair(p: Partition, sigs: map<nat, Signature>, i: nat, out: Partition, buckets: Partition,
                    k: nat, s: nat, t: nat)
    requires Disjoint(p) && i < |p| && Union(out) == Union(p[..i]) && Union(buckets) == p[i]
    requires Union(out) <= IndexMap(p).Keys && Union(out) <= sigs.Keys && Uniform(out, IndexMap(p), sigs)
    requires p[i] <= sigs.Keys && SplitBy(p[i], sigs, buckets)
    requires k < |out + buckets| && s in (out + buckets)[k] && t in (out + buckets)[k]
    ensures s in sigs && t in sigs && s in IndexMap(p) && t in IndexMap(p)
    ensures IndexMap(p)[s] == IndexMap(p)[t] && SameSignature(sigs, s, t)
  {
    RefineSides(p, i, out, buckets, k, s);
    RefineSides(p, i, out, buckets, k, t);
    if k < |out| {
      assert s in out[k] && t in out[k];
      assert IndexMap(p)[s] == IndexMap(p)[t];
      assert SameSignature(sigs, s, t);
    } else {
      var j := k - |out|;
      assert s in buckets[j] && t in buckets[j];
      IndexMapAt(p, i, s);
      IndexMapAt(p, i, t);
      assert SameSignature(sigs, s, t);
    }
  }

  /** Appending the split of group `i` keeps parts with the same old group and signature one part. */
  lemma RefineSeparate(p: Partition, sigs: map<nat, Signature>, i: nat, out: Partition, buckets: Partition)
    requires Disjoint(p) && i < |p| && Union(p) <= sigs.Keys
    requires Union(out) == Union(p[..i]) && Union(p[..i]) <= Union(p) && Separate(out, IndexMap(p), sigs)
    requires p[i] <= sigs.Keys && SplitBy(p[i], sigs, buckets)
    ensures Union(out + buckets) <= IndexMap(p).Keys && Union(out + buckets) <= sigs.Keys
    ensures Separate(out + buckets, IndexMap(p), sigs)
  {
    var index, next := IndexMap(p), out + buckets;
    RefineDomain(p, sigs, i, out, buckets);
    forall k, l, s, t |
      0 <= k < |next| && 0 <= l < |next| && s in next[k] && t in next[l] && index[s] == index[t] && SameSignature(sigs, s, t)
      ensures k == l
    {
      SeparatePair(p, sigs, i, out, buckets, k, l, s, t);
    }
  }

  /** Two states of the parts after group `i` with the same old group and signature are in the same part. */
  lemma SeparatePair(p: Partition, sigs: map<nat, Signature>, i: nat, out: Partition, buckets: Partition,
                     k: nat, l: nat, s: nat, t: nat)
    requires Disjoint(p) && i < |p| && Union(out) == Union(p[..i]) && Union(buckets) == p[i]
    requires Union(out) <= IndexMap(p).Keys && Union(out) <= sigs.Keys && Separate(out, IndexMap(p), sigs)
    requires p[i] <= sigs.Keys && SplitBy(p[i], sigs, buckets)
    requires k < |out + buckets| && l < |out + buckets| && s in (out + buckets)[k] && t in (out + buckets)[l]
    requires s in sigs && t in sigs && s in IndexMap(p) && t in IndexMap(p)
    requires IndexMap(p)[s] == IndexMap(p)[t] && SameSignature(sigs, s, t)
    ensures k == l
  {
    RefineSides(p, i, out, buckets, k, s);
    RefineSides(p, i, out, buckets, l, t);
  }

  /** Appending the split of group `i` keeps a part per group that is not empty, and one each when nothing split. */
  lemma RefineCount(p: Partition, i: nat, out: Partition, buckets: Partition)
    requires i < |p|
    requires NonEmptyCount(p[..i]) <= |out| && (NoEmpty(p[..i]) && |out| == i ==> out == p[..i])
    requires (p[i] == {}) == (buckets == []) && (|buckets| == 1 ==> buckets == [p[i]])
    ensures NonEmptyCount(p[..i + 1]) <= |out + buckets|
    ensures NoEmpty(p[..i + 1]) && |out + buckets| == i + 1 ==> out + buckets == p[..i + 1]
  {
    assert p[..i + 1][..i] == p[..i] && p[..i + 1][i] == p[i];
    if NoEmpty(p[..i + 1]) && |out + buckets| == i + 1 {
      assert NoEmpty(p[..i]) by {
        forall j | 0 <= j < i ensures p[..i][j] != {} {
          assert p[..i][j] == p[..i + 1][j];
        }
      }
      NonEmptyCountAll(p[..i]);
      assert p[..i + 1][i] != {};
      assert p[..i + 1] == p[..i] + [p[i]];
    }
  }

  /** Appending the split of group `i` carries the refinement over that group. */
  lemma RefineStep(p: Partition, sigs: map<nat, Signature>, i: nat, out: Partition, buckets: Partition)
    requires Disjoint(p) && Union(p) <= sigs.Keys && i < |p|
    requires Refining(p, IndexMap(p), sigs, i, out)
    requires p[i] <= sigs.Keys && SplitBy(p[i], sigs, buckets)
    ensures Refining(p, IndexMap(p), sigs, i + 1, out + buckets)
  {
    RefineCover(p, sigs, i, out, buckets);
    RefineUniform(p, sigs, i, out, buckets);
    RefineSeparate(p, sigs, i, out, buckets);
    SplitSize(p[i], sigs, buckets);
    RefineCount(p, i, out, buckets);
  }

  /** Appending the split of group `i` gives parts that are not empty, do not overlap and cover one more group. */
  lemma RefineCover(p: Partition, sigs: map<nat, Signature>, i: nat, out: Partition, buckets: Partition)
    requires Disjoint(p) && i < |p|
    requires NoEmpty(out) && Disjoint(out) && Union(out) == Union(p[..i])
    requires p[i] <= sigs.Keys && SplitBy(p[i], sigs, buckets)
    ensures NoEmpty(out + buckets) && Disjoint(out + buckets) && Union(out + buckets) == Union(p[..i + 1])
    ensures Union(p[..i]) <= Union(p)
  {
    UnionPrefix(p, i);
    UnionAppend(out, buckets);
    assert p[..i + 1][..i] == p[..i] && p[..i + 1][i] == p[i];
    SplitDisjoint(p[i], sigs, buckets);
    DisjointPrefix(p, i + 1);
    UnionDisjointLast(p[..i + 1]);
    DisjointAppend(out, buckets);
    NoEmptyAppend(out, buckets);
  }

  /** What every round keeps: the groups cover the states without overlap, respect acceptance and separate only states that behave differently. */
  ghost predicate Partitioning(d: DfaDict, p: Partition) {
    Fits(d, p) && Disjoint(p) && Respects(d, p) && Coarse(d, p)
  }

  /** The accepting and the non-accepting states as two groups start the refinement. */
  lemma InitialPartition(d: DfaDict)
    requires TargetsAreStates(d)
    ensures Partitioning(d, [AcceptingIds(d), d.entries.Keys - AcceptingIds(d)])
  {
    var p := [AcceptingIds(d), d.entries.Keys - AcceptingIds(d)];
    assert Union(p) == Union(p[..1]) + p[1] && Union(p[..1]) == Union(p[..0]) + p[0];
    forall s, t {:trigger Equivalent(d, s, t)} | s in d.entries && t in d.entries && Equivalent(d, s, t)
      ensures IndexMap(p)[s] == IndexMap(p)[t]
    {
      assert Outcome(d, s, []) == Outcome(d, t, []);
      var i := if s in AcceptingIds(d) then 0 else 1;
      IndexMapAt(p, i, s);
      IndexMapAt(p, i, t);
    }
  }

  /** The parts of a round lie within groups of `p`, so they respect acceptance as `p` does. */
  lemma RefinedRespects(d: DfaDict, p: Partition, next: Partition)
    requires Fits(d, p) && Respects(d, p) && Refined(d, p, next)
    ensures Respects(d, next)
  {
    forall k, s, t | 0 <= k < |next| && s in next[k] && t in next[k]
      ensures s in AcceptingIds(d) <==> t in AcceptingIds(d)
    {
      IndexMapIn(p, s);
      IndexMapIn(p, t);
    }
  }

  /** States that behave alike share group and signature, so a round keeps them in one part. */
  lemma RefinedCoarse(d: DfaDict, p: Partition, next: Partition)
    requires Partitioning(d, p) && Refined(d, p, next)
    ensures Coarse(d, next)
  {
    assert p[..|p|] == p;
    forall s, t {:trigger Equivalent(d, s, t)} | s in d.entries && t in d.entries && Equivalent(d, s, t)
      ensures s in IndexMap(next) && t in IndexMap(next) && IndexMap(next)[s] == IndexMap(next)[t]
    {
      EquivalentSignature(d, p, s, t);
      SignaturesAt(d, p, s);
      SignaturesAt(d, p, t);
      assert SameSignature(Signatures(d, p), s, t);
      IndexMapIn(next, s);
      IndexMapIn(next, t);
    }
  }

  /** A round that changes nothing leaves members of every group with one signature. */
  lemma RefinedStable(d: DfaDict, p: Partition)
    requires Fits(d, p) && Refined(d, p, p)
    ensures Stable(d, p)
  {
    var sigs := Signatures(d, p);
    forall i, s, t | 0 <= i < |p| && s in p[i] && t in p[i]
      ensures SignatureOf(d, IndexMap(p), s) == SignatureOf(d, IndexMap(p), t)
    {
      assert SameSignature(sigs, s, t);
    }
  }

  /**
   * A round keeps what every round keeps, leaves no empty group, and either
   * changes nothing, in which case the partition is stable, or adds groups
   * or drops empty ones.
   */
  lemma RefinedKeeps(d: DfaDict, p: Partition, next: Partition)
    requires Partitioning(d, p) && Refined(d, p, next)
    ensures Partitioning(d, next) && NoEmpty(next)
    ensures NonEmptyCount(next) == |next| <= |d.entries|
    ensures next == p ==> Stable(d, p)
    ensures next != p ==> NonEmptyCount(next) > NonEmptyCount(p) || (NonEmptyCount(next) == NonEmptyCount(p) < |p|)
  {
    assert p[..|p|] == p;
    NonEmptyCountAll(next);
    NonEmptyCountAll(p);
    NonEmptyBound(next);
    RefinedRespects(d, p, next);
    RefinedCoarse(d, p, next);
    if next == p {
      RefinedStable(d, p);
    }
  }

  /** The groups of a stable, coarse partition are exactly the classes of states that behave alike. */
  lemma GroupsAreClasses(d: DfaDict, p: Partition, s: nat, t: nat)
    requires Partitioning(d, p) && Stable(d, p)
    requires s in d.entries && t in d.entries
    ensures IndexMap(p)[s] == IndexMap(p)[t] <==> Equivalent(d, s, t)
  {
    if IndexMap(p)[s] == IndexMap(p)[t] {
      IndexMapIn(p, s);
      IndexMapIn(p, t);
      forall syms ensures Outcome(d, s, syms) == Outcome(d, t, syms) {
        StableOutcome(d, p, IndexMap(p)[s], s, t, syms);
      }
    }
  }

  /** The edges of the quotient state of `s`: each edge of `s`, to the group of its target. */
  function QuotientRow(d: DfaDict, p: Partition, s: nat): (r: map<string, nat>)
    requires Fits(d, p) && s in d.entries
    ensures r.Keys == d.entries[s].edges.Keys
  {
    map a | a in d.entries[s].edges :: IndexMap(p)[d.entries[s].edges[a]]
  }

  /**
   * `out` is the quotient of `d` by `p`: one state per group, named by its
   * index, starting at the start state's group, with each member's
   * accepting flag and each member's edges, to groups.
   */
  ghost predicate Quotient(d: DfaDict, p: Partition, out: DfaDict)
    requires Fits(d, p)
  {
    && d.start in d.entries && out.start == IndexMap(p)[d.start]
    && (forall k :: k in out.entries <==> 0 <= k < |p|)
    && (forall s :: s in d.entries ==> IndexMap(p)[s] in out.entries)
    && (forall s :: s in d.entries ==> out.entries[IndexMap(p)[s]].terminating == d.entries[s].terminating)
    && (forall s :: s in d.entries ==> out.entries[IndexMap(p)[s]].edges == QuotientRow(d, p, s))
  }

  /** From the group of `s`, the quotient behaves as `s` does. */
  lemma {:induction false} QuotientOutcome(d: DfaDict, p: Partition, out: DfaDict, s: nat, syms: seq<string>)
    requires Fits(d, p) && Quotient(d, p, out) && s in d.entries
    ensures Outcome(out, IndexMap(p)[s], syms) == Outcome(d, s, syms)
    decreases |syms|
  {
    if syms != [] && syms[0] in d.entries[s].edges {
      QuotientOutcome(d, p, out, d.entries[s].edges[syms[0]], syms[1..]);
    }
  }

  /** The quotient, from its start, behaves as the original DFA does from its start. */
  lemma QuotientLanguage(d: DfaDict, p: Partition, out: DfaDict, syms: seq<string>)
    requires Fits(d, p) && Quotient(d, p, out)
    ensures Outcome(out, out.start, syms) == Outcome(d, d.start, syms)
  {
    QuotientOutcome(d, p, out, d.start, syms);
  }

  /**
   * No two states of the quotient by the final partition behave alike.
   * Whether every state is reachable from the start is not stated here.
   */
  lemma QuotientMinimal(d: DfaDict, p: Partition, out: DfaDict, k: nat, l: nat)
    requires Partitioning(d, p) && NoEmpty(p) && Quotient(d, p, out)
    requires k in out.entries && l in out.entries && Equivalent(out, k, l)
    ensures k == l
  {
    var s :| s in p[k];
    var t :| t in p[l];
    IndexMapAt(p, k, s);
    IndexMapAt(p, l, t);
    forall syms ensures Outcome(d, s, syms) == Outcome(d, t, syms) {
      QuotientOutcome(d, p, out, s, syms);
      QuotientOutcome(d, p, out, t, syms);
    }
    assert Equivalent(d, s, t);
  }

  /** The quotient by a partition without empty groups has one state per group, no more than the original. */
  lemma QuotientSize(d: DfaDict, p: Partition, out: DfaDict)
    requires Partitioning(d, p) && NoEmpty(p) && Quotient(d, p, out)
    ensures |out.entries| == |p| <= |d.entries|
  {
    NonEmptyCountAll(p);
    NonEmptyBound(p);
    RangeSize(|p|, out.entries.Keys);
  }

  /** A set holding exactly 0 .. n - 1 has n elements. */
  lemma {:induction false} RangeSize(n: nat, r: set<nat>)
    requires forall k :: k in r <==> 0 <= k < n
    ensures |r| == n
    decreases n
  {
    if n > 0 {
      RangeSize(n - 1, r - {n - 1});
    }
  }

  /** The minimiser of one exported DFA: its states, alphabet, and the final partition. */
  class Minimizer {
    const states: set<nat>
    const startState: nat
    const alphabet: set<string>
    const acceptStates: set<nat>
    const rejectStates: set<nat>
    const oldDfa: DfaDict
    var partition: Partition

    /** The fields describe `oldDfa`, whose edges all lead to its states. */
    ghost predicate Prepared()
      reads this
    {
      && states == oldDfa.entries.Keys && startState == oldDfa.start
      && alphabet == DfaSymbols(oldDfa) && acceptStates == AcceptingIds(oldDfa) && rejectStates == states - acceptStates
      && TargetsAreStates(oldDfa)
    }

    /** The partition is final: stable, without empty groups, and its groups are the classes of states that behave alike. */
    ghost predicate Valid()
      reads this
    {
      Prepared() && Partitioning(oldDfa, partition) && NoEmpty(partition) && Stable(oldDfa, partition)
    }

    constructor (d: DfaDict)
      requires TargetsAreStates(d)
      ensures oldDfa == d && Valid()
    {
      states := d.entries.Keys;
      startState := d.start;
      var symbols := CollectSymbols(d);
      alphabet := symbols;
      acceptStates := set s | s in d.entries && d.entries[s].terminating;
      rejectStates := d.entries.Keys - (set s | s in d.entries && d.entries[s].terminating);
      oldDfa := d;
      new;
      partition := Partition();
    }

    /** Every edge key of every state. */
    static method CollectSymbols(d: DfaDict) returns (symbols: set<string>)
      ensures symbols == DfaSymbols(d)
    {
      symbols := {};
      var rest := d.entries.Keys;
      while rest != {}
        invariant rest <= d.entries.Keys
        invariant symbols == set s, a | s in d.entries && s !in rest && a in d.entries[s].edges :: a
        decreases |rest|
      {
        var s :| s in rest;
        var keys := d.entries[s].edges.Keys;
        ghost var symbols0 := symbols;
        while keys != {}
          invariant keys <= d.entries[s].edges.Keys
          invariant symbols == symbols0 + (d.entries[s].edges.Keys - keys)
          decreases |keys|
        {
          var k :| k in keys;
          symbols := symbols + {k};
          keys := keys - {k};
        }
        rest := rest - {s};
      }
    }

    /**
     * Refinement until a round changes nothing, from the accepting and the
     * non-accepting states.
     */
    method Partition() returns (p: Partition)
      requires Prepared()
      ensures Partitioning(oldDfa, p) && NoEmpty(p) && Stable(oldDfa, p)
    {
      var d := oldDfa;
      p := [acceptStates, rejectStates];
      InitialPartition(d);
      NonEmptyBound(p);
      while true
        invariant Partitioning(d, p)
        decreases |d.entries| - NonEmptyCount(p), |p| - NonEmptyCount(p)
      {
        var next := Refine(p);
        RefinedKeeps(d, p, next);
        if next == p {
          break;
        }
        p := next;
      }
    }

    /** One round: the group indices, every state's signature, then each group split by signature, in order. */
    method Refine(p: Partition) returns (next: Partition)
      requires Prepared() && Fits(oldDfa, p) && Disjoint(p)
      ensures Refined(oldDfa, p, next)
    {
      var index := GroupIndices(p);
      var sigs := NextStates(p, index);
      next := [];
      for i := 0 to |p|
        invariant Refining(p, index, sigs, i, next)
      {
        var buckets: Partition := [];
        if p[i] != {} {
          buckets := SplitGroup(p[i], sigs);
        }
        UnionPrefix(p, i + 1);
        RefineStep(p, sigs, i, next, buckets);
        next := next + buckets;
      }
      assert p[..|p|] == p;
    }

    /** The group index of every state, a later group winning over an earlier one. */
    static method GroupIndices(p: Partition) returns (index: map<nat, nat>)
      ensures index == IndexMap(p)
    {
      index := map[];
      for i := 0 to |p|
        invariant index == IndexMap(p[..i])
      {
        index := AssignGroup(index, p[i], i);
        IndexMapSnoc(p, i);
      }
      assert p[..|p|] == p;
    }

    /** `index0` with every state of the group `g` given the index `i`. */
    static method AssignGroup(index0: map<nat, nat>, g: set<nat>, i: nat) returns (index: map<nat, nat>)
      ensures index == index0 + Indexed(g, i)
    {
      index := index0;
      var rest := g;
      ghost var done := {};
      while rest != {}
        invariant rest <= g && done == g - rest
        invariant index == index0 + Indexed(done, i)
        decreases |rest|
      {
        var st :| st in rest;
        IndexAdd(index0, done, st, i);
        index := index[st := i];
        rest, done := rest - {st}, done + {st};
      }
      assert done == g;
    }

    /** The signature of every state of a group that is not empty, under `index`. */
    method NextStates(p: Partition, index: map<nat, nat>) returns (sigs: map<nat, Signature>)
      requires Prepared() && Fits(oldDfa, p) && index == IndexMap(p)
      ensures sigs == Signatures(oldDfa, p)
    {
      sigs := map[];
      for i := 0 to |p|
        invariant Union(p[..i]) <= oldDfa.entries.Keys
        invariant sigs == SignaturesOf(oldDfa, index, Union(p[..i]))
      {
        SignaturesNext(oldDfa, p, index, i);
        if p[i] != {} {
          sigs := SignGroup(index, p[i], sigs);
        }
      }
      assert p[..|p|] == p;
    }

    /** `sigs0` with the signature of every state of the group `g` added. */
    method SignGroup(index: map<nat, nat>, g: set<nat>, sigs0: map<nat, Signature>) returns (sigs: map<nat, Signature>)
      requires Prepared() && oldDfa.entries.Keys <= index.Keys && g <= oldDfa.entries.Keys
      ensures sigs == sigs0 + SignaturesOf(oldDfa, index, g)
    {
      sigs := sigs0;
      var rest := g;
      ghost var done := {};
      while rest != {}
        invariant rest <= g && done == g - rest
        invariant sigs == sigs0 + SignaturesOf(oldDfa, index, done)
        decreases |rest|
      {
        var st :| st in rest;
        var sig := SignatureFor(index, st);
        SignaturesAdd(oldDfa, index, sigs0, done, st);
        sigs := sigs[st := sig];
        rest, done := rest - {st}, done + {st};
      }
      assert done == g;
    }

    /** The signature of `st`: for every symbol, the group of its successor, or stuck. */
    method SignatureFor(index: map<nat, nat>, st: nat) returns (sig: Signature)
      requires Prepared() && st in oldDfa.entries && oldDfa.entries.Keys <= index.Keys
      ensures sig == SignatureOf(oldDfa, index, st)
    {
      var edges := oldDfa.entries[st].edges;
      sig := map[];
      var rest := alphabet;
      ghost var done := {};
      while rest != {}
        invariant rest <= alphabet && done == alphabet - rest
        invariant sig == SignatureOn(oldDfa, index, st, done)
        decreases |rest|
      {
        var sym :| sym in rest;
        SignatureOnAdd(oldDfa, index, st, done, sym);
        TakeOne(alphabet, rest, done, sym);
        if sym in edges {
          sig := sig[sym := Group(index[edges[sym]])];
        } else {
          sig := sig[sym := Stuck];
        }
        rest, done := rest - {sym}, done + {sym};
      }
      assert done == alphabet;
    }

    /** The group `g` split into buckets by signature, in order of first sight. */
    static method SplitGroup(g: set<nat>, sigs: map<nat, Signature>) returns (buckets: Partition)
      requires g <= sigs.Keys
      ensures SplitBy(g, sigs, buckets)
    {
      var members: map<Signature, set<nat>> := map[];
      var keys: seq<Signature> := [];
      var rest := g;
      while rest != {}
        invariant rest <= g
        invariant Bucketed(g - rest, sigs, members, keys)
        decreases |rest|
      {
        var st :| st in rest;
        var sig := sigs[st];
        BucketAdd(g - rest, sigs, members, keys, st);
        if sig in members {
          members := members[sig := members[sig] + {st}];
        } else {
          members := members[sig := {st}];
          keys := keys + [sig];
        }
        assert (g - rest) + {st} == g - (rest - {st});
        rest := rest - {st};
      }
      buckets := seq(|keys|, j requires 0 <= j < |keys| => members[keys[j]]);
      BucketsSplit(g, sigs, members, keys, buckets);
    }

    /**
     * The minimised DFA: each group becomes a state named by its index,
     * accepting when its members are, with its members' edges redirected to
     * groups.
     */
    method ToDict() returns (out: DfaDict)
      requires Valid() && startState in states
      ensures Quotient(oldDfa, partition, out)
    {
      var d := oldDfa;
      var nameMap := GroupIndices(partition);
      var entries: map<nat, DfaEntry> := map[];
      var rest := states;
      ghost var done: set<nat> := {};
      while rest != {}
        invariant rest <= states && done == states - rest
        invariant Naming(d, partition, done, entries)
        decreases |rest|
      {
        var st :| st in rest;
        var idx := nameMap[st];
        NamingAdd(d, partition, done, entries, st);
        TakeOne(states, rest, done, st);
        if idx !in entries {
          entries := entries[idx := DfaEntry(false, map[])];
        }
        if d.entries[st].terminating {
          entries := entries[idx := entries[idx].(terminating := true)];
        }
        rest, done := rest - {st}, done + {st};
      }
      NamingDone(d, partition, entries);
      rest, done := states, {};
      while rest != {}
        invariant rest <= states && done == states - rest
        invariant Linking(d, partition, done, entries)
        decreases |rest|
      {
        var st :| st in rest;
        var sIdx := nameMap[st];
        var edges := AddEdges(nameMap, st, entries[sIdx].edges);
        LinkingAdd(d, partition, done, entries, st, edges);
        TakeOne(states, rest, done, st);
        entries := entries[sIdx := entries[sIdx].(edges := edges)];
        rest, done := rest - {st}, done + {st};
      }
      out := DfaDict(nameMap[startState], entries);
      LinkingDone(d, partition, entries);
    }

    /** `edges0` with every edge of `st` added, to the group of its target. */
    method AddEdges(nameMap: map<nat, nat>, st: nat, edges0: map<string, nat>) returns (edges: map<string, nat>)
      requires alphabet == DfaSymbols(oldDfa) && Fits(oldDfa, partition)
      requires nameMap == IndexMap(partition) && st in oldDfa.entries
      ensures edges == edges0 + QuotientRow(oldDfa, partition, st)
    {
      var row := oldDfa.entries[st].edges;
      edges := edges0;
      var rest := alphabet;
      ghost var done := {};
      while rest != {}
        invariant rest <= alphabet && done == alphabet - rest
        invariant edges == edges0 + RowOn(oldDfa, partition, st, done)
        decreases |rest|
      {
        var sym :| sym in rest;
        RowOnAdd(oldDfa, partition, st, edges0, done, sym);
        TakeOne(alphabet, rest, done, sym);
        if sym in row {
          edges := edges[sym := nameMap[row[sym]]];
        }
        rest, done := rest - {sym}, done + {sym};
      }
      assert done == alphabet;
      EdgeSymbols(oldDfa, st);
      RowOnAll(oldDfa, partition, st, alphabet);
    }
  }

  /** The edges of `st` on the symbols `syms`, each to the group of its target. */
  function RowOn(d: DfaDict, p: Partition, st: nat, syms: set<string>): map<string, nat>
    requires Fits(d, p) && st in d.entries
  {
    map a | a in syms && a in d.entries[st].edges :: IndexMap(p)[d.entries[st].edges[a]]
  }

  /** Considering one more symbol adds the edge of `st` on it, if any. */
  lemma RowOnAdd(d: DfaDict, p: Partition, st: nat, m: map<string, nat>, syms: set<string>, a: string)
    requires Fits(d, p) && st in d.entries
    ensures a in d.entries[st].edges ==>
      (m + RowOn(d, p, st, syms))[a := IndexMap(p)[d.entries[st].edges[a]]] == m + RowOn(d, p, st, syms + {a})
    ensures a !in d.entries[st].edges ==> m + RowOn(d, p, st, syms) == m + RowOn(d, p, st, syms + {a})
  {
    var edges := d.entries[st].edges;
    if a in edges {
      AddOne(m, RowOn(d, p, st, syms), RowOn(d, p, st, syms + {a}), a, IndexMap(p)[edges[a]]);
    } else {
      assert RowOn(d, p, st, syms) == RowOn(d, p, st, syms + {a});
    }
  }

  /** On symbols that include all of its edge keys, the edges of `st` are its quotient row. */
  lemma RowOnAll(d: DfaDict, p: Partition, st: nat, syms: set<string>)
    requires Fits(d, p) && st in d.entries && d.entries[st].edges.Keys <= syms
    ensures RowOn(d, p, st, syms) == QuotientRow(d, p, st)
  {
  }

  /** The edge keys of a state are symbols of the alphabet. */
  lemma EdgeSymbols(d: DfaDict, st: nat)
    requires st in d.entries
    ensures d.entries[st].edges.Keys <= DfaSymbols(d)
  {
  }

  /** Every state of group `k` is accepting. */
  predicate GroupAccepts(d: DfaDict, p: Partition, k: nat)
    requires k < |p|
  {
    p[k] <= AcceptingIds(d)
  }

  /** The group of `s` is accepting throughout exactly when `s` is accepting. */
  lemma GroupFlag(d: DfaDict, p: Partition, s: nat)
    requires Fits(d, p) && Respects(d, p) && s in d.entries
    ensures s in IndexMap(p) && IndexMap(p)[s] < |p| && (GroupAccepts(d, p, IndexMap(p)[s]) <==> d.entries[s].terminating)
  {
    IndexMapIn(p, s);
    var i := IndexMap(p)[s];
    assert s in AcceptingIds(d) <==> d.entries[s].terminating;
    if d.entries[s].terminating {
      forall t | t in p[i] ensures t in AcceptingIds(d) {
      }
    }
  }

  /**
   * The states named after `done`: an entry for the group of every state
   * done and for nothing else but groups, each with no edges yet and
   * accepting when its group is.
   */
  ghost predicate Naming(d: DfaDict, p: Partition, done: set<nat>, entries: map<nat, DfaEntry>)
    requires Fits(d, p)
  {
    && done <= d.entries.Keys
    && (forall s :: s in done ==> IndexMap(p)[s] in entries)
    && (forall k :: k in entries ==> k < |p| && entries[k].terminating == GroupAccepts(d, p, k) && HasEdges(entries[k], map[]))
  }

  /** Naming one more state keeps the entries right. */
  lemma NamingAdd(d: DfaDict, p: Partition, done: set<nat>, entries: map<nat, DfaEntry>, st: nat)
    requires Fits(d, p) && Respects(d, p) && Naming(d, p, done, entries) && st in d.entries
    ensures var idx := IndexMap(p)[st];
      var e1 := if idx !in entries then entries[idx := DfaEntry(false, map[])] else entries;
      var e2 := if d.entries[st].terminating then e1[idx := e1[idx].(terminating := true)] else e1;
      Naming(d, p, done + {st}, e2)
  {
    GroupFlag(d, p, st);
  }

  /** Once every state is named, the entries are exactly the groups, with no edges and the groups' acceptance. */
  lemma NamingDone(d: DfaDict, p: Partition, entries: map<nat, DfaEntry>)
    requires Fits(d, p) && Disjoint(p) && NoEmpty(p) && Naming(d, p, d.entries.Keys, entries)
    ensures Linking(d, p, {}, entries)
  {
    forall k | 0 <= k < |p| ensures k in entries {
      var s :| s in p[k];
      IndexMapAt(p, k, s);
    }
  }

  /** An entry for every group and for nothing else, accepting when its group is. */
  ghost predicate Named(d: DfaDict, p: Partition, entries: map<nat, DfaEntry>) {
    && (forall k :: k in entries <==> 0 <= k < |p|)
    && (forall k :: k in entries ==> entries[k].terminating == GroupAccepts(d, p, k))
  }

  /** The entry of every state's group has no edges yet or that state's edges. */
  ghost predicate RowsOrEmpty(d: DfaDict, p: Partition, entries: map<nat, DfaEntry>)
    requires Fits(d, p) && Named(d, p, entries)
  {
    forall s :: s in d.entries ==> HasEdges(entries[IndexMap(p)[s]], map[]) || HasEdges(entries[IndexMap(p)[s]], QuotientRow(d, p, s))
  }

  /** The entry of the group of every state of `done` has that state's edges. */
  ghost predicate RowsDone(d: DfaDict, p: Partition, done: set<nat>, entries: map<nat, DfaEntry>)
    requires Fits(d, p) && Named(d, p, entries) && done <= d.entries.Keys
  {
    forall s :: s in done ==> HasEdges(entries[IndexMap(p)[s]], QuotientRow(d, p, s))
  }

  /**
   * The edges after `done`: an entry for every group, accepting when its
   * group is, each with either no edges yet or its members' edges, the
   * latter once a member is done.
   */
  ghost predicate Linking(d: DfaDict, p: Partition, done: set<nat>, entries: map<nat, DfaEntry>)
    requires Fits(d, p)
  {
    done <= d.entries.Keys && Named(d, p, entries) && RowsOrEmpty(d, p, entries) && RowsDone(d, p, done, entries)
  }

  /** The entry `e` has exactly the edges `row`. */
  predicate HasEdges(e: DfaEntry, row: map<string, nat>) {
    e.edges == row
  }

  /** Members of one group of a stable partition have the same quotient row. */
  lemma StableRow(d: DfaDict, p: Partition, s: nat, t: nat)
    requires Fits(d, p) && Stable(d, p) && s in d.entries && t in d.entries && IndexMap(p)[s] == IndexMap(p)[t]
    ensures QuotientRow(d, p, s) == QuotientRow(d, p, t)
  {
    IndexMapIn(p, s);
    IndexMapIn(p, t);
    SignatureMoves(d, p, s, t);
  }

  /** Adding a row to no edges, or to the same row, gives the row. */
  lemma MergeRow(edges: map<string, nat>, row: map<string, nat>)
    requires edges == map[] || edges == row
    ensures edges + row == row
  {
  }

  /** Replacing the edges of an entry keeps an entry per group and its acceptance. */
  lemma NamedUpdate(d: DfaDict, p: Partition, entries: map<nat, DfaEntry>, idx: nat, edges: map<string, nat>)
    requires Named(d, p, entries) && idx in entries
    ensures Named(d, p, entries[idx := entries[idx].(edges := edges)])
  {
  }

  /** Adding the edges of one more state keeps the entries right. */
  lemma LinkingAdd(d: DfaDict, p: Partition, done: set<nat>, entries: map<nat, DfaEntry>, st: nat, edges: map<string, nat>)
    requires Fits(d, p) && Stable(d, p) && Linking(d, p, done, entries) && st in d.entries
    requires edges == entries[IndexMap(p)[st]].edges + QuotientRow(d, p, st)
    ensures Linking(d, p, done + {st}, entries[IndexMap(p)[st] := entries[IndexMap(p)[st]].(edges := edges)])
  {
    var idx := IndexMap(p)[st];
    assert HasEdges(entries[idx], map[]) || HasEdges(entries[idx], QuotientRow(d, p, st));
    MergeRow(entries[idx].edges, QuotientRow(d, p, st));
    RowsOrEmptyAdd(d, p, entries, st, edges);
    RowsDoneAdd(d, p, done, entries, st, edges);
  }

  /** Giving the group of `st` the edges of `st` keeps every group's edges empty or its members'. */
  lemma RowsOrEmptyAdd(d: DfaDict, p: Partition, entries: map<nat, DfaEntry>, st: nat, edges: map<string, nat>)
    requires Fits(d, p) && Stable(d, p) && st in d.entries && Named(d, p, entries)
    requires RowsOrEmpty(d, p, entries) && edges == QuotientRow(d, p, st)
    ensures Named(d, p, entries[IndexMap(p)[st] := entries[IndexMap(p)[st]].(edges := edges)])
    ensures RowsOrEmpty(d, p, entries[IndexMap(p)[st] := entries[IndexMap(p)[st]].(edges := edges)])
  {
    var idx := IndexMap(p)[st];
    var e := entries[idx := entries[idx].(edges := edges)];
    NamedUpdate(d, p, entries, idx, edges);
    forall s | s in d.entries ensures HasEdges(e[IndexMap(p)[s]], map[]) || HasEdges(e[IndexMap(p)[s]], QuotientRow(d, p, s)) {
      if IndexMap(p)[s] == idx {
        StableRow(d, p, s, st);
      }
    }
  }

  /** Giving the group of `st` the edges of `st` adds `st` to the states done. */
  lemma RowsDoneAdd(d: DfaDict, p: Partition, done: set<nat>, entries: map<nat, DfaEntry>, st: nat, edges: map<string, nat>)
    requires Fits(d, p) && Stable(d, p) && st in d.entries && done <= d.entries.Keys && Named(d, p, entries)
    requires RowsDone(d, p, done, entries) && edges == QuotientRow(d, p, st)
    ensures Named(d, p, entries[IndexMap(p)[st] := entries[IndexMap(p)[st]].(edges := edges)])
    ensures RowsDone(d, p, done + {st}, entries[IndexMap(p)[st] := entries[IndexMap(p)[st]].(edges := edges)])
  {
    var idx := IndexMap(p)[st];
    var e := entries[idx := entries[idx].(edges := edges)];
    NamedUpdate(d, p, entries, idx, edges);
    forall s | s in done + {st} ensures HasEdges(e[IndexMap(p)[s]], QuotientRow(d, p, s)) {
      if IndexMap(p)[s] == idx {
        StableRow(d, p, s, st);
      }
    }
  }

  /** Once every state's edges are in, the entries form the quotient. */
  lemma LinkingDone(d: DfaDict, p: Partition, entries: map<nat, DfaEntry>)
    requires Fits(d, p) && Respects(d, p) && Linking(d, p, d.entries.Keys, entries) && d.start in d.entries
    ensures Quotient(d, p, DfaDict(IndexMap(p)[d.start], entries))
  {
    forall s | s in d.entries ensures entries[IndexMap(p)[s]].terminating == d.entries[s].terminating {
      GroupFlag(d, p, s);
    }
  }
}
