/**
 * Memoised numbering, as used by both exporters: the first time a key is
 * seen it gets the next integer, and it keeps that integer from then on.
 * `order` lists the keys in the order they were numbered, so the ids handed
 * out so far are exactly 0 .. |order| - 1, each to one key.
 */
module Numbering {
  /** `ids` numbers the keys of `order` 0, 1, 2, ... in order, and nothing else. */
  ghost predicate Numbered<K>(ids: map<K, nat>, order: seq<K>) {
    && (forall k :: 0 <= k < |order| ==> order[k] in ids && ids[order[k]] == k)
    && (forall q :: q in ids ==> ids[q] < |order| && order[ids[q]] == q)
  }

  /** The later numbering (`ids'`, `order'`) keeps every id of the earlier one. */
  ghost predicate Extends<K>(ids: map<K, nat>, order: seq<K>, ids': map<K, nat>, order': seq<K>) {
    && |order| <= |order'| && (forall k :: 0 <= k < |order| ==> order'[k] == order[k])
    && (forall q :: q in ids ==> q in ids' && ids'[q] == ids[q])
  }

  /** Two keys with the same id are the same key. */
  lemma NumberedInjective<K>(ids: map<K, nat>, order: seq<K>, p: K, q: K)
    requires Numbered(ids, order) && p in ids && q in ids
    ensures ids[p] == ids[q] <==> p == q
  {
    if ids[p] == ids[q] {
      assert order[ids[p]] == p && order[ids[q]] == q;
    }
  }

  /** Numbering a new key with the next id keeps the numbering consecutive. */
  lemma NumberedGrow<K>(ids: map<K, nat>, order: seq<K>, q: K)
    requires Numbered(ids, order) && q !in ids
    ensures Numbered(ids[q := |order|], order + [q])
    ensures Extends(ids, order, ids[q := |order|], order + [q])
  {
    var ids', order' := ids[q := |order|], order + [q];
    forall k | 0 <= k < |order'| ensures order'[k] in ids' && ids'[order'[k]] == k {
      if k < |order| {
        assert order'[k] == order[k] != q;
      }
    }
  }

  /** Extension is transitive. */
  lemma ExtendsTrans<K>(ids0: map<K, nat>, order0: seq<K>, ids1: map<K, nat>, order1: seq<K>,
                        ids2: map<K, nat>, order2: seq<K>)
    requires Extends(ids0, order0, ids1, order1) && Extends(ids1, order1, ids2, order2)
    ensures Extends(ids0, order0, ids2, order2)
  {
  }
}
