/**
 * Thompson's construction: one epsilon-NFA fragment per AST node, each with
 * a start and an accept state drawn from a counter (the source creates fresh
 * objects; here the counter hands out consecutive integers, so fragments built
 * one after the other never share a state).
 */
module Thompson {
  import opened Parser

  /** A transition label: `Epsilon` is the empty-string key, `Ch(c)` a literal character. */
  datatype Label = Epsilon | Ch(c: char)

  /** One state's outgoing transitions: label to set of destination states. */
  type Table = map<Label, set<nat>>

  /** The transition relation of an NFA: state to its table. */
  type StateMap = map<nat, Table>

  /** A fragment: start and accept state, its states, and the next unused state id. */
  datatype Fragment = Fragment(start: nat, accept: nat, states: StateMap, next: nat)

  /** The table every accept state has: only the empty-string key, with no destination. */
  const AcceptTable: Table := map[Epsilon := {}]

  /** The keys of `states` are exactly the ids lo..hi - 1. */
  ghost predicate KeysAre(states: StateMap, lo: nat, hi: nat) {
    forall q :: q in states <==> lo <= q < hi
  }

  /** The number of AST nodes that allocate states (all but concatenations). */
  function NonSeqCount(node: AstNode): nat {
    match node
    case OrNode(l, r) => 1 + NonSeqCount(l) + NonSeqCount(r)
    case SeqNode(l, r) => NonSeqCount(l) + NonSeqCount(r)
    case StarNode(x) => 1 + NonSeqCount(x)
    case PlusNode(x) => 1 + NonSeqCount(x)
    case QuestionMarkNode(x) => 1 + NonSeqCount(x)
    case LiteralNode(_) => 1
    case SquareBracketNode(_) => 1
  }

  /** The number of states the construction allocates for `node`, two per fresh pair. */
  function StateCount(node: AstNode): (n: nat)
    ensures n == 2 * NonSeqCount(node)
  {
    match node
    case OrNode(l, r) => StateCount(l) + StateCount(r) + 2
    case SeqNode(l, r) => StateCount(l) + StateCount(r)
    case StarNode(x) => StateCount(x) + 2
    case PlusNode(x) => StateCount(x) + 2
    case QuestionMarkNode(x) => StateCount(x) + 2
    case LiteralNode(_) => 2
    case SquareBracketNode(_) => 2
  }

  /** Is there an edge q --l--> x? */
  predicate HasEdge(states: StateMap, q: nat, l: Label, x: nat) {
    x in Targets(states, q, l)
  }

  /** The destinations of q on l: none when q is not a state or has no l key. */
  function Targets(states: StateMap, q: nat, l: Label): set<nat> {
    if q in states && l in states[q] then states[q][l] else {}
  }

  /** Every transition target is itself a state. */
  ghost predicate TargetsAreStates(states: StateMap) {
    forall q, l, x :: HasEdge(states, q, l, x) ==> x in states
  }

  /** Every transition target lies in lo..hi - 1. */
  ghost predicate TargetsIn(states: StateMap, lo: nat, hi: nat) {
    forall q, l, x: nat :: HasEdge(states, q, l, x) ==> lo <= x < hi
  }

  /**
   * A well-formed fragment over the ids lo..f.next - 1: distinct start and
   * accept states, the accept state's table is exactly the empty-string key
   * with no destination, and every target is one of its states.
   */
  ghost predicate WellFormed(f: Fragment, lo: nat) {
    && lo <= f.next
    && KeysAre(f.states, lo, f.next)
    && lo <= f.start < f.next && lo <= f.accept < f.next && f.start != f.accept
    && f.states[f.accept] == AcceptTable
    && TargetsIn(f.states, lo, f.next)
  }

  /** A fragment's targets are its own states. */
  lemma WellFormedTargets(f: Fragment, lo: nat)
    requires WellFormed(f, lo)
    ensures TargetsAreStates(f.states)
  {
  }

  /** start --c--> accept */
  function LiteralFragment(c: char, next: nat): (f: Fragment)
    ensures WellFormed(f, next) && f.next == next + 2
  {
    var s, f := next, next + 1;
    Fragment(s, f, map[s := map[Ch(c) := {f}], f := AcceptTable], next + 2)
  }

  /** start --c--> accept for every c of the class */
  function SquareBracketFragment(clas: set<char>, next: nat): (f: Fragment)
    ensures WellFormed(f, next) && f.next == next + 2
  {
    var s, f := next, next + 1;
    Fragment(s, f, map[s := (map ch | ch in clas :: Ch(ch) := {f}), f := AcceptTable], next + 2)
  }

  /** The union of two transition relations over disjoint states (`{**a, **b}`). */
  function Union(a: StateMap, b: StateMap): (u: StateMap)
    requires a.Keys !! b.Keys
    ensures u.Keys == a.Keys + b.Keys
  {
    a + b
  }

  /**
   * `states` with the table of `q0` replaced by empty-string edges to
   * `targets` (the `sub_f: {'': ...}` entry written after `**sub_states`).
   */
  function Redirect(states: StateMap, q0: nat, targets: set<nat>): (r: StateMap)
    requires q0 in states
    ensures r.Keys == states.Keys
  {
    states[q0 := map[Epsilon := targets]]
  }

  /**
   * `inner` with a new state `s` (empty-string edges to `entries`) and a new
   * accept state `s + 1`.
   */
  function Enclose(inner: StateMap, lo: nat, s: nat, entries: set<nat>): (states: StateMap)
    requires lo <= s && KeysAre(inner, lo, s)
    ensures KeysAre(states, lo, s + 2)
    ensures states[s + 1] == AcceptTable
  {
    inner[s := map[Epsilon := entries]][s + 1 := AcceptTable]
  }

  /** The edges of a union are those of either side. */
  lemma UnionEdge(a: StateMap, b: StateMap, q: nat, l: Label, x: nat)
    requires a.Keys !! b.Keys
    ensures HasEdge(Union(a, b), q, l, x) <==> HasEdge(a, q, l, x) || HasEdge(b, q, l, x)
  {
    if q in a {
      assert q !in b;
    }
  }

  /** Redirecting `q0` replaces exactly its edges. */
  lemma RedirectEdge(states: StateMap, q0: nat, targets: set<nat>, q: nat, l: Label, x: nat)
    requires q0 in states
    ensures HasEdge(Redirect(states, q0, targets), q, l, x) <==>
      (q != q0 && HasEdge(states, q, l, x)) || (q == q0 && l == Epsilon && x in targets)
  {
  }

  /** Enclosing adds exactly the edges of the fresh start state. */
  lemma EncloseEdge(inner: StateMap, lo: nat, s: nat, entries: set<nat>, q: nat, l: Label, x: nat)
    requires lo <= s && KeysAre(inner, lo, s)
    ensures HasEdge(Enclose(inner, lo, s, entries), q, l, x) <==>
      HasEdge(inner, q, l, x) || (q == s && l == Epsilon && x in entries)
  {
    if q in inner {
      assert Enclose(inner, lo, s, entries)[q] == inner[q];
    }
  }

  /** Union keeps targets within a common range. */
  lemma UnionTargets(a: StateMap, b: StateMap, lo: nat, hi: nat)
    requires a.Keys !! b.Keys && TargetsIn(a, lo, hi) && TargetsIn(b, lo, hi)
    ensures TargetsIn(Union(a, b), lo, hi)
  {
    forall q, l, x: nat | HasEdge(Union(a, b), q, l, x) ensures lo <= x < hi {
      UnionEdge(a, b, q, l, x);
    }
  }

  /** Redirecting to targets within a range keeps all targets within it. */
  lemma RedirectTargets(states: StateMap, q0: nat, targets: set<nat>, lo: nat, hi: nat)
    requires q0 in states && TargetsIn(states, lo, hi)
    requires forall x :: x in targets ==> lo <= x < hi
    ensures TargetsIn(Redirect(states, q0, targets), lo, hi)
  {
    forall q, l, x: nat | HasEdge(Redirect(states, q0, targets), q, l, x) ensures lo <= x < hi {
      RedirectEdge(states, q0, targets, q, l, x);
    }
  }

  /** Enclosing keeps targets within the two-wider range. */
  lemma EncloseTargets(inner: StateMap, lo: nat, s: nat, entries: set<nat>)
    requires lo <= s && KeysAre(inner, lo, s) && TargetsIn(inner, lo, s + 2)
    requires forall x :: x in entries ==> lo <= x < s + 2
    ensures TargetsIn(Enclose(inner, lo, s, entries), lo, s + 2)
  {
    forall q, l, x: nat | HasEdge(Enclose(inner, lo, s, entries), q, l, x) ensures lo <= x < s + 2 {
      EncloseEdge(inner, lo, s, entries, q, l, x);
    }
  }

  /** Targets within a range stay within any wider range. */
  lemma Widen(states: StateMap, lo: nat, hi: nat, lo': nat, hi': nat)
    requires TargetsIn(states, lo, hi) && lo' <= lo && hi <= hi'
    ensures TargetsIn(states, lo', hi')
  {
  }

  /**
   * The fragment made of `inner`, a fresh start state `s` with empty-string
   * edges to `entries`, and a fresh accept state `s + 1`.
   */
  function Enclosed(inner: StateMap, lo: nat, s: nat, entries: set<nat>): (f: Fragment)
    requires lo <= s && KeysAre(inner, lo, s) && TargetsIn(inner, lo, s + 2)
    requires forall x :: x in entries ==> lo <= x < s + 2
    ensures WellFormed(f, lo)
    ensures f.start == s && f.accept == s + 1 && f.next == s + 2
  {
    EncloseTargets(inner, lo, s, entries);
    Fragment(s, s + 1, Enclose(inner, lo, s, entries), s + 2)
  }

  /**
   * The sub-fragment with its accept state redirected to `back`, plus a fresh
   * start state `sub.next` with empty-string edges to `entries` and a fresh
   * accept state `sub.next + 1`.
   */
  function Wrap(sub: Fragment, lo: nat, back: set<nat>, entries: set<nat>): (f: Fragment)
    requires WellFormed(sub, lo)
    requires forall x :: x in back ==> lo <= x < sub.next + 2
    requires forall x :: x in entries ==> lo <= x < sub.next + 2
    ensures WellFormed(f, lo) && f.next == sub.next + 2
    ensures f.start == sub.next && f.accept == sub.next + 1
  {
    Widen(sub.states, lo, sub.next, lo, sub.next + 2);
    RedirectTargets(sub.states, sub.accept, back, lo, sub.next + 2);
    Enclosed(Redirect(sub.states, sub.accept, back), lo, sub.next, entries)
  }

  /** Where the sub-fragment's accept state leads: the new accept, and the new start when `loop`. */
  function Back(sub: Fragment, loop: bool): set<nat> {
    if loop then {sub.next, sub.next + 1} else {sub.next + 1}
  }

  /** Where the new start state leads: the sub-fragment, and the new accept when `skip`. */
  function Entries(sub: Fragment, skip: bool): set<nat> {
    if skip then {sub.start, sub.next + 1} else {sub.start}
  }

  /**
   * The common shape of the three quantifiers: `loop` lets the sub-fragment
   * repeat, `skip` lets it be bypassed.
   */
  function Quantify(sub: Fragment, lo: nat, loop: bool, skip: bool): (f: Fragment)
    requires WellFormed(sub, lo)
    ensures WellFormed(f, lo) && f.next == sub.next + 2
    ensures f.start == sub.next && f.accept == sub.next + 1
  {
    Wrap(sub, lo, Back(sub, loop), Entries(sub, skip))
  }

  /** One or more: the sub-fragment's accept state loops back to the NEW start. */
  function PlusFragment(sub: Fragment, lo: nat): (f: Fragment)
    requires WellFormed(sub, lo)
    ensures WellFormed(f, lo) && f.next == sub.next + 2
  {
    Quantify(sub, lo, true, false)
  }

  /** Zero or one. */
  function QuestionMarkFragment(sub: Fragment, lo: nat): (f: Fragment)
    requires WellFormed(sub, lo)
    ensures WellFormed(f, lo) && f.next == sub.next + 2
  {
    Quantify(sub, lo, false, true)
  }

  /** Zero or more: the sub-fragment's accept state loops back to the NEW start. */
  function StarFragment(sub: Fragment, lo: nat): (f: Fragment)
    requires WellFormed(sub, lo)
    ensures WellFormed(f, lo) && f.next == sub.next + 2
  {
    Quantify(sub, lo, true, true)
  }

  /**
   * Concatenation allocates no state: the left accept state's table becomes an
   * empty-string edge to the right start. (The source merges both maps and
   * then overwrites the left accept state's entry; since the key sets are
   * disjoint, that is the left map with the entry replaced, united with the
   * right map.)
   */
  function SeqFragment(left: Fragment, right: Fragment, lo: nat): (f: Fragment)
    requires WellFormed(left, lo) && WellFormed(right, left.next)
    ensures WellFormed(f, lo) && f.next == right.next
  {
    Widen(left.states, lo, left.next, lo, right.next);
    Widen(right.states, left.next, right.next, lo, right.next);
    RedirectTargets(left.states, left.accept, {right.start}, lo, right.next);
    var joined := Redirect(left.states, left.accept, {right.start});
    UnionTargets(joined, right.states, lo, right.next);
    Fragment(left.start, right.accept, Union(joined, right.states), right.next)
  }

  /**
   * Both branches of an alternation side by side, each accept state sent on
   * to `f` (as for concatenation, the overwrites of the two accept states are
   * applied to each side before uniting them).
   */
  function Branches(left: Fragment, right: Fragment, lo: nat, f: nat): (branches: StateMap)
    requires WellFormed(left, lo) && WellFormed(right, left.next) && right.next < f
    ensures KeysAre(branches, lo, right.next)
    ensures TargetsIn(branches, lo, f + 1)
  {
    Widen(left.states, lo, left.next, lo, f + 1);
    Widen(right.states, left.next, right.next, lo, f + 1);
    RedirectTargets(left.states, left.accept, {f}, lo, f + 1);
    RedirectTargets(right.states, right.accept, {f}, lo, f + 1);
    var l, r := Redirect(left.states, left.accept, {f}), Redirect(right.states, right.accept, {f});
    UnionTargets(l, r, lo, f + 1);
    Union(l, r)
  }

  /** The enclosed fragment's edges: those inside, plus the fresh start's edges to `entries`. */
  lemma EnclosedEdge(inner: StateMap, lo: nat, s: nat, entries: set<nat>, q: nat, l: Label, x: nat)
    requires lo <= s && KeysAre(inner, lo, s) && TargetsIn(inner, lo, s + 2)
    requires forall x :: x in entries ==> lo <= x < s + 2
    ensures HasEdge(Enclosed(inner, lo, s, entries).states, q, l, x) <==>
      HasEdge(inner, q, l, x) || (q == s && l == Epsilon && x in entries)
  {
    EncloseEdge(inner, lo, s, entries, q, l, x);
  }

  /** Alternation: a fresh start into both branches, both into a fresh accept. */
  function OrFragment(left: Fragment, right: Fragment, lo: nat): (f: Fragment)
    requires WellFormed(left, lo) && WellFormed(right, left.next)
    ensures WellFormed(f, lo) && f.next == right.next + 2
  {
    Enclosed(Branches(left, right, lo, right.next + 1), lo, right.next, {left.start, right.start})
  }

  /**
   * The fragment for `node`, using state ids from `next` on: a well-formed
   * fragment whose states are exactly the next StateCount(node) ids.
   */
  function Build(node: AstNode, next: nat): (f: Fragment)
    ensures WellFormed(f, next)
    ensures f.next == next + StateCount(node)
    decreases node, 1
  {
    match node
    case LiteralNode(c) => LiteralFragment(c, next)
    case SquareBracketNode(clas) => SquareBracketFragment(clas, next)
    case SeqNode(_, _) => BuildBinary(node, next)
    case OrNode(_, _) => BuildBinary(node, next)
    case _ => BuildUnary(node, next)
  }

  /** Build for a quantified node: the sub-fragment first, then the fresh pair. */
  function BuildUnary(node: AstNode, next: nat): (f: Fragment)
    requires node.PlusNode? || node.QuestionMarkNode? || node.StarNode?
    ensures WellFormed(f, next)
    ensures f.next == next + StateCount(node)
    decreases node, 0
  {
    var sub := Build(node.inner, next);
    match node
    case PlusNode(_) => PlusFragment(sub, next)
    case QuestionMarkNode(_) => QuestionMarkFragment(sub, next)
    case StarNode(_) => StarFragment(sub, next)
  }

  /** Build for a binary node: the left fragment, then the right one, then the join. */
  function BuildBinary(node: AstNode, next: nat): (f: Fragment)
    requires node.SeqNode? || node.OrNode?
    ensures WellFormed(f, next)
    ensures f.next == next + StateCount(node)
    decreases node, 0
  {
    var left := Build(node.left, next);
    var right := Build(node.right, left.next);
    if node.SeqNode? then SeqFragment(left, right, next) else OrFragment(left, right, next)
  }

  // ---------------------------------------------------------------------
  // The edges each construction step adds, state by state.
  // ---------------------------------------------------------------------

  /** A literal fragment has the one edge start --c--> accept. */
  lemma LiteralEdge(c: char, next: nat, q: nat, l: Label, x: nat)
    ensures HasEdge(LiteralFragment(c, next).states, q, l, x) <==> q == next && l == Ch(c) && x == next + 1
  {
  }

  /** A class fragment has an edge start --c--> accept for each c of the class, and no other. */
  lemma SquareBracketEdge(clas: set<char>, next: nat, q: nat, l: Label, x: nat)
    ensures HasEdge(SquareBracketFragment(clas, next).states, q, l, x) <==>
      q == next && l.Ch? && l.c in clas && x == next + 1
  {
  }

  /** The edges of a wrapped fragment, in terms of the sub-fragment. */
  lemma WrapEdge(sub: Fragment, lo: nat, back: set<nat>, entries: set<nat>, q: nat, l: Label, x: nat)
    requires WellFormed(sub, lo)
    requires forall x :: x in back ==> lo <= x < sub.next + 2
    requires forall x :: x in entries ==> lo <= x < sub.next + 2
    ensures HasEdge(Wrap(sub, lo, back, entries).states, q, l, x) <==>
      HasEdge(sub.states, q, l, x) ||
      (l == Epsilon && ((q == sub.accept && x in back) || (q == sub.next && x in entries)))
  {
    RedirectEdge(sub.states, sub.accept, back, q, l, x);
    EncloseEdge(Redirect(sub.states, sub.accept, back), lo, sub.next, entries, q, l, x);
  }

  /** The edges of a quantifier fragment, in terms of its sub-fragment. */
  lemma QuantifyEdge(sub: Fragment, lo: nat, loop: bool, skip: bool, q: nat, l: Label, x: nat)
    requires WellFormed(sub, lo)
    ensures HasEdge(Quantify(sub, lo, loop, skip).states, q, l, x) <==>
      HasEdge(sub.states, q, l, x) ||
      (l == Epsilon && q == sub.accept && (x == sub.next + 1 || (loop && x == sub.next))) ||
      (l == Epsilon && q == sub.next && (x == sub.start || (skip && x == sub.next + 1)))
  {
    WrapEdge(sub, lo, Back(sub, loop), Entries(sub, skip), q, l, x);
  }

  /**
   * `x*`: every edge of the sub-fragment is kept; the only new edges are
   * empty-string edges from the new start (sub.next) to sub.start and to the
   * new accept (sub.next + 1), and from sub.accept back to the NEW start and
   * on to the new accept.
   */
  lemma StarEdge(sub: Fragment, lo: nat, q: nat, l: Label, x: nat)
    requires WellFormed(sub, lo)
    ensures HasEdge(StarFragment(sub, lo).states, q, l, x) <==>
      HasEdge(sub.states, q, l, x) ||
      (l == Epsilon && q == sub.accept && (x == sub.next + 1 || x == sub.next)) ||
      (l == Epsilon && q == sub.next && (x == sub.start || x == sub.next + 1))
  {
    QuantifyEdge(sub, lo, true, true, q, l, x);
  }

  /** `x+`: the sub-fragment's accept state loops back to the NEW start; the new start cannot skip. */
  lemma PlusEdge(sub: Fragment, lo: nat, q: nat, l: Label, x: nat)
    requires WellFormed(sub, lo)
    ensures HasEdge(PlusFragment(sub, lo).states, q, l, x) <==>
      HasEdge(sub.states, q, l, x) ||
      (l == Epsilon && q == sub.accept && (x == sub.next + 1 || x == sub.next)) ||
      (l == Epsilon && q == sub.next && x == sub.start)
  {
    QuantifyEdge(sub, lo, true, false, q, l, x);
  }

  /** `x?`: the new start may skip to the new accept; nothing loops. */
  lemma QuestionMarkEdge(sub: Fragment, lo: nat, q: nat, l: Label, x: nat)
    requires WellFormed(sub, lo)
    ensures HasEdge(QuestionMarkFragment(sub, lo).states, q, l, x) <==>
      HasEdge(sub.states, q, l, x) ||
      (l == Epsilon && q == sub.accept && x == sub.next + 1) ||
      (l == Epsilon && q == sub.next && (x == sub.start || x == sub.next + 1))
  {
    QuantifyEdge(sub, lo, false, true, q, l, x);
  }

  /** An accept state has no outgoing edge, so overwriting its table loses nothing. */
  lemma AcceptIsDeadEnd(f: Fragment, lo: nat, l: Label, x: nat)
    requires WellFormed(f, lo)
    ensures !HasEdge(f.states, f.accept, l, x)
  {
  }

  /**
   * Concatenation keeps every edge of both parts and adds exactly one:
   * an empty-string edge from the left accept state to the right start state.
   */
  lemma SeqEdge(left: Fragment, right: Fragment, lo: nat, q: nat, l: Label, x: nat)
    requires WellFormed(left, lo) && WellFormed(right, left.next)
    ensures HasEdge(SeqFragment(left, right, lo).states, q, l, x) <==>
      HasEdge(left.states, q, l, x) || HasEdge(right.states, q, l, x) ||
      (l == Epsilon && q == left.accept && x == right.start)
  {
    var joined := Redirect(left.states, left.accept, {right.start});
    UnionEdge(joined, right.states, q, l, x);
    RedirectEdge(left.states, left.accept, {right.start}, q, l, x);
    AcceptIsDeadEnd(left, lo, l, x);
  }

  /** The edges of two branches side by side: theirs, plus each accept state on to `f`. */
  lemma BranchesEdge(left: Fragment, right: Fragment, lo: nat, f: nat, q: nat, l: Label, x: nat)
    requires WellFormed(left, lo) && WellFormed(right, left.next) && right.next < f
    ensures HasEdge(Branches(left, right, lo, f), q, l, x) <==>
      HasEdge(left.states, q, l, x) || HasEdge(right.states, q, l, x) ||
      (l == Epsilon && (q == left.accept || q == right.accept) && x == f)
  {
    var a, b := Redirect(left.states, left.accept, {f}), Redirect(right.states, right.accept, {f});
    UnionEdge(a, b, q, l, x);
    RedirectEdge(left.states, left.accept, {f}, q, l, x);
    RedirectEdge(right.states, right.accept, {f}, q, l, x);
    AcceptIsDeadEnd(left, lo, l, x);
    AcceptIsDeadEnd(right, left.next, l, x);
  }

  /**
   * Alternation keeps the edges of the joined branches and adds exactly the
   * empty-string edges from the new start (right.next) to both branch starts.
   */
  lemma OrEdge(left: Fragment, right: Fragment, lo: nat, q: nat, l: Label, x: nat)
    requires WellFormed(left, lo) && WellFormed(right, left.next)
    ensures HasEdge(OrFragment(left, right, lo).states, q, l, x) <==>
      HasEdge(Branches(left, right, lo, right.next + 1), q, l, x) ||
      (l == Epsilon && q == right.next && (x == left.start || x == right.start))
  {
    var b, entries := Branches(left, right, lo, right.next + 1), {left.start, right.start};
    assert OrFragment(left, right, lo) == Enclosed(b, lo, right.next, entries);
    EnclosedEdge(b, lo, right.next, entries, q, l, x);
  }

  // ---------------------------------------------------------------------
  // State counts and disjointness.
  // ---------------------------------------------------------------------

  /** The ids lo..hi - 1, of which there are hi - lo. */
  function Ids(lo: nat, hi: nat): (r: set<nat>)
    requires lo <= hi
    ensures forall q :: q in r <==> lo <= q < hi
    ensures |r| == hi - lo
    decreases hi - lo
  {
    if lo == hi then {} else {lo} + Ids(lo + 1, hi)
  }

  /** A map keyed by exactly lo..hi - 1 has hi - lo entries. */
  lemma KeysAreSize(states: StateMap, lo: nat, hi: nat)
    requires lo <= hi && KeysAre(states, lo, hi)
    ensures |states| == hi - lo
  {
    assert states.Keys == Ids(lo, hi);
  }

  /** The NFA for `node` has exactly two states per AST node other than a concatenation. */
  lemma BuildSize(node: AstNode, next: nat)
    ensures |Build(node, next).states| == 2 * NonSeqCount(node)
  {
    KeysAreSize(Build(node, next).states, next, Build(node, next).next);
  }

  /**
   * The two children of a concatenation or alternation are built over
   * disjoint states, and neither uses the ids the node itself allocates
   * after them.
   */
  lemma ChildrenDisjoint(node: AstNode, next: nat)
    requires node.SeqNode? || node.OrNode?
    ensures var left := Build(node.left, next);
      var right := Build(node.right, left.next);
      && left.states.Keys !! right.states.Keys
      && right.next !in left.states && right.next !in right.states
      && right.next + 1 !in left.states && right.next + 1 !in right.states
  {
  }

  /** The sub-fragment of a quantifier does not use the fresh pair's ids. */
  lemma SubFragmentDisjoint(node: AstNode, next: nat)
    requires node.PlusNode? || node.QuestionMarkNode? || node.StarNode?
    ensures var sub := Build(node.inner, next);
      sub.next !in sub.states && sub.next + 1 !in sub.states
  {
  }
}
