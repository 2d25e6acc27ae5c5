/**
 * The crossword puzzle a solver works on, and the constraint-satisfaction
 * notions the solver is proved against.
 *
 * A puzzle has slots ("variables"), each with a start cell, a direction
 * and a length, a vocabulary, and an overlap map: for two distinct slots x
 * and y, `overlaps[(x, y)]` is `None` when they do not cross and `Some((i, j))`
 * when letter i of x's word shares a cell with letter j of y's word.  The
 * puzzle is read-only; what the solver changes is a `Domains` map from each
 * slot to the words still considered for it.
 */
module CrosswordPuzzle {
  import opened Wrappers

  datatype Direction = Across | Down

  /** A slot: start row `i`, start column `j`, direction and length. */
  datatype Variable = Variable(i: nat, j: nat, direction: Direction, length: nat)

  type Word = string
  type Arc = (Variable, Variable)
  type Domains = map<Variable, set<Word>>

  datatype Crossword = Crossword(
    height: nat,
    width: nat,
    variables: set<Variable>,
    words: set<Word>,
    overlaps: map<Arc, Option<(nat, nat)>>)
  {
    /** The other slots that cross `x`. */
    function Neighbors(x: Variable): (ns: set<Variable>)
      ensures ns <= variables && x !in ns
      ensures forall v :: v in ns <==> v in variables && v != x && (v, x) in overlaps && overlaps[(v, x)].Some?
    {
      set v | v in variables && v != x && (v, x) in overlaps && overlaps[(v, x)].Some?
    }

    /**
     * What the puzzle loader guarantees: the overlap map is keyed by every
     * ordered pair of distinct slots and by nothing else, a crossing seen
     * from the other slot has its indices swapped, and every index lies
     * inside its slot.
     */
    ghost predicate WellFormed() {
      && (forall a :: a in overlaps ==> a.0 in variables && a.1 in variables && a.0 != a.1)
      && (forall x, y :: x in variables && y in variables && x != y ==> (x, y) in overlaps)
      && (forall x, y :: (x, y) in overlaps && overlaps[(x, y)].Some? ==>
            && (y, x) in overlaps
            && overlaps[(y, x)] == Some((overlaps[(x, y)].value.1, overlaps[(x, y)].value.0))
            && overlaps[(x, y)].value.0 < x.length
            && overlaps[(x, y)].value.1 < y.length)
    }
  }

  // ---------------------------------------------------------------------
  // Letters at a crossing
  // ---------------------------------------------------------------------

  /**
   * Letter i of `w` equals letter j of `v`.  The bounds hold whenever words
   * have their slot's length, since overlap indices lie inside the slots.
   */
  predicate Agree(w: Word, v: Word, i: nat, j: nat) {
    i < |w| && j < |v| && w[i] == v[j]
  }

  /** Some word of `ys` agrees with `w` at the crossing `(i, j)`. */
  predicate Supported(w: Word, ys: set<Word>, i: nat, j: nat) {
    exists v :: v in ys && Agree(w, v, i, j)
  }

  /** The words of `xs` that keep a partner in `ys` at the crossing `(i, j)`. */
  function Revised(xs: set<Word>, ys: set<Word>, i: nat, j: nat): (r: set<Word>)
    ensures r <= xs
    ensures forall w :: w in r <==> w in xs && Supported(w, ys, i, j)
  {
    set w | w in xs && Supported(w, ys, i, j)
  }

  /** The domain of `x` once made consistent with `y`; unchanged when they do not cross. */
  function ReviseArc(cw: Crossword, d: Domains, x: Variable, y: Variable): (r: set<Word>)
    requires x in d && y in d && (x, y) in cw.overlaps
    ensures r <= d[x]
  {
    match cw.overlaps[(x, y)]
    case None => d[x]
    case Some(ij) => Revised(d[x], d[y], ij.0, ij.1)
  }

  /** Every word left for `x` has a partner left for `y`. */
  ghost predicate ArcConsistent(cw: Crossword, d: Domains, x: Variable, y: Variable)
    requires x in d && y in d && (x, y) in cw.overlaps
  {
    match cw.overlaps[(x, y)]
    case None => true
    case Some(ij) => forall w :: w in d[x] ==> Supported(w, d[y], ij.0, ij.1)
  }

  /** Every arc of the overlap map is consistent. */
  ghost predicate AllArcsConsistent(cw: Crossword, d: Domains)
    requires cw.WellFormed() && d.Keys == cw.variables
  {
    forall a :: a in cw.overlaps ==> ArcConsistent(cw, d, a.0, a.1)
  }

  // ---------------------------------------------------------------------
  // Domains and assignments
  // ---------------------------------------------------------------------

  /** Every word left for a slot has that slot's length. */
  ghost predicate NodeConsistent(d: Domains) {
    forall v, w {:trigger w in d[v]} :: v in d && w in d[v] ==> |w| == v.length
  }

  /** `d1` keeps the slots of `d0` and only ever drops words. */
  ghost predicate Shrunk(d0: Domains, d1: Domains) {
    d1.Keys == d0.Keys && forall v, w {:trigger w in d1[v]} :: v in d1 && w in d1[v] ==> w in d0[v]
  }

  /** Every assigned word is still in its slot's domain. */
  ghost predicate Within(s: map<Variable, Word>, d: Domains) {
    forall v :: v in s ==> v in d && s[v] in d[v]
  }

  predicate LengthsOk(s: map<Variable, Word>) {
    forall v :: v in s ==> |s[v]| == v.length
  }

  /** No word is used by two slots. */
  ghost predicate Injective(s: map<Variable, Word>) {
    forall u, v :: u in s && v in s && u != v ==> s[u] != s[v]
  }

  /** Every two assigned slots that cross agree on the shared letter. */
  ghost predicate CrossingsAgree(cw: Crossword, s: map<Variable, Word>) {
    forall x, y :: (x, y) in cw.overlaps && x in s && y in s && cw.overlaps[(x, y)].Some? ==>
      Agree(s[x], s[y], cw.overlaps[(x, y)].value.0, cw.overlaps[(x, y)].value.1)
  }

  /** A filled puzzle: every slot has a word of its length, no word twice, every crossing agrees. */
  ghost predicate Solution(cw: Crossword, s: map<Variable, Word>) {
    s.Keys == cw.variables && LengthsOk(s) && Injective(s) && CrossingsAgree(cw, s)
  }

  /** Each solution within `d0` is still within `d1`: no pruning step loses a solution. */
  ghost predicate Preserves(cw: Crossword, d0: Domains, d1: Domains) {
    forall s :: Solution(cw, s) && Within(s, d0) ==> Within(s, d1)
  }

  /** The (slot, word) pairs still in play; pruning makes this set strictly smaller. */
  ghost function Pairs(d: Domains): set<(Variable, Word)> {
    set v, w | v in d && w in d[v] :: (v, w)
  }

  /** The words of `ws` with `n` letters. */
  function OfLength(ws: set<Word>, n: nat): (r: set<Word>)
    ensures forall w :: w in r <==> w in ws && |w| == n
  {
    set w | w in ws && |w| == n
  }

  /** Every domain cut down to the words of its slot's length. */
  function NodeFiltered(d: Domains): (r: Domains)
    ensures NodeConsistent(r) && Shrunk(d, r)
    ensures forall v, w :: v in d && w in d[v] && |w| == v.length ==> w in r[v]
  {
    map v | v in d :: OfLength(d[v], v.length)
  }

  /** Every arc that is not waiting in the queue `q` is consistent. */
  ghost predicate Covered(cw: Crossword, d: Domains, q: seq<Arc>)
    requires cw.WellFormed() && d.Keys == cw.variables
  {
    forall a :: a in cw.overlaps ==> a in q || ArcConsistent(cw, d, a.0, a.1)
  }

  /** Every slot that is assigned has its arcs towards all its crossing slots consistent. */
  ghost predicate AssignedArcsConsistent(cw: Crossword, d: Domains, s: map<Variable, Word>)
    requires cw.WellFormed() && d.Keys == cw.variables && s.Keys <= cw.variables
  {
    forall v, n :: v in s && n in cw.Neighbors(v) ==> ArcConsistent(cw, d, v, n)
  }

  // ---------------------------------------------------------------------
  // Lemmas
  // ---------------------------------------------------------------------

  /** Consistent arcs everywhere include the arcs from assigned slots. */
  lemma AllArcsAssigned(cw: Crossword, d: Domains, s: map<Variable, Word>)
    requires cw.WellFormed() && d.Keys == cw.variables && s.Keys <= cw.variables
    requires AllArcsConsistent(cw, d)
    ensures AssignedArcsConsistent(cw, d, s)
  {
    forall v, n | v in s && n in cw.Neighbors(v) ensures ArcConsistent(cw, d, v, n) {
      assert (v, n) in cw.overlaps;
    }
  }

  /** Crossing is symmetric in a well-formed puzzle: `x` crosses `v` exactly when `v` crosses `x`. */
  lemma NeighborsSymmetric(cw: Crossword, x: Variable, v: Variable)
    requires cw.WellFormed()
    ensures v in cw.Neighbors(x) <==> x in cw.Neighbors(v)
  {
    if v in cw.Neighbors(x) {
      assert (x, v) in cw.overlaps;
    }
    if x in cw.Neighbors(v) {
      assert (v, x) in cw.overlaps;
    }
  }

  /** Revising a second time against the same words drops nothing more. */
  lemma RevisedIdempotent(xs: set<Word>, ys: set<Word>, i: nat, j: nat)
    ensures Revised(Revised(xs, ys, i, j), ys, i, j) == Revised(xs, ys, i, j)
  {
  }

  /** More partner words keep more words: revision is monotone in both sets. */
  lemma RevisedMonotone(xs: set<Word>, xs': set<Word>, ys: set<Word>, ys': set<Word>, i: nat, j: nat)
    requires xs <= xs' && ys <= ys'
    ensures Revised(xs, ys, i, j) <= Revised(xs', ys', i, j)
  {
    forall w | w in Revised(xs, ys, i, j)
      ensures w in Revised(xs', ys', i, j)
    {
      var v :| v in ys && Agree(w, v, i, j);
      assert v in ys';
    }
  }

  /** A revision changes nothing exactly when the arc is already consistent. */
  lemma ReviseArcUnchanged(cw: Crossword, d: Domains, x: Variable, y: Variable)
    requires x in d && y in d && (x, y) in cw.overlaps
    ensures ReviseArc(cw, d, x, y) == d[x] <==> ArcConsistent(cw, d, x, y)
  {
    match cw.overlaps[(x, y)]
    case None =>
    case Some(ij) =>
      if ArcConsistent(cw, d, x, y) {
        assert forall w :: w in d[x] ==> w in ReviseArc(cw, d, x, y);
      }
  }

  /** After revising `x` against `y`, the arc from `x` to `y` is consistent. */
  lemma ReviseArcConsistent(cw: Crossword, d: Domains, x: Variable, y: Variable)
    requires x in d && y in d && (x, y) in cw.overlaps && x != y
    ensures ArcConsistent(cw, d[x := ReviseArc(cw, d, x, y)], x, y)
  {
  }

  /**
   * Revising `x` against `y` keeps the opposite arc consistent: a word of
   * `x` that partners a word of `y` has a partner itself, so it stays.
   */
  lemma ReviseArcKeepsConverse(cw: Crossword, d: Domains, x: Variable, y: Variable)
    requires cw.WellFormed() && x in d && y in d && (x, y) in cw.overlaps
    requires ArcConsistent(cw, d, y, x)
    ensures (y, x) in cw.overlaps
    ensures ArcConsistent(cw, d[x := ReviseArc(cw, d, x, y)], y, x)
  {
    var d1 := d[x := ReviseArc(cw, d, x, y)];
    match cw.overlaps[(x, y)]
    case None =>
      assert cw.overlaps[(y, x)].None? by {
        if cw.overlaps[(y, x)].Some? {
          assert (x, y) in cw.overlaps;
        }
      }
    case Some(ij) =>
      var (i, j) := ij;
      assert cw.overlaps[(y, x)] == Some((j, i));
      forall v | v in d1[y]
        ensures Supported(v, d1[x], j, i)
      {
        var w :| w in d[x] && Agree(v, w, j, i);
        assert Agree(w, v, i, j);
        assert w in d1[x];
      }
  }

  /** Revising `x` keeps every consistent arc that does not point at `x`: only words of `x` go. */
  lemma ReviseArcKeepsOthers(cw: Crossword, d: Domains, x: Variable, y: Variable, a: Variable, b: Variable)
    requires x in d && y in d && (x, y) in cw.overlaps
    requires a in d && b in d && (a, b) in cw.overlaps && b != x
    requires ArcConsistent(cw, d, a, b)
    ensures ArcConsistent(cw, d[x := ReviseArc(cw, d, x, y)], a, b)
  {
  }

  /** A solution within the domains survives a revision. */
  lemma ReviseArcKeepsSolutions(cw: Crossword, d: Domains, x: Variable, y: Variable, s: map<Variable, Word>)
    requires x in d && y in d && (x, y) in cw.overlaps
    requires Solution(cw, s) && Within(s, d) && x in s && y in s
    ensures s[x] in ReviseArc(cw, d, x, y)
  {
    match cw.overlaps[(x, y)]
    case None =>
    case Some(ij) =>
      assert Agree(s[x], s[y], ij.0, ij.1);
  }

  /** Replacing one domain by a part of it that keeps every solution preserves solutions. */
  lemma PreservesUpdate(cw: Crossword, d: Domains, x: Variable, ws: set<Word>)
    requires x in d && ws <= d[x]
    requires forall s :: Solution(cw, s) && Within(s, d) && x in s ==> s[x] in ws
    ensures Shrunk(d, d[x := ws]) && Preserves(cw, d, d[x := ws])
  {
  }

  /**
   * What every pruning step keeps about the domains `d` it reached from
   * `d0`: the same slots, node consistency, only dropped words, and every
   * solution within `d0` still within `d`.
   */
  ghost predicate Narrowed(cw: Crossword, d0: Domains, d: Domains) {
    d.Keys == cw.variables && NodeConsistent(d) && Shrunk(d0, d) && Preserves(cw, d0, d)
  }

  lemma NarrowedRefl(cw: Crossword, d: Domains)
    requires d.Keys == cw.variables && NodeConsistent(d)
    ensures Narrowed(cw, d, d)
  {
  }

  lemma NarrowedTrans(cw: Crossword, d0: Domains, d1: Domains, d2: Domains)
    requires Narrowed(cw, d0, d1) && Narrowed(cw, d1, d2)
    ensures Narrowed(cw, d0, d2)
  {
    forall s | Solution(cw, s) && Within(s, d0)
      ensures Within(s, d2)
    {
      assert Within(s, d1);
    }
  }

  /** A revision keeps the slots, keeps node consistency, only drops words and keeps every solution. */
  lemma ReviseArcSound(cw: Crossword, d: Domains, x: Variable, y: Variable)
    requires d.Keys == cw.variables && x in d && y in d && (x, y) in cw.overlaps
    requires NodeConsistent(d)
    ensures Narrowed(cw, d, d[x := ReviseArc(cw, d, x, y)])
  {
    var ws := ReviseArc(cw, d, x, y);
    forall s | Solution(cw, s) && Within(s, d) && x in s
      ensures s[x] in ws
    {
      ReviseArcKeepsSolutions(cw, d, x, y, s);
    }
    PreservesUpdate(cw, d, x, ws);
  }

  /** What AC-3 keeps besides `Narrowed`: no domain emptied that was not empty from the start. */
  ghost predicate Pruned(cw: Crossword, d0: Domains, d: Domains) {
    Narrowed(cw, d0, d) && forall x :: x in d && d[x] == {} ==> d0[x] == {}
  }

  /** One revision that empties no domain keeps `Pruned`. */
  lemma PrunedStep(cw: Crossword, d0: Domains, d: Domains, x: Variable, y: Variable)
    requires Pruned(cw, d0, d) && x in d && y in d && (x, y) in cw.overlaps
    requires ReviseArc(cw, d, x, y) == d[x] || ReviseArc(cw, d, x, y) != {}
    ensures Pruned(cw, d0, d[x := ReviseArc(cw, d, x, y)])
  {
    ReviseArcSound(cw, d, x, y);
    NarrowedTrans(cw, d0, d, d[x := ReviseArc(cw, d, x, y)]);
  }

  /**
   * One turn of the AC-3 loop on the arc `(x, y)` taken off the queue:
   * revising keeps `Pruned`, the new queue holds only arcs of the puzzle,
   * every arc outside it stays consistent, and a revision that drops words
   * leaves fewer pairs in play.
   */
  lemma Ac3Turn(cw: Crossword, d0: Domains, d: Domains, x: Variable, y: Variable,
                rest: seq<Arc>, extra: seq<Arc>, covered: bool)
    requires cw.WellFormed() && Pruned(cw, d0, d) && (x, y) in cw.overlaps
    requires forall a :: a in rest ==> a in cw.overlaps
    requires covered ==> Covered(cw, d, [(x, y)] + rest)
    requires ReviseArc(cw, d, x, y) == d[x] ==> extra == []
    requires ReviseArc(cw, d, x, y) != d[x] ==>
               ReviseArc(cw, d, x, y) != {} &&
               forall a :: a in extra <==> a.1 == x && a.0 in cw.Neighbors(x) && a.0 != y
    ensures Pruned(cw, d0, d[x := ReviseArc(cw, d, x, y)])
    ensures forall a :: a in rest + extra ==> a in cw.overlaps
    ensures covered ==> Covered(cw, d[x := ReviseArc(cw, d, x, y)], rest + extra)
    ensures ReviseArc(cw, d, x, y) == d[x] ==> d[x := ReviseArc(cw, d, x, y)] == d
    ensures ReviseArc(cw, d, x, y) != d[x] ==> |Pairs(d[x := ReviseArc(cw, d, x, y)])| < |Pairs(d)|
  {
    var ws := ReviseArc(cw, d, x, y);
    PrunedStep(cw, d0, d, x, y);
    if covered {
      Ac3StepCovered(cw, d, x, y, rest, extra);
    }
    if ws != d[x] {
      PairsShrink(d, x, ws);
    } else {
      assert rest + extra == rest;
    }
  }

  /** A strictly smaller domain for one slot means strictly fewer pairs in play. */
  lemma PairsShrink(d: Domains, x: Variable, ws: set<Word>)
    requires x in d && ws < d[x]
    ensures |Pairs(d[x := ws])| < |Pairs(d)|
  {
    var d1 := d[x := ws];
    var w :| w in d[x] && w !in ws;
    assert Pairs(d1) <= Pairs(d) - {(x, w)} by {
      forall p | p in Pairs(d1)
        ensures p in Pairs(d) - {(x, w)}
      {
        var (v, u) := p;
        assert v in d1 && u in d1[v];
      }
    }
    assert (x, w) in Pairs(d);
    CardSubset(Pairs(d1), Pairs(d) - {(x, w)});
  }

  lemma CardSubset<T>(a: set<T>, b: set<T>)
    requires a <= b
    ensures |a| <= |b|
  {
    assert b == a + (b - a);
  }

  /** With no word left for some slot, no solution lies within the domains. */
  lemma EmptyDomainNoSolution(cw: Crossword, d: Domains, x: Variable)
    requires x in cw.variables && x in d && d[x] == {}
    ensures forall s :: Solution(cw, s) ==> !Within(s, d)
  {
    forall s | Solution(cw, s)
      ensures !Within(s, d)
    {
      assert x in s;
    }
  }

  /** The duplicate test on an assignment: distinct words exactly when there are as many words as slots. */
  lemma {:induction false} InjectiveCard(s: map<Variable, Word>)
    ensures Injective(s) <==> |s.Values| == |s|
    decreases |s|
  {
    if |s| == 0 {
      assert s.Values == {};
    } else {
      var v :| v in s;
      var t := map u | u in s && u != v :: s[u];
      assert s.Keys == t.Keys + {v};
      assert |t| == |s| - 1;
      InjectiveCard(t);
      InjectiveAdd(s, v, t);
    }
  }

  /** A map is injective when the rest of it is and the word of `v` is nowhere else in it. */
  lemma InjectiveAdd(s: map<Variable, Word>, v: Variable, t: map<Variable, Word>)
    requires v in s && t == map u | u in s && u != v :: s[u]
    ensures Injective(s) <==> Injective(t) && s[v] !in t.Values
    ensures s[v] in t.Values ==> s.Values == t.Values
    ensures s[v] !in t.Values ==> s.Values == t.Values + {s[v]}
  {
    forall w | w in s.Values
      ensures w == s[v] || w in t.Values
    {
      var a :| a in s && s[a] == w;
      if a != v {
        assert a in t && t[a] == w;
      }
    }
    if s[v] in t.Values {
      var u :| u in t && t[u] == s[v];
      assert u in s && u != v && s[u] == s[v];
    } else if Injective(t) {
      forall a, b | a in s && b in s && a != b
        ensures s[a] != s[b]
      {
        if a == v {
          assert b in t && t[b] == s[b];
        } else if b == v {
          assert a in t && t[a] == s[a];
        } else {
          assert a in t && b in t && t[a] == s[a] && t[b] == s[b];
        }
      }
    }
  }

  /** Equal sizes and one inside the other: the same set of slots. */
  lemma SubsetSameCard<T>(a: set<T>, b: set<T>)
    requires a <= b
    ensures |a| == |b| <==> a == b
  {
    if |a| == |b| {
      assert b == a + (b - a);
      assert |b - a| == 0;
    }
  }

  /** Filtering by length a second time changes nothing. */
  lemma NodeFilteredIdempotent(d: Domains)
    ensures NodeFiltered(NodeFiltered(d)) == NodeFiltered(d)
  {
    var r := NodeFiltered(d);
    forall v | v in r
      ensures NodeFiltered(r)[v] == r[v]
    {
      assert forall w :: w in r[v] ==> |w| == v.length;
    }
  }

  /** A solution only uses words of the right lengths, so filtering by length keeps it. */
  lemma NodeFilteredKeepsSolutions(cw: Crossword, d: Domains)
    ensures Preserves(cw, d, NodeFiltered(d))
  {
  }

  /**
   * One step of AC-3: revising the arc `(x, y)` at the head of the queue.
   * Afterwards the arc is consistent, every other consistent arc stays so
   * except the arcs into `x`, and those are queued again, all but the one
   * from `y`, which the revision cannot break.
   */
  lemma Ac3StepCovered(cw: Crossword, d: Domains, x: Variable, y: Variable, rest: seq<Arc>, extra: seq<Arc>)
    requires cw.WellFormed() && d.Keys == cw.variables && (x, y) in cw.overlaps
    requires Covered(cw, d, [(x, y)] + rest)
    requires ReviseArc(cw, d, x, y) != d[x] ==> forall n :: n in cw.Neighbors(x) && n != y ==> (n, x) in extra
    ensures Covered(cw, d[x := ReviseArc(cw, d, x, y)], rest + extra)
  {
    var d1 := d[x := ReviseArc(cw, d, x, y)];
    forall a | a in cw.overlaps && a !in rest + extra
      ensures ArcConsistent(cw, d1, a.0, a.1)
    {
      var (p, r) := a;
      if a == (x, y) {
        ReviseArcConsistent(cw, d, x, y);
      } else {
        assert a !in [(x, y)] + rest;
        if r != x {
          ReviseArcKeepsOthers(cw, d, x, y, p, r);
        } else if p == y {
          ReviseArcKeepsConverse(cw, d, x, y);
        } else if d1 == d {
        } else {
          ReviseArcUnchanged(cw, d, x, y);
          assert p !in cw.Neighbors(x);
        }
      }
    }
  }
}
