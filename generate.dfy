/**
 * The crossword generator: a constraint-satisfaction solver that keeps, for
 * every slot of a puzzle, the set of words still allowed there (`domains`),
 * prunes those sets by word length and by arc consistency, and fills the
 * slots by backtracking search.
 *
 * The solver object changes `domains` in place, and `Backtrack` writes into
 * the assignment object its caller hands it, as the program does.
 */
module Generate {
  import opened Wrappers
  import opened CrosswordPuzzle
  import opened KeySort

  /** A partial assignment, slot to word: the dict that `backtrack` extends in place. */
  class Assignment {
    var entries: map<Variable, Word>

    constructor()
      ensures entries == map[]
    {
      entries := map[];
    }
  }

  /** The slots of `ns` left unassigned in `s` whose domain holds the word `w`. */
  ghost function Holding(ns: set<Variable>, d: Domains, s: map<Variable, Word>, w: Word): set<Variable>
    requires ns <= d.Keys
  {
    set n | n in ns && n !in s && w in d[n]
  }

  /** Looking at one more slot adds it to `Holding` exactly when it is unassigned and holds `w`. */
  lemma HoldingAdd(ns: set<Variable>, d: Domains, s: map<Variable, Word>, w: Word, n: Variable)
    requires ns <= d.Keys && n in d && n !in ns
    ensures |Holding(ns + {n}, d, s, w)| == |Holding(ns, d, s, w)| + if n !in s && w in d[n] then 1 else 0
  {
    if n !in s && w in d[n] {
      assert Holding(ns + {n}, d, s, w) == Holding(ns, d, s, w) + {n};
    } else {
      assert Holding(ns + {n}, d, s, w) == Holding(ns, d, s, w);
    }
  }

  /**
   * The number of unassigned crossing slots of `v` whose domain holds the
   * word `w` itself: the count `order_domain_values` sorts by.
   */
  ghost function RuleOutCount(cw: Crossword, d: Domains, v: Variable, s: map<Variable, Word>, w: Word): nat
    requires cw.Neighbors(v) <= d.Keys
  {
    |Holding(cw.Neighbors(v), d, s, w)|
  }

  /** Distinct words of the right lengths: what `consistent` checks besides the arcs. */
  ghost predicate Accepted(s: map<Variable, Word>) {
    Injective(s) && LengthsOk(s)
  }

  /** Every assigned slot crossing `x` agrees with `x`'s word on the shared letter. */
  ghost predicate AgreesAt(cw: Crossword, s: map<Variable, Word>, x: Variable)
    requires x in s
  {
    forall y :: y in s && (x, y) in cw.overlaps && cw.overlaps[(x, y)].Some? ==>
      Agree(s[x], s[y], cw.overlaps[(x, y)].value.0, cw.overlaps[(x, y)].value.1)
  }

  /**
   * `consistent` as written accepts words that clash at a crossing: two
   * two-letter slots crossing at their first cells, the vocabulary
   * {"ab", "ba"}, and "ab" across with "ba" down.  Both slots keep both
   * words through node consistency and AC-3 (`TwoSlotsArcs`), the words are
   * distinct and of the right lengths, no revision of an assigned slot
   * drops a word, and still the first letters differ.
   */
  lemma ConsistentIgnoresLetters(cw: Crossword, d: Domains, s: map<Variable, Word>)
    requires cw == TwoSlots()
    requires d == map[Variable(0, 0, Across, 2) := {"ab", "ba"}, Variable(0, 0, Down, 2) := {"ab", "ba"}]
    requires s == map[Variable(0, 0, Across, 2) := "ab", Variable(0, 0, Down, 2) := "ba"]
    ensures cw.WellFormed() && d.Keys == cw.variables && NodeConsistent(d)
    ensures Accepted(s) && s.Keys <= cw.variables && AssignedArcsConsistent(cw, d, s)
    ensures !CrossingsAgree(cw, s)
  {
    var a, b := Variable(0, 0, Across, 2), Variable(0, 0, Down, 2);
    TwoSlotsAssigned(d, s);
    assert s.Keys == {a, b} && s[a][0] == 'a' && s[b][0] == 'b';
    forall u, v | u in s && v in s && u != v ensures s[u] != s[v] {
      assert s[u][0] != s[v][0];
    }
    assert LengthsOk(s);
  }

  /** The puzzle of `ConsistentIgnoresLetters`: an across and a down slot of two cells sharing their first cell. */
  function TwoSlots(): (cw: Crossword)
    ensures cw.variables == {Variable(0, 0, Across, 2), Variable(0, 0, Down, 2)}
    ensures cw.overlaps.Keys == {(Variable(0, 0, Across, 2), Variable(0, 0, Down, 2)), (Variable(0, 0, Down, 2), Variable(0, 0, Across, 2))}
    ensures forall k :: k in cw.overlaps ==> cw.overlaps[k] == Some((0, 0))
  {
    var a, b := Variable(0, 0, Across, 2), Variable(0, 0, Down, 2);
    Crossword(2, 2, {a, b}, {"ab", "ba"}, map[(a, b) := Some((0, 0)), (b, a) := Some((0, 0))])
  }

  /** The two-slot puzzle meets what the loader guarantees. */
  lemma TwoSlotsWellFormed()
    ensures TwoSlots().WellFormed()
  {
  }

  /**
   * Both slots keep both words.  Node consistency turns the starting
   * domains (the whole vocabulary for each slot) into `d`, and every arc of
   * `d` is consistent, each word having a partner with the same first
   * letter, so `Ac3` leaves `d` as it is.
   */
  lemma TwoSlotsArcs(d: Domains)
    requires d == map[Variable(0, 0, Across, 2) := {"ab", "ba"}, Variable(0, 0, Down, 2) := {"ab", "ba"}]
    ensures TwoSlots().WellFormed() && d.Keys == TwoSlots().variables && NodeConsistent(d) && AllArcsConsistent(TwoSlots(), d)
    ensures NodeFiltered(map v | v in TwoSlots().variables :: TwoSlots().words) == d
  {
    TwoSlotsWellFormed();
    TwoSlotsStart(d);
    assert Agree("ab", "ab", 0, 0) && Agree("ba", "ba", 0, 0);
    forall w | w in {"ab", "ba"} ensures Supported(w, {"ab", "ba"}, 0, 0) {
      assert Agree(w, w, 0, 0);
    }
  }

  /** Both vocabulary words have two letters, so node consistency keeps them for both slots. */
  lemma TwoSlotsStart(d: Domains)
    requires d == map[Variable(0, 0, Across, 2) := {"ab", "ba"}, Variable(0, 0, Down, 2) := {"ab", "ba"}]
    ensures NodeFiltered(map v | v in TwoSlots().variables :: TwoSlots().words) == d
  {
    var start := map v | v in TwoSlots().variables :: TwoSlots().words;
    forall v | v in start ensures NodeFiltered(start)[v] == d[v] {
      assert OfLength({"ab", "ba"}, 2) == {"ab", "ba"};
    }
  }

  /** Since every arc of the two-slot puzzle is consistent, so is every arc from an assigned slot. */
  lemma TwoSlotsAssigned(d: Domains, s: map<Variable, Word>)
    requires d == map[Variable(0, 0, Across, 2) := {"ab", "ba"}, Variable(0, 0, Down, 2) := {"ab", "ba"}]
    requires s.Keys <= TwoSlots().variables
    ensures TwoSlots().WellFormed() && d.Keys == TwoSlots().variables && NodeConsistent(d)
    ensures AssignedArcsConsistent(TwoSlots(), d, s)
  {
    TwoSlotsArcs(d);
    AllArcsAssigned(TwoSlots(), d, s);
  }

  /** Every entry of `s` that `start` lacks holds a word its slot had in the domains `d`. */
  ghost predicate NewFrom(start: map<Variable, Word>, s: map<Variable, Word>, d: Domains) {
    forall v :: v in s && v !in start ==> v in d && s[v] in d[v]
  }

  /**
   * One value tried by `backtrack`: entries other than the slot's own are
   * kept, the slot keeps its word or gets `value`, a word of its domain, and
   * whatever the deeper search added came from domains inside `d0`; so
   * every entry added since `start` still comes from `d0`.
   */
  lemma NewFromStep(start: map<Variable, Word>, s1: map<Variable, Word>, s2: map<Variable, Word>,
                    d0: Domains, d1: Domains, variable: Variable, value: Word)
    requires NewFrom(start, s1, d0) && Shrunk(d0, d1)
    requires variable in d0 && value in d0[variable]
    requires forall v :: v in s1 && v != variable ==> v in s2 && s2[v] == s1[v]
    requires s2 == s1 || (variable in s2 && s2[variable] == value)
    requires NewFrom(s1[variable := value], s2, d1)
    ensures NewFrom(start, s2, d0)
  {
    forall v | v in s2 && v !in start
      ensures v in d0 && s2[v] in d0[v]
    {
      if v == variable {
        if s2 != s1 {
          assert s2[v] == value;
        }
      } else if v !in s1 {
        assert v in d1 && s2[v] in d1[v];
      }
    }
  }

  /** Words taken from narrowed domains were in the wider ones too. */
  lemma NewFromShrunk(start: map<Variable, Word>, s: map<Variable, Word>, d0: Domains, d1: Domains)
    requires NewFrom(start, s, d1) && Shrunk(d0, d1)
    ensures NewFrom(start, s, d0)
  {
  }

  /**
   * Once the search below a new entry `variable := value` returns, the
   * assignment still holds every earlier entry and the new one, and it is
   * accepted (with agreeing crossings under the letter check).
   */
  lemma SearchedFrom(cw: Crossword, start: map<Variable, Word>, variable: Variable, value: Word,
                     after: map<Variable, Word>, checkLetters: bool)
    requires Accepted(start[variable := value])
    requires checkLetters ==> CrossingsAgree(cw, start[variable := value])
    requires forall v :: v in start[variable := value] ==> v in after && after[v] == start[variable := value][v]
    requires after == start[variable := value] || Accepted(after)
    requires checkLetters ==> after == start[variable := value] || CrossingsAgree(cw, after)
    ensures forall v :: v in start && v != variable ==> v in after && after[v] == start[v]
    ensures variable in after && after[variable] == value
    ensures Accepted(after) && (checkLetters ==> CrossingsAgree(cw, after))
  {
    assert variable in start[variable := value];
  }

  /** Writing a slot's word removes exactly that slot from the unassigned ones. */
  lemma UnassignedAfterWrite(vars: set<Variable>, s: map<Variable, Word>, v: Variable, w: Word)
    ensures vars - s[v := w].Keys == vars - s.Keys - {v}
  {
  }

  /** A table of the words of `all` taken out of `todo` so far, listed once each in `order`. */
  ghost predicate TableSoFar(all: set<Word>, todo: set<Word>, table: map<Word, nat>, order: seq<Word>) {
    && todo + table.Keys == all && todo !! table.Keys
    && multiset(order) == multiset(table.Keys)
    && HasKeys(order, table)
  }

  /** Taking one more word out of `todo` keeps the table's shape. */
  lemma TableStep(all: set<Word>, todo: set<Word>, table: map<Word, nat>, order: seq<Word>, w: Word, count: nat)
    requires TableSoFar(all, todo, table, order) && w in todo
    ensures TableSoFar(all, todo - {w}, table[w := count], order + [w])
  {
    var t := table[w := count];
    assert t.Keys == table.Keys + {w} && w !in table.Keys;
    assert multiset(t.Keys) == multiset(table.Keys) + multiset{w};
    assert multiset(order + [w]) == multiset(order) + multiset{w};
  }

  /** Every word of the table is mapped to its `RuleOutCount`. */
  ghost predicate Counted(cw: Crossword, d: Domains, v: Variable, s: map<Variable, Word>, table: map<Word, nat>)
    requires cw.Neighbors(v) <= d.Keys
  {
    forall w :: w in table ==> table[w] == RuleOutCount(cw, d, v, s, w)
  }

  /** Adding one word with its count keeps the table counted. */
  lemma CountedStep(cw: Crossword, d: Domains, v: Variable, s: map<Variable, Word>, table: map<Word, nat>, w: Word, count: nat)
    requires cw.Neighbors(v) <= d.Keys
    requires Counted(cw, d, v, s, table) && count == RuleOutCount(cw, d, v, s, w)
    ensures Counted(cw, d, v, s, table[w := count])
  {
    forall x | x in table[w := count] ensures table[w := count][x] == RuleOutCount(cw, d, v, s, x) {
      if x != w {
        assert table[w := count][x] == table[x];
      }
    }
  }

  /** The grid cell holding letter `k` of a word placed in slot `v`. */
  function Cell(v: Variable, k: nat): (rc: (nat, nat))
    ensures v.direction == Across ==> rc == (v.i, v.j + k)
    ensures v.direction == Down ==> rc == (v.i + k, v.j)
  {
    if v.direction == Down then (v.i + k, v.j) else (v.i, v.j + k)
  }

  /** Different letters of one slot lie in different cells. */
  lemma CellInjective(v: Variable, k: nat, m: nat)
    ensures Cell(v, k) == Cell(v, m) <==> k == m
  {
  }

  /** Cell `(r, c)` holds one of the first `n` letters of a word in slot `v`. */
  predicate InSlot(v: Variable, n: nat, r: int, c: int) {
    if v.direction == Down then c == v.j && v.i <= r < v.i + n
    else r == v.i && v.j <= c < v.j + n
  }

  /** The first `n` letters of a slot fill exactly the cells `InSlot` names. */
  lemma InSlotCells(v: Variable, n: nat, r: int, c: int)
    ensures InSlot(v, n, r, c) <==> exists k: nat :: k < n && Cell(v, k) == (r, c)
  {
    if InSlot(v, n, r, c) {
      var k: nat := if v.direction == Down then r - v.i else c - v.j;
      assert Cell(v, k) == (r, c);
    }
  }

  /** One more letter of a slot adds exactly the cell of that letter. */
  lemma InSlotGrow(v: Variable, n: nat, r: int, c: int)
    ensures InSlot(v, n + 1, r, c) <==> InSlot(v, n, r, c) || (r, c) == Cell(v, n)
  {
  }

  /** Some word of `s` has a letter in cell `(r, c)`. */
  ghost predicate Covering(s: map<Variable, Word>, r: int, c: int) {
    exists v: Variable, k: nat :: v in s && k < |s[v]| && Cell(v, k) == (r, c)
  }

  /** Some word of `s` has the letter `ch` in cell `(r, c)`. */
  ghost predicate LetterFrom(s: map<Variable, Word>, r: int, c: int, ch: char) {
    exists v: Variable, k: nat :: v in s && k < |s[v]| && Cell(v, k) == (r, c) && s[v][k] == ch
  }

  /** Words that share a cell have the same letter there. */
  ghost predicate LettersAgree(s: map<Variable, Word>) {
    forall v: Variable, k: nat, u: Variable, m: nat :: v in s && u in s && k < |s[v]| && m < |s[u]| && Cell(v, k) == Cell(u, m) ==>
      s[v][k] == s[u][m]
  }

  /** The grid shows the words of `p`: a cell is empty exactly when no word reaches it, and otherwise holds a letter one of them has there. */
  ghost predicate Shows(letters: array2<Option<char>>, p: map<Variable, Word>)
    reads letters
  {
    forall r, c :: 0 <= r < letters.Length0 && 0 <= c < letters.Length1 ==>
      && (letters[r, c] == None <==> !Covering(p, r, c))
      && (letters[r, c].Some? ==> LetterFrom(p, r, c, letters[r, c].value))
  }

  /** A grid that shows words agreeing at every shared cell holds each word's own letters. */
  lemma ShowsAgreed(letters: array2<Option<char>>, s: map<Variable, Word>)
    requires Shows(letters, s)
    requires forall v: Variable, k: nat :: v in s && k < |s[v]| ==>
               Cell(v, k).0 < letters.Length0 && Cell(v, k).1 < letters.Length1
    ensures LettersAgree(s) ==>
              forall v: Variable, k: nat :: v in s && k < |s[v]| ==> letters[Cell(v, k).0, Cell(v, k).1] == Some(s[v][k])
  {
    if LettersAgree(s) {
      forall v: Variable, k: nat | v in s && k < |s[v]|
        ensures letters[Cell(v, k).0, Cell(v, k).1] == Some(s[v][k])
      {
        var (r, c) := Cell(v, k);
        assert Covering(s, r, c);
        var u: Variable, m: nat :| u in s && m < |s[u]| && Cell(u, m) == (r, c) && s[u][m] == letters[r, c].value;
      }
    }
  }

  /** Painting letter `k` of `v`'s word adds exactly its cell to the painted ones. */
  lemma PaintStep(p: map<Variable, Word>, v: Variable, w: Word, k: nat, r: int, c: int, ch: char)
    requires v in p && k < |w| && p[v] == w[..k]
    ensures Covering(p[v := w[..k + 1]], r, c) <==> Covering(p, r, c) || Cell(v, k) == (r, c)
    ensures LetterFrom(p, r, c, ch) ==> LetterFrom(p[v := w[..k + 1]], r, c, ch)
    ensures LetterFrom(p[v := w[..k + 1]], Cell(v, k).0, Cell(v, k).1, w[k])
  {
    var q := p[v := w[..k + 1]];
    if Covering(q, r, c) {
      var u: Variable, m: nat :| u in q && m < |q[u]| && Cell(u, m) == (r, c);
      if u != v || m < k {
        assert u in p && m < |p[u]| && Cell(u, m) == (r, c);
      }
    }
    if Covering(p, r, c) {
      var u: Variable, m: nat :| u in p && m < |p[u]| && Cell(u, m) == (r, c);
      assert u in q && m < |q[u]| && Cell(u, m) == (r, c);
    }
    if Cell(v, k) == (r, c) {
      assert v in q && k < |q[v]| && Cell(v, k) == (r, c);
    }
    if LetterFrom(p, r, c, ch) {
      var u: Variable, m: nat :| u in p && m < |p[u]| && Cell(u, m) == (r, c) && p[u][m] == ch;
      assert u in q && m < |q[u]| && Cell(u, m) == (r, c) && q[u][m] == ch;
    }
    assert v in q && k < |q[v]| && q[v][k] == w[k];
  }

  class CrosswordCreator {
    const crossword: Crossword
    var domains: Domains

    /** There is a domain for every slot and for nothing else. */
    ghost predicate Valid()
      reads this
    {
      domains.Keys == crossword.variables
    }

    /** Every slot starts with the whole vocabulary. */
    constructor(crossword: Crossword)
      ensures this.crossword == crossword
      ensures domains == map v | v in crossword.variables :: crossword.words
      ensures Valid()
    {
      this.crossword := crossword;
      domains := map v | v in crossword.variables :: crossword.words;
    }

    /**
     * `letter_grid(assignment)`: a height-by-width grid with every assigned
     * word written into its cells; a cell no word reaches is empty.  Words
     * are written one after the other, so where two words share a cell the
     * one written later wins; when they agree on the letter, every cell
     * shows the letter of each word through it.
     */
    method LetterGrid(assignment: map<Variable, Word>) returns (letters: array2<Option<char>>)
      requires forall v: Variable, k: nat :: v in assignment && k < |assignment[v]| ==>
                 Cell(v, k).0 < crossword.height && Cell(v, k).1 < crossword.width
      ensures fresh(letters)
      ensures letters.Length0 == crossword.height && letters.Length1 == crossword.width
      ensures forall r, c :: 0 <= r < letters.Length0 && 0 <= c < letters.Length1 ==>
                (letters[r, c] == None <==> !Covering(assignment, r, c))
      ensures forall r, c :: 0 <= r < letters.Length0 && 0 <= c < letters.Length1 && letters[r, c].Some? ==>
                LetterFrom(assignment, r, c, letters[r, c].value)
      ensures LettersAgree(assignment) ==>
                forall v: Variable, k: nat :: v in assignment && k < |assignment[v]| ==>
                  letters[Cell(v, k).0, Cell(v, k).1] == Some(assignment[v][k])
    {
      letters := new Option<char>[crossword.height, crossword.width]((r, c) => None);
      ghost var painted: map<Variable, Word> := map v | v in assignment :: "";
      var keys := assignment.Keys;
      while keys != {}
        invariant keys <= assignment.Keys && painted.Keys == assignment.Keys
        invariant forall v :: v in painted ==> painted[v] == if v in keys then "" else assignment[v]
        invariant Shows(letters, painted)
        decreases keys
      {
        var variable :| variable in keys;
        keys := keys - {variable};
        var word := assignment[variable];
        PaintWord(letters, variable, word, painted);
        painted := painted[variable := word];
      }
      assert painted == assignment;
      ShowsAgreed(letters, assignment);
    }

    /**
     * The inner loop of `letter_grid`: write `word`'s letters into the cells
     * of `variable`.  Each of those cells then holds the word's letter, every
     * other cell keeps what it had, and the grid shows the painted words
     * with this one added.
     */
    method PaintWord(letters: array2<Option<char>>, variable: Variable, word: Word, ghost painted: map<Variable, Word>)
      requires variable in painted && painted[variable] == ""
      requires forall k :: 0 <= k < |word| ==> Cell(variable, k).0 < letters.Length0 && Cell(variable, k).1 < letters.Length1
      requires Shows(letters, painted)
      modifies letters
      ensures forall k :: 0 <= k < |word| ==> letters[Cell(variable, k).0, Cell(variable, k).1] == Some(word[k])
      ensures forall r, c :: 0 <= r < letters.Length0 && 0 <= c < letters.Length1 && !InSlot(variable, |word|, r, c) ==>
                letters[r, c] == old(letters[r, c])
      ensures Shows(letters, painted[variable := word])
    {
      var k := 0;
      ghost var shown := painted;
      assert painted[variable := word[..0]] == painted;
      while k < |word|
        invariant 0 <= k <= |word|
        invariant forall m :: 0 <= m < k ==> letters[Cell(variable, m).0, Cell(variable, m).1] == Some(word[m])
        invariant forall r, c :: 0 <= r < letters.Length0 && 0 <= c < letters.Length1 && !InSlot(variable, k, r, c) ==>
                    letters[r, c] == old(letters[r, c])
        invariant shown == painted[variable := word[..k]] && Shows(letters, shown)
      {
        var i := variable.i + (if variable.direction == Down then k else 0);
        var j := variable.j + (if variable.direction == Across then k else 0);
        assert (i, j) == Cell(variable, k);
        ghost var next := painted[variable := word[..k + 1]];
        PaintLetter(letters, variable, word, k, i, j, shown, next);
        shown := next;
        k := k + 1;
      }
      assert word[..k] == word;
    }

    /** One step of the inner loop of `letter_grid`: letter `k` of `word` written into its cell `(i, j)`. */
    method PaintLetter(letters: array2<Option<char>>, variable: Variable, word: Word, k: nat, i: nat, j: nat,
                       ghost p: map<Variable, Word>, ghost q: map<Variable, Word>)
      requires variable in p && k < |word| && p[variable] == word[..k] && q == p[variable := word[..k + 1]]
      requires (i, j) == Cell(variable, k) && i < letters.Length0 && j < letters.Length1
      requires Shows(letters, p)
      requires forall m :: 0 <= m < k ==> letters[Cell(variable, m).0, Cell(variable, m).1] == Some(word[m])
      modifies letters
      ensures forall m :: 0 <= m < k + 1 ==> letters[Cell(variable, m).0, Cell(variable, m).1] == Some(word[m])
      ensures forall r, c :: 0 <= r < letters.Length0 && 0 <= c < letters.Length1 && !InSlot(variable, k + 1, r, c) ==>
                letters[r, c] == old(letters[r, c])
      ensures Shows(letters, q)
    {
      letters[i, j] := Some(word[k]);
      forall m | 0 <= m < k + 1
        ensures letters[Cell(variable, m).0, Cell(variable, m).1] == Some(word[m])
      {
        CellInjective(variable, m, k);
      }
      forall r, c | 0 <= r < letters.Length0 && 0 <= c < letters.Length1 && !InSlot(variable, k + 1, r, c)
        ensures letters[r, c] == old(letters[r, c])
      {
        InSlotGrow(variable, k, r, c);
      }
      forall r, c | 0 <= r < letters.Length0 && 0 <= c < letters.Length1
        ensures letters[r, c] == None <==> !Covering(q, r, c)
        ensures letters[r, c].Some? ==> LetterFrom(q, r, c, letters[r, c].value)
      {
        if (r, c) == (i, j) {
          PaintStep(p, variable, word, k, r, c, word[k]);
        } else {
          var old_rc := old(letters[r, c]);
          assert letters[r, c] == old_rc;
          PaintStep(p, variable, word, k, r, c, if old_rc.Some? then old_rc.value else ' ');
        }
      }
    }

    /** `enforce_node_consistency`: drop from every domain the words whose length is not the slot's. */
    method EnforceNodeConsistency()
      requires Valid()
      modifies this
      ensures Valid() && NodeConsistent(domains)
      ensures domains == NodeFiltered(old(domains))
    {
      ghost var d0 := domains;
      var keys := domains.Keys;
      while keys != {}
        invariant keys <= d0.Keys && domains.Keys == d0.Keys
        invariant forall v :: v in domains ==> domains[v] == if v in keys then d0[v] else OfLength(d0[v], v.length)
        decreases keys
      {
        var key :| key in keys;
        keys := keys - {key};
        var length := key.length;
        var copy := domains[key];
        var kept := copy;
        var rest := copy;
        while rest != {}
          invariant rest <= copy
          invariant kept == rest + OfLength(copy - rest, length)
          decreases rest
        {
          var word :| word in rest;
          ghost var done := OfLength(copy - rest, length);
          rest := rest - {word};
          if |word| != length {
            assert OfLength(copy - rest, length) == done;
            kept := kept - {word};
          } else {
            assert OfLength(copy - rest, length) == done + {word};
          }
        }
        domains := domains[key := kept];
        assert domains[key] == OfLength(d0[key], key.length);
      }
    }

    /**
     * `revise(x, y)`: make `x` consistent with `y` by dropping every word of
     * `x` that no word of `y` agrees with at their crossing.  Reports whether
     * a word was dropped; slots that do not cross are left alone.
     */
    method Revise(x: Variable, y: Variable) returns (revised: bool)
      requires crossword.WellFormed() && Valid() && NodeConsistent(domains)
      requires (x, y) in crossword.overlaps
      modifies this
      ensures domains == old(domains)[x := ReviseArc(crossword, old(domains), x, y)]
      ensures revised <==> domains[x] != old(domains)[x]
    {
      var modified := false;
      var overlap := crossword.overlaps[(x, y)];
      if overlap.None? {
        return false;
      }
      var (i, j) := overlap.value;
      ghost var d0 := domains;
      var xdomain := domains[x];
      var ydomain := domains[y];
      var rest := xdomain;
      while rest != {}
        invariant rest <= xdomain <= d0[x]
        invariant forall w :: w in d0[x] && w !in rest ==> (w in xdomain <==> Supported(w, ydomain, i, j))
        invariant modified <==> xdomain != d0[x]
        decreases rest
      {
        var xword :| xword in rest;
        rest := rest - {xword};
        if !Supported(xword, ydomain, i, j) {
          modified := true;
          xdomain := xdomain - {xword};
        }
      }
      assert xdomain == Revised(d0[x], d0[y], i, j) == ReviseArc(crossword, d0, x, y);
      domains := domains[x := xdomain];
      return modified;
    }

    /** `list(overlaps.keys())`: every arc of the puzzle, in some order. */
    method OverlapArcs() returns (arcs: seq<Arc>)
      ensures forall a :: a in arcs <==> a in crossword.overlaps
    {
      arcs := [];
      var keys := crossword.overlaps.Keys;
      while keys != {}
        invariant keys <= crossword.overlaps.Keys
        invariant forall a :: a in arcs <==> a in crossword.overlaps.Keys - keys
        decreases keys
      {
        var a :| a in keys;
        keys := keys - {a};
        arcs := arcs + [a];
      }
    }

    /** The arcs `(n, x)` that `ac3` queues again after `x` lost words against `y`. */
    method ArcsInto(x: Variable, y: Variable) returns (arcs: seq<Arc>)
      ensures forall a :: a in arcs <==> a.1 == x && a.0 in crossword.Neighbors(x) && a.0 != y
    {
      arcs := [];
      var neighbours := crossword.Neighbors(x);
      var rest := neighbours;
      while rest != {}
        invariant rest <= neighbours
        invariant forall a :: a in arcs <==> a.1 == x && a.0 in neighbours - rest && a.0 != y
        decreases rest
      {
        var neighbor :| neighbor in rest;
        rest := rest - {neighbor};
        if neighbor != y {
          arcs := arcs + [(neighbor, x)];
        }
      }
    }

    /**
     * `ac3(arcs)`: the AC-3 worklist algorithm, from the given arcs or from
     * every arc of the puzzle.  Only drops words, never a solution; answers
     * false exactly when a revision empties a domain; when every arc
     * outside the starting queue was consistent, it ends with every arc
     * consistent; and domains that are already arc consistent stay as they
     * are.
     */
    method Ac3(arcs: Option<seq<Arc>>) returns (ok: bool)
      requires crossword.WellFormed() && Valid() && NodeConsistent(domains)
      requires arcs.Some? ==> forall a :: a in arcs.value ==> a in crossword.overlaps
      modifies this
      ensures Valid() && Narrowed(crossword, old(domains), domains)
      ensures ok <==> forall x :: x in domains && domains[x] == {} ==> old(domains)[x] == {}
      ensures !ok ==> forall s :: Solution(crossword, s) ==> !Within(s, old(domains))
      ensures ok && arcs.None? ==> AllArcsConsistent(crossword, domains)
      ensures ok && arcs.Some? && Covered(crossword, old(domains), arcs.value) ==> AllArcsConsistent(crossword, domains)
      ensures AllArcsConsistent(crossword, old(domains)) ==> ok && domains == old(domains)
    {
      var q: seq<Arc>;
      if arcs.None? {
        q := OverlapArcs();
      } else {
        q := arcs.value;
      }
      ghost var d0 := domains;
      ghost var covered := Covered(crossword, domains, q);
      NarrowedRefl(crossword, domains);
      while q != []
        invariant Pruned(crossword, d0, domains)
        invariant forall a :: a in q ==> a in crossword.overlaps
        invariant covered ==> Covered(crossword, domains, q)
        invariant AllArcsConsistent(crossword, d0) ==> domains == d0
        decreases |Pairs(domains)|, |q|
      {
        var nodePair := q[0];
        var rest := q[1..];
        assert q == [nodePair] + rest;
        q := rest;
        var (x, y) := nodePair;
        ghost var before := domains;
        ReviseArcUnchanged(crossword, before, x, y);
        var modified := Revise(x, y);
        var extra: seq<Arc> := [];
        if modified {
          if domains[x] == {} {
            EmptyDomainNoSolution(crossword, domains, x);
            ReviseArcSound(crossword, before, x, y);
            NarrowedTrans(crossword, d0, before, domains);
            return false;
          }
          extra := ArcsInto(x, y);
        }
        Ac3Turn(crossword, d0, before, x, y, rest, extra, covered);
        q := q + extra;
      }
      return true;
    }

    /** `assignment_complete`: as many entries as slots, that is, every slot has a word. */
    function AssignmentComplete(assignment: map<Variable, Word>): (complete: bool)
      requires Valid() && assignment.Keys <= crossword.variables
      reads this
      ensures complete <==> assignment.Keys == crossword.variables
    {
      SubsetSameCard(assignment.Keys, crossword.variables);
      |assignment| == |domains|
    }

    /**
     * `consistent(assignment)`: no word twice, every word of its slot's
     * length, and no revision of an assigned slot against a crossing slot
     * drops a word.  The revisions run on the solver's own domains: the
     * first one that drops words stays done.  The letters of two assigned
     * crossing words are never compared (`ConsistentIgnoresLetters`).
     */
    method Consistent(assignment: map<Variable, Word>) returns (ok: bool)
      requires crossword.WellFormed() && Valid() && NodeConsistent(domains)
      requires assignment.Keys <= crossword.variables
      modifies this
      ensures Valid() && Narrowed(crossword, old(domains), domains)
      ensures ok <==> Accepted(assignment) && AssignedArcsConsistent(crossword, old(domains), assignment)
      ensures ok ==> domains == old(domains)
      ensures domains == old(domains) ||
              exists v, n :: v in assignment && n in crossword.Neighbors(v) &&
                             domains == old(domains)[v := ReviseArc(crossword, old(domains), v, n)]
    {
      ghost var d0 := domains;
      NarrowedRefl(crossword, domains);
      InjectiveCard(assignment);
      if |assignment.Values| != |assignment| {
        return false;
      }
      var keys := assignment.Keys;
      while keys != {}
        invariant keys <= assignment.Keys && domains == d0
        invariant forall v :: v in assignment && v !in keys ==> |assignment[v]| == v.length
        invariant forall v, n :: v in assignment && v !in keys && n in crossword.Neighbors(v) ==>
                    ArcConsistent(crossword, d0, v, n)
        decreases keys
      {
        var variable :| variable in keys;
        keys := keys - {variable};
        var length := variable.length;
        if length != |assignment[variable]| {
          return false;
        }
        var agrees := ReviseNeighbours(variable);
        if !agrees {
          assert exists n :: variable in assignment && n in crossword.Neighbors(variable) &&
                             domains == d0[variable := ReviseArc(crossword, d0, variable, n)];
          return false;
        }
      }
      return true;
    }

    /** The inner loop of `consistent`: revise `variable` against each crossing slot until one revision drops words. */
    method ReviseNeighbours(variable: Variable) returns (ok: bool)
      requires crossword.WellFormed() && Valid() && NodeConsistent(domains)
      requires variable in crossword.variables
      modifies this
      ensures Valid() && Narrowed(crossword, old(domains), domains)
      ensures ok <==> forall n :: n in crossword.Neighbors(variable) ==> ArcConsistent(crossword, old(domains), variable, n)
      ensures ok ==> domains == old(domains)
      ensures !ok ==> exists n :: n in crossword.Neighbors(variable) &&
                        domains == old(domains)[variable := ReviseArc(crossword, old(domains), variable, n)]
    {
      ghost var d0 := domains;
      NarrowedRefl(crossword, domains);
      var neighbours := crossword.Neighbors(variable);
      var rest := neighbours;
      while rest != {}
        invariant rest <= neighbours && domains == d0
        invariant forall n :: n in neighbours - rest ==> ArcConsistent(crossword, d0, variable, n)
        decreases rest
      {
        var neighbour :| neighbour in rest;
        rest := rest - {neighbour};
        ReviseArcUnchanged(crossword, d0, variable, neighbour);
        ReviseArcSound(crossword, d0, variable, neighbour);
        var modified := Revise(variable, neighbour);
        if modified {
          assert !ArcConsistent(crossword, d0, variable, neighbour);
          assert neighbour in crossword.Neighbors(variable) &&
                 domains == d0[variable := ReviseArc(crossword, d0, variable, neighbour)];
          return false;
        }
      }
      return true;
    }

    /**
     * `consistent` as its documentation describes it: the checks the
     * program makes, and then no two assigned crossing slots may disagree
     * on the shared letter.  The revisions still run and stay done.
     */
    method ConsistentWithLetters(assignment: map<Variable, Word>) returns (ok: bool)
      requires crossword.WellFormed() && Valid() && NodeConsistent(domains)
      requires assignment.Keys <= crossword.variables
      modifies this
      ensures Valid() && Narrowed(crossword, old(domains), domains)
      ensures ok <==> Accepted(assignment) && CrossingsAgree(crossword, assignment) &&
                      AssignedArcsConsistent(crossword, old(domains), assignment)
      ensures ok ==> domains == old(domains)
    {
      ok := Consistent(assignment);
      if ok {
        ok := LettersMatch(assignment);
      }
    }

    /** The missing check: every two assigned crossing slots agree on the shared letter. */
    method LettersMatch(assignment: map<Variable, Word>) returns (ok: bool)
      requires crossword.WellFormed() && assignment.Keys <= crossword.variables
      ensures ok <==> CrossingsAgree(crossword, assignment)
    {
      var keys := assignment.Keys;
      while keys != {}
        invariant keys <= assignment.Keys
        invariant forall x :: x in assignment && x !in keys ==> AgreesAt(crossword, assignment, x)
        decreases keys
      {
        var variable :| variable in keys;
        keys := keys - {variable};
        ok := LettersMatchAt(assignment, variable);
        if !ok {
          return false;
        }
      }
      return true;
    }

    /** The inner loop of the letter check: the crossing slots of `variable` that are assigned. */
    method LettersMatchAt(assignment: map<Variable, Word>, variable: Variable) returns (ok: bool)
      requires crossword.WellFormed() && assignment.Keys <= crossword.variables && variable in assignment
      ensures ok <==> AgreesAt(crossword, assignment, variable)
    {
      var neighbours := crossword.Neighbors(variable);
      var rest := neighbours;
      while rest != {}
        invariant rest <= neighbours
        invariant forall y :: y in neighbours - rest && y in assignment ==>
                    Agree(assignment[variable], assignment[y],
                          crossword.overlaps[(variable, y)].value.0, crossword.overlaps[(variable, y)].value.1)
        decreases rest
      {
        var neighbour :| neighbour in rest;
        rest := rest - {neighbour};
        if neighbour in assignment {
          var overlap := crossword.overlaps[(variable, neighbour)].value;
          if !Agree(assignment[variable], assignment[neighbour], overlap.0, overlap.1) {
            return false;
          }
        }
      }
      forall y | y in assignment && (variable, y) in crossword.overlaps && crossword.overlaps[(variable, y)].Some?
        ensures y in neighbours
      {
        assert (y, variable) in crossword.overlaps;
      }
      return true;
    }

    /**
     * `order_domain_values(var, assignment)`: the words of the slot's domain,
     * each once, in non-decreasing order of how many unassigned crossing
     * slots still hold the same word.
     */
    method OrderDomainValues(v: Variable, assignment: map<Variable, Word>) returns (values: seq<Word>)
      requires Valid() && v in crossword.variables
      ensures forall w :: w in values <==> w in domains[v]
      ensures |values| == |domains[v]|
      ensures forall p, q :: 0 <= p < q < |values| ==> values[p] != values[q]
      ensures forall p, q :: 0 <= p < q < |values| ==>
                RuleOutCount(crossword, domains, v, assignment, values[p]) <=
                RuleOutCount(crossword, domains, v, assignment, values[q])
    {
      var domainDict, order := RuleOutTable(v, assignment);
      values := Sort(order, domainDict);
      DistinctFromSet(values, domains[v]);
    }

    /**
     * The outer loop of `order_domain_values` that fills `domain_dict`: each
     * word of the slot's domain with its count, and the words in the order
     * they were entered.
     */
    method RuleOutTable(v: Variable, assignment: map<Variable, Word>) returns (domainDict: map<Word, nat>, order: seq<Word>)
      requires Valid() && v in crossword.variables
      ensures domainDict.Keys == domains[v]
      ensures multiset(order) == multiset(domains[v])
      ensures HasKeys(order, domainDict)
      ensures forall w :: w in domainDict ==> domainDict[w] == RuleOutCount(crossword, domains, v, assignment, w)
    {
      domainDict := map[];
      order := [];
      ghost var d := domains;
      var xdomain := domains[v];
      var todo := xdomain;
      while todo != {}
        invariant TableSoFar(xdomain, todo, domainDict, order)
        invariant Counted(crossword, d, v, assignment, domainDict)
        decreases todo
      {
        var value :| value in todo;
        var count := RuleOuts(v, assignment, value);
        TableStep(xdomain, todo, domainDict, order, value, count);
        CountedStep(crossword, d, v, assignment, domainDict, value, count);
        todo := todo - {value};
        domainDict := domainDict[value := count];
        order := order + [value];
      }
    }

    /**
     * The inner loop of `order_domain_values`: how many unassigned crossing
     * slots of `v` still hold `value` in their domain.
     */
    method RuleOuts(v: Variable, assignment: map<Variable, Word>, value: Word) returns (count: nat)
      requires Valid() && v in crossword.variables
      ensures count == RuleOutCount(crossword, domains, v, assignment, value)
    {
      count := 0;
      var neighbours := crossword.Neighbors(v);
      var rest := neighbours;
      while rest != {}
        invariant rest <= neighbours
        invariant count == |Holding(neighbours - rest, domains, assignment, value)|
        decreases rest
      {
        var neighbour :| neighbour in rest;
        HoldingAdd(neighbours - rest, domains, assignment, value, neighbour);
        assert neighbours - (rest - {neighbour}) == (neighbours - rest) + {neighbour};
        rest := rest - {neighbour};
        if neighbour !in assignment {
          var neighbourDomain := domains[neighbour];
          if value in neighbourDomain {
            count := count + 1;
          }
        }
      }
      assert neighbours - rest == neighbours;
    }

    /**
     * `select_unassigned_variable`: an unassigned slot with the fewest words
     * left.  The program sorts the candidates by domain size and, when the
     * first two tie, takes the second unless the first has more crossing
     * slots; so the slot returned has at least the degree of one other
     * tied slot, not necessarily the highest degree.
     */
    method SelectUnassignedVariable(assignment: map<Variable, Word>) returns (v: Variable)
      requires Valid() && exists u :: u in crossword.variables && u !in assignment
      ensures v in crossword.variables && v !in assignment
      ensures forall u :: u in crossword.variables && u !in assignment ==> |domains[v]| <= |domains[u]|
      ensures (exists u :: u in crossword.variables && u !in assignment && u != v && |domains[u]| == |domains[v]|) ==>
              exists u :: u in crossword.variables && u !in assignment && u != v && |domains[u]| == |domains[v]| &&
                          |crossword.Neighbors(u)| <= |crossword.Neighbors(v)|
    {
      var nodeDict, order := CandidateTable(assignment);
      var val := Sort(order, nodeDict);
      DistinctFromSet(val, nodeDict.Keys);
      var u0 :| u0 in crossword.variables && u0 !in assignment;
      assert u0 in val;
      SortedLeast(val, nodeDict);
      v := val[0];
      var tie := |val| > 1 && nodeDict[val[0]] == nodeDict[val[1]];
      if tie {
        v := if |crossword.Neighbors(val[0])| > |crossword.Neighbors(val[1])| then val[0] else val[1];
      }
      assert nodeDict[v] == nodeDict[val[0]];
      if tie {
        var other := if v == val[0] then val[1] else val[0];
        assert other in crossword.variables && other !in assignment && other != v;
        assert |crossword.Neighbors(other)| <= |crossword.Neighbors(v)|;
      }
    }

    /**
     * The loop of `select_unassigned_variable` that fills `node_dict`: every
     * unassigned slot with the size of its domain, and the slots in the
     * order they were entered.
     */
    method CandidateTable(assignment: map<Variable, Word>) returns (nodeDict: map<Variable, nat>, order: seq<Variable>)
      requires Valid()
      ensures forall u :: u in nodeDict <==> u in crossword.variables && u !in assignment
      ensures multiset(order) == multiset(nodeDict.Keys)
      ensures HasKeys(order, nodeDict)
      ensures forall u :: u in nodeDict ==> nodeDict[u] == |domains[u]|
    {
      nodeDict := map[];
      order := [];
      var keys := domains.Keys;
      while keys != {}
        invariant keys <= domains.Keys
        invariant forall u :: u in nodeDict <==> u in domains.Keys - keys && u !in assignment
        invariant multiset(order) == multiset(nodeDict.Keys)
        invariant HasKeys(order, nodeDict)
        invariant forall u :: u in nodeDict ==> nodeDict[u] == |domains[u]|
        decreases keys
      {
        var node :| node in keys;
        keys := keys - {node};
        if node !in assignment {
          nodeDict := nodeDict[node := |domains[node]|];
          order := order + [node];
        }
      }
    }

    /**
     * `backtrack(assignment)`: depth-first search that extends the caller's
     * assignment in place.  A result is that same object, with a word for
     * every slot; the entries it had are never changed; and every map it
     * holds after a write passed `consistent`.  With `checkLetters` the
     * search uses `consistent` with the letter check the program lacks,
     * and a result it filled is then a solution; without it, the search is
     * the program's.  Domains pruned on the way are not restored, and a
     * word written for a slot whose search failed stays written.
     */
    method Backtrack(assignment: Assignment, checkLetters: bool) returns (result: Assignment?)
      requires crossword.WellFormed() && Valid() && NodeConsistent(domains)
      requires assignment.entries.Keys <= crossword.variables
      modifies this, assignment
      ensures Valid() && Narrowed(crossword, old(domains), domains)
      ensures assignment.entries.Keys <= crossword.variables
      ensures forall v :: v in old(assignment.entries) ==> v in assignment.entries && assignment.entries[v] == old(assignment.entries)[v]
      ensures assignment.entries == old(assignment.entries) || Accepted(assignment.entries)
      ensures checkLetters ==> assignment.entries == old(assignment.entries) || CrossingsAgree(crossword, assignment.entries)
      ensures result != null ==> result == assignment && assignment.entries.Keys == crossword.variables
      ensures result != null && checkLetters && assignment.entries != old(assignment.entries) ==>
                Solution(crossword, assignment.entries)
      ensures NewFrom(old(assignment.entries), assignment.entries, old(domains))
      decreases |crossword.variables - assignment.entries.Keys|, 0
    {
      if AssignmentComplete(assignment.entries) {
        NarrowedRefl(crossword, domains);
        return assignment;
      }
      var variable := SelectUnassignedVariable(assignment.entries);
      var values := OrderDomainValues(variable, assignment.entries);
      ghost var start := assignment.entries;
      ghost var d0 := domains;
      NarrowedRefl(crossword, domains);
      var k := 0;
      while k < |values|
        invariant Valid() && Narrowed(crossword, d0, domains)
        invariant assignment.entries.Keys <= crossword.variables
        invariant forall v :: v in start ==> v in assignment.entries && assignment.entries[v] == start[v]
        invariant assignment.entries == start || Accepted(assignment.entries)
        invariant checkLetters ==> assignment.entries == start || CrossingsAgree(crossword, assignment.entries)
        invariant NewFrom(start, assignment.entries, d0)
        decreases |values| - k
      {
        ghost var d1 := domains;
        ghost var s1 := assignment.entries;
        assert crossword.variables - assignment.entries.Keys - {variable} <= crossword.variables - start.Keys - {variable};
        CardSubset(crossword.variables - assignment.entries.Keys - {variable}, crossword.variables - start.Keys - {variable});
        var r := TryValue(assignment, variable, values[k], checkLetters);
        NewFromStep(start, s1, assignment.entries, d0, d1, variable, values[k]);
        NarrowedTrans(crossword, d0, d1, domains);
        if r != null {
          return r;
        }
        k := k + 1;
      }
      return null;
    }

    /**
     * One round of the loop in `backtrack`: give `variable` the word `value`
     * if `consistent` (with the letter check when `checkLetters`) and `ac3`
     * from the new slot's arcs allow it, write it into the assignment and
     * search on.
     */
    method TryValue(assignment: Assignment, variable: Variable, value: Word, checkLetters: bool) returns (result: Assignment?)
      requires crossword.WellFormed() && Valid() && NodeConsistent(domains)
      requires assignment.entries.Keys <= crossword.variables
      requires variable in crossword.variables
      modifies this, assignment
      ensures Valid() && Narrowed(crossword, old(domains), domains)
      ensures assignment.entries.Keys <= crossword.variables
      ensures forall v :: v in old(assignment.entries) && v != variable ==>
                v in assignment.entries && assignment.entries[v] == old(assignment.entries)[v]
      ensures assignment.entries == old(assignment.entries) || Accepted(assignment.entries)
      ensures checkLetters ==> assignment.entries == old(assignment.entries) || CrossingsAgree(crossword, assignment.entries)
      ensures result != null ==> result == assignment && assignment.entries.Keys == crossword.variables
      ensures assignment.entries == old(assignment.entries) ||
              (variable in assignment.entries && assignment.entries[variable] == value)
      ensures NewFrom(old(assignment.entries)[variable := value], assignment.entries, old(domains))
      decreases |crossword.variables - assignment.entries.Keys - {variable}|, 2
    {
      ghost var start := assignment.entries;
      ghost var d0 := domains;
      var newAssignment := assignment.entries[variable := value];
      assert forall v :: v in start && v != variable ==> v in newAssignment && newAssignment[v] == start[v];
      var consistent;
      if checkLetters {
        consistent := ConsistentWithLetters(newAssignment);
      } else {
        consistent := Consistent(newAssignment);
      }
      assert assignment.entries == start;
      if !consistent {
        return null;
      }
      assert Accepted(newAssignment) && (checkLetters ==> CrossingsAgree(crossword, newAssignment));
      var connectedNodes := ArcsFrom(variable);
      ghost var d1 := domains;
      var inference := Ac3(Some(connectedNodes));
      NarrowedTrans(crossword, d0, d1, domains);
      assert assignment.entries == start;
      if !inference {
        return null;
      }
      ghost var d2 := domains;
      result := AssignAndSearch(assignment, variable, value, checkLetters);
      NarrowedTrans(crossword, d0, d2, domains);
      NewFromShrunk(newAssignment, assignment.entries, d0, d2);
    }

    /**
     * The end of a round of `backtrack` whose value passed: write it into
     * the shared assignment and search on from there.
     */
    method AssignAndSearch(assignment: Assignment, variable: Variable, value: Word, checkLetters: bool)
        returns (result: Assignment?)
      requires crossword.WellFormed() && Valid() && NodeConsistent(domains)
      requires assignment.entries.Keys <= crossword.variables
      requires variable in crossword.variables
      requires Accepted(assignment.entries[variable := value])
      requires checkLetters ==> CrossingsAgree(crossword, assignment.entries[variable := value])
      modifies this, assignment
      ensures Valid() && Narrowed(crossword, old(domains), domains)
      ensures assignment.entries.Keys <= crossword.variables
      ensures forall v :: v in old(assignment.entries) && v != variable ==>
                v in assignment.entries && assignment.entries[v] == old(assignment.entries)[v]
      ensures variable in assignment.entries && assignment.entries[variable] == value
      ensures Accepted(assignment.entries) && (checkLetters ==> CrossingsAgree(crossword, assignment.entries))
      ensures result != null ==> result == assignment && assignment.entries.Keys == crossword.variables
      ensures NewFrom(old(assignment.entries)[variable := value], assignment.entries, old(domains))
      decreases |crossword.variables - assignment.entries.Keys - {variable}|, 1
    {
      ghost var start := assignment.entries;
      ghost var d0 := domains;
      assignment.entries := assignment.entries[variable := value];
      assert domains == d0;
      UnassignedAfterWrite(crossword.variables, start, variable, value);
      result := Backtrack(assignment, checkLetters);
      SearchedFrom(crossword, start, variable, value, assignment.entries, checkLetters);
    }

    /** `[(var, n) for n in neighbors(var)]`: the arcs from a slot to each slot crossing it. */
    method ArcsFrom(v: Variable) returns (arcs: seq<Arc>)
      requires crossword.WellFormed() && v in crossword.variables
      ensures forall a :: a in arcs <==> a.0 == v && a.1 in crossword.Neighbors(v)
      ensures forall a :: a in arcs ==> a in crossword.overlaps
    {
      arcs := [];
      var neighbours := crossword.Neighbors(v);
      var rest := neighbours;
      while rest != {}
        invariant rest <= neighbours
        invariant forall a :: a in arcs <==> a.0 == v && a.1 in neighbours - rest
        decreases rest
      {
        var n :| n in rest;
        rest := rest - {n};
        arcs := arcs + [(v, n)];
      }
    }

    /**
     * `solve`: node consistency, a full AC-3 pass whose answer is not used,
     * then backtracking from an empty assignment.  A result gives every
     * slot a word of its length and no word twice; with `checkLetters` it
     * is a solution, crossing slots agreeing too.
     */
    method Solve(checkLetters: bool) returns (result: Assignment?)
      requires crossword.WellFormed() && Valid()
      requires forall v :: v in domains ==> domains[v] <= crossword.words
      modifies this
      ensures Valid() && NodeConsistent(domains)
      ensures result != null ==> fresh(result) && result.entries.Keys == crossword.variables && Accepted(result.entries)
      ensures result != null && checkLetters ==> Solution(crossword, result.entries)
      ensures result != null ==> forall v :: v in result.entries ==> result.entries[v] in crossword.words
    {
      ghost var d0 := domains;
      EnforceNodeConsistency();
      ghost var d1 := domains;
      var _ := Ac3(None);
      ghost var d2 := domains;
      var assignment := new Assignment();
      result := Backtrack(assignment, checkLetters);
      forall v | result != null && v in result.entries
        ensures result.entries[v] in crossword.words
      {
        assert result.entries[v] in d2[v] && d2[v] <= d1[v] && d1[v] <= d0[v];
      }
    }
  }
}
