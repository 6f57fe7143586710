/**
 * The crossword generator: a CSP solver object that owns one domain of
 * candidate words per slot, shrinks them by node and arc consistency, and
 * then searches for a complete, consistent assignment by backtracking.
 */
module Generate {
  import opened Wrappers
  import opened CrosswordGrid
  import opened Csp

  /** The mutable assignment dictionary that the search extends and undoes in place. */
  class Assignment {
    var entries: Words

    constructor ()
      ensures entries == map[]
    {
      entries := map[];
    }
  }

  /** `(i, j)` is one of the cells written for the words of `a` by letter_grid. */
  ghost predicate Covered(a: Words, r: nat, c: nat)
  {
    exists v, k: nat :: v in a && k < |a[v]| && Cell(v, k) == (r, c)
  }

  /** Letter `ch` is the letter some word of `a` places at cell `(r, c)`. */
  ghost predicate PlacedLetter(a: Words, r: nat, c: nat, ch: char)
  {
    exists v, k: nat :: v in a && k < |a[v]| && Cell(v, k) == (r, c) && a[v][k] == ch
  }

  /**
   * Each cell of `letters` is empty exactly when no word of `a` or `b` covers
   * it, and otherwise holds a letter one of those words places there.
   */
  ghost predicate Shows(letters: array2<Option<char>>, a: Words, b: Words)
    reads letters
  {
    forall r, c :: 0 <= r < letters.Length0 && 0 <= c < letters.Length1 ==>
      && (letters[r, c].None? <==> !Covered(a, r, c) && !Covered(b, r, c))
      && (letters[r, c].Some? ==> PlacedLetter(a, r, c, letters[r, c].value) || PlacedLetter(b, r, c, letters[r, c].value))
  }

  /** Extending the written prefix of `word` by one letter covers exactly one more cell. */
  lemma CoveredPrefixStep(v: Variable, word: string, k: nat)
    requires k < |word|
    ensures forall r: nat, c: nat :: Covered(map[v := word[..k + 1]], r, c) <==>
      Covered(map[v := word[..k]], r, c) || Cell(v, k) == (r, c)
  {
    var next := map[v := word[..k + 1]];
    var prev := map[v := word[..k]];
    forall r: nat, c: nat | Covered(prev, r, c)
      ensures Covered(next, r, c)
    {
      var u, m: nat :| u in prev && m < |prev[u]| && Cell(u, m) == (r, c);
      assert m < |next[u]|;
    }
    assert k < |next[v]|;
  }

  /** Extending the written prefix of `word` by one letter places exactly `word[k]` at one more cell. */
  lemma PlacedPrefixStep(v: Variable, word: string, k: nat)
    requires k < |word|
    ensures forall r: nat, c: nat, ch :: PlacedLetter(map[v := word[..k + 1]], r, c, ch) <==>
      PlacedLetter(map[v := word[..k]], r, c, ch) || (Cell(v, k) == (r, c) && word[k] == ch)
  {
    var next := map[v := word[..k + 1]];
    var prev := map[v := word[..k]];
    forall r: nat, c: nat, ch | PlacedLetter(prev, r, c, ch)
      ensures PlacedLetter(next, r, c, ch)
    {
      var u, m: nat :| u in prev && m < |prev[u]| && Cell(u, m) == (r, c) && prev[u][m] == ch;
      assert next[u][m] == ch;
    }
    assert next[v][k] == word[k];
  }

  /** Cell (`r`, `c`) is one of the first `n` cells of slot `v`. */
  predicate OnSlot(v: Variable, n: nat, r: int, c: int)
  {
    if v.direction == Down then c == v.j && v.i <= r < v.i + n
    else r == v.i && v.j <= c < v.j + n
  }

  /** The first `n` cells of a slot are exactly the cells of its offsets below `n`. */
  lemma OnSlotCells(v: Variable, n: nat, r: int, c: int)
    ensures OnSlot(v, n, r, c) <==> exists k :: 0 <= k < n && Cell(v, k) == (r, c)
  {
    if OnSlot(v, n, r, c) {
      var k := if v.direction == Down then r - v.i else c - v.j;
      assert Cell(v, k) == (r, c);
    }
  }

  /** Writing the letters of `word` along `variable`'s cells, as the inner loop of letter_grid does. */
  method WriteWord(letters: array2<Option<char>>, ghost done: Words, variable: Variable, word: string)
    requires forall k: nat :: k < |word| ==> Cell(variable, k).0 < letters.Length0 && Cell(variable, k).1 < letters.Length1
    requires Shows(letters, done, map[])
    modifies letters
    ensures Shows(letters, done, map[variable := word])
    ensures forall k :: 0 <= k < |word| ==> letters[Cell(variable, k).0, Cell(variable, k).1] == Some(word[k])
    ensures forall r, c :: 0 <= r < letters.Length0 && 0 <= c < letters.Length1 && !OnSlot(variable, |word|, r, c) ==>
      letters[r, c] == old(letters[r, c])
  {
    for k := 0 to |word|
      invariant Shows(letters, done, map[variable := word[..k]])
      invariant forall m :: 0 <= m < k ==> letters[Cell(variable, m).0, Cell(variable, m).1] == Some(word[m])
      invariant forall r, c :: 0 <= r < letters.Length0 && 0 <= c < letters.Length1 && !OnSlot(variable, k, r, c) ==>
        letters[r, c] == old(letters[r, c])
    {
      WriteLetter(letters, done, variable, word, k);
    }
    assert word[..|word|] == word;
  }

  /** One step of the inner loop of letter_grid: letter `k` of `word` goes to its cell, and only that cell changes. */
  method WriteLetter(letters: array2<Option<char>>, ghost done: Words, variable: Variable, word: string, k: nat)
    requires k < |word|
    requires Cell(variable, k).0 < letters.Length0 && Cell(variable, k).1 < letters.Length1
    requires Shows(letters, done, map[variable := word[..k]])
    modifies letters
    ensures Shows(letters, done, map[variable := word[..k + 1]])
    ensures letters[Cell(variable, k).0, Cell(variable, k).1] == Some(word[k])
    ensures forall r, c :: 0 <= r < letters.Length0 && 0 <= c < letters.Length1 && (r, c) != Cell(variable, k) ==>
      letters[r, c] == old(letters[r, c])
  {
    var direction := variable.direction;
    var i := variable.i + (if direction == Down then k else 0);
    var j := variable.j + (if direction == Across then k else 0);
    assert (i, j) == Cell(variable, k);
    letters[i, j] := Some(word[k]);
    CoveredPrefixStep(variable, word, k);
    PlacedPrefixStep(variable, word, k);
  }

  /** The cells shown for `done` and for `variable`'s word are those shown for both together. */
  lemma ShowsMerge(letters: array2<Option<char>>, done: Words, variable: Variable, word: string)
    requires variable !in done
    requires Shows(letters, done, map[variable := word])
    ensures Shows(letters, done[variable := word], map[])
  {
    var both := done[variable := word];
    forall r: nat, c: nat, ch | Covered(both, r, c) || PlacedLetter(both, r, c, ch)
      ensures Covered(both, r, c) ==> Covered(done, r, c) || Covered(map[variable := word], r, c)
      ensures PlacedLetter(both, r, c, ch) ==> PlacedLetter(done, r, c, ch) || PlacedLetter(map[variable := word], r, c, ch)
    {
    }
    forall r: nat, c: nat, ch | Covered(done, r, c) || PlacedLetter(done, r, c, ch)
      ensures Covered(done, r, c) ==> Covered(both, r, c)
      ensures PlacedLetter(done, r, c, ch) ==> PlacedLetter(both, r, c, ch)
    {
      if Covered(done, r, c) {
        var v, k: nat :| v in done && k < |done[v]| && Cell(v, k) == (r, c);
        assert v in both && both[v] == done[v];
      }
      if PlacedLetter(done, r, c, ch) {
        var v, k: nat :| v in done && k < |done[v]| && Cell(v, k) == (r, c) && done[v][k] == ch;
        assert v in both && both[v] == done[v];
      }
    }
  }

  /**
   * In a consistent assignment over a grid whose overlaps are exactly the
   * shared cells, two words never place different letters in one cell.
   */
  lemma PlacedLetterUnique(cw: Crossword, a: Words, r: nat, c: nat, ch1: char, ch2: char)
    requires OverlapsMatchCells(cw)
    requires a.Keys <= cw.variables && IsConsistent(cw, a)
    requires PlacedLetter(a, r, c, ch1) && PlacedLetter(a, r, c, ch2)
    ensures ch1 == ch2
  {
    var v1, k1: nat :| v1 in a && k1 < |a[v1]| && Cell(v1, k1) == (r, c) && a[v1][k1] == ch1;
    var v2, k2: nat :| v2 in a && k2 < |a[v2]| && Cell(v2, k2) == (r, c) && a[v2][k2] == ch2;
    if v1 != v2 {
      assert Overlap(cw, v1, v2) == Some((k1, k2));
    }
  }

  /**
   * Inserts `(word, n)` after every pair whose score is at least `n`, so the
   * list stays sorted by non-increasing score (the sort of order_domain_values).
   */
  method InsertByScore(ranked: seq<(string, nat)>, word: string, n: nat) returns (ranked': seq<(string, nat)>)
    requires RankedDistinct(ranked) && RankedSorted(ranked)
    requires word !in RankedWords(ranked)
    ensures RankedDistinct(ranked') && RankedSorted(ranked')
    ensures |ranked'| == |ranked| + 1
    ensures forall e :: e in ranked' <==> e in ranked || e == (word, n)
    ensures RankedWords(ranked') == RankedWords(ranked) + {word}
  {
    var pos := 0;
    while pos < |ranked| && ranked[pos].1 >= n
      invariant 0 <= pos <= |ranked|
      invariant forall k :: 0 <= k < pos ==> ranked[k].1 >= n
    {
      pos := pos + 1;
    }
    ranked' := InsertAt(ranked, pos, (word, n));
    InsertSorted(ranked, pos, (word, n));
    InsertDistinct(ranked, pos, (word, n));
    InsertMembers(ranked, pos, (word, n));
  }

  class CrosswordCreator {
    const crossword: Crossword
    var domains: Domains

    ghost predicate Valid()
      reads this
    {
      WellFormed(crossword) && domains.Keys == crossword.variables
    }

    /** Every variable starts with its own copy of the whole word list. */
    constructor (crossword: Crossword)
      requires WellFormed(crossword)
      ensures Valid()
      ensures this.crossword == crossword
      ensures domains == map v | v in crossword.variables :: crossword.words
    {
      this.crossword := crossword;
      domains := map v | v in crossword.variables :: crossword.words;
    }

    /**
     * Writes every letter of every assigned word into a fresh height-by-width
     * grid of optional letters; cells no word covers stay empty.
     */
    method LetterGrid(assignment: Words) returns (letters: array2<Option<char>>)
      requires Valid()
      requires forall v, k: nat :: v in assignment && k < |assignment[v]| ==>
        Cell(v, k).0 < crossword.height && Cell(v, k).1 < crossword.width
      ensures fresh(letters)
      ensures letters.Length0 == crossword.height && letters.Length1 == crossword.width
      ensures forall r, c :: 0 <= r < letters.Length0 && 0 <= c < letters.Length1 ==>
        (letters[r, c].None? <==> !Covered(assignment, r, c))
      ensures forall r, c :: 0 <= r < letters.Length0 && 0 <= c < letters.Length1 && letters[r, c].Some? ==>
        PlacedLetter(assignment, r, c, letters[r, c].value)
      ensures OverlapsMatchCells(crossword) && assignment.Keys <= crossword.variables &&
              IsConsistent(crossword, assignment) ==>
        forall v, k: nat :: v in assignment && k < |assignment[v]| ==>
          letters[Cell(v, k).0, Cell(v, k).1] == Some(assignment[v][k])
    {
      letters := new Option<char>[crossword.height, crossword.width]((r, c) => None);
      var todo := assignment.Keys;
      ghost var done: Words := map[];
      while todo != {}
        invariant todo <= assignment.Keys
        invariant done.Keys == assignment.Keys - todo
        invariant forall v :: v in done ==> done[v] == assignment[v]
        invariant Shows(letters, done, map[])
      {
        var variable :| variable in todo;
        var word := assignment[variable];
        WriteWord(letters, done, variable, word);
        ShowsMerge(letters, done, variable, word);
        done := done[variable := word];
        todo := todo - {variable};
      }
      assert done == assignment;
      if OverlapsMatchCells(crossword) && assignment.Keys <= crossword.variables &&
         IsConsistent(crossword, assignment) {
        forall v, k: nat | v in assignment && k < |assignment[v]|
          ensures letters[Cell(v, k).0, Cell(v, k).1] == Some(assignment[v][k])
        {
          var (r, c) := Cell(v, k);
          assert Covered(assignment, r, c);
          PlacedLetterUnique(crossword, assignment, r, c, letters[r, c].value, assignment[v][k]);
        }
      }
    }

    /** Removes from every domain the words whose length is not the variable's length. */
    method EnforceNodeConsistency()
      requires Valid()
      modifies this
      ensures Valid()
      ensures domains == NodeConsistency(old(domains))
    {
      var todo := crossword.variables;
      while todo != {}
        invariant Valid()
        invariant todo <= crossword.variables
        invariant forall v :: v in domains ==>
          domains[v] == if v in todo then old(domains)[v] else NodeFiltered(v, old(domains)[v])
      {
        var variable :| variable in todo;
        var domain := domains[variable];
        var words := domains[variable];
        while words != {}
          invariant words <= domains[variable]
          invariant domain == set w | w in domains[variable] && (w in words || |w| == variable.length)
        {
          var word :| word in words;
          if |word| != variable.length {
            domain := domain - {word};
          }
          words := words - {word};
        }
        domains := domains[variable := domain];
        todo := todo - {variable};
      }
    }

    /**
     * Makes `x` arc consistent with `y`: keeps a word of `x` only if some word
     * of `y` has the same letter at their overlap. Returns whether `x` lost a word.
     */
    method Revise(x: Variable, y: Variable) returns (changed: bool)
      requires Valid()
      requires x in crossword.variables && y in crossword.variables && x != y
      requires FitsArc(crossword, domains, x, y)
      modifies this
      ensures Valid()
      ensures domains == old(domains)[x := Revised(crossword, old(domains), x, y)]
      ensures changed <==> domains[x] < old(domains)[x]
      ensures Overlap(crossword, x, y).None? ==> !changed && domains == old(domains)
    {
      changed := false;
      var pnt := crossword.overlaps[(x, y)];
      assert pnt == Overlap(crossword, x, y);
      if pnt.Some? {
        var (i, j) := pnt.value;
        var domainCopy := domains[x];
        var todo := domains[x];
        while todo != {}
          invariant todo <= domains[x]
          invariant domainCopy == set w | w in domains[x] && (w in todo || Supported(w, i, domains[y], j))
          invariant changed <==> domainCopy != domains[x]
        {
          var word1 :| word1 in todo;
          var flag := false;
          var rest := domains[y];
          while rest != {}
            invariant rest <= domains[y]
            invariant !flag
            invariant forall w2 :: w2 in domains[y] && w2 !in rest ==> !Agree(word1, i, w2, j)
          {
            var word2 :| word2 in rest;
            if word1[i] == word2[j] {
              flag := true;
              break;
            }
            rest := rest - {word2};
          }
          if !flag {
            domainCopy := domainCopy - {word1};
            changed := true;
          }
          todo := todo - {word1};
        }
        assert domainCopy == Revised(crossword, domains, x, y);
        domains := domains[x := domainCopy];
      } else {
        assert domains == domains[x := domains[x]];
      }
    }

    /** Every ordered pair of distinct variables: the worklist ac3 starts from. */
    method AllArcs() returns (arcs: seq<(Variable, Variable)>)
      ensures forall p :: p in arcs <==> p.0 in crossword.variables && p.1 in crossword.variables && p.0 != p.1
    {
      arcs := [];
      var xs := crossword.variables;
      while xs != {}
        invariant xs <= crossword.variables
        invariant forall p :: p in arcs <==>
          p.0 in crossword.variables - xs && p.1 in crossword.variables && p.0 != p.1
      {
        var x :| x in xs;
        var ys := crossword.variables;
        while ys != {}
          invariant ys <= crossword.variables
          invariant forall p :: p in arcs <==>
            (p.0 in crossword.variables - xs && p.1 in crossword.variables && p.0 != p.1) ||
            (p.0 == x && p.1 in crossword.variables - ys && p.1 != x)
        {
          var y :| y in ys;
          if x != y {
            arcs := arcs + [(x, y)];
          }
          ys := ys - {y};
        }
        xs := xs - {x};
      }
    }

    /** The arcs `(z, x)` ac3 re-queues after `x` shrank while revised against `y`. */
    method ArcsInto(x: Variable, y: Variable) returns (arcs: seq<(Variable, Variable)>)
      ensures forall p :: p in arcs <==> p.1 == x && p.0 in crossword.variables && p.0 != x && p.0 != y
    {
      arcs := [];
      var zs := crossword.variables;
      while zs != {}
        invariant zs <= crossword.variables
        invariant forall p :: p in arcs <==> p.1 == x && p.0 in crossword.variables - zs && p.0 != x && p.0 != y
      {
        var z :| z in zs;
        if z != x && z != y {
          arcs := arcs + [(z, x)];
        }
        zs := zs - {z};
      }
    }

    /**
     * Enforces arc consistency with a worklist used as a stack. Starts from
     * every ordered pair of distinct variables, or from `arcs` when given.
     * Returns false as soon as a revision empties a domain.
     */
    method AC3(arcs: Option<seq<(Variable, Variable)>>) returns (ok: bool)
      requires Valid() && WordsFit(crossword, domains)
      requires arcs.Some? ==> forall p :: p in arcs.value ==>
        p.0 in crossword.variables && p.1 in crossword.variables && p.0 != p.1
      modifies this
      ensures Valid() && WordsFit(crossword, domains)
      ensures Shrunk(old(domains), domains)
      ensures forall e :: IsSolution(crossword, old(domains), e) ==> IsSolution(crossword, domains, e)
      ensures !ok ==> exists v :: v in domains && domains[v] == {} && old(domains)[v] != {}
      ensures ok ==> forall v :: v in domains && old(domains)[v] != {} ==> domains[v] != {}
      ensures ok && arcs.None? ==> AllArcsConsistent(crossword, domains)
      ensures AllArcsConsistent(crossword, old(domains)) ==> ok && domains == old(domains)
    {
      var work: seq<(Variable, Variable)>;
      if arcs.None? {
        work := AllArcs();
      } else {
        work := arcs.value;
      }
      while |work| > 0
        invariant Valid()
        invariant Ac3Invariant(crossword, old(domains), domains, work, arcs.None?)
        decreases Entries(domains), |work|
      {
        var (x, y) := work[|work| - 1];
        assert work == work[..|work| - 1] + [(x, y)];
        work := work[..|work| - 1];
        var emptied;
        emptied, work := ReviseAndRequeue(x, y, work, old(domains), arcs.None?);
        if emptied {
          return false;
        }
      }
      if arcs.None? {
        Ac3Done(crossword, old(domains), domains);
      }
      ok := true;
    }

    /**
     * One round of the ac3 loop after `(x, y)` was popped: revises `x` against
     * `y` and, if `x` lost words without emptying, queues every `(z, x)`.
     */
    method ReviseAndRequeue(x: Variable, y: Variable, work: seq<(Variable, Variable)>, ghost d0: Domains, ghost all: bool)
      returns (emptied: bool, work': seq<(Variable, Variable)>)
      requires Valid()
      requires Ac3Invariant(crossword, d0, domains, work + [(x, y)], all)
      modifies this
      ensures Valid()
      ensures domains == old(domains)[x := Revised(crossword, old(domains), x, y)]
      ensures emptied <==> domains[x] == {} && old(domains)[x] != {}
      ensures Ac3Progress(crossword, d0, domains)
      ensures emptied ==> d0[x] != {} && !AllArcsConsistent(crossword, d0)
      ensures !emptied ==> Ac3Invariant(crossword, d0, domains, work', all)
      ensures !emptied && domains != old(domains) ==> Entries(domains) < Entries(old(domains))
      ensures domains == old(domains) ==> work' == work
      ensures !emptied && domains != old(domains) ==> forall p :: p in work' <==>
        p in work || (p.1 == x && p.0 in crossword.variables && p.0 != x && p.0 != y)
    {
      assert (x, y) in work + [(x, y)];
      WordsFitArc(crossword, domains, x, y);
      ghost var before := domains;
      var changed := Revise(x, y);
      var more: seq<(Variable, Variable)> := [];
      if changed && domains[x] != {} {
        more := ArcsInto(x, y);
      }
      Ac3StepProgress(crossword, d0, before, x, y);
      if changed && domains[x] == {} {
        return true, work;
      }
      Ac3Step(crossword, d0, before, work, all, x, y, more);
      emptied := false;
      work' := if changed then work + more else work;
      assert work' == if Revised(crossword, before, x, y) != before[x] then work + more else work;
    }

    /** True iff every variable of the puzzle has a word in `assignment`. */
    method AssignmentComplete(assignment: Words) returns (complete: bool)
      ensures complete <==> IsComplete(crossword, assignment)
    {
      var todo := crossword.variables;
      while todo != {}
        invariant todo <= crossword.variables
        invariant forall v :: v in crossword.variables - todo ==> v in assignment
      {
        var variable :| variable in todo;
        if variable !in assignment {
          return false;
        }
        todo := todo - {variable};
      }
      return true;
    }

    /**
     * True iff every assigned word has its variable's length and every two
     * distinct assigned variables that cross agree at the crossing.
     */
    method Consistent(assignment: Words) returns (ok: bool)
      requires Valid()
      requires assignment.Keys <= crossword.variables
      ensures ok <==> IsConsistent(crossword, assignment)
    {
      var todo := assignment.Keys;
      while todo != {}
        invariant todo <= assignment.Keys
        invariant forall v :: v in assignment && v !in todo ==> |assignment[v]| == v.length
      {
        var variable1 :| variable1 in todo;
        if |assignment[variable1]| != variable1.length {
          return false;
        }
        todo := todo - {variable1};
      }
      var outer := assignment.Keys;
      while outer != {}
        invariant outer <= assignment.Keys
        invariant forall v1, v2 ::
          v1 in assignment && v1 !in outer && v2 in assignment && v1 != v2 && Overlap(crossword, v1, v2).Some? ==>
          Agree(assignment[v1], Overlap(crossword, v1, v2).value.0, assignment[v2], Overlap(crossword, v1, v2).value.1)
      {
        var variable1 :| variable1 in outer;
        var word1 := assignment[variable1];
        var inner := assignment.Keys;
        while inner != {}
          invariant inner <= assignment.Keys
          invariant forall v2 ::
            v2 in assignment && v2 !in inner && variable1 != v2 && Overlap(crossword, variable1, v2).Some? ==>
            Agree(word1, Overlap(crossword, variable1, v2).value.0, assignment[v2], Overlap(crossword, variable1, v2).value.1)
        {
          var variable2 :| variable2 in inner;
          inner := inner - {variable2};
          if variable1 == variable2 {
            continue;
          }
          var word2 := assignment[variable2];
          var pnt := crossword.overlaps[(variable1, variable2)];
          if pnt.Some? {
            var (i, j) := pnt.value;
            if word1[i] != word2[j] {
              return false;
            }
          }
        }
        outer := outer - {variable1};
      }
      return true;
    }

    /** The number of words of unassigned neighbours of `variable` that agree with `word1`. */
    method CountAgreeing(variable: Variable, word1: string, assignment: Words) returns (n: nat)
      requires domains.Keys == crossword.variables && OverlapKeys(crossword)
      requires variable in crossword.variables && word1 in domains[variable]
      requires forall v :: v in Neighbors(crossword, variable) ==> FitsArc(crossword, domains, variable, v)
      ensures n == Score(crossword, domains, variable, word1, assignment)
    {
      n := 0;
      var neighbors := Neighbors(crossword, variable);
      var todo := neighbors;
      ghost var done: set<Variable> := {};
      while todo != {}
        invariant todo <= neighbors && done == neighbors - todo
        invariant n == |AgreeingPairs(crossword, domains, variable, word1, assignment, done)|
      {
        var var2 :| var2 in todo;
        n := CountNeighbour(variable, word1, assignment, var2, done, n);
        todo := todo - {var2};
        done := done + {var2};
      }
      assert done == neighbors;
    }

    /**
     * Adds to the running count `n` over the neighbours `done` the words of
     * neighbour `var2` agreeing with `word1`, skipping it if it is assigned.
     */
    method CountNeighbour(variable: Variable, word1: string, assignment: Words, var2: Variable,
                          ghost done: set<Variable>, n: nat) returns (n': nat)
      requires domains.Keys == crossword.variables && OverlapKeys(crossword)
      requires variable in crossword.variables && word1 in domains[variable]
      requires var2 in Neighbors(crossword, variable) && var2 !in done
      requires FitsArc(crossword, domains, variable, var2)
      requires n == |AgreeingPairs(crossword, domains, variable, word1, assignment, done)|
      ensures n' == |AgreeingPairs(crossword, domains, variable, word1, assignment, done + {var2})|
    {
      AgreeingPairsStep(crossword, domains, variable, word1, assignment, done, var2);
      n' := n;
      if var2 !in assignment {
        var m := CountAgreeingWith(variable, word1, var2);
        n' := n + m;
      }
    }

    /** The number of words of the neighbour `var2` that agree with `word1` at the crossing. */
    method CountAgreeingWith(variable: Variable, word1: string, var2: Variable) returns (m: nat)
      requires domains.Keys == crossword.variables && OverlapKeys(crossword)
      requires variable in crossword.variables && word1 in domains[variable]
      requires var2 in Neighbors(crossword, variable)
      requires FitsArc(crossword, domains, variable, var2)
      ensures m == |PairsWith(crossword, domains, variable, word1, var2)|
    {
      m := 0;
      var (i, j) := crossword.overlaps[(variable, var2)].value;
      assert Overlap(crossword, variable, var2) == Some((i, j));
      ghost var counted: set<(Variable, string)> := {};
      var words := domains[var2];
      while words != {}
        invariant words <= domains[var2]
        invariant counted == set w2 | w2 in domains[var2] && w2 !in words && Agree(word1, i, w2, j) :: (var2, w2)
        invariant m == |counted|
      {
        var word2 :| word2 in words;
        if word1[i] == word2[j] {
          assert (var2, word2) !in counted;
          m := m + 1;
          counted := counted + {(var2, word2)};
        }
        words := words - {word2};
      }
      assert counted == PairsWith(crossword, domains, variable, word1, var2);
    }

    /**
     * The words of `variable`'s domain, each once, ordered so that a word
     * agreeing with more words of the unassigned neighbours comes first.
     */
    method OrderDomainValues(variable: Variable, assignment: Words) returns (values: seq<string>)
      requires domains.Keys == crossword.variables && OverlapKeys(crossword)
      requires variable in crossword.variables
      requires forall v :: v in Neighbors(crossword, variable) ==> FitsArc(crossword, domains, variable, v)
      ensures forall w :: w in values <==> w in domains[variable]
      ensures |values| == |domains[variable]|
      ensures forall p, q :: 0 <= p < q < |values| ==> values[p] != values[q]
      ensures OrderedByScore(crossword, domains, variable, assignment, values)
    {
      var ranked: seq<(string, nat)> := [];
      var todo := domains[variable];
      while todo != {}
        invariant todo <= domains[variable]
        invariant RankedWords(ranked) == domains[variable] - todo
        invariant |ranked| + |todo| == |domains[variable]|
        invariant forall e :: e in ranked ==> e.1 == Score(crossword, domains, variable, e.0, assignment)
        invariant RankedDistinct(ranked) && RankedSorted(ranked)
      {
        var word1 :| word1 in todo;
        var n := CountAgreeing(variable, word1, assignment);
        ranked := InsertByScore(ranked, word1, n);
        todo := todo - {word1};
      }
      values := RankedOrder(ranked);
      RankedOrderSpec(crossword, domains, variable, assignment, ranked);
    }

    /**
     * An unassigned variable with the fewest remaining words, and among
     * those one with the most neighbours.
     */
    method SelectUnassignedVariable(assignment: Words) returns (v: Variable)
      requires Valid()
      requires exists u :: u in crossword.variables && u !in assignment
      ensures v in crossword.variables && v !in assignment
      ensures forall u :: u in crossword.variables && u !in assignment ==> |domains[v]| <= |domains[u]|
      ensures forall u :: u in crossword.variables && u !in assignment && |domains[u]| == |domains[v]| ==>
        |Neighbors(crossword, u)| <= |Neighbors(crossword, v)|
    {
      var candidates := set u | u in crossword.variables && u !in assignment;
      var first :| first in crossword.variables && first !in assignment;
      assert first in candidates;
      var fewest := FewestWords(candidates);
      var tied := set u | u in candidates && |domains[u]| == fewest;
      ghost var tiedOne :| tiedOne in candidates && |domains[tiedOne]| == fewest;
      assert tiedOne in tied;
      v := MostNeighbours(tied);
    }

    /** The smallest domain size among `candidates`: the head of the ascending sort. */
    method FewestWords(candidates: set<Variable>) returns (fewest: nat)
      requires candidates != {} && candidates <= domains.Keys
      ensures exists u :: u in candidates && |domains[u]| == fewest
      ensures forall u :: u in candidates ==> fewest <= |domains[u]|
    {
      var first :| first in candidates;
      fewest := |domains[first]|;
      var todo := candidates;
      while todo != {}
        invariant todo <= candidates
        invariant exists u :: u in candidates && |domains[u]| == fewest
        invariant forall u :: u in candidates && u !in todo ==> fewest <= |domains[u]|
      {
        var u :| u in todo;
        if |domains[u]| < fewest {
          fewest := |domains[u]|;
        }
        todo := todo - {u};
      }
    }

    /** A variable of `tied` with the most neighbours: the head of the descending sort by degree. */
    method MostNeighbours(tied: set<Variable>) returns (v: Variable)
      requires tied != {}
      ensures v in tied
      ensures forall u :: u in tied ==> |Neighbors(crossword, u)| <= |Neighbors(crossword, v)|
    {
      v :| v in tied;
      var rest := tied;
      while rest != {}
        invariant rest <= tied && v in tied
        invariant forall u :: u in tied && u !in rest ==> |Neighbors(crossword, u)| <= |Neighbors(crossword, v)|
      {
        var u :| u in rest;
        if |Neighbors(crossword, u)| > |Neighbors(crossword, v)| {
          v := u;
        }
        rest := rest - {u};
      }
    }

    /**
     * Depth-first search that extends `assignment` in place. Returns the same
     * object once it is complete, or null after undoing every tentative entry.
     */
    method Backtrack(assignment: Assignment) returns (r: Assignment?)
      requires Valid() && WordsFit(crossword, domains)
      requires assignment.entries.Keys <= crossword.variables
      modifies assignment
      ensures r != null ==> r == assignment && IsComplete(crossword, assignment.entries)
      ensures IsComplete(crossword, old(assignment.entries)) ==>
        r == assignment && assignment.entries == old(assignment.entries)
      ensures r != null && !IsComplete(crossword, old(assignment.entries)) ==>
        Completes(crossword, domains, old(assignment.entries), assignment.entries)
      ensures r == null ==> assignment.entries == old(assignment.entries)
      ensures r == null ==> forall e :: !Completes(crossword, domains, old(assignment.entries), e)
      decreases |crossword.variables - assignment.entries.Keys|, 1
    {
      var complete := AssignmentComplete(assignment.entries);
      if complete {
        return assignment;
      }
      var variable := SelectUnassignedVariable(assignment.entries);
      WordsFitArcsFrom(crossword, domains, variable);
      var values := OrderDomainValues(variable, assignment.entries);
      ghost var a0 := assignment.entries;
      for k := 0 to |values|
        invariant assignment.entries == a0
        invariant forall e :: Completes(crossword, domains, a0, e) ==> e[variable] in values[k..]
      {
        var v := values[k];
        assert v in domains[variable];
        var result := TryValue(assignment, variable, v, a0[variable := v]);
        if result != null {
          return result;
        }
        NextCandidate(crossword, domains, a0, variable, values, k, a0[variable := v]);
      }
      return null;
    }

    /**
     * One iteration of backtrack's loop: tentatively assigns `word` to
     * `variable`, searches on if that is consistent, and undoes the entry
     * unless the search succeeded.
     */
    method TryValue(assignment: Assignment, variable: Variable, word: string, ghost tried: Words) returns (r: Assignment?)
      requires Valid() && WordsFit(crossword, domains)
      requires assignment.entries.Keys <= crossword.variables
      requires variable in crossword.variables && variable !in assignment.entries
      requires word in domains[variable]
      requires tried == assignment.entries[variable := word]
      modifies assignment
      ensures r != null ==> r == assignment && Completes(crossword, domains, old(assignment.entries), assignment.entries)
      ensures r != null ==> variable in assignment.entries && assignment.entries[variable] == word
      ensures r == null ==> assignment.entries == old(assignment.entries)
      ensures r == null ==> forall e :: !Completes(crossword, domains, tried, e)
      decreases |crossword.variables - assignment.entries.Keys|, 0
    {
      ghost var a0 := assignment.entries;
      assignment.entries := assignment.entries[variable := word];
      var ok := Consistent(assignment.entries);
      if ok {
        assert crossword.variables - assignment.entries.Keys == (crossword.variables - a0.Keys) - {variable};
        r := Backtrack(assignment);
        if r != null {
          BranchCompletes(crossword, domains, a0, variable, word, assignment.entries);
          return r;
        }
      } else {
        forall e ensures !Completes(crossword, domains, tried, e) {
          InconsistentHasNoCompletion(crossword, domains, tried, e);
        }
      }
      UndoEntry(a0, variable, word);
      assignment.entries := assignment.entries - {variable};
      r := null;
    }

    /**
     * Node consistency, then arc consistency (its result is not consulted),
     * then backtracking search from the empty assignment.
     */
    method Solve() returns (r: Assignment?)
      requires Valid()
      modifies this
      ensures Valid()
      ensures Shrunk(old(domains), domains)
      ensures r != null ==> fresh(r) && IsSolution(crossword, old(domains), r.entries)
      ensures r == null ==> forall e :: !IsSolution(crossword, old(domains), e)
    {
      ghost var initial := domains;
      EnforceNodeConsistency();
      NodeConsistencySpec(initial);
      NodeConsistentWordsFit(crossword, domains);
      forall e | IsSolution(crossword, initial, e) ensures IsSolution(crossword, domains, e) {
        NodeConsistencyKeepsSolutions(crossword, initial, e);
      }
      ghost var filtered := domains;
      var arcConsistent := AC3(None);
      var assignment := new Assignment();
      r := Backtrack(assignment);
      if r != null {
        CompletesShrunk(crossword, filtered, domains, map[], r.entries);
        CompletesShrunk(crossword, initial, filtered, map[], r.entries);
      }
    }
  }
}
