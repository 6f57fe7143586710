/**
 * The constraint-satisfaction view of a crossword: domains of candidate
 * words, arc revision, node and arc consistency, consistency of a partial
 * assignment, solutions, and the least-constraining-value score. Everything
 * here is a value; the class in module Generate keeps its state in these
 * terms and its methods are proved against these definitions.
 */
module Csp {
  import opened Wrappers
  import opened CrosswordGrid

  /** Each variable's remaining candidate words. */
  type Domains = map<Variable, set<string>>

  /** A (partial) assignment of words to variables. */
  type Words = map<Variable, string>

  // ---------------------------------------------------------------------------
  // Letters at overlaps

  /** Letter `i` of `w1` equals letter `j` of `w2`, both inside their words. */
  predicate Agree(w1: string, i: nat, w2: string, j: nat)
  {
    i < |w1| && j < |w2| && w1[i] == w2[j]
  }

  /** Some word of `dom` has at offset `j` the letter `w` has at offset `i`. */
  predicate Supported(w: string, i: nat, dom: set<string>, j: nat)
  {
    exists w2 :: w2 in dom && Agree(w, i, w2, j)
  }

  /** Word `w` in `x` and word `w2` in `y` agree on the cell the two slots share. */
  predicate AgreesAt(cw: Crossword, x: Variable, w: string, y: Variable, w2: string)
  {
    match Overlap(cw, x, y)
    case None => false
    case Some((i, j)) => Agree(w, i, w2, j)
  }

  // ---------------------------------------------------------------------------
  // Node consistency

  /** The words of `dom` whose length is the length of `v`. */
  function NodeFiltered(v: Variable, dom: set<string>): set<string>
  {
    set w | w in dom && |w| == v.length
  }

  predicate NodeConsistent(d: Domains)
  {
    forall v, w :: v in d && w in d[v] ==> |w| == v.length
  }

  /** The domains after the length filter has run on every variable. */
  function NodeConsistency(d: Domains): Domains
  {
    map v | v in d :: NodeFiltered(v, d[v])
  }

  // ---------------------------------------------------------------------------
  // Arc revision and arc consistency

  /** The words of `x`'s domain that `revise(x, y)` keeps. */
  function Revised(cw: Crossword, d: Domains, x: Variable, y: Variable): (r: set<string>)
    requires x in d && y in d
    ensures r <= d[x]
  {
    match Overlap(cw, x, y)
    case None => d[x]
    case Some((i, j)) => set w | w in d[x] && Supported(w, i, d[y], j)
  }

  /** Every word left for `x` has a partner in `y`'s domain at their overlap. */
  predicate ArcConsistent(cw: Crossword, d: Domains, x: Variable, y: Variable)
    requires x in d && y in d
  {
    match Overlap(cw, x, y)
    case None => true
    case Some((i, j)) => forall w :: w in d[x] ==> Supported(w, i, d[y], j)
  }

  /** The words of both ends of the arc are long enough for the overlap offsets. */
  ghost predicate FitsArc(cw: Crossword, d: Domains, x: Variable, y: Variable)
    requires x in d && y in d
  {
    match Overlap(cw, x, y)
    case None => true
    case Some((i, j)) => (forall w :: w in d[x] ==> i < |w|) && (forall w :: w in d[y] ==> j < |w|)
  }

  /** Every ordered pair of distinct variables is arc consistent. */
  ghost predicate AllArcsConsistent(cw: Crossword, d: Domains)
  {
    forall x, y :: x in cw.variables && y in cw.variables && x != y && x in d && y in d ==>
      ArcConsistent(cw, d, x, y)
  }

  /** The ac3 worklist invariant: each pair is still queued or already consistent. */
  ghost predicate PendingOrConsistent(cw: Crossword, d: Domains, work: seq<(Variable, Variable)>)
  {
    forall x, y :: x in cw.variables && y in cw.variables && x != y && x in d && y in d ==>
      (x, y) in work || ArcConsistent(cw, d, x, y)
  }

  /** Every word is long enough for the overlap offsets used to index it. */
  ghost predicate WordsFit(cw: Crossword, d: Domains)
  {
    && (forall x, y, w :: x in d && Overlap(cw, x, y).Some? && w in d[x] ==>
          Overlap(cw, x, y).value.0 < |w|)
    && (forall x, y, w :: y in d && Overlap(cw, x, y).Some? && w in d[y] ==>
          Overlap(cw, x, y).value.1 < |w|)
  }

  /** Every domain of `d2` is a subset of the one in `d1`, with the same variables. */
  ghost predicate Shrunk(d1: Domains, d2: Domains)
  {
    d2.Keys == d1.Keys && forall v :: v in d2 ==> d2[v] <= d1[v]
  }

  /** The (variable, word) pairs still in the domains: it shrinks as ac3 revises. */
  ghost function Entries(d: Domains): set<(Variable, string)>
  {
    set v, w | v in d && w in d[v] :: (v, w)
  }

  // ---------------------------------------------------------------------------
  // Assignments

  /** Every assigned word has its variable's length, and crossing words agree. */
  predicate IsConsistent(cw: Crossword, a: Words)
  {
    && (forall v :: v in a ==> |a[v]| == v.length)
    && (forall v1, v2 :: v1 in a && v2 in a && v1 != v2 && Overlap(cw, v1, v2).Some? ==>
          Agree(a[v1], Overlap(cw, v1, v2).value.0, a[v2], Overlap(cw, v1, v2).value.1))
  }

  /** Every variable of the puzzle has a word. */
  predicate IsComplete(cw: Crossword, a: Words)
  {
    forall v :: v in cw.variables ==> v in a
  }

  /**
   * `e` is a complete, consistent assignment that extends `a` and takes every
   * word it adds from the domain of its variable.
   */
  ghost predicate Completes(cw: Crossword, d: Domains, a: Words, e: Words)
  {
    && e.Keys == cw.variables
    && (forall v :: v in a ==> v in e && e[v] == a[v])
    && (forall v :: v in e && v !in a ==> v in d && e[v] in d[v])
    && IsConsistent(cw, e)
  }

  /** A solution of the puzzle over domains `d`. */
  ghost predicate IsSolution(cw: Crossword, d: Domains, e: Words)
  {
    Completes(cw, d, map[], e)
  }

  // ---------------------------------------------------------------------------
  // Least-constraining-value score

  /** The (neighbour, neighbour word) pairs of unassigned neighbours in `ns` that agree with `w` in `x`. */
  function AgreeingPairs(cw: Crossword, d: Domains, x: Variable, w: string, a: Words, ns: set<Variable>)
    : set<(Variable, string)>
  {
    set n, w2 | n in ns && n !in a && n in d && w2 in d[n] && AgreesAt(cw, x, w, n, w2) :: (n, w2)
  }

  /** The same pairs that disagree with `w`: the values choosing `w` would rule out. */
  function EliminatedPairs(cw: Crossword, d: Domains, x: Variable, w: string, a: Words, ns: set<Variable>)
    : set<(Variable, string)>
  {
    set n, w2 | n in ns && n !in a && n in d && w2 in d[n] && !AgreesAt(cw, x, w, n, w2) :: (n, w2)
  }

  /** All words of the unassigned neighbours in `ns`. */
  function NeighbourWords(d: Domains, a: Words, ns: set<Variable>): set<(Variable, string)>
  {
    set n, w2 | n in ns && n !in a && n in d && w2 in d[n] :: (n, w2)
  }

  /** How many words of unassigned neighbours of `x` agree with `w`. */
  function Score(cw: Crossword, d: Domains, x: Variable, w: string, a: Words): nat
  {
    |AgreeingPairs(cw, d, x, w, a, Neighbors(cw, x))|
  }

  /** `ws` is ordered with non-increasing score. */
  ghost predicate OrderedByScore(cw: Crossword, d: Domains, x: Variable, a: Words, ws: seq<string>)
  {
    forall p, q :: 0 <= p < q < |ws| ==> Score(cw, d, x, ws[p], a) >= Score(cw, d, x, ws[q], a)
  }

  /** The words of a ranked list of (word, score) pairs. */
  function RankedWords(ranked: seq<(string, nat)>): set<string>
  {
    set e | e in ranked :: e.0
  }

  /** The words of a ranked list, in its order: the list order_domain_values returns. */
  function RankedOrder(ranked: seq<(string, nat)>): (ws: seq<string>)
    ensures |ws| == |ranked|
    ensures forall k :: 0 <= k < |ranked| ==> ws[k] == ranked[k].0
  {
    seq(|ranked|, k requires 0 <= k < |ranked| => ranked[k].0)
  }

  /** No word occurs twice in a ranked list of (word, score) pairs. */
  predicate RankedDistinct(ranked: seq<(string, nat)>)
  {
    forall p, q :: 0 <= p < q < |ranked| ==> ranked[p].0 != ranked[q].0
  }

  /** The scores of a ranked list never increase. */
  predicate RankedSorted(ranked: seq<(string, nat)>)
  {
    forall p, q :: 0 <= p < q < |ranked| ==> ranked[p].1 >= ranked[q].1
  }

  // ===========================================================================
  // Lemmas: node consistency

  /** The length filter leaves exactly the old words of the right length. */
  lemma NodeConsistencySpec(d: Domains)
    ensures Shrunk(d, NodeConsistency(d))
    ensures NodeConsistent(NodeConsistency(d))
    ensures forall v, w :: v in d && w in d[v] && |w| == v.length ==> w in NodeConsistency(d)[v]
  {
  }

  /** Running the length filter twice changes nothing more. */
  lemma NodeConsistencyIdempotent(d: Domains)
    ensures NodeConsistency(NodeConsistency(d)) == NodeConsistency(d)
  {
    var once := NodeConsistency(d);
    forall v | v in once ensures NodeConsistency(once)[v] == once[v] {
      assert NodeFiltered(v, once[v]) == once[v];
    }
  }

  /** The length filter keeps every solution. */
  lemma NodeConsistencyKeepsSolutions(cw: Crossword, d: Domains, e: Words)
    requires IsSolution(cw, d, e)
    ensures IsSolution(cw, NodeConsistency(d), e)
  {
    var nd := NodeConsistency(d);
    forall v | v in e ensures v in nd && e[v] in nd[v] {
      assert e[v] in d[v] && |e[v]| == v.length;
    }
  }

  /** Node-consistent domains hold words long enough for every overlap. */
  lemma {:induction false} NodeConsistentWordsFit(cw: Crossword, d: Domains)
    requires OffsetsInRange(cw)
    requires NodeConsistent(d)
    ensures WordsFit(cw, d)
  {
    forall x, y, w | x in d && Overlap(cw, x, y).Some? && w in d[x]
      ensures Overlap(cw, x, y).value.0 < |w|
    {
      assert |w| == x.length;
    }
    forall x, y, w | y in d && Overlap(cw, x, y).Some? && w in d[y]
      ensures Overlap(cw, x, y).value.1 < |w|
    {
      assert |w| == y.length;
    }
  }

  /** Words that fit every overlap fit the arc from `x` to `y`. */
  lemma WordsFitArc(cw: Crossword, d: Domains, x: Variable, y: Variable)
    requires WordsFit(cw, d)
    requires x in d && y in d
    ensures FitsArc(cw, d, x, y)
  {
  }

  /** Every arc out of `x` has words long enough for its overlap. */
  lemma WordsFitArcsFrom(cw: Crossword, d: Domains, x: Variable)
    requires WordsFit(cw, d)
    requires x in d
    ensures forall y :: y in d ==> FitsArc(cw, d, x, y)
  {
  }

  /** Shrinking domains keeps every word long enough. */
  lemma WordsFitShrunk(cw: Crossword, d1: Domains, d2: Domains)
    requires WordsFit(cw, d1)
    requires Shrunk(d1, d2)
    ensures WordsFit(cw, d2)
  {
  }

  // ===========================================================================
  // Lemmas: revise

  /** `revise` is the identity exactly on an arc that is already consistent. */
  lemma ArcConsistentIffRevisedUnchanged(cw: Crossword, d: Domains, x: Variable, y: Variable)
    requires x in d && y in d
    ensures ArcConsistent(cw, d, x, y) <==> Revised(cw, d, x, y) == d[x]
  {
    match Overlap(cw, x, y)
    case None =>
    case Some((i, j)) =>
      if Revised(cw, d, x, y) == d[x] {
        forall w | w in d[x] ensures Supported(w, i, d[y], j) {
          assert w in Revised(cw, d, x, y);
        }
      }
  }

  /** After `revise(x, y)` the arc from `x` to `y` is consistent. */
  lemma RevisedArcConsistent(cw: Crossword, d: Domains, x: Variable, y: Variable)
    requires x in d && y in d && x != y
    ensures ArcConsistent(cw, d[x := Revised(cw, d, x, y)], x, y)
  {
  }

  /**
   * With symmetric overlaps, `revise(x, y)` never breaks the reverse arc
   * from `y` to `x`: a word of `x` that supports a word of `y` is itself
   * supported by that word, so it is kept.
   */
  lemma RevisedKeepsReverseArc(cw: Crossword, d: Domains, x: Variable, y: Variable)
    requires SymmetricOverlaps(cw)
    requires x in d && y in d && x != y
    requires ArcConsistent(cw, d, y, x)
    ensures ArcConsistent(cw, d[x := Revised(cw, d, x, y)], y, x)
  {
    var d' := d[x := Revised(cw, d, x, y)];
    assert Overlap(cw, y, x) == Swap(Overlap(cw, x, y));
    match Overlap(cw, x, y)
    case None =>
    case Some((i, j)) =>
      assert Overlap(cw, y, x) == Some((j, i));
      forall w | w in d'[y] ensures Supported(w, j, d'[x], i) {
        var w' :| w' in d[x] && Agree(w, j, w', i);
        assert Agree(w', i, w, j);
        assert w' in d'[x];
      }
  }

  /** Removing words from `x` keeps every arc that starts at `x` consistent. */
  lemma ShrinkKeepsArcFrom(cw: Crossword, d: Domains, x: Variable, b: Variable, s: set<string>)
    requires x in d && b in d && x != b
    requires s <= d[x]
    requires ArcConsistent(cw, d, x, b)
    ensures ArcConsistent(cw, d[x := s], x, b)
  {
  }

  /** `revise` keeps every solution drawn from the current domains. */
  lemma RevisedKeepsSolutions(cw: Crossword, d: Domains, x: Variable, y: Variable, e: Words)
    requires x in d && y in d && x != y
    requires x in cw.variables && y in cw.variables
    requires IsSolution(cw, d, e)
    ensures IsSolution(cw, d[x := Revised(cw, d, x, y)], e)
  {
    match Overlap(cw, x, y)
    case None =>
    case Some((i, j)) =>
      assert x in e && y in e;
      assert Agree(e[x], i, e[y], j);
      assert e[x] in Revised(cw, d, x, y);
  }

  /**
   * One step of ac3 keeps its worklist invariant: after `revise(x, y)` pops
   * `(x, y)`, every pair is queued or consistent, provided that when `x`
   * shrank every `(z, x)` with `z` other than `x` and `y` was queued.
   */
  lemma {:induction false} PendingAfterRevise(
    cw: Crossword, d: Domains, work: seq<(Variable, Variable)>,
    x: Variable, y: Variable, more: seq<(Variable, Variable)>)
    requires SymmetricOverlaps(cw)
    requires x in d && y in d && x != y
    requires PendingOrConsistent(cw, d, work + [(x, y)])
    requires Revised(cw, d, x, y) != d[x] ==>
      forall z :: z in cw.variables && z != x && z != y ==> (z, x) in more
    ensures PendingOrConsistent(cw, d[x := Revised(cw, d, x, y)], work + more)
  {
    var r := Revised(cw, d, x, y);
    var d' := d[x := r];
    forall a, b | a in cw.variables && b in cw.variables && a != b && a in d' && b in d'
      ensures (a, b) in work + more || ArcConsistent(cw, d', a, b)
    {
      var queued := (a, b) in work + [(x, y)];
      assert queued ==> (a, b) == (x, y) || (a, b) in work;
      if (a, b) == (x, y) {
        RevisedArcConsistent(cw, d, x, y);
      } else if (a, b) in work {
        assert (a, b) in work + more;
      } else if a == x {
        ShrinkKeepsArcFrom(cw, d, x, b, r);
      } else if b == x && a == y {
        RevisedKeepsReverseArc(cw, d, x, y);
      } else if b == x {
        if r == d[x] {
          assert d' == d;
        } else {
          assert (a, b) in more;
        }
      } else {
        assert d'[a] == d[a] && d'[b] == d[b];
      }
    }
  }

  /**
   * What every step of ac3 keeps true of the domains `d` it has reached from
   * `d0`, whether or not it then stops.
   */
  ghost predicate Ac3Progress(cw: Crossword, d0: Domains, d: Domains)
  {
    && WordsFit(cw, d)
    && Shrunk(d0, d)
    && (forall e :: IsSolution(cw, d0, e) ==> IsSolution(cw, d, e))
    && (AllArcsConsistent(cw, d0) ==> d == d0)
  }

  /**
   * The ac3 loop invariant with worklist `work`; `all` says it started from
   * every arc.
   */
  ghost predicate Ac3Invariant(cw: Crossword, d0: Domains, d: Domains, work: seq<(Variable, Variable)>, all: bool)
  {
    && Ac3Progress(cw, d0, d)
    && (forall p :: p in work ==> p.0 in cw.variables && p.1 in cw.variables && p.0 != p.1)
    && (forall v :: v in d && d0[v] != {} ==> d[v] != {})
    && (all ==> PendingOrConsistent(cw, d, work))
  }

  /**
   * Popping `(x, y)` and revising `x` against `y` keeps the progress facts,
   * and a revision that removes words shrinks the entries and shows the
   * starting domains were not arc consistent.
   */
  lemma Ac3StepProgress(cw: Crossword, d0: Domains, d: Domains, x: Variable, y: Variable)
    requires WellFormed(cw) && d.Keys == cw.variables
    requires x in cw.variables && y in cw.variables && x != y
    requires Ac3Progress(cw, d0, d)
    ensures Ac3Progress(cw, d0, d[x := Revised(cw, d, x, y)])
    ensures Revised(cw, d, x, y) != d[x] ==> Entries(d[x := Revised(cw, d, x, y)]) < Entries(d)
    ensures Revised(cw, d, x, y) != d[x] ==> !AllArcsConsistent(cw, d0) && d0[x] != {}
  {
    var r := Revised(cw, d, x, y);
    var d' := d[x := r];
    assert Shrunk(d, d');
    WordsFitShrunk(cw, d, d');
    forall e | IsSolution(cw, d0, e) ensures IsSolution(cw, d', e) {
      RevisedKeepsSolutions(cw, d, x, y, e);
    }
    if AllArcsConsistent(cw, d0) {
      ArcConsistentIffRevisedUnchanged(cw, d, x, y);
    }
    if r != d[x] {
      EntriesShrink(d, x, r);
    } else {
      assert d' == d;
    }
  }

  /**
   * Popping `(x, y)`, revising `x` against `y` and, when `x` shrank without
   * emptying, queueing `more` keeps the ac3 loop invariant.
   */
  lemma Ac3Step(cw: Crossword, d0: Domains, d: Domains, work: seq<(Variable, Variable)>, all: bool,
                x: Variable, y: Variable, more: seq<(Variable, Variable)>)
    requires WellFormed(cw) && d.Keys == cw.variables
    requires Ac3Invariant(cw, d0, d, work + [(x, y)], all)
    requires Revised(cw, d, x, y) != d[x] ==> Revised(cw, d, x, y) != {}
    requires Revised(cw, d, x, y) != d[x] ==>
      forall p :: p in more <==> p.1 == x && p.0 in cw.variables && p.0 != x && p.0 != y
    ensures Ac3Invariant(cw, d0, d[x := Revised(cw, d, x, y)], if Revised(cw, d, x, y) != d[x] then work + more else work, all)
  {
    assert (x, y) in work + [(x, y)];
    Ac3StepProgress(cw, d0, d, x, y);
    var r := Revised(cw, d, x, y);
    if r != d[x] {
      if all {
        PendingAfterRevise(cw, d, work, x, y, more);
      }
    } else {
      assert d[x := r] == d;
      if all {
        PendingAfterRevise(cw, d, work, x, y, []);
        assert work + [] == work;
      }
    }
  }

  /** When the worklist is empty, a run from every arc left every arc consistent. */
  lemma Ac3Done(cw: Crossword, d0: Domains, d: Domains)
    requires Ac3Invariant(cw, d0, d, [], true)
    ensures AllArcsConsistent(cw, d)
  {
  }

  /** Replacing one domain by a strict subset strictly shrinks the entries. */
  lemma EntriesShrink(d: Domains, x: Variable, s: set<string>)
    requires x in d && s < d[x]
    ensures Entries(d[x := s]) < Entries(d)
  {
    var w :| w in d[x] && w !in s;
    assert (x, w) in Entries(d);
    assert (x, w) !in Entries(d[x := s]);
  }

  // ===========================================================================
  // Lemmas: assignments

  /** A consistent assignment stays consistent when entries are dropped. */
  lemma ConsistentRestrict(cw: Crossword, a: Words, e: Words)
    requires IsConsistent(cw, e)
    requires forall v :: v in a ==> v in e && e[v] == a[v]
    ensures IsConsistent(cw, a)
  {
  }

  /** No completion extends an inconsistent assignment. */
  lemma InconsistentHasNoCompletion(cw: Crossword, d: Domains, a: Words, e: Words)
    requires !IsConsistent(cw, a)
    ensures !Completes(cw, d, a, e)
  {
    if Completes(cw, d, a, e) {
      ConsistentRestrict(cw, a, e);
    }
  }

  /** A completion of `a` also completes `a` extended by its own word for `v`. */
  lemma CompletesStep(cw: Crossword, d: Domains, a: Words, v: Variable, e: Words)
    requires Completes(cw, d, a, e)
    requires v in cw.variables && v !in a
    ensures v in d && e[v] in d[v]
    ensures Completes(cw, d, a[v := e[v]], e)
  {
  }

  /**
   * If every completion of `a` gives `v` one of `values[k..]`, and none gives
   * it `values[k]`, then every completion gives it one of `values[k + 1..]`.
   */
  lemma NextCandidate(cw: Crossword, d: Domains, a: Words, v: Variable, values: seq<string>, k: nat, tried: Words)
    requires v in cw.variables && v !in a && k < |values|
    requires forall e :: Completes(cw, d, a, e) ==> e[v] in values[k..]
    requires tried == a[v := values[k]]
    requires forall e :: !Completes(cw, d, tried, e)
    ensures forall e :: Completes(cw, d, a, e) ==> e[v] in values[k + 1..]
  {
    forall e | Completes(cw, d, a, e) ensures e[v] in values[k + 1..] {
      CompletesStep(cw, d, a, v, e);
      assert values[k..] == [values[k]] + values[k + 1..];
    }
  }

  /**
   * When the search below `a[v := w]` returns `e` (the extension itself if it
   * was already complete), `e` completes `a`.
   */
  lemma BranchCompletes(cw: Crossword, d: Domains, a: Words, v: Variable, w: string, e: Words)
    requires v in cw.variables && v !in a && a.Keys <= cw.variables
    requires v in d && w in d[v]
    requires IsConsistent(cw, a[v := w])
    requires IsComplete(cw, a[v := w]) ==> e == a[v := w]
    requires !IsComplete(cw, a[v := w]) ==> Completes(cw, d, a[v := w], e)
    ensures Completes(cw, d, a, e)
  {
    if IsComplete(cw, a[v := w]) {
      CompleteCompletesItself(cw, d, a[v := w]);
    }
    CompletesWeaken(cw, d, a, v, w, e);
  }

  /** Undoing a tentative entry restores the assignment it extended. */
  lemma UndoEntry(a: Words, v: Variable, w: string)
    requires v !in a
    ensures a[v := w] - {v} == a
  {
  }

  /** A completion of an extension is a completion of the original. */
  lemma CompletesWeaken(cw: Crossword, d: Domains, a: Words, v: Variable, w: string, e: Words)
    requires v !in a && v in d && w in d[v]
    requires Completes(cw, d, a[v := w], e)
    ensures Completes(cw, d, a, e)
  {
  }

  /** A completion over smaller domains is a completion over larger ones. */
  lemma CompletesShrunk(cw: Crossword, d1: Domains, d2: Domains, a: Words, e: Words)
    requires Shrunk(d1, d2)
    requires Completes(cw, d2, a, e)
    ensures Completes(cw, d1, a, e)
  {
  }

  /** A complete assignment is its own only completion, when it is consistent. */
  lemma CompleteCompletesItself(cw: Crossword, d: Domains, a: Words)
    requires IsComplete(cw, a) && a.Keys <= cw.variables
    requires IsConsistent(cw, a)
    ensures Completes(cw, d, a, a)
  {
  }

  // ===========================================================================
  // Lemmas: least-constraining value

  /**
   * For every candidate `w`, the agreeing and the eliminated neighbour words
   * split the neighbours' words, so ordering by more agreeing words is the
   * same as ordering by fewer eliminated words.
   */
  lemma ScoreSplitsNeighbourWords(cw: Crossword, d: Domains, x: Variable, w: string, a: Words, ns: set<Variable>)
    ensures |AgreeingPairs(cw, d, x, w, a, ns)| + |EliminatedPairs(cw, d, x, w, a, ns)|
         == |NeighbourWords(d, a, ns)|
  {
    var A := AgreeingPairs(cw, d, x, w, a, ns);
    var E := EliminatedPairs(cw, d, x, w, a, ns);
    assert A !! E;
    assert A + E == NeighbourWords(d, a, ns);
  }

  /** The words of neighbour `n` that agree with `w` in `x`, paired with `n`. */
  function PairsWith(cw: Crossword, d: Domains, x: Variable, w: string, n: Variable): set<(Variable, string)>
    requires n in d
  {
    set w2 | w2 in d[n] && AgreesAt(cw, x, w, n, w2) :: (n, w2)
  }

  /** The agreeing pairs grow neighbour by neighbour: the pairs of `n`, if `n` is unassigned. */
  lemma AgreeingPairsStep(cw: Crossword, d: Domains, x: Variable, w: string, a: Words, ns: set<Variable>, n: Variable)
    requires n in d && n !in ns
    ensures |AgreeingPairs(cw, d, x, w, a, ns + {n})| ==
      |AgreeingPairs(cw, d, x, w, a, ns)| + (if n in a then 0 else |PairsWith(cw, d, x, w, n)|)
  {
    var before := AgreeingPairs(cw, d, x, w, a, ns);
    var added := if n in a then {} else PairsWith(cw, d, x, w, n);
    assert AgreeingPairs(cw, d, x, w, a, ns + {n}) == before + added;
    assert before !! added;
  }

  /** Descending by agreeing words is ascending by eliminated words. */
  lemma LeastConstrainingOrder(cw: Crossword, d: Domains, x: Variable, w1: string, w2: string, a: Words)
    ensures Score(cw, d, x, w1, a) >= Score(cw, d, x, w2, a) <==>
            |EliminatedPairs(cw, d, x, w1, a, Neighbors(cw, x))| <= |EliminatedPairs(cw, d, x, w2, a, Neighbors(cw, x))|
  {
    ScoreSplitsNeighbourWords(cw, d, x, w1, a, Neighbors(cw, x));
    ScoreSplitsNeighbourWords(cw, d, x, w2, a, Neighbors(cw, x));
  }

  /** The pairs of `ranked` with `x` inserted at position `pos`. */
  function InsertAt(ranked: seq<(string, nat)>, pos: nat, x: (string, nat)): (r: seq<(string, nat)>)
    requires pos <= |ranked|
    ensures |r| == |ranked| + 1 && r[pos] == x
    ensures forall k :: 0 <= k < pos ==> r[k] == ranked[k]
    ensures forall k :: pos < k < |r| ==> r[k] == ranked[k - 1]
    ensures multiset(r) == multiset(ranked) + multiset{x}
  {
    assert ranked == ranked[..pos] + ranked[pos..];
    ranked[..pos] + [x] + ranked[pos..]
  }

  /**
   * Inserting a pair at a position where everything before scores at least as
   * much and everything after scores less keeps a ranked list sorted.
   */
  lemma InsertSorted(ranked: seq<(string, nat)>, pos: nat, x: (string, nat))
    requires RankedSorted(ranked)
    requires pos <= |ranked|
    requires forall k :: 0 <= k < pos ==> ranked[k].1 >= x.1
    requires pos == |ranked| || ranked[pos].1 < x.1
    ensures RankedSorted(InsertAt(ranked, pos, x))
  {
    var r := InsertAt(ranked, pos, x);
    forall p, q | 0 <= p < q < |r|
      ensures r[p].1 >= r[q].1
    {
      if q == pos {
      } else if p == pos {
      } else if q > pos && p < pos {
      }
    }
  }

  /** Inserting a pair whose word is new keeps a ranked list duplicate-free. */
  lemma InsertDistinct(ranked: seq<(string, nat)>, pos: nat, x: (string, nat))
    requires RankedDistinct(ranked)
    requires x.0 !in RankedWords(ranked)
    requires pos <= |ranked|
    ensures RankedDistinct(InsertAt(ranked, pos, x))
  {
    var r := InsertAt(ranked, pos, x);
    forall p, q | 0 <= p < q < |r|
      ensures r[p].0 != r[q].0
    {
      if p == pos {
        assert r[q] in ranked;
      } else if q == pos {
        assert r[p] in ranked;
      }
    }
  }

  /** Inserting a pair adds exactly that pair, and its word, to a ranked list. */
  lemma InsertMembers(ranked: seq<(string, nat)>, pos: nat, x: (string, nat))
    requires pos <= |ranked|
    ensures forall e :: e in InsertAt(ranked, pos, x) <==> e in ranked || e == x
    ensures RankedWords(InsertAt(ranked, pos, x)) == RankedWords(ranked) + {x.0}
  {
    var r := InsertAt(ranked, pos, x);
    assert forall e :: e in r <==> e in multiset(r);
    assert forall e :: e in ranked <==> e in multiset(ranked);
  }

  /**
   * A sorted, duplicate-free ranked list whose scores are the true scores
   * yields its words each once, in non-increasing score order.
   */
  lemma RankedOrderSpec(cw: Crossword, d: Domains, x: Variable, a: Words, ranked: seq<(string, nat)>)
    requires RankedDistinct(ranked) && RankedSorted(ranked)
    requires forall e :: e in ranked ==> e.1 == Score(cw, d, x, e.0, a)
    ensures forall w :: w in RankedOrder(ranked) <==> w in RankedWords(ranked)
    ensures forall p, q :: 0 <= p < q < |ranked| ==> RankedOrder(ranked)[p] != RankedOrder(ranked)[q]
    ensures OrderedByScore(cw, d, x, a, RankedOrder(ranked))
  {
    var ws := RankedOrder(ranked);
    forall w | w in ws
      ensures w in RankedWords(ranked)
    {
      var k :| 0 <= k < |ws| && ws[k] == w;
      assert ranked[k] in ranked;
    }
    forall w | w in RankedWords(ranked)
      ensures w in ws
    {
      var e :| e in ranked && e.0 == w;
      var k :| 0 <= k < |ranked| && ranked[k] == e;
      assert ws[k] == w;
    }
    forall p, q | 0 <= p < q < |ws|
      ensures Score(cw, d, x, ws[p], a) >= Score(cw, d, x, ws[q], a)
    {
      assert ranked[p] in ranked && ranked[q] in ranked;
    }
  }
}
