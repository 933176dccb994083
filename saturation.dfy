/**
 * Resolution by refutation: rounds of resolution steps over every untried pair
 * of clause positions i < j below the size the formula had when the round
 * began, until the empty clause appears or a round adds nothing.
 */
module Saturation {
  import opened Literals
  import opened Clauses
  import opened Formulas
  import opened Resolution
  import opened Semantics

  /** Every literal that occurs in the formula. */
  ghost function Vocabulary(f: seq<seq<Literal>>): set<Literal>
  {
    set k, l | 0 <= k < |f| && l in f[k] :: l
  }

  ghost predicate Within(f: seq<seq<Literal>>, v: set<Literal>)
  {
    forall k :: 0 <= k < |f| ==> Elems(f[k]) <= v
  }

  ghost function ClauseSets(f: seq<seq<Literal>>): set<set<Literal>>
  {
    set k | 0 <= k < |f| :: Elems(f[k])
  }

  /** The literal sets over `v` that the formula does not hold yet: what saturation may still add. */
  ghost function Unused(v: set<Literal>, f: seq<seq<Literal>>): set<set<Literal>>
  {
    (set s: set<Literal> | s <= v) - ClauseSets(f)
  }

  /** All position pairs i < j below n. */
  ghost function AllPairs(n: nat): set<(int, int)>
  {
    set i, j | 0 <= i < j < n :: (i, j)
  }

  /** The pairs (i, k) of row i with i < k < n. */
  ghost function RowPairs(i: nat, n: nat): set<(int, int)>
  {
    set k | i < k < n :: (i, k)
  }

  lemma RowPairsGrow(i: nat, n: nat)
    requires i < n
    ensures RowPairs(i, n + 1) == RowPairs(i, n) + {(i, n)}
  {
  }

  lemma RowInAll(i: nat, n: nat)
    ensures RowPairs(i, n) <= AllPairs(n)
  {
  }

  /**
   * The formula after resolution steps on the pairs of `ps`, in order: each
   * step resolves the clauses at the pair's positions in the formula as it is
   * by then. A pair outside the formula leaves it as it is.
   */
  ghost function Steps(g: seq<seq<Literal>>, ps: seq<(int, int)>): seq<seq<Literal>>
    decreases |ps|
  {
    if ps == [] then g
    else
      var h := Steps(g, ps[..|ps| - 1]);
      var p := ps[|ps| - 1];
      if 0 <= p.0 < |h| && 0 <= p.1 < |h| then ResolveStep(h, h[p.0], h[p.1]).1 else h
  }

  lemma StepsSnoc(g: seq<seq<Literal>>, ps: seq<(int, int)>, p: (int, int))
    requires 0 <= p.0 < |Steps(g, ps)| && 0 <= p.1 < |Steps(g, ps)|
    ensures Steps(g, ps + [p]) == var h := Steps(g, ps); ResolveStep(h, h[p.0], h[p.1]).1
  {
    assert (ps + [p])[..|ps|] == ps;
  }

  /** Steps along s and then along t are the steps along s + t. */
  lemma {:induction false} StepsConcat(g: seq<seq<Literal>>, s: seq<(int, int)>, t: seq<(int, int)>)
    ensures Steps(g, s + t) == Steps(Steps(g, s), t)
    decreases |t|
  {
    if t == [] {
      assert s + t == s;
    } else {
      var init := t[..|t| - 1];
      assert (s + t)[..|s + t| - 1] == s + init;
      assert (s + t)[|s + t| - 1] == t[|t| - 1];
      StepsConcat(g, s, init);
    }
  }

  /** Pair p comes before pair q in row-major order: by row, then by column. */
  predicate RowMajorBefore(p: (int, int), q: (int, int))
  {
    p.0 < q.0 || (p.0 == q.0 && p.1 < q.1)
  }

  /** The pairs are listed in strictly increasing row-major order. */
  ghost predicate RowMajor(ps: seq<(int, int)>)
  {
    forall k, m :: 0 <= k < m < |ps| ==> RowMajorBefore(ps[k], ps[m])
  }

  lemma RowMajorConcat(s: seq<(int, int)>, t: seq<(int, int)>, i: int)
    requires RowMajor(s) && RowMajor(t)
    requires forall k :: 0 <= k < |s| ==> s[k].0 < i
    requires forall m :: 0 <= m < |t| ==> t[m].0 == i
    ensures RowMajor(s + t)
  {
    forall k, m | 0 <= k < m < |s + t| ensures RowMajorBefore((s + t)[k], (s + t)[m]) {
      if m < |s| {
        assert (s + t)[k] == s[k] && (s + t)[m] == s[m];
      } else if k >= |s| {
        assert (s + t)[k] == t[k - |s|] && (s + t)[m] == t[m - |s|];
      } else {
        assert (s + t)[k] == s[k] && (s + t)[m] == t[m - |s|];
      }
    }
  }

  /** Appending the next pair (i, j) of row i keeps the row in order. */
  lemma RowSnoc(ps: seq<(int, int)>, i: int, j: int)
    requires RowMajor(ps) && forall k :: 0 <= k < |ps| ==> ps[k].0 == i && ps[k].1 < j
    ensures RowMajor(ps + [(i, j)])
    ensures forall k :: 0 <= k < |ps + [(i, j)]| ==> (ps + [(i, j)])[k].0 == i && (ps + [(i, j)])[k].1 < j + 1
  {
  }

  /** Pair p of the formula has been resolved: its step adds nothing to the formula any more. */
  ghost predicate Settled(f: seq<seq<Literal>>, p: (int, int))
  {
    0 <= p.0 < p.1 < |f| && ResolveStep(f, f[p.0], f[p.1]).1 == f
  }

  /** No pair of positions i < j yields a clause the formula lacks. */
  ghost predicate Saturated(f: seq<seq<Literal>>)
  {
    forall i, j :: 0 <= i < j < |f| ==> ResolveStep(f, f[i], f[j]).1 == f
  }

  /**
   * What holds between steps: the formula is well formed, extends the input,
   * uses only the input's literals, is implied by the input, and every pair
   * tried so far is settled.
   */
  ghost predicate Progress(input: seq<seq<Literal>>, v: set<Literal>, tried: set<(int, int)>, f: seq<seq<Literal>>)
  {
    && WellFormed(f) && input <= f && Within(f, v)
    && (forall a :: SatFormula(a, input) ==> SatFormula(a, f))
    && (forall p :: p in tried ==> Settled(f, p))
  }

  lemma VocabularyCovers(f: seq<seq<Literal>>)
    ensures Within(f, Vocabulary(f))
  {
    forall k, l | 0 <= k < |f| && l in Elems(f[k]) ensures l in Vocabulary(f) {
      assert l in f[k];
    }
  }

  /** A settled pair stays settled as the formula grows. */
  lemma SettledGrows(f: seq<seq<Literal>>, p: (int, int), g: seq<seq<Literal>>)
    requires WellFormed(f) && Settled(f, p) && f <= g
    ensures Settled(g, p)
  {
    assert g[p.0] == f[p.0] && g[p.1] == f[p.1];
    ResolveStepSettles(f, f[p.0], f[p.1], g);
  }

  /** Trying one more pair keeps the invariant, and the pair is settled afterwards. */
  lemma TryPairKeepsProgress(input: seq<seq<Literal>>, v: set<Literal>, tried: set<(int, int)>,
                             f: seq<seq<Literal>>, i: int, j: int)
    requires Progress(input, v, tried, f) && 0 <= i < j < |f|
    ensures var (added, g) := ResolveStep(f, f[i], f[j]);
      && Progress(input, v, tried + {(i, j)}, g)
      && f <= g && AllPairs(|f|) <= AllPairs(|g|) && (!added ==> g == f)
  {
    var g := ResolveStep(f, f[i], f[j]).1;
    ResolveStepShape(f, f[i], f[j]);
    forall k | 0 <= k < |g| ensures Elems(g[k]) <= v {
      if k >= |f| {
        assert Elems(f[i]) <= v && Elems(f[j]) <= v;
      }
    }
    forall a | SatFormula(a, input) ensures SatFormula(a, g) {
      assert SatClause(a, f[i]) && SatClause(a, f[j]);
      ResolveStepSound(f, f[i], f[j], a);
    }
    forall p | p in tried + {(i, j)} ensures Settled(g, p) {
      if p == (i, j) {
        ResolveStepSettles(f, f[i], f[j], g);
        assert g[i] == f[i] && g[j] == f[j];
      } else {
        SettledGrows(f, p, g);
      }
    }
  }

  /** Each clause a round appends has a literal set over the vocabulary that the formula lacked. */
  lemma UnusedShrinks(v: set<Literal>, f: seq<seq<Literal>>, g: seq<seq<Literal>>)
    requires WellFormed(g) && f <= g && |f| < |g| && Within(g, v)
    ensures Unused(v, g) < Unused(v, f)
  {
    var s := Elems(g[|f|]);
    assert s in ClauseSets(g);
    forall k | 0 <= k < |f| ensures Elems(f[k]) != s {
      assert f[k] == g[k];
    }
    assert s !in ClauseSets(f);
    assert s in Unused(v, f);
    forall k | 0 <= k < |f| ensures Elems(f[k]) in ClauseSets(g) {
      assert f[k] == g[k];
    }
    assert ClauseSets(f) <= ClauseSets(g);
  }

  lemma PairBounds(p: (int, int), n: nat)
    requires p in AllPairs(n)
    ensures 0 <= p.0 < p.1 < n
  {
  }

  /** With every pair settled the formula is saturated. */
  lemma AllSettledSaturated(f: seq<seq<Literal>>, tried: set<(int, int)>)
    requires AllPairs(|f|) <= tried && forall p :: p in tried ==> Settled(f, p)
    ensures Saturated(f)
  {
    forall i, j | 0 <= i < j < |f| ensures ResolveStep(f, f[i], f[j]).1 == f {
      assert (i, j) in AllPairs(|f|);
      assert Settled(f, (i, j));
    }
  }

  /** The pairs in `s` are distinct, and each was added to the memo between `before` and `after`. */
  ghost predicate Records(s: seq<(int, int)>, before: set<(int, int)>, after: set<(int, int)>)
  {
    && (forall k, m :: 0 <= k < m < |s| ==> s[k] != s[m])
    && (forall k :: 0 <= k < |s| ==> s[k] in after && s[k] !in before)
  }

  lemma RecordsSnoc(s: seq<(int, int)>, a: set<(int, int)>, b: set<(int, int)>, p: (int, int))
    requires Records(s, a, b) && a <= b && p !in b
    ensures Records(s + [p], a, b + {p})
  {
  }

  lemma RecordsConcat(s: seq<(int, int)>, t: seq<(int, int)>, a: set<(int, int)>, b: set<(int, int)>, c: set<(int, int)>)
    requires Records(s, a, b) && Records(t, b, c) && a <= b <= c
    ensures Records(s + t, a, c)
  {
    forall k, m | 0 <= k < m < |s + t| ensures (s + t)[k] != (s + t)[m] {
      if k < |s| && m >= |s| {
        assert (s + t)[k] in b && (s + t)[m] !in b;
      }
    }
  }

  /**
   * The body of the pair loop for an unmarked pair (i, j): mark it, apply a
   * resolution step to clauses i and j, and on success test the formula for the
   * empty clause.
   */
  method TryPair(f: Formula, ghost input: seq<seq<Literal>>, ghost v: set<Literal>, i: nat, j: nat,
                 tried: set<(int, int)>, ghost base: set<(int, int)>, ghost tries: seq<(int, int)>)
      returns (ok: bool, unsat: bool, tried': set<(int, int)>, ghost tries': seq<(int, int)>)
    requires i < j < |f.clauses| && (i, j) !in tried
    requires Progress(input, v, tried, f.clauses) && tried <= AllPairs(|f.clauses|)
    requires base <= tried && Records(tries, base, tried)
    modifies f
    ensures tried' == tried + {(i, j)} && tries' == tries + [(i, j)]
    ensures Progress(input, v, tried', f.clauses)
    ensures old(f.clauses) <= f.clauses && tried' <= AllPairs(|f.clauses|)
    ensures Records(tries', base, tried')
    ensures (ok, f.clauses) == ResolveStep(old(f.clauses), old(f.clauses)[i], old(f.clauses)[j])
    ensures !ok ==> f.clauses == old(f.clauses) && !unsat
    ensures unsat <==> ok && [] in f.clauses
  {
    var before := f.clauses;
    TryPairKeepsProgress(input, v, tried, before, i, j);
    tried', tries' := tried + {(i, j)}, tries + [(i, j)];
    RecordsSnoc(tries, base, tried, (i, j));
    ok := ApplyResolution(f, before[i], before[j]);
    assert (ok, f.clauses) == ResolveStep(before, before[i], before[j]);
    unsat := false;
    if ok {
      unsat := f.ContainsEmptyClause();
    }
  }

  /**
   * What the pair loop of row i keeps once the pairs (i, i + 1) .. (i, j - 1)
   * are done, from the formula `start` and the memo `tried` the row began with:
   * `g` is the formula and `tried'` the memo now, `tries` the pairs tried, in
   * order, and `added` whether a step reported success.
   */
  ghost predicate RowState(input: seq<seq<Literal>>, v: set<Literal>, i: nat, j: nat,
                           start: seq<seq<Literal>>, tried: set<(int, int)>,
                           g: seq<seq<Literal>>, tried': set<(int, int)>, tries: seq<(int, int)>, added: bool)
  {
    && Progress(input, v, tried', g) && start <= g
    && tried <= tried' <= AllPairs(|g|)
    && (!added ==> g == start)
    && (added ==> tries != [])
    && RowPairs(i, j) <= tried' <= tried + RowPairs(i, j)
    && Records(tries, tried, tried')
    && g == Steps(start, tries)
    && RowMajor(tries) && (forall k :: 0 <= k < |tries| ==> tries[k].0 == i && tries[k].1 < j)
  }

  lemma RowStateStart(input: seq<seq<Literal>>, v: set<Literal>, i: nat,
                      start: seq<seq<Literal>>, tried: set<(int, int)>)
    requires Progress(input, v, tried, start) && tried <= AllPairs(|start|)
    ensures RowState(input, v, i, i + 1, start, tried, start, tried, [], false)
  {
    assert RowPairs(i, i + 1) == {};
  }

  /** Trying the untried pair (i, j) as TryPair does moves the row on to j + 1. */
  lemma RowStateStep(input: seq<seq<Literal>>, v: set<Literal>, i: nat, j: nat,
                     start: seq<seq<Literal>>, tried: set<(int, int)>,
                     g: seq<seq<Literal>>, tried': set<(int, int)>, tries: seq<(int, int)>, added: bool,
                     g': seq<seq<Literal>>, tried'': set<(int, int)>, ok: bool)
    requires RowState(input, v, i, j, start, tried, g, tried', tries, added)
    requires i < j < |g| && (i, j) !in tried'
    requires tried'' == tried' + {(i, j)} && Records(tries + [(i, j)], tried, tried'')
    requires Progress(input, v, tried'', g') && g <= g' && tried'' <= AllPairs(|g'|)
    requires (ok, g') == ResolveStep(g, g[i], g[j])
    ensures RowState(input, v, i, j + 1, start, tried, g', tried'', tries + [(i, j)], added || ok)
  {
    RowPairsGrow(i, j);
    StepsSnoc(start, tries, (i, j));
    RowSnoc(tries, i, j);
  }

  /** Passing over the marked pair (i, j) moves the row on to j + 1. */
  lemma RowStateSkip(input: seq<seq<Literal>>, v: set<Literal>, i: nat, j: nat,
                     start: seq<seq<Literal>>, tried: set<(int, int)>,
                     g: seq<seq<Literal>>, tried': set<(int, int)>, tries: seq<(int, int)>, added: bool)
    requires RowState(input, v, i, j, start, tried, g, tried', tries, added)
    requires i < j && (i, j) in tried'
    ensures RowState(input, v, i, j + 1, start, tried, g, tried', tries, added)
  {
    RowPairsGrow(i, j);
  }

  /**
   * One row of a round: every unmarked pair (i, j) with i < j < n, in order of j.
   * The row stops early when a step reports success and the formula then holds
   * the empty clause.
   */
  method ResolveRow(f: Formula, ghost input: seq<seq<Literal>>, ghost v: set<Literal>,
                    i: nat, n: nat, tried: set<(int, int)>)
      returns (added: bool, unsat: bool, tried': set<(int, int)>, ghost tries: seq<(int, int)>)
    requires i < n <= |f.clauses|
    requires Progress(input, v, tried, f.clauses) && [] !in f.clauses && tried <= AllPairs(|f.clauses|)
    modifies f
    ensures Progress(input, v, tried', f.clauses)
    ensures old(f.clauses) <= f.clauses
    ensures tried <= tried' <= AllPairs(|f.clauses|)
    ensures unsat <==> [] in f.clauses
    ensures !added ==> f.clauses == old(f.clauses)
    ensures added ==> tries != []
    ensures !unsat ==> RowPairs(i, n) <= tried'
    ensures tried' <= tried + RowPairs(i, n)
    ensures Records(tries, tried, tried')
    ensures f.clauses == Steps(old(f.clauses), tries)
    ensures RowMajor(tries) && forall k :: 0 <= k < |tries| ==> tries[k].0 == i
  {
    added, unsat, tried', tries := false, false, tried, [];
    ghost var start := f.clauses;
    RowStateStart(input, v, i, start, tried);
    var j := i + 1;
    while j < n
      invariant i + 1 <= j <= n <= |f.clauses| && !unsat && [] !in f.clauses
      invariant RowState(input, v, i, j, start, tried, f.clauses, tried', tries, added)
    {
      if (i, j) !in tried' {
        ghost var g, t, ts, a := f.clauses, tried', tries, added;
        var ok;
        ok, unsat, tried', tries := TryPair(f, input, v, i, j, tried', tried, tries);
        RowStateStep(input, v, i, j, start, tried, g, t, ts, a, f.clauses, tried', ok);
        if ok {
          added := true;
          if unsat {
            return;
          }
        }
      } else {
        RowStateSkip(input, v, i, j, start, tried, f.clauses, tried', tries, added);
      }
      j := j + 1;
    }
  }

  /**
   * What the row loop of a round over the first n clauses keeps once rows
   * 0 .. i - 1 are done, from the formula `start` and the memo `tried` the
   * round began with.
   */
  ghost predicate RoundState(input: seq<seq<Literal>>, v: set<Literal>, i: nat, n: nat,
                             start: seq<seq<Literal>>, tried: set<(int, int)>,
                             g: seq<seq<Literal>>, tried': set<(int, int)>, tries: seq<(int, int)>, added: bool)
  {
    && Progress(input, v, tried', g) && start <= g && n <= |g|
    && tried <= tried' <= AllPairs(|g|)
    && (!added ==> g == start)
    && (added ==> tries != [])
    && tried' <= tried + AllPairs(n)
    && Records(tries, tried, tried')
    && g == Steps(start, tries)
    && RowMajor(tries) && (forall k :: 0 <= k < |tries| ==> tries[k].0 < i)
  }

  /** Running row i as ResolveRow does moves the round on to row i + 1. */
  lemma RoundStateStep(input: seq<seq<Literal>>, v: set<Literal>, i: nat, n: nat,
                       start: seq<seq<Literal>>, tried: set<(int, int)>,
                       g: seq<seq<Literal>>, tried': set<(int, int)>, tries: seq<(int, int)>, added: bool,
                       g': seq<seq<Literal>>, tried'': set<(int, int)>, rowTries: seq<(int, int)>, rowAdded: bool)
    requires RoundState(input, v, i, n, start, tried, g, tried', tries, added) && i < n
    requires Progress(input, v, tried'', g') && g <= g' && tried' <= tried'' <= AllPairs(|g'|)
    requires !rowAdded ==> g' == g
    requires rowAdded ==> rowTries != []
    requires tried'' <= tried' + RowPairs(i, n)
    requires Records(rowTries, tried', tried'')
    requires g' == Steps(g, rowTries)
    requires RowMajor(rowTries) && forall k :: 0 <= k < |rowTries| ==> rowTries[k].0 == i
    ensures RoundState(input, v, i + 1, n, start, tried, g', tried'', tries + rowTries, added || rowAdded)
  {
    RowInAll(i, n);
    RecordsConcat(tries, rowTries, tried, tried', tried'');
    StepsConcat(start, tries, rowTries);
    RowMajorConcat(tries, rowTries, i);
  }

  /** Rows 0 .. i - 1 of the pairs below n are all marked in `t`. */
  ghost predicate RowsCovered(i: nat, n: nat, t: set<(int, int)>)
  {
    forall i' :: 0 <= i' < i ==> RowPairs(i', n) <= t
  }

  lemma RowsCoveredStep(i: nat, n: nat, t: set<(int, int)>, t': set<(int, int)>)
    requires RowsCovered(i, n, t) && t <= t' && RowPairs(i, n) <= t'
    ensures RowsCovered(i + 1, n, t')
  {
  }

  /** Once every row is covered, so is every pair below n. */
  lemma RowsCoveredAll(n: nat, t: set<(int, int)>)
    requires RowsCovered(n, n, t)
    ensures AllPairs(n) <= t
  {
    forall p | p in AllPairs(n) ensures p in t {
      PairBounds(p, n);
      assert p in RowPairs(p.0, n);
    }
  }

  /** One round: the rows i = 0 .. n-1 for the size n the formula had when the round began. */
  method ResolveRound(f: Formula, ghost input: seq<seq<Literal>>, ghost v: set<Literal>, tried: set<(int, int)>)
      returns (added: bool, unsat: bool, tried': set<(int, int)>, ghost tries: seq<(int, int)>)
    requires Progress(input, v, tried, f.clauses) && [] !in f.clauses && tried <= AllPairs(|f.clauses|)
    modifies f
    ensures Progress(input, v, tried', f.clauses)
    ensures old(f.clauses) <= f.clauses
    ensures tried <= tried' <= AllPairs(|f.clauses|)
    ensures unsat <==> [] in f.clauses
    ensures !added ==> f.clauses == old(f.clauses) && AllPairs(|f.clauses|) <= tried'
    ensures added ==> tries != []
    ensures !unsat ==> AllPairs(old(|f.clauses|)) <= tried'
    ensures tried' - tried <= AllPairs(old(|f.clauses|))
    ensures Records(tries, tried, tried')
    ensures f.clauses == Steps(old(f.clauses), tries)
    ensures RowMajor(tries)
  {
    added, unsat, tried', tries := false, false, tried, [];
    ghost var start := f.clauses;
    var n := |f.clauses|;
    var i := 0;
    while i < n
      invariant 0 <= i <= n && [] !in f.clauses
      invariant RoundState(input, v, i, n, start, tried, f.clauses, tried', tries, added)
      invariant RowsCovered(i, n, tried')
    {
      ghost var g, t := f.clauses, tried';
      var rowAdded, rowUnsat, rowTried, rowTries := ResolveRow(f, input, v, i, n, tried');
      RoundStateStep(input, v, i, n, start, tried, g, t, tries, added, f.clauses, rowTried, rowTries, rowAdded);
      added, unsat, tried', tries := added || rowAdded, rowUnsat, rowTried, tries + rowTries;
      if unsat {
        return;
      }
      RowsCoveredStep(i, n, t, tried');
      i := i + 1;
    }
    RowsCoveredAll(n, tried');
  }

  /**
   * isUnsatisfiable. It answers true at once when the formula already holds the
   * empty clause. Otherwise it runs rounds, each over every untried pair below
   * the size the formula had when the round began, answering true as soon as a
   * step reports success and the formula then holds the empty clause, and false
   * after a round in which no step reported success. The pairs tried are
   * returned, in order, as the ghost `attempts`.
   */
  method IsUnsatisfiable(f: Formula) returns (unsat: bool, ghost attempts: seq<(int, int)>)
    requires f.Valid()
    modifies f
    ensures f.Valid()
    ensures old(f.clauses) <= f.clauses
    ensures [] in old(f.clauses) ==> unsat && f.clauses == old(f.clauses)
    ensures unsat <==> [] in f.clauses
    ensures forall a :: SatFormula(a, old(f.clauses)) ==> SatFormula(a, f.clauses)
    ensures unsat ==> !Satisfiable(old(f.clauses))
    ensures forall k, m :: 0 <= k < m < |attempts| ==> attempts[k] != attempts[m]
    ensures forall k :: 0 <= k < |attempts| ==> 0 <= attempts[k].0 < attempts[k].1 < |f.clauses|
    ensures !unsat ==> Saturated(f.clauses)
    ensures f.clauses == Steps(old(f.clauses), attempts)
  {
    attempts := [];
    var hasEmpty := f.ContainsEmptyClause();
    if hasEmpty {
      EmptyClauseRefutes(f.clauses);
      return true, attempts;
    }
    ghost var input := f.clauses;
    ghost var v := Vocabulary(input);
    VocabularyCovers(input);
    var tried: set<(int, int)> := {};
    var added := true;
    while added
      invariant Progress(input, v, tried, f.clauses) && [] !in f.clauses
      invariant tried <= AllPairs(|f.clauses|)
      invariant Records(attempts, {}, tried)
      invariant !added ==> AllPairs(|f.clauses|) <= tried
      invariant f.clauses == Steps(input, attempts)
      decreases Unused(v, f.clauses), AllPairs(|f.clauses|) - tried, if added then 1 else 0
    {
      ghost var f0, tried0 := f.clauses, tried;
      var roundAdded, roundUnsat, roundTried, roundTries := ResolveRound(f, input, v, tried);
      added := roundAdded;
      RecordsConcat(attempts, roundTries, {}, tried0, roundTried);
      StepsConcat(input, attempts, roundTries);
      tried, attempts := roundTried, attempts + roundTries;
      if roundUnsat {
        EmptyClauseRefutes(f.clauses);
        AttemptBounds(attempts, tried, |f.clauses|);
        return true, attempts;
      }
      RoundDecreases(v, f0, f.clauses, tried0, tried, added, roundTries);
    }
    AllSettledSaturated(f.clauses, tried);
    AttemptBounds(attempts, tried, |f.clauses|);
    return false, attempts;
  }

  /**
   * A round either adds a clause, and with it one more clause set of the
   * vocabulary is used, or it adds none and then marks a pair not marked
   * before, or it reports no success.
   */
  lemma RoundDecreases(v: set<Literal>, f0: seq<seq<Literal>>, f1: seq<seq<Literal>>,
                       tried0: set<(int, int)>, tried1: set<(int, int)>, added: bool, tries: seq<(int, int)>)
    requires WellFormed(f1) && f0 <= f1 && Within(f1, v)
    requires tried0 <= tried1 <= AllPairs(|f1|)
    requires !added ==> f1 == f0
    requires added ==> tries != []
    requires Records(tries, tried0, tried1)
    ensures || Unused(v, f1) < Unused(v, f0)
            || (Unused(v, f1) == Unused(v, f0) && AllPairs(|f1|) - tried1 < AllPairs(|f0|) - tried0)
            || (Unused(v, f1) == Unused(v, f0) && AllPairs(|f1|) - tried1 == AllPairs(|f0|) - tried0 && !added)
  {
    if |f1| > |f0| {
      UnusedShrinks(v, f0, f1);
    } else {
      assert f1 == f0;
      if added {
        assert tries[0] in AllPairs(|f1|) - tried0;
      }
    }
  }

  lemma AttemptBounds(attempts: seq<(int, int)>, tried: set<(int, int)>, n: nat)
    requires Records(attempts, {}, tried) && tried <= AllPairs(n)
    ensures forall k :: 0 <= k < |attempts| ==> 0 <= attempts[k].0 < attempts[k].1 < n
  {
    forall k | 0 <= k < |attempts| ensures 0 <= attempts[k].0 < attempts[k].1 < n {
      PairBounds(attempts[k], n);
    }
  }
}
