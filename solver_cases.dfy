/**
 * The formulas the solver's own test driver runs, worked through the model:
 * one resolution step, an unsatisfiable and a satisfiable formula. The last
 * one also shows how the memo table isUnsatisfiable allocates overflows once
 * a round adds a clause.
 */
module SolverCases {
  import opened Literals
  import opened Clauses
  import opened Formulas
  import opened Resolution
  import opened Semantics
  import opened Saturation

  const PosA: Literal := Literal("A", false)
  const NegA: Literal := Literal("A", true)
  const PosB: Literal := Literal("B", false)
  const NegB: Literal := Literal("B", true)

  /** (A ∨ B) ∧ (A ∨ ¬B): the satisfiable formula of the driver. */
  const SatCase: seq<seq<Literal>> := [[PosA, PosB], [PosA, NegB]]

  lemma SingleLiteral(r: seq<Literal>, l: Literal)
    requires NoDuplicates(r) && Elems(r) == {l}
    ensures r == [l]
  {
    DistinctCount(r);
    assert r[0] in Elems(r);
  }

  lemma NoLiterals(r: seq<Literal>)
    requires NoDuplicates(r) && Elems(r) == {}
    ensures r == []
  {
    DistinctCount(r);
  }

  /**
   * applyResolution on (A ∨ B) and (¬A): the first complementary pair is A
   * against ¬A, the resolvent (B) is no tautology and not yet present, so it
   * is appended and the step reports true.
   */
  lemma ResolveAOrBWithNotA()
    ensures ResolveStep([[PosA, PosB], [NegA]], [PosA, PosB], [NegA])
         == (true, [[PosA, PosB], [NegA], [PosB]])
  {
    var c1, c2 := [PosA, PosB], [NegA];
    assert FirstPair(c1, c2) == Some((0, 0));
    assert c1[1] in Others(c1, 0, 2);
    assert Others(c1, 0, 2) == {PosB};
    assert Others(c2, 0, 1) == {};
    var r := Resolvent(c1, c2, 0, 0);
    SingleLiteral(r, PosB);
    assert ResolveStep([c1, c2], c1, c2) == (true, AddClauseValue([c1, c2], r));
    assert PosB !in c2;
    assert !HasComplementaryPair(r);
    assert !HasEquivalent([c1, c2], r);
    assert AddClauseValue([c1, c2], r) == [c1, c2, [PosB]];
  }

  /** A saturated formula that starts with (A) and (¬A) holds the empty clause: their resolvent. */
  lemma SaturatedWithAAndNotA(f: seq<seq<Literal>>)
    requires Saturated(f) && |f| >= 2 && f[0] == [PosA] && f[1] == [NegA]
    ensures [] in f
  {
    assert FirstPair(f[0], f[1]) == Some((0, 0));
    assert Others(f[0], 0, 1) == {} && Others(f[1], 0, 1) == {};
    NoLiterals(Resolvent(f[0], f[1], 0, 0));
    assert ResolveStep(f, f[0], f[1]).1 == f;
    assert HasEquivalent(f, []);
    var i :| 0 <= i < |f| && SameClause(f[i], []);
    assert f[i] == [];
  }

  /** The driver's unsatisfiable case: (A) ∧ (¬A) is reported unsatisfiable. */
  method UnsatisfiableCase() returns (unsat: bool)
    ensures unsat
  {
    var a := new Clause();
    var _ := a.AddLiteral(PosA);
    var notA := new Clause();
    var _ := notA.AddLiteral(NegA);
    assert a.literals == [PosA] && notA.literals == [NegA];
    var f := new Formula();
    var _ := f.AddClause(a);
    assert f.clauses == [[PosA]];
    assert !SameClause([PosA], [NegA]) by {
      assert NegA == [NegA][0] && NegA !in [PosA];
    }
    var _ := f.AddClause(notA);
    assert f.clauses == [[PosA], [NegA]];
    ghost var attempts;
    unsat, attempts := IsUnsatisfiable(f);
    if !unsat {
      SaturatedWithAAndNotA(f.clauses);
    }
  }

  /** (A ∨ B) ∧ (A ∨ ¬B) holds when A is true. */
  lemma SatCaseSatisfiable()
    ensures Satisfiable(SatCase)
  {
    var a: Assignment := n => n == "A";
    assert SatLiteral(a, PosA);
    assert SatClause(a, SatCase[0]) && SatClause(a, SatCase[1]);
    assert SatFormula(a, SatCase);
  }

  /** The driver's satisfiable formula, built through addLiteralToClause and addClauseToFormula. */
  method BuildSatCase() returns (f: Formula)
    ensures fresh(f) && f.Valid() && f.clauses == SatCase
  {
    var c1 := new Clause();
    var _ := c1.AddLiteral(PosA);
    var _ := c1.AddLiteral(PosB);
    var c2 := new Clause();
    var _ := c2.AddLiteral(PosA);
    var _ := c2.AddLiteral(NegB);
    assert c1.literals == [PosA, PosB] && c2.literals == [PosA, NegB];
    f := new Formula();
    var _ := f.AddClause(c1);
    assert f.clauses == [[PosA, PosB]];
    assert !SameClause([PosA, PosB], [PosA, NegB]) by {
      assert NegB == [PosA, NegB][1] && NegB !in [PosA, PosB];
    }
    var _ := f.AddClause(c2);
  }

  /** The driver's satisfiable case: (A ∨ B) ∧ (A ∨ ¬B) is not reported unsatisfiable. */
  method SatisfiableCase() returns (unsat: bool)
    ensures !unsat
  {
    var f := BuildSatCase();
    ghost var attempts;
    unsat, attempts := IsUnsatisfiable(f);
    if unsat {
      SatCaseSatisfiable();
    }
  }

  /**
   * (A ∨ B) with (¬A ∨ ¬B): resolving on A leaves (B ∨ ¬B), a tautology, so
   * the step adds nothing and reports false, whatever the formula.
   */
  lemma TautologyDiscarded(f: seq<seq<Literal>>)
    ensures ResolveStep(f, [PosA, PosB], [NegA, NegB]) == (false, f)
  {
    var c1, c2 := [PosA, PosB], [NegA, NegB];
    assert FirstPair(c1, c2) == Some((0, 0));
    assert c1[1] in Others(c1, 0, 2) && c2[1] in Others(c2, 0, 2);
    assert Others(c1, 0, 2) == {PosB} && Others(c2, 0, 2) == {NegB};
    var r := Resolvent(c1, c2, 0, 0);
    assert Elems(r) == {PosB, NegB};
    DistinctCount(r);
    assert r[0] in Elems(r) && r[1] in Elems(r) && r[0] != r[1];
    assert Complementary(r[0], r[1]);
  }

  /** The formula with no clauses is not reported unsatisfiable. */
  method EmptyFormulaCase() returns (unsat: bool)
    ensures !unsat
  {
    var f := new Formula();
    var a: Assignment := n => true;
    assert SatFormula(a, f.clauses);
    ghost var attempts;
    unsat, attempts := IsUnsatisfiable(f);
  }

  /**
   * The first pair of (A ∨ B) ∧ (A ∨ ¬B) resolves B against ¬B and appends
   * (A): the first round grows the formula from two clauses to three.
   */
  lemma SatCaseFirstStep()
    ensures ResolveStep(SatCase, SatCase[0], SatCase[1]) == (true, SatCase + [[PosA]])
  {
    var c1, c2 := SatCase[0], SatCase[1];
    assert SearchFrom(c1, c2, 1, 0) == Some((1, 1));
    assert SearchFrom(c1, c2, 0, 1) == SearchFrom(c1, c2, 1, 0);
    assert FirstPair(c1, c2) == Some((1, 1));
    assert c1[0] in Others(c1, 1, 2) && c2[0] in Others(c2, 1, 2);
    assert Others(c1, 1, 2) == {PosA} && Others(c2, 1, 2) == {PosA};
    SingleLiteral(Resolvent(c1, c2, 1, 1), PosA);
    assert !SameClause(c1, [PosA]) && !SameClause(c2, [PosA]);
  }

  /**
   * The memo table of isUnsatisfiable as the source allocates it: how many
   * row pointers the outer array holds, and the length of each row stored.
   */
  datatype MemoLayout = MemoLayout(outer: nat, rows: seq<nat>)

  /** Before the first round, for n clauses: n row pointers, each row n flags long. */
  function InitialLayout(n: nat): MemoLayout
  {
    MemoLayout(n, seq(n, _ => n))
  }

  /**
   * The end of a round as written: a row of `size` flags for each clause the
   * round added, stored at the next positions of the same outer array.
   */
  function GrowLayout(m: MemoLayout, size: nat): MemoLayout
  {
    if size <= |m.rows| then m else MemoLayout(m.outer, m.rows + seq(size - |m.rows|, _ => size))
  }

  /** Storing row pointer `row` stays inside the outer array. */
  predicate RowStoreInBounds(m: MemoLayout, row: nat)
  {
    row < m.outer
  }

  /** Flag [i][j] lies inside an allocated row. */
  predicate FlagInBounds(m: MemoLayout, i: nat, j: nat)
  {
    i < m.outer && i < |m.rows| && j < m.rows[i]
  }

  /**
   * For any formula of n clauses whose first round grows it to m > n clauses
   * without deriving the empty clause: the table covers every pair of the first
   * round, but each row pointer stored for a new clause, n .. m-1, falls outside
   * the outer array of n, and so does every flag (i, j) of the next round with
   * i < n <= j, since row i holds only n flags.
   */
  lemma MemoOverrun(n: nat, m: nat)
    requires n < m
    ensures forall i, j :: 0 <= i < n && 0 <= j < n ==> FlagInBounds(InitialLayout(n), i, j)
    ensures forall r :: n <= r < m ==> !RowStoreInBounds(GrowLayout(InitialLayout(n), m), r)
    ensures forall i, j :: 0 <= i < n <= j < m ==> !FlagInBounds(GrowLayout(InitialLayout(n), m), i, j)
  {
    var g := GrowLayout(InitialLayout(n), m);
    assert g.outer == n && |g.rows| == m;
    forall i | 0 <= i < n ensures g.rows[i] == n {
      assert g.rows[i] == InitialLayout(n).rows[i];
    }
  }

  /**
   * On (A ∨ B) ∧ (A ∨ ¬B) the first round adds a clause without deriving the
   * empty one, so the loop that allocates rows for the new clauses stores row
   * pointer 2 into an outer array of two, and the next round's first new pair
   * (0, 2) marks flag 2 of a row two flags long.
   */
  lemma MemoOverrunOnSatCase()
    ensures var (added, g) := ResolveStep(SatCase, SatCase[0], SatCase[1]);
      && added && |g| == 3 && [] !in g
      && !RowStoreInBounds(InitialLayout(|SatCase|), 2)
      && !FlagInBounds(GrowLayout(InitialLayout(|SatCase|), |g|), 0, 2)
  {
    SatCaseFirstStep();
    assert SatCase + [[PosA]] == [[PosA, PosB], [PosA, NegB], [PosA]];
    MemoOverrun(2, 3);
  }
}
