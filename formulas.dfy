/**
 * Formulas: conjunctions of clauses. A formula owns copies of its clauses,
 * never changes one once stored, and refuses a clause equivalent to one it
 * already holds. Because the stored clauses are never mutated, they are kept
 * here as values, in insertion order.
 */
module Formulas {
  import opened Literals
  import opened Text
  import opened Clauses

  /**
   * The duplicate test of addClauseToFormula: the stored clause has the same
   * size as the new one and holds each of its literals.
   */
  predicate SameClause(existing: seq<Literal>, c: seq<Literal>)
  {
    |existing| == |c| && forall j :: 0 <= j < |c| ==> c[j] in existing
  }

  /** Some stored clause passes the duplicate test against `c`. */
  ghost predicate HasEquivalent(f: seq<seq<Literal>>, c: seq<Literal>)
  {
    exists i :: 0 <= i < |f| && SameClause(f[i], c)
  }

  /** The clause list after addClauseToFormula. */
  ghost function AddClauseValue(f: seq<seq<Literal>>, c: seq<Literal>): seq<seq<Literal>>
  {
    if HasEquivalent(f, c) then f else f + [c]
  }

  /** The formula invariant: duplicate-free clauses, no two with the same literal set. */
  ghost predicate WellFormed(f: seq<seq<Literal>>)
  {
    && (forall k :: 0 <= k < |f| ==> NoDuplicates(f[k]))
    && (forall a, b :: 0 <= a < b < |f| ==> Elems(f[a]) != Elems(f[b]))
  }

  lemma SubsetOfSameSize<T>(s: set<T>, t: set<T>)
    requires s <= t && |s| == |t|
    ensures s == t
  {
    assert t == s + (t - s);
    assert |t - s| == 0;
  }

  /** On duplicate-free clauses the size-and-membership test is exactly equality of literal sets. */
  lemma SameClauseIsSetEquality(x: seq<Literal>, y: seq<Literal>)
    requires NoDuplicates(x) && NoDuplicates(y)
    ensures SameClause(x, y) <==> Elems(x) == Elems(y)
  {
    DistinctCount(x);
    DistinctCount(y);
    if SameClause(x, y) {
      assert Elems(y) <= Elems(x);
      SubsetOfSameSize(Elems(y), Elems(x));
    }
    if Elems(x) == Elems(y) {
      forall j | 0 <= j < |y| ensures y[j] in x {
        assert y[j] in Elems(y);
      }
    }
  }

  /**
   * Adding a duplicate-free clause keeps the formula well formed, leaves the
   * stored clauses where they are, and grows the formula by one clause exactly
   * when no stored clause has the same literal set; either way the formula
   * afterwards holds an equivalent of the clause.
   */
  lemma AddClauseKeepsWellFormed(f: seq<seq<Literal>>, c: seq<Literal>)
    requires WellFormed(f) && NoDuplicates(c)
    ensures WellFormed(AddClauseValue(f, c))
    ensures f <= AddClauseValue(f, c)
    ensures |AddClauseValue(f, c)| == |f| + 1
        <==> forall i :: 0 <= i < |f| ==> Elems(f[i]) != Elems(c)
    ensures HasEquivalent(AddClauseValue(f, c), c)
  {
    var r := AddClauseValue(f, c);
    if HasEquivalent(f, c) {
      var i :| 0 <= i < |f| && SameClause(f[i], c);
      SameClauseIsSetEquality(f[i], c);
    } else {
      forall i | 0 <= i < |f| ensures Elems(f[i]) != Elems(c) {
        SameClauseIsSetEquality(f[i], c);
      }
      assert SameClause(r[|f|], c);
    }
  }

  /**
   * Dedup is order independent: once a clause is in, a clause with the same
   * literals in any order is refused.
   */
  lemma AddClauseSameSet(f: seq<seq<Literal>>, c1: seq<Literal>, c2: seq<Literal>)
    requires WellFormed(f) && NoDuplicates(c1) && NoDuplicates(c2) && Elems(c1) == Elems(c2)
    ensures AddClauseValue(AddClauseValue(f, c1), c2) == AddClauseValue(f, c1)
  {
    var g := AddClauseValue(f, c1);
    AddClauseKeepsWellFormed(f, c1);
    var i :| 0 <= i < |g| && SameClause(g[i], c1);
    SameClauseIsSetEquality(g[i], c1);
    SameClauseIsSetEquality(g[i], c2);
  }

  /** An equivalent, once stored, stays stored as the formula grows. */
  lemma HasEquivalentGrows(f: seq<seq<Literal>>, g: seq<seq<Literal>>, c: seq<Literal>)
    requires f <= g && HasEquivalent(f, c)
    ensures HasEquivalent(g, c)
  {
    var i :| 0 <= i < |f| && SameClause(f[i], c);
    assert g[i] == f[i];
  }

  class Formula {
    var clauses: seq<seq<Literal>>

    ghost predicate Valid()
      reads this
    {
      WellFormed(clauses)
    }

    /** createFormula: no clauses (the capacity hint has no counterpart here). */
    constructor ()
      ensures Valid() && clauses == []
    {
      clauses := [];
    }

    /**
     * addClauseToFormula: scan the stored clauses for one of the same size that
     * holds every literal of `c`; if there is none, store a copy of `c` at the
     * end. It reports success in both cases.
     */
    method AddClause(c: Clause) returns (ok: bool)
      requires Valid() && c.Valid()
      modifies this
      ensures Valid() && ok
      ensures clauses == AddClauseValue(old(clauses), c.literals)
    {
      var lits := c.literals;
      AddClauseKeepsWellFormed(clauses, lits);
      var i := 0;
      while i < |clauses|
        invariant 0 <= i <= |clauses|
        invariant forall i' :: 0 <= i' < i ==> !SameClause(clauses[i'], lits)
      {
        var existing := clauses[i];
        if |existing| == |lits| {
          var isDuplicate := true;
          var j := 0;
          while j < |lits|
            invariant 0 <= j <= |lits|
            invariant isDuplicate
            invariant forall j' :: 0 <= j' < j ==> lits[j'] in existing
          {
            var found := false;
            var k := 0;
            while k < |existing|
              invariant 0 <= k <= |existing|
              invariant forall k' :: 0 <= k' < k ==> existing[k'] != lits[j]
            {
              if LiteralsEqual(lits[j], existing[k]) {
                found := true;
                break;
              }
              k := k + 1;
            }
            if !found {
              isDuplicate := false;
              break;
            }
            j := j + 1;
          }
          if isDuplicate {
            assert SameClause(clauses[i], lits);
            return true;
          }
        }
        i := i + 1;
      }
      var copy := c.Copy();
      clauses := clauses + [copy.literals];
      ok := true;
    }

    /** formulaContainsEmptyClause: a scan for a clause with no literals. */
    method ContainsEmptyClause() returns (found: bool)
      ensures found <==> [] in clauses
    {
      var i := 0;
      while i < |clauses|
        invariant 0 <= i <= |clauses|
        invariant forall i' :: 0 <= i' < i ==> clauses[i'] != []
      {
        if |clauses[i]| == 0 {
          return true;
        }
        i := i + 1;
      }
      found := false;
    }
  }

  /** The rendering of each clause, in order. */
  ghost function ClauseRenderings(f: seq<seq<Literal>>): (r: seq<string>)
    ensures |r| == |f|
  {
    seq(|f|, k requires 0 <= k < |f| => RenderClause(f[k]))
  }

  /** "(empty formula)" for no clauses, else the clause renderings separated by " ∧ ". */
  ghost function RenderFormula(f: seq<seq<Literal>>): string
  {
    if f == [] then "(empty formula)" else Join(ClauseRenderings(f), " ∧ ")
  }

  lemma RenderFormulaStep(f: seq<seq<Literal>>, i: nat)
    requires i < |f|
    ensures Join(ClauseRenderings(f[..i + 1]), " ∧ ")
         == Join(ClauseRenderings(f[..i]), " ∧ ") + (if i > 0 then " ∧ " else "") + RenderClause(f[i])
  {
    assert ClauseRenderings(f[..i + 1]) == ClauseRenderings(f[..i]) + [RenderClause(f[i])];
    JoinSnoc(ClauseRenderings(f[..i]), RenderClause(f[i]), " ∧ ");
  }

  /** formulaToString's second pass: each clause's rendering, then a separator unless it is the last. */
  method FormulaToString(f: Formula) returns (s: string)
    ensures s == RenderFormula(f.clauses)
  {
    var cs := f.clauses;
    if |cs| == 0 {
      return "(empty formula)";
    }
    s := "";
    var i := 0;
    while i < |cs|
      invariant 0 <= i <= |cs|
      invariant s == Join(ClauseRenderings(cs[..i]), " ∧ ") + (if 0 < i < |cs| then " ∧ " else "")
    {
      RenderFormulaStep(cs, i);
      var part := ClauseToString(cs[i]);
      s := s + part;
      assert s == Join(ClauseRenderings(cs[..i + 1]), " ∧ ");
      if i < |cs| - 1 {
        s := s + " ∧ ";
      }
      i := i + 1;
    }
    assert cs[..i] == cs;
  }

  /** The characters of the clause renderings, added up. */
  ghost function ClauseChars(f: seq<seq<Literal>>): nat
  {
    if f == [] then 0 else |RenderClause(f[0])| + ClauseChars(f[1..])
  }

  /**
   * formulaToString's first pass: the clause renderings plus three characters
   * per separator; the empty formula is its fixed text.
   */
  ghost function FormulaTextLength(f: seq<seq<Literal>>): nat
  {
    if f == [] then 15 else ClauseChars(f) + 3 * (|f| - 1)
  }

  /**
   * formulaToString's first pass, reached only when the formula has clauses:
   * the length of each clause's text and 3 for each separator. It sizes
   * exactly the text the second pass writes, counted in characters.
   */
  method FormulaFirstPass(f: Formula) returns (total: nat)
    ensures f.clauses != [] ==> total == |RenderFormula(f.clauses)| == FormulaTextLength(f.clauses)
    ensures f.clauses == [] ==> total == 0
  {
    var cs := f.clauses;
    total := 0;
    var i := 0;
    while i < |cs|
      invariant 0 <= i <= |cs|
      invariant total == |Join(ClauseRenderings(cs[..i]), " ∧ ")| + (if 0 < i < |cs| then 3 else 0)
    {
      RenderFormulaStep(cs, i);
      var part := ClauseToString(cs[i]);
      total := total + |part|;
      if i < |cs| - 1 {
        total := total + 3;
      }
      i := i + 1;
    }
    assert cs[..i] == cs;
    RenderFormulaLength(cs);
  }

  /** The size the first pass computes is the number of characters the second pass writes. */
  lemma {:induction false} RenderFormulaLength(f: seq<seq<Literal>>)
    ensures |RenderFormula(f)| == FormulaTextLength(f)
    decreases |f|
  {
    if |f| > 1 {
      assert ClauseRenderings(f)[1..] == ClauseRenderings(f[1..]);
      RenderFormulaLength(f[1..]);
    } else if |f| == 1 {
      assert RenderFormula(f) == RenderClause(f[0]);
      assert ClauseChars(f[1..]) == 0;
    }
  }
}
