/**
 * What a CNF formula means: a clause holds under an assignment when one of its
 * literals does, and a formula holds when all of its clauses do. The solver
 * itself never evaluates formulas; these definitions state what its answers mean.
 */
module Semantics {
  import opened Literals
  import opened Clauses

  /** A truth value for every proposition name. */
  type Assignment = string -> bool

  ghost predicate SatLiteral(a: Assignment, l: Literal)
  {
    a(l.name) != l.negated
  }

  ghost predicate SatClause(a: Assignment, c: seq<Literal>)
  {
    exists l :: l in c && SatLiteral(a, l)
  }

  ghost predicate SatFormula(a: Assignment, f: seq<seq<Literal>>)
  {
    forall k :: 0 <= k < |f| ==> SatClause(a, f[k])
  }

  ghost predicate Satisfiable(f: seq<seq<Literal>>)
  {
    exists a :: SatFormula(a, f)
  }

  /** Exactly one of two complementary literals holds. */
  lemma ComplementaryDisagree(a: Assignment, l1: Literal, l2: Literal)
    requires Complementary(l1, l2)
    ensures SatLiteral(a, l1) != SatLiteral(a, l2)
  {
  }

  /** The empty clause, and only it, holds under no assignment: it is the refutation target. */
  lemma EmptyClauseIsContradiction(c: seq<Literal>)
    ensures c == [] <==> forall a: Assignment :: !SatClause(a, c)
  {
    if c != [] {
      var a: Assignment := x => !c[0].negated;
      assert SatLiteral(a, c[0]);
      assert SatClause(a, c);
    }
  }

  /** A formula that holds an empty clause is unsatisfiable. */
  lemma EmptyClauseRefutes(f: seq<seq<Literal>>)
    requires [] in f
    ensures !Satisfiable(f)
  {
    var k :| 0 <= k < |f| && f[k] == [];
    forall a: Assignment ensures !SatFormula(a, f) {
      assert !SatClause(a, f[k]);
    }
  }

  /** A clause holding two complementary literals holds under every assignment, so it can be discarded. */
  lemma ComplementaryPairIsValid(c: seq<Literal>, x: nat, y: nat, a: Assignment)
    requires x < |c| && y < |c| && Complementary(c[x], c[y])
    ensures SatClause(a, c)
  {
    if SatLiteral(a, c[x]) {
      assert c[x] in c;
    } else {
      assert c[y] in c;
    }
  }
}
