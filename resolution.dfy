/**
 * One resolution step: find the first complementary literal pair of two clauses
 * in row-major order, build the resolvent, discard it if it is a tautology, and
 * otherwise add it to the formula.
 */
module Resolution {
  import opened Literals
  import opened Clauses
  import opened Formulas
  import opened Semantics

  /** Position (i', j') comes before (i, j) in row-major order. */
  predicate Before(i': int, j': int, i: int, j: int)
  {
    i' < i || (i' == i && j' < j)
  }

  /** c1[i] and c2[j] are complementary, and no earlier pair in row-major order is. */
  ghost predicate IsFirstPair(c1: seq<Literal>, c2: seq<Literal>, i: int, j: int)
  {
    && 0 <= i < |c1| && 0 <= j < |c2| && Complementary(c1[i], c2[j])
    && forall i', j' :: 0 <= i' < |c1| && 0 <= j' < |c2| && Before(i', j', i, j)
         ==> !Complementary(c1[i'], c2[j'])
  }

  ghost predicate Resolvable(c1: seq<Literal>, c2: seq<Literal>)
  {
    exists i, j :: 0 <= i < |c1| && 0 <= j < |c2| && Complementary(c1[i], c2[j])
  }

  /** The row-major search, resumed at position (i, j). */
  ghost function SearchFrom(c1: seq<Literal>, c2: seq<Literal>, i: nat, j: nat): (r: Option<(nat, nat)>)
    requires i <= |c1| && j <= |c2|
    ensures r.Some? ==>
      && r.value.0 < |c1| && r.value.1 < |c2|
      && Complementary(c1[r.value.0], c2[r.value.1])
      && !Before(r.value.0, r.value.1, i, j)
      && forall i', j' ::
           (0 <= i' < |c1| && 0 <= j' < |c2| && !Before(i', j', i, j) && Before(i', j', r.value.0, r.value.1))
           ==> !Complementary(c1[i'], c2[j'])
    ensures r.None? ==>
      forall i', j' :: 0 <= i' < |c1| && 0 <= j' < |c2| && !Before(i', j', i, j)
        ==> !Complementary(c1[i'], c2[j'])
    decreases |c1| - i, |c2| - j
  {
    if i == |c1| then None
    else if j == |c2| then SearchFrom(c1, c2, i + 1, 0)
    else if Complementary(c1[i], c2[j]) then Some((i, j))
    else SearchFrom(c1, c2, i, j + 1)
  }

  /** The pair findResolvableLiterals settles on, if any: the first in row-major order. */
  ghost function FirstPair(c1: seq<Literal>, c2: seq<Literal>): (r: Option<(nat, nat)>)
    ensures r.Some? <==> Resolvable(c1, c2)
    ensures r.Some? ==> IsFirstPair(c1, c2, r.value.0, r.value.1)
  {
    SearchFrom(c1, c2, 0, 0)
  }

  /** findResolvableLiterals: the nested scan, outer loop over c1 and inner loop over c2. */
  method FindResolvableLiterals(c1: seq<Literal>, c2: seq<Literal>) returns (found: bool, i: nat, j: nat)
    ensures found <==> FirstPair(c1, c2).Some?
    ensures found ==> FirstPair(c1, c2) == Some((i, j))
  {
    i := 0;
    while i < |c1|
      invariant 0 <= i <= |c1|
      invariant FirstPair(c1, c2) == SearchFrom(c1, c2, i, 0)
    {
      j := 0;
      while j < |c2|
        invariant 0 <= j <= |c2|
        invariant FirstPair(c1, c2) == SearchFrom(c1, c2, i, j)
      {
        if Complementary(c1[i], c2[j]) {
          return true, i, j;
        }
        j := j + 1;
      }
      i := i + 1;
    }
    return false, 0, 0;
  }

  /** The literals of `s` at positions below `n`, except position `skip`. */
  ghost function Others(s: seq<Literal>, skip: nat, n: nat): set<Literal>
    requires n <= |s|
  {
    set k | 0 <= k < n && k != skip :: s[k]
  }

  /** Inserting s[0], ..., s[n-1] into `r` one after the other, passing over position `skip`. */
  ghost function InsertExcept(r: seq<Literal>, s: seq<Literal>, skip: nat, n: nat): (out: seq<Literal>)
    requires n <= |s|
    ensures NoDuplicates(r) ==> NoDuplicates(out)
    decreases n
  {
    if n == 0 then r
    else
      var p := InsertExcept(r, s, skip, n - 1);
      if n - 1 == skip then p else Insert(p, s[n - 1])
  }

  /** What the insertions leave: the literals of `r` and those of `s` below `n` except at `skip`. */
  lemma {:induction false} InsertExceptMembers(r: seq<Literal>, s: seq<Literal>, skip: nat, n: nat, l: Literal)
    requires n <= |s|
    ensures l in InsertExcept(r, s, skip, n) <==> l in r || l in Others(s, skip, n)
    decreases n
  {
    if n > 0 {
      InsertExceptMembers(r, s, skip, n - 1, l);
      OthersStep(s, skip, n - 1);
    }
  }

  lemma OthersStep(s: seq<Literal>, skip: nat, n: nat)
    requires n < |s|
    ensures Others(s, skip, n + 1) == Others(s, skip, n) + (if n == skip then {} else {s[n]})
  {
    var lhs, rhs := Others(s, skip, n + 1), Others(s, skip, n) + (if n == skip then {} else {s[n]});
    forall l | l in lhs ensures l in rhs {
      var k :| 0 <= k < n + 1 && k != skip && s[k] == l;
      if k < n {
        assert l in Others(s, skip, n);
      }
    }
    forall l | l in rhs ensures l in lhs {
      if l in Others(s, skip, n) {
        var k :| 0 <= k < n && k != skip && s[k] == l;
      }
    }
  }

  /** One more position: `next` is `prev` after position n is skipped or inserted. */
  lemma InsertExceptStep(r: seq<Literal>, s: seq<Literal>, skip: nat, n: nat, prev: seq<Literal>, next: seq<Literal>)
    requires n < |s| && prev == InsertExcept(r, s, skip, n)
    requires next == if n == skip then prev else Insert(prev, s[n])
    ensures next == InsertExcept(r, s, skip, n + 1)
  {
  }

  /** The resolvent on (i, j): c1 without position i, then c2 without position j, duplicates collapsed. */
  ghost function Resolvent(c1: seq<Literal>, c2: seq<Literal>, i: nat, j: nat): (r: seq<Literal>)
    ensures NoDuplicates(r)
    ensures Elems(r) == Others(c1, i, |c1|) + Others(c2, j, |c2|)
  {
    var r := InsertExcept(InsertExcept([], c1, i, |c1|), c2, j, |c2|);
    assert Elems(r) == Others(c1, i, |c1|) + Others(c2, j, |c2|) by {
      forall l ensures l in r <==> l in Others(c1, i, |c1|) + Others(c2, j, |c2|) {
        InsertExceptMembers([], c1, i, |c1|, l);
        InsertExceptMembers(InsertExcept([], c1, i, |c1|), c2, j, |c2|, l);
      }
    }
    r
  }

  /** Some two literals of the clause are complementary: the clause is a tautology. */
  ghost predicate HasComplementaryPair(c: seq<Literal>)
  {
    exists a, b :: 0 <= a < b < |c| && Complementary(c[a], c[b])
  }

  /** The report and the clause list after applyResolution. */
  ghost function ResolveStep(f: seq<seq<Literal>>, c1: seq<Literal>, c2: seq<Literal>): (bool, seq<seq<Literal>>)
  {
    match FirstPair(c1, c2)
    case None => (false, f)
    case Some(p) =>
      var r := Resolvent(c1, c2, p.0, p.1);
      if HasComplementaryPair(r) then (false, f) else (true, AddClauseValue(f, r))
  }

  /**
   * One of the two copying loops of applyResolution: every literal of `s` but
   * the one at `skip`, in order, through addLiteralToClause.
   */
  method AddLiteralsExcept(resolvent: Clause, s: seq<Literal>, skip: nat)
    requires resolvent.Valid()
    modifies resolvent
    ensures resolvent.Valid()
    ensures resolvent.literals == InsertExcept(old(resolvent.literals), s, skip, |s|)
  {
    ghost var base := resolvent.literals;
    var k := 0;
    while k < |s|
      invariant 0 <= k <= |s|
      invariant resolvent.Valid() && resolvent.literals == InsertExcept(base, s, skip, k)
    {
      ghost var prev := resolvent.literals;
      if k != skip {
        var _ := resolvent.AddLiteral(s[k]);
      }
      InsertExceptStep(base, s, skip, k, prev, resolvent.literals);
      k := k + 1;
    }
  }

  /**
   * The resolvent-building part of applyResolution: a fresh clause, then the
   * literals of c1 except position i, then those of c2 except position j.
   */
  method BuildResolvent(c1: seq<Literal>, c2: seq<Literal>, i: nat, j: nat) returns (resolvent: Clause)
    ensures fresh(resolvent) && resolvent.Valid()
    ensures resolvent.literals == Resolvent(c1, c2, i, j)
  {
    resolvent := new Clause();
    AddLiteralsExcept(resolvent, c1, i);
    AddLiteralsExcept(resolvent, c2, j);
  }

  /** The tautology test of applyResolution: a scan of all position pairs a < b. */
  method IsTautology(c: seq<Literal>) returns (taut: bool)
    ensures taut <==> HasComplementaryPair(c)
  {
    var a := 0;
    while a < |c|
      invariant 0 <= a <= |c|
      invariant forall a', b' :: 0 <= a' < a && a' < b' < |c| ==> !Complementary(c[a'], c[b'])
    {
      var b := a + 1;
      while b < |c|
        invariant a + 1 <= b <= |c|
        invariant forall b' :: a < b' < b ==> !Complementary(c[a], c[b'])
      {
        if Complementary(c[a], c[b]) {
          return true;
        }
        b := b + 1;
      }
      a := a + 1;
    }
    return false;
  }

  /**
   * applyResolution: resolve on the first complementary pair; drop a
   * tautological resolvent, else add it to the formula and report what the
   * add reports.
   */
  method ApplyResolution(f: Formula, c1: seq<Literal>, c2: seq<Literal>) returns (added: bool)
    requires f.Valid()
    modifies f
    ensures f.Valid()
    ensures (added, f.clauses) == ResolveStep(old(f.clauses), c1, c2)
  {
    var found, i, j := FindResolvableLiterals(c1, c2);
    if !found {
      return false;
    }
    var resolvent := BuildResolvent(c1, c2, i, j);
    var taut := IsTautology(resolvent.literals);
    if taut {
      return false;
    }
    added := f.AddClause(resolvent);
  }

  /**
   * The shape of one step on a well-formed formula: the clauses already there
   * stay where they are, at most one clause is appended, and an appended clause
   * is the resolvent of the first complementary pair, duplicate-free, not a
   * tautology, and made of literals of the two parents. A step that reports
   * false changes nothing.
   */
  lemma ResolveStepShape(f: seq<seq<Literal>>, c1: seq<Literal>, c2: seq<Literal>)
    requires WellFormed(f)
    ensures var (added, g) := ResolveStep(f, c1, c2);
      && WellFormed(g) && f <= g && |g| <= |f| + 1
      && (!added ==> g == f)
      && (|g| == |f| + 1 ==>
            && added && FirstPair(c1, c2).Some?
            && g[|f|] == Resolvent(c1, c2, FirstPair(c1, c2).value.0, FirstPair(c1, c2).value.1)
            && !HasComplementaryPair(g[|f|])
            && Elems(g[|f|]) <= Elems(c1) + Elems(c2))
  {
    match FirstPair(c1, c2)
    case None =>
    case Some(p) =>
      var r := Resolvent(c1, c2, p.0, p.1);
      AddClauseKeepsWellFormed(f, r);
  }

  /**
   * A resolvent that is already in the formula, up to the order of its
   * literals, is not added again, yet the step still reports true, because
   * addClauseToFormula reports true for a duplicate.
   */
  lemma DuplicateResolventReportsTrue(f: seq<seq<Literal>>, c1: seq<Literal>, c2: seq<Literal>)
    requires FirstPair(c1, c2).Some?
    requires var p := FirstPair(c1, c2).value;
      !HasComplementaryPair(Resolvent(c1, c2, p.0, p.1)) && HasEquivalent(f, Resolvent(c1, c2, p.0, p.1))
    ensures ResolveStep(f, c1, c2) == (true, f)
  {
  }

  /** A clause pair whose step has been taken contributes nothing more, however the formula has grown since. */
  lemma ResolveStepSettles(f: seq<seq<Literal>>, c1: seq<Literal>, c2: seq<Literal>, h: seq<seq<Literal>>)
    requires WellFormed(f) && ResolveStep(f, c1, c2).1 <= h
    ensures ResolveStep(h, c1, c2).1 == h
  {
    match FirstPair(c1, c2)
    case None =>
    case Some(p) =>
      var r := Resolvent(c1, c2, p.0, p.1);
      if !HasComplementaryPair(r) {
        AddClauseKeepsWellFormed(f, r);
        HasEquivalentGrows(AddClauseValue(f, r), h, r);
      }
  }

  /** Resolution is sound: whatever satisfies both parents satisfies their resolvent on a complementary pair. */
  lemma ResolventSound(c1: seq<Literal>, c2: seq<Literal>, i: nat, j: nat, a: Assignment)
    requires i < |c1| && j < |c2| && Complementary(c1[i], c2[j])
    requires SatClause(a, c1) && SatClause(a, c2)
    ensures SatClause(a, Resolvent(c1, c2, i, j))
  {
    var r := Resolvent(c1, c2, i, j);
    ComplementaryDisagree(a, c1[i], c2[j]);
    if SatLiteral(a, c1[i]) {
      var l :| l in c2 && SatLiteral(a, l);
      var m :| 0 <= m < |c2| && c2[m] == l;
      assert m != j;
      assert l in Others(c2, j, |c2|);
      assert l in Elems(r);
    } else {
      var l :| l in c1 && SatLiteral(a, l);
      var m :| 0 <= m < |c1| && c1[m] == l;
      assert m != i;
      assert l in Others(c1, i, |c1|);
      assert l in Elems(r);
    }
  }

  /** A step keeps every assignment that satisfies the formula and both parents. */
  lemma ResolveStepSound(f: seq<seq<Literal>>, c1: seq<Literal>, c2: seq<Literal>, a: Assignment)
    requires SatFormula(a, f) && SatClause(a, c1) && SatClause(a, c2)
    ensures SatFormula(a, ResolveStep(f, c1, c2).1)
  {
    match FirstPair(c1, c2)
    case None =>
    case Some(p) =>
      ResolventSound(c1, c2, p.0, p.1, a);
  }
}
