/**
 * Literals of the resolution solver: a proposition name with a negation flag.
 * Literals are values; the solver copies them into the clauses that hold them.
 */
module Literals {

  datatype Option<T> = None | Some(value: T)

  datatype Literal = Literal(name: string, negated: bool)

  /** Structural equality: the same name and the same polarity. */
  function LiteralsEqual(a: Literal, b: Literal): (r: bool)
    ensures r <==> a == b
  {
    a.name == b.name && a.negated == b.negated
  }

  /** The literal of the same proposition with the opposite polarity. */
  function Negate(l: Literal): Literal
  {
    Literal(l.name, !l.negated)
  }

  /** Same name, opposite polarity. */
  function Complementary(a: Literal, b: Literal): (r: bool)
    ensures r <==> b == Negate(a)
    ensures r ==> !LiteralsEqual(a, b)
  {
    a.name == b.name && a.negated != b.negated
  }

  lemma ComplementarySymmetric(a: Literal, b: Literal)
    ensures Complementary(a, b) == Complementary(b, a)
  {
  }

  lemma NegateInvolution(l: Literal)
    ensures Negate(Negate(l)) == l
    ensures Complementary(l, Negate(l))
  {
  }

  /**
   * One token to one literal: a single leading '!' is stripped and sets the
   * negation flag; everything after it is the name, so "!!P" is the negation
   * of the proposition named "!P". The empty token and "!" alone are refused.
   */
  function ParseLiteral(token: string): (r: Option<Literal>)
    ensures r.None? <==> token == "" || token == "!"
    ensures r.Some? ==> r.value.name != "" && (r.value.negated <==> token[0] == '!')
    ensures r.Some? ==> LiteralToString(r.value) == token
  {
    if token == [] then None
    else if token[0] == '!' then
      if |token| == 1 then None else Some(Literal(token[1..], true))
    else Some(Literal(token, false))
  }

  /** "!name" for a negated literal, "name" otherwise. */
  function LiteralToString(l: Literal): (s: string)
    ensures |s| == |l.name| + (if l.negated then 1 else 0)
    ensures l.negated ==> s[0] == '!' && s[1..] == l.name
    ensures !l.negated ==> s == l.name
  {
    if l.negated then "!" + l.name else l.name
  }

  /**
   * Parsing inverts rendering exactly for the literals that rendering does not
   * make ambiguous: a non-empty name, and no leading '!' on a positive literal
   * (the positive literal named "!P" renders as "!P", which parses as a negation).
   */
  lemma ParseRenderRoundTrip(l: Literal)
    ensures ParseLiteral(LiteralToString(l)) == Some(l)
        <==> l.name != "" && (l.negated || l.name[0] != '!')
  {
    var s := LiteralToString(l);
    if l.name != "" && !l.negated && l.name[0] == '!' {
      assert s == l.name && s[0] == '!';
    }
  }
}
