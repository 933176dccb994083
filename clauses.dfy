/**
 * Clauses: disjunctions of literals, kept free of duplicates on insert.
 * A clause is an object whose literal list grows in place; the value it holds
 * is the sequence `literals`, in insertion order.
 */
module Clauses {
  import opened Literals
  import opened Text

  predicate NoDuplicates(c: seq<Literal>)
  {
    forall a, b :: 0 <= a < b < |c| ==> c[a] != c[b]
  }

  ghost function Elems(c: seq<Literal>): set<Literal>
  {
    set l | l in c
  }

  /** The literal list after addLiteralToClause: unchanged if an equal literal is there, else one more at the end. */
  ghost function Insert(c: seq<Literal>, l: Literal): (r: seq<Literal>)
    ensures NoDuplicates(c) ==> NoDuplicates(r)
    ensures c <= r && |r| <= |c| + 1
  {
    if l in c then c else c + [l]
  }

  /** Inserting adds `l` to the literal set, whether or not it was there. */
  lemma InsertElems(c: seq<Literal>, l: Literal)
    ensures Elems(Insert(c, l)) == Elems(c) + {l}
  {
  }

  /** Inserting the literals of `s` one after the other, first to last. */
  ghost function InsertAll(c: seq<Literal>, s: seq<Literal>): (r: seq<Literal>)
    ensures NoDuplicates(c) ==> NoDuplicates(r)
    ensures c <= r
    decreases |s|
  {
    if s == [] then c
    else Insert(InsertAll(c, s[..|s| - 1]), s[|s| - 1])
  }

  /** After the insertions the literal set is that of `c` together with that of `s`. */
  lemma {:induction false} InsertAllElems(c: seq<Literal>, s: seq<Literal>)
    ensures Elems(InsertAll(c, s)) == Elems(c) + Elems(s)
    decreases |s|
  {
    if s != [] {
      var init, last := s[..|s| - 1], s[|s| - 1];
      assert s == init + [last];
      assert Elems(s) == Elems(init) + {last};
      InsertAllElems(c, init);
      InsertElems(InsertAll(c, init), last);
    }
  }

  /** Inserting literals that are new and pairwise distinct appends them all, in order. */
  lemma {:induction false} InsertAllDistinct(c: seq<Literal>, s: seq<Literal>)
    requires NoDuplicates(c + s)
    ensures InsertAll(c, s) == c + s
    decreases |s|
  {
    if s != [] {
      var init, last := s[..|s| - 1], s[|s| - 1];
      assert c + s == (c + init) + [last];
      assert NoDuplicates(c + init) by {
        forall a, b | 0 <= a < b < |c + init| ensures (c + init)[a] != (c + init)[b] {
          assert (c + init)[a] == (c + s)[a] && (c + init)[b] == (c + s)[b];
        }
      }
      InsertAllDistinct(c, init);
      assert last !in c + init by {
        forall k | 0 <= k < |c + init| ensures (c + init)[k] != last {
          assert (c + s)[k] == (c + init)[k] && (c + s)[|c + s| - 1] == last;
        }
      }
    }
  }

  /** A duplicate-free literal list has as many distinct literals as positions. */
  lemma {:induction false} DistinctCount(c: seq<Literal>)
    requires NoDuplicates(c)
    ensures |Elems(c)| == |c|
    decreases |c|
  {
    if c != [] {
      var init, last := c[..|c| - 1], c[|c| - 1];
      assert c == init + [last];
      assert Elems(c) == Elems(init) + {last};
      assert last !in Elems(init);
      DistinctCount(init);
    }
  }

  class Clause {
    var literals: seq<Literal>

    ghost predicate Valid()
      reads this
    {
      NoDuplicates(literals)
    }

    /** createClause: a clause with no literals (the capacity hint has no counterpart here). */
    constructor ()
      ensures Valid() && literals == []
    {
      literals := [];
    }

    /**
     * addLiteralToClause: append a copy of `l` unless an equal literal is
     * already present. It reports success in both cases.
     */
    method AddLiteral(l: Literal) returns (ok: bool)
      requires Valid()
      modifies this
      ensures Valid() && ok
      ensures literals == Insert(old(literals), l)
    {
      var i := 0;
      while i < |literals|
        invariant 0 <= i <= |literals|
        invariant forall k :: 0 <= k < i ==> literals[k] != l
      {
        if LiteralsEqual(literals[i], l) {
          return true;
        }
        i := i + 1;
      }
      literals := literals + [l];
      ok := true;
    }

    /** clauseContainsLiteral: a linear scan for an equal literal. */
    method Contains(l: Literal) returns (found: bool)
      ensures found <==> l in literals
    {
      found := false;
      var i := 0;
      while i < |literals|
        invariant 0 <= i <= |literals|
        invariant forall k :: 0 <= k < i ==> literals[k] != l
      {
        if LiteralsEqual(literals[i], l) {
          return true;
        }
        i := i + 1;
      }
    }

    /** copyClause: a fresh clause built by adding the literals one by one. */
    method Copy() returns (c: Clause)
      requires Valid()
      ensures fresh(c) && c.Valid()
      ensures c.literals == literals
    {
      c := new Clause();
      var i := 0;
      while i < |literals|
        invariant 0 <= i <= |literals|
        invariant c.Valid() && c.literals == literals[..i]
      {
        assert literals[i] !in literals[..i];
        var _ := c.AddLiteral(literals[i]);
        assert literals[..i + 1] == literals[..i] + [literals[i]];
        i := i + 1;
      }
      assert literals[..i] == literals;
    }
  }

  /** The delimiters parseClause hands to strtok. */
  const ParseDelims: set<char> := {' ', '\t', '\n'}

  /** The literals of the tokens that parseLiteral accepts, in token order. */
  ghost function ParsedLiterals(tokens: seq<string>): seq<Literal>
    decreases |tokens|
  {
    if tokens == [] then []
    else
      var init := ParsedLiterals(tokens[..|tokens| - 1]);
      match ParseLiteral(tokens[|tokens| - 1])
      case None => init
      case Some(l) => init + [l]
  }

  /** The literal list parseClause builds from one line. */
  ghost function ParsedClause(line: string): seq<Literal>
  {
    InsertAll([], ParsedLiterals(Tokens(line, ParseDelims)))
  }

  /** parseClause: tokenise on space, tab and newline, parse each token, and add the ones that parse. */
  method ParseClause(line: string) returns (c: Clause)
    ensures fresh(c) && c.Valid()
    ensures c.literals == ParsedClause(line)
  {
    c := new Clause();
    var tokens := Tokens(line, ParseDelims);
    var k := 0;
    while k < |tokens|
      invariant 0 <= k <= |tokens|
      invariant c.Valid() && c.literals == InsertAll([], ParsedLiterals(tokens[..k]))
    {
      ParsedClauseStep(tokens, k);
      var lit := ParseLiteral(tokens[k]);
      if lit.Some? {
        var _ := c.AddLiteral(lit.value);
      }
      k := k + 1;
    }
    assert tokens[..k] == tokens;
  }

  /** One more token: the literal it parses to, if any, is inserted into what the earlier tokens built. */
  lemma ParsedClauseStep(tokens: seq<string>, k: nat)
    requires k < |tokens|
    ensures InsertAll([], ParsedLiterals(tokens[..k + 1]))
         == match ParseLiteral(tokens[k])
            case None => InsertAll([], ParsedLiterals(tokens[..k]))
            case Some(l) => Insert(InsertAll([], ParsedLiterals(tokens[..k])), l)
  {
    var done := ParsedLiterals(tokens[..k]);
    assert tokens[..k + 1][..k] == tokens[..k];
    match ParseLiteral(tokens[k])
    case None =>
    case Some(l) =>
      assert ParsedLiterals(tokens[..k + 1]) == done + [l];
      InsertAllSnoc([], done, l);
  }

  lemma InsertAllSnoc(c: seq<Literal>, s: seq<Literal>, l: Literal)
    ensures InsertAll(c, s + [l]) == Insert(InsertAll(c, s), l)
  {
    assert (s + [l])[..|s|] == s;
  }

  /** A literal comes out of the parse exactly when some token parses to it. */
  lemma {:induction false} ParsedLiteralsMembers(tokens: seq<string>, l: Literal)
    ensures l in ParsedLiterals(tokens) <==> exists t :: t in tokens && ParseLiteral(t) == Some(l)
    decreases |tokens|
  {
    if tokens != [] {
      var init, last := tokens[..|tokens| - 1], tokens[|tokens| - 1];
      assert tokens == init + [last];
      ParsedLiteralsMembers(init, l);
      if exists t :: t in tokens && ParseLiteral(t) == Some(l) {
        var t :| t in tokens && ParseLiteral(t) == Some(l);
        if t != last {
          assert t in init;
        }
      }
    }
  }

  /**
   * The parsed clause holds, without repetition, exactly the literals of the
   * tokens that parse; tokens that do not parse are dropped silently.
   */
  lemma ParsedClauseMembers(line: string, l: Literal)
    ensures NoDuplicates(ParsedClause(line))
    ensures l in ParsedClause(line)
        <==> exists t :: t in Tokens(line, ParseDelims) && ParseLiteral(t) == Some(l)
  {
    var ts := Tokens(line, ParseDelims);
    ParsedLiteralsMembers(ts, l);
    InsertAllElems([], ParsedLiterals(ts));
    assert l in ParsedClause(line) <==> l in Elems(ParsedLiterals(ts));
  }

  /** A blank line, or a line whose only tokens are "!", parses to the empty clause. */
  lemma BlankOrBangLineIsEmpty(line: string)
    requires forall t :: t in Tokens(line, ParseDelims) ==> t == "!"
    ensures ParsedClause(line) == []
  {
    var ts := Tokens(line, ParseDelims);
    if ParsedClause(line) != [] {
      var l := ParsedClause(line)[0];
      ParsedClauseMembers(line, l);
    }
  }

  /** The rendering of each literal, in order. */
  function Renderings(c: seq<Literal>): (r: seq<string>)
    ensures |r| == |c|
  {
    seq(|c|, k requires 0 <= k < |c| => LiteralToString(c[k]))
  }

  /** "[]" for the empty clause, else the literals between parentheses, separated by " ∨ ". */
  ghost function RenderClause(c: seq<Literal>): string
  {
    if c == [] then "[]" else "(" + Join(Renderings(c), " ∨ ") + ")"
  }

  /** clauseToString's second pass: write each literal, then a separator unless it is the last. */
  method ClauseToString(c: seq<Literal>) returns (s: string)
    ensures s == RenderClause(c)
  {
    if |c| == 0 {
      return "[]";
    }
    var body := "";
    var i := 0;
    while i < |c|
      invariant 0 <= i <= |c|
      invariant body == Join(Renderings(c[..i]), " ∨ ") + (if 0 < i < |c| then " ∨ " else "")
    {
      RenderStep(c, i, " ∨ ");
      body := body + LiteralToString(c[i]);
      assert body == Join(Renderings(c[..i + 1]), " ∨ ");
      if i < |c| - 1 {
        body := body + " ∨ ";
      }
      i := i + 1;
    }
    assert c[..i] == c;
    s := "(" + body + ")";
  }

  lemma RenderStep(c: seq<Literal>, i: nat, sep: string)
    requires i < |c|
    ensures Join(Renderings(c[..i + 1]), sep)
         == Join(Renderings(c[..i]), sep) + (if i > 0 then sep else "") + LiteralToString(c[i])
  {
    assert Renderings(c[..i + 1]) == Renderings(c[..i]) + [LiteralToString(c[i])];
    JoinSnoc(Renderings(c[..i]), LiteralToString(c[i]), sep);
  }

  /** The characters of the literal renderings, added up. */
  function LiteralChars(c: seq<Literal>): nat
  {
    if c == [] then 0 else |LiteralToString(c[0])| + LiteralChars(c[1..])
  }

  /**
   * clauseToString's first pass: two parentheses, the literals, and three
   * characters per separator; the empty clause is "[]".
   */
  function ClauseTextLength(c: seq<Literal>): nat
  {
    if c == [] then 2 else 2 + LiteralChars(c) + 3 * (|c| - 1)
  }

  /**
   * clauseToString's first pass: 2 for the parentheses, then the length of each
   * literal's rendering and 3 for each separator. It sizes exactly the text the
   * second pass writes, counted in characters; for the empty clause, whose
   * text "[]" is returned before this pass, the count 2 is its length too.
   */
  method ClauseFirstPass(c: seq<Literal>) returns (total: nat)
    ensures total == |RenderClause(c)|
    ensures total == ClauseTextLength(c)
  {
    total := 2;
    var i := 0;
    while i < |c|
      invariant 0 <= i <= |c|
      invariant total == 2 + |Join(Renderings(c[..i]), " ∨ ")| + (if 0 < i < |c| then 3 else 0)
    {
      RenderStep(c, i, " ∨ ");
      total := total + |LiteralToString(c[i])|;
      if i < |c| - 1 {
        total := total + 3;
      }
      i := i + 1;
    }
    assert c[..i] == c;
    RenderClauseLength(c);
  }

  /** The size the first pass computes is the number of characters the second pass writes. */
  lemma {:induction false} RenderClauseLength(c: seq<Literal>)
    ensures |RenderClause(c)| == ClauseTextLength(c)
  {
    if c != [] {
      JoinLength(c);
    }
  }

  lemma {:induction false} JoinLength(c: seq<Literal>)
    requires c != []
    ensures |Join(Renderings(c), " ∨ ")| == LiteralChars(c) + 3 * (|c| - 1)
    decreases |c|
  {
    if |c| > 1 {
      assert Renderings(c)[1..] == Renderings(c[1..]);
      JoinLength(c[1..]);
    }
  }
}
