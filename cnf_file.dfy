/**
 * The formula file format: one clause per line, literals separated by
 * whitespace, blank lines and lines starting with '#' passed over. A file is
 * modelled as the sequence of lines fgets returns, each with its newline if it
 * had one.
 */
module CnfFile {
  import opened Literals
  import opened Text
  import opened Clauses
  import opened Formulas

  /** The line without the newline fgets keeps at its end, if there is one. */
  function StripNewline(line: string): string
  {
    if |line| > 0 && line[|line| - 1] == '\n' then line[..|line| - 1] else line
  }

  /** Either the line ended in a newline and the text is the rest, or the line is kept whole. */
  lemma StripNewlineSplits(line: string)
    ensures var text := StripNewline(line);
      || (line == text + "\n")
      || (text == line && (line == [] || line[|line| - 1] != '\n'))
  {
    if |line| > 0 && line[|line| - 1] == '\n' {
      assert line == line[..|line| - 1] + "\n";
    }
  }

  /** A line parseFormulaFromFile passes over: empty once the newline is gone, or a comment. */
  predicate IsSkipped(text: string)
  {
    text == [] || text[0] == '#'
  }

  /** The lines passed over are exactly the empty line, the lone newline, and the lines starting with '#'. */
  lemma SkippedLines(line: string)
    ensures IsSkipped(StripNewline(line)) <==> line == "" || line == "\n" || line[0] == '#'
  {
    if line != [] && line[0] == '#' && |line| > 1 && line[|line| - 1] == '\n' {
      assert StripNewline(line)[0] == line[0];
    }
  }

  /** The clause list parseFormulaFromFile builds from the lines of a file. */
  ghost function ParseLines(lines: seq<string>): seq<seq<Literal>>
    decreases |lines|
  {
    if lines == [] then []
    else
      var f := ParseLines(lines[..|lines| - 1]);
      var text := StripNewline(lines[|lines| - 1]);
      if IsSkipped(text) then f else AddClauseValue(f, ParsedClause(text))
  }

  lemma ParseLinesSnoc(lines: seq<string>, line: string)
    ensures ParseLines(lines + [line])
         == var text := StripNewline(line);
            if IsSkipped(text) then ParseLines(lines) else AddClauseValue(ParseLines(lines), ParsedClause(text))
  {
    assert (lines + [line])[..|lines|] == lines;
  }

  /** The parse of the first k + 1 lines, from the parse of the first k. */
  lemma ParseLinesStep(lines: seq<string>, k: nat)
    requires k < |lines|
    ensures ParseLines(lines[..k + 1])
         == var text := StripNewline(lines[k]);
            if IsSkipped(text) then ParseLines(lines[..k]) else AddClauseValue(ParseLines(lines[..k]), ParsedClause(text))
  {
    assert lines[..k + 1] == lines[..k] + [lines[k]];
    ParseLinesSnoc(lines[..k], lines[k]);
  }

  /**
   * What a file parses to is a well-formed formula, and a skipped line (blank,
   * or a comment) leaves the parse as it was.
   */
  lemma {:induction false} ParseLinesWellFormed(lines: seq<string>)
    ensures WellFormed(ParseLines(lines))
    decreases |lines|
  {
    if lines != [] {
      var init, last := lines[..|lines| - 1], lines[|lines| - 1];
      assert lines == init + [last];
      ParseLinesWellFormed(init);
      ParseLinesSnoc(init, last);
      var text := StripNewline(last);
      if !IsSkipped(text) {
        ParsedClauseMembers(text, Literal("", false));
        AddClauseKeepsWellFormed(ParseLines(init), ParsedClause(text));
      }
    }
  }

  /**
   * parseFormulaFromFile, file opened: for each line, drop its newline, pass
   * over it if it is then empty or starts with '#', and otherwise parse it as a
   * clause and add that to the formula.
   */
  method ParseFormulaLines(lines: seq<string>) returns (f: Formula)
    ensures fresh(f) && f.Valid()
    ensures f.clauses == ParseLines(lines)
  {
    f := new Formula();
    var k := 0;
    while k < |lines|
      invariant 0 <= k <= |lines|
      invariant fresh(f) && f.Valid() && f.clauses == ParseLines(lines[..k])
    {
      ParseLinesStep(lines, k);
      var text := StripNewline(lines[k]);
      if !IsSkipped(text) {
        var c := ParseClause(text);
        var _ := f.AddClause(c);
      }
      k := k + 1;
    }
    assert lines[..k] == lines;
  }

  /** The line writeFormulaToFile emits for a clause: the literals separated by single spaces, then a newline. */
  function ClauseLine(c: seq<Literal>): string
  {
    Join(Renderings(c), " ") + "\n"
  }

  /** The lines of the file writeFormulaToFile writes, one per clause, in order. */
  ghost function WrittenLines(f: seq<seq<Literal>>): (lines: seq<string>)
    ensures |lines| == |f|
  {
    seq(|f|, k requires 0 <= k < |f| => ClauseLine(f[k]))
  }

  /**
   * The inner loop of writeFormulaToFile: each literal as "!" (if negated) and
   * its name, a space after every literal but the last, then a newline.
   */
  method WriteClauseLine(c: seq<Literal>) returns (line: string)
    ensures line == ClauseLine(c)
  {
    line := "";
    var j := 0;
    while j < |c|
      invariant 0 <= j <= |c|
      invariant line == Join(Renderings(c[..j]), " ") + (if 0 < j < |c| then " " else "")
    {
      RenderStep(c, j, " ");
      ghost var prev := line;
      if c[j].negated {
        line := line + "!";
      }
      line := line + c[j].name;
      assert line == prev + LiteralToString(c[j]);
      if j < |c| - 1 {
        line := line + " ";
      }
      j := j + 1;
    }
    assert c[..j] == c;
    line := line + "\n";
  }

  /**
   * writeFormulaToFile, file opened: one line per clause, in order. An empty
   * clause gives a line holding only the newline.
   */
  method WriteFormulaLines(f: Formula) returns (lines: seq<string>)
    ensures lines == WrittenLines(f.clauses)
  {
    var cs := f.clauses;
    lines := [];
    var i := 0;
    while i < |cs|
      invariant 0 <= i <= |cs|
      invariant lines == WrittenLines(cs[..i])
    {
      var line := WriteClauseLine(cs[i]);
      lines := lines + [line];
      assert WrittenLines(cs[..i + 1]) == WrittenLines(cs[..i]) + [ClauseLine(cs[i])];
      i := i + 1;
    }
    assert cs[..i] == cs;
  }

  /**
   * A literal that survives a write and a read: its name is non-empty, holds
   * no space, tab or newline, and a positive literal's name does not start
   * with '!'.
   */
  predicate Writable(l: Literal)
  {
    && l.name != []
    && (forall k :: 0 <= k < |l.name| ==> l.name[k] !in ParseDelims)
    && (l.negated || l.name[0] != '!')
  }

  /** A clause whose written line reads back: writable literals, and a line that does not start with '#'. */
  predicate WritableClause(c: seq<Literal>)
  {
    && (forall k :: 0 <= k < |c| ==> Writable(c[k]))
    && (c != [] ==> LiteralToString(c[0])[0] != '#')
  }

  /** The clauses that are not empty, in order. */
  ghost function NonEmpty(f: seq<seq<Literal>>): (r: seq<seq<Literal>>)
    ensures forall x :: x in r ==> x in f && x != []
    decreases |f|
  {
    if f == [] then []
    else
      var init := NonEmpty(f[..|f| - 1]);
      if f[|f| - 1] == [] then init else init + [f[|f| - 1]]
  }

  lemma {:induction false} ParsedLiteralsOfRenderings(c: seq<Literal>)
    requires forall k :: 0 <= k < |c| ==> Writable(c[k])
    ensures ParsedLiterals(Renderings(c)) == c
    decreases |c|
  {
    if c != [] {
      var init := c[..|c| - 1];
      assert Renderings(c)[..|c| - 1] == Renderings(init);
      ParsedLiteralsOfRenderings(init);
      ParseRenderRoundTrip(c[|c| - 1]);
      assert c == init + [c[|c| - 1]];
    }
  }

  /** Each literal of a writable clause renders as a token between the parser's delimiters. */
  lemma RenderingsAreTokens(c: seq<Literal>)
    requires forall k :: 0 <= k < |c| ==> Writable(c[k])
    ensures forall k :: 0 <= k < |c| ==> IsToken(Renderings(c)[k], ParseDelims)
  {
    forall k | 0 <= k < |c| ensures IsToken(Renderings(c)[k], ParseDelims) {
      var s := LiteralToString(c[k]);
      forall m | 0 <= m < |s| ensures s[m] !in ParseDelims {
        if c[k].negated && m > 0 {
          assert s[m] == c[k].name[m - 1];
        }
      }
    }
  }

  /** The text of a written line reads back as the clause it was written from. */
  lemma ClauseLineRoundTrip(c: seq<Literal>)
    requires NoDuplicates(c) && WritableClause(c)
    ensures StripNewline(ClauseLine(c)) == Join(Renderings(c), " ")
    ensures IsSkipped(StripNewline(ClauseLine(c))) <==> c == []
    ensures ParsedClause(StripNewline(ClauseLine(c))) == c
  {
    StripAppended(Join(Renderings(c), " "));
    RenderingsAreTokens(c);
    TokensOfJoin(Renderings(c), " ", ParseDelims);
    ParsedLiteralsOfRenderings(c);
    assert [] + c == c;
    InsertAllDistinct([], c);
    if c != [] {
      JoinFirst(Renderings(c), " ");
    }
  }

  lemma StripAppended(t: string)
    ensures StripNewline(t + "\n") == t
  {
    assert (t + "\n")[..|t|] == t;
  }

  /** A join whose first part is non-empty starts with that part's first character. */
  lemma JoinFirst(parts: seq<string>, sep: string)
    requires parts != [] && parts[0] != []
    ensures Join(parts, sep) != [] && Join(parts, sep)[0] == parts[0][0]
  {
  }

  /**
   * Writing a well-formed formula of writable clauses and reading the file
   * back gives the formula again, less its empty clauses: an empty clause is
   * written as a blank line, which the reader passes over.
   */
  lemma {:induction false} WriteParseRoundTrip(f: seq<seq<Literal>>)
    requires WellFormed(f) && forall k :: 0 <= k < |f| ==> WritableClause(f[k])
    ensures ParseLines(WrittenLines(f)) == NonEmpty(f)
    decreases |f|
  {
    if f != [] {
      var init, c := f[..|f| - 1], f[|f| - 1];
      assert WrittenLines(f) == WrittenLines(init) + [ClauseLine(c)];
      assert WellFormed(init);
      WriteParseRoundTrip(init);
      ParseLinesSnoc(WrittenLines(init), ClauseLine(c));
      ClauseLineRoundTrip(c);
      if c != [] {
        var g := NonEmpty(init);
        forall x | x in g ensures !SameClause(x, c) {
          var m :| 0 <= m < |init| && init[m] == x;
          assert f[m] == x;
          SameClauseIsSetEquality(x, c);
        }
        assert !HasEquivalent(g, c);
      }
    }
  }

  /** A file of one line: the clause of that line, unless the line is passed over. */
  lemma SingleLine(line: string)
    ensures ParseLines([line])
         == var text := StripNewline(line);
            if IsSkipped(text) then [] else [ParsedClause(text)]
  {
    ParseLinesSnoc([], line);
    assert [] + [line] == [line];
  }

  /**
   * Clauses that do not survive a read, a write and a second read: the empty
   * clause, and a clause whose first literal's name starts with '#'. Either
   * is read from a line that starts with a space; writeFormulaToFile then
   * writes a blank line or a line starting with '#', which the second read
   * passes over.
   */
  lemma ReadWriteReadLoses(c: seq<Literal>)
    requires NoDuplicates(c) && forall k :: 0 <= k < |c| ==> Writable(c[k])
    requires c == [] || (!c[0].negated && "#" <= c[0].name)
    ensures ParseLines([PaddedLine(c)]) == [c]
    ensures ParseLines(WrittenLines(ParseLines([PaddedLine(c)]))) == []
  {
    SingleLine(PaddedLine(c));
    PaddedLineRoundTrip(c);
    assert WrittenLines([c]) == [ClauseLine(c)];
    SingleLine(ClauseLine(c));
    StripAppended(Join(Renderings(c), " "));
    if c != [] {
      JoinFirst(Renderings(c), " ");
    }
  }

  /** The file " #A B" reads as the clause #A ∨ B, which is lost once written and read again. */
  lemma HashNameLost()
    ensures ParseLines([" #A B\n"]) == [[Literal("#A", false), Literal("B", false)]]
    ensures ParseLines(WrittenLines(ParseLines([" #A B\n"]))) == []
  {
    var c := [Literal("#A", false), Literal("B", false)];
    assert PaddedLine(c) == " #A B\n" by {
      assert Renderings(c) == ["#A", "B"];
      assert Renderings(c)[1..] == ["B"];
    }
    ReadWriteReadLoses(c);
  }

  /**
   * The line of a writer that puts a space before the first literal: a clause
   * line is then never blank and never starts with '#', and the empty clause
   * is written as a lone space.
   */
  function PaddedLine(c: seq<Literal>): string
  {
    " " + Join(Renderings(c), " ") + "\n"
  }

  /** The lines of the padded writer, one per clause, in order. */
  ghost function PaddedLines(f: seq<seq<Literal>>): (lines: seq<string>)
    ensures |lines| == |f|
  {
    seq(|f|, k requires 0 <= k < |f| => PaddedLine(f[k]))
  }

  /** A padded line is never passed over, and reads back as the clause, empty or not. */
  lemma PaddedLineRoundTrip(c: seq<Literal>)
    requires NoDuplicates(c) && forall k :: 0 <= k < |c| ==> Writable(c[k])
    ensures !IsSkipped(StripNewline(PaddedLine(c)))
    ensures ParsedClause(StripNewline(PaddedLine(c))) == c
  {
    var t := Join(Renderings(c), " ");
    assert PaddedLine(c) == (" " + t) + "\n";
    StripAppended(" " + t);
    TokensSkipDelims(" ", t, ParseDelims);
    RenderingsAreTokens(c);
    TokensOfJoin(Renderings(c), " ", ParseDelims);
    ParsedLiteralsOfRenderings(c);
    assert [] + c == c;
    InsertAllDistinct([], c);
  }

  /** Writing with the padded writer and reading back gives every well-formed formula of writable literals again. */
  lemma {:induction false} PaddedRoundTrip(f: seq<seq<Literal>>)
    requires WellFormed(f)
    requires forall k, m :: 0 <= k < |f| && 0 <= m < |f[k]| ==> Writable(f[k][m])
    ensures ParseLines(PaddedLines(f)) == f
    decreases |f|
  {
    if f != [] {
      var init, c := f[..|f| - 1], f[|f| - 1];
      assert PaddedLines(f) == PaddedLines(init) + [PaddedLine(c)];
      assert WellFormed(init);
      PaddedRoundTrip(init);
      ParseLinesSnoc(PaddedLines(init), PaddedLine(c));
      PaddedLineRoundTrip(c);
      LastNotEquivalent(f);
      assert init + [c] == f;
    }
  }

  /** In a well-formed formula, no earlier clause is equivalent to the last one. */
  lemma LastNotEquivalent(f: seq<seq<Literal>>)
    requires WellFormed(f) && f != []
    ensures !HasEquivalent(f[..|f| - 1], f[|f| - 1])
  {
    var init, c := f[..|f| - 1], f[|f| - 1];
    forall x | x in init ensures !SameClause(x, c) {
      var m :| 0 <= m < |init| && init[m] == x;
      assert f[m] == x;
      SameClauseIsSetEquality(x, c);
    }
  }

  /** Every literal read from a line is writable. */
  lemma ParsedClauseWritable(line: string)
    ensures forall m :: 0 <= m < |ParsedClause(line)| ==> Writable(ParsedClause(line)[m])
  {
    forall m | 0 <= m < |ParsedClause(line)| ensures Writable(ParsedClause(line)[m]) {
      var l := ParsedClause(line)[m];
      ParsedClauseMembers(line, l);
      var t :| t in Tokens(line, ParseDelims) && ParseLiteral(t) == Some(l);
      assert IsToken(t, ParseDelims);
      forall k | 0 <= k < |l.name| ensures l.name[k] !in ParseDelims {
        if l.negated {
          assert l.name[k] == t[k + 1];
        } else {
          assert l.name[k] == t[k];
        }
      }
    }
  }

  /** Every literal of a formula read from a file is writable. */
  lemma {:induction false} ReadLiteralsWritable(lines: seq<string>)
    ensures forall k, m :: 0 <= k < |ParseLines(lines)| && 0 <= m < |ParseLines(lines)[k]| ==>
              Writable(ParseLines(lines)[k][m])
    decreases |lines|
  {
    if lines != [] {
      var init, last := lines[..|lines| - 1], lines[|lines| - 1];
      assert lines == init + [last];
      ReadLiteralsWritable(init);
      ParseLinesSnoc(init, last);
      ParsedClauseWritable(StripNewline(last));
    }
  }

  /** With the padded writer, reading a file, writing it and reading it again gives what the first read gave. */
  lemma PaddedReadWriteRead(lines: seq<string>)
    ensures ParseLines(PaddedLines(ParseLines(lines))) == ParseLines(lines)
  {
    ParseLinesWellFormed(lines);
    ReadLiteralsWritable(lines);
    PaddedRoundTrip(ParseLines(lines));
  }
}
