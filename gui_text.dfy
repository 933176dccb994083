/**
 * The text rules of the graphical front end: the clause validator applied to
 * every clause line the user types, the rule for formula names, and the
 * preview of a formula file. The front end writes a formula file as a comment
 * line followed by the accepted clause lines, which the solver then reads.
 */
module GuiText {
  import opened Literals
  import opened Text
  import opened Clauses
  import opened Formulas
  import opened CnfFile

  /** The delimiters the validator and the preview hand to strtok. */
  const GuiDelims: set<char> := {' ', '\t'}

  predicate IsNameStart(c: char)
  {
    IsAlpha(c) || c == '_'
  }

  predicate IsNameChar(c: char)
  {
    IsAlnum(c) || c == '_'
  }

  /** A proposition name the front end accepts: [A-Za-z_][A-Za-z0-9_]*. */
  predicate ValidName(n: string)
  {
    n != [] && IsNameStart(n[0]) && forall k :: 1 <= k < |n| ==> IsNameChar(n[k])
  }

  /** A literal the front end accepts: at most one leading '!', then a valid name. */
  predicate ValidToken(t: string)
  {
    if t != [] && t[0] == '!' then ValidName(t[1..]) else ValidName(t)
  }

  /** A clause line the front end accepts: at least one token, and every token valid. */
  predicate ValidClauseText(s: string)
  {
    var ts := Tokens(s, GuiDelims);
    ts != [] && forall k :: 0 <= k < |ts| ==> ValidToken(ts[k])
  }

  /**
   * is_valid_clause: refuse the empty string; tokenise on space and tab;
   * refuse a line with no token; for each token strip one leading '!', then
   * refuse an empty name, a first character other than a letter or '_', and
   * any later character other than a letter, a digit or '_'.
   */
  method IsValidClause(clause: string) returns (ok: bool)
    ensures ok <==> ValidClauseText(clause)
  {
    if |clause| == 0 {
      return false;
    }
    var tokens := Tokens(clause, GuiDelims);
    if |tokens| == 0 {
      return false;
    }
    var k := 0;
    while k < |tokens|
      invariant 0 <= k <= |tokens|
      invariant forall k' :: 0 <= k' < k ==> ValidToken(tokens[k'])
    {
      var token := tokens[k];
      var isNegated := token[0] == '!';
      var name := if isNegated then token[1..] else token;
      if |name| == 0 {
        return false;
      }
      if !IsAlpha(name[0]) && name[0] != '_' {
        return false;
      }
      var i := 1;
      while i < |name|
        invariant 1 <= i <= |name|
        invariant forall m :: 1 <= m < i ==> IsNameChar(name[m])
      {
        if !IsAlnum(name[i]) && name[i] != '_' {
          return false;
        }
        i := i + 1;
      }
      k := k + 1;
    }
    return true;
  }

  /** An empty line, or one of spaces and tabs only, is refused. */
  lemma BlankRejected(s: string)
    requires forall k :: 0 <= k < |s| ==> s[k] in GuiDelims
    ensures !ValidClauseText(s)
  {
    AllDelimsNoTokens(s, GuiDelims);
  }

  /** The refused and accepted tokens the validator's comments describe. */
  lemma TokenExamples()
    ensures !ValidToken("!") && !ValidToken("1A") && !ValidToken("!!P") && !ValidToken("A-B")
    ensures ValidToken("P") && ValidToken("!_x1")
  {
    assert !IsNameChar("A-B"[1]);
  }

  /** A character that can occur in an accepted token. */
  predicate IsTokenChar(c: char)
  {
    IsNameChar(c) || c == '!'
  }

  lemma ValidTokenChars(t: string)
    requires ValidToken(t)
    ensures forall m :: 0 <= m < |t| ==> IsTokenChar(t[m])
  {
    forall m | 0 <= m < |t| ensures IsTokenChar(t[m]) {
      if t[0] == '!' && m > 0 {
        assert t[m] == t[1..][m - 1];
      }
    }
  }

  /** Every character of a line lies in a token or is a delimiter. */
  lemma {:induction false} TokenCharsCover(s: string)
    requires forall t :: t in Tokens(s, GuiDelims) ==> forall m :: 0 <= m < |t| ==> IsTokenChar(t[m])
    ensures forall k :: 0 <= k < |s| ==> s[k] in GuiDelims || IsTokenChar(s[k])
    decreases |s|
  {
    if s != [] {
      if s[0] in GuiDelims {
        TokenCharsCover(s[1..]);
        forall k | 0 < k < |s| ensures s[k] in GuiDelims || IsTokenChar(s[k]) {
          assert s[k] == s[1..][k - 1];
        }
      } else {
        var w := Word(s, GuiDelims);
        var rest := s[|w|..];
        assert w in Tokens(s, GuiDelims);
        assert forall t :: t in Tokens(rest, GuiDelims) ==> t in Tokens(s, GuiDelims);
        TokenCharsCover(rest);
        forall k | 0 <= k < |s| ensures s[k] in GuiDelims || IsTokenChar(s[k]) {
          if k < |w| {
            assert s[k] == w[k];
          } else {
            assert s[k] == rest[k - |w|];
          }
        }
      }
    }
  }

  /** An accepted line has no newline, and neither is it blank nor a comment for the solver's reader. */
  lemma AcceptedLineShape(s: string)
    requires ValidClauseText(s)
    ensures forall k :: 0 <= k < |s| ==> s[k] != '\n'
    ensures !IsSkipped(s)
  {
    var ts := Tokens(s, GuiDelims);
    forall t | t in ts ensures forall m :: 0 <= m < |t| ==> IsTokenChar(t[m]) {
      ValidTokenChars(t);
    }
    TokenCharsCover(s);
  }

  /**
   * What the validator accepts, the solver parses without loss: tokenising
   * with the newline added as a delimiter gives the same tokens, each token
   * parses to a literal of the clause, and so the clause is not empty.
   */
  lemma AcceptedLineParses(s: string)
    requires ValidClauseText(s)
    ensures Tokens(s, ParseDelims) == Tokens(s, GuiDelims)
    ensures forall t :: t in Tokens(s, GuiDelims) ==> ParseLiteral(t).Some? && ParseLiteral(t).value in ParsedClause(s)
    ensures ParsedClause(s) != []
  {
    var ts := Tokens(s, GuiDelims);
    forall t | t in ts ensures '\n' !in t {
      ValidTokenChars(t);
    }
    TokensWiden(s, GuiDelims, '\n');
    assert GuiDelims + {'\n'} == ParseDelims;
    forall t | t in ts ensures ParseLiteral(t).Some? && ParseLiteral(t).value in ParsedClause(s) {
      ParsedClauseMembers(s, ParseLiteral(t).value);
    }
    assert ts[0] in ts;
  }

  /**
   * The comment line the front end writes at the top of every formula file.
   * The leading '#' is a literal of its own, so that the first character is
   * known without indexing into the long literal.
   */
  const GuiComment: string := "#" + " Formula created using ESI-EX-INI GUI Solver"
  const GuiHeader: string := GuiComment + "\n"

  /** The lines of a formula file the front end writes from the accepted clause lines. */
  ghost function GuiFile(texts: seq<string>): (lines: seq<string>)
    ensures |lines| == |texts| + 1
  {
    [GuiHeader] + seq(|texts|, k requires 0 <= k < |texts| => texts[k] + "\n")
  }

  /** One accepted line, as written to the file, adds its parsed clause, which is non-empty and duplicate free. */
  lemma ReadAcceptedLine(lines: seq<string>, text: string)
    requires ValidClauseText(text)
    ensures ParseLines(lines + [text + "\n"]) == AddClauseValue(ParseLines(lines), ParsedClause(text))
    ensures ParsedClause(text) != [] && NoDuplicates(ParsedClause(text))
  {
    ParseLinesSnoc(lines, text + "\n");
    StripAppended(text);
    AcceptedLineShape(text);
    AcceptedLineParses(text);
    ParsedClauseMembers(text, Literal("", false));
  }

  /** The solver passes over the comment line at the top of the file. */
  lemma HeaderSkipped()
    ensures ParseLines(GuiFile([])) == []
  {
    assert GuiFile([]) == [] + [GuiHeader];
    ParseLinesSnoc([], GuiHeader);
    StripAppended(GuiComment);
  }

  /**
   * The solver reads a file the front end wrote as a formula with no empty
   * clause and at most one clause per line entered, holding an equivalent of
   * every entered clause.
   */
  lemma {:induction false} GuiFileReadsBack(texts: seq<string>)
    requires forall k :: 0 <= k < |texts| ==> ValidClauseText(texts[k])
    ensures var f := ParseLines(GuiFile(texts));
      && |f| <= |texts|
      && (forall k :: 0 <= k < |f| ==> f[k] != [])
      && (forall k :: 0 <= k < |texts| ==> HasEquivalent(f, ParsedClause(texts[k])))
    decreases |texts|
  {
    if texts == [] {
      HeaderSkipped();
    } else {
      var init, last := texts[..|texts| - 1], texts[|texts| - 1];
      assert GuiFile(texts) == GuiFile(init) + [last + "\n"];
      GuiFileReadsBack(init);
      var g := ParseLines(GuiFile(init));
      ReadAcceptedLine(GuiFile(init), last);
      ParseLinesWellFormed(GuiFile(init));
      var c := ParsedClause(last);
      AddNonEmptyClause(g, c);
      var f := AddClauseValue(g, c);
      forall k | 0 <= k < |texts| ensures HasEquivalent(f, ParsedClause(texts[k])) {
        if k < |texts| - 1 {
          assert texts[k] == init[k];
          HasEquivalentGrows(g, f, ParsedClause(texts[k]));
        }
      }
    }
  }

  /** Adding a non-empty clause to a formula without empty clauses leaves none, and grows it by at most one. */
  lemma AddNonEmptyClause(g: seq<seq<Literal>>, c: seq<Literal>)
    requires WellFormed(g) && NoDuplicates(c) && c != []
    requires forall k :: 0 <= k < |g| ==> g[k] != []
    ensures var f := AddClauseValue(g, c);
      && g <= f && |f| <= |g| + 1 && HasEquivalent(f, c)
      && forall k :: 0 <= k < |f| ==> f[k] != []
  {
    AddClauseKeepsWellFormed(g, c);
    var f := AddClauseValue(g, c);
    if !HasEquivalent(g, c) {
      assert f == g + [c];
      forall k | 0 <= k < |f| ensures f[k] != [] {
        if k < |g| {
          assert f[k] == g[k];
        }
      }
    }
  }

  /** A character the front end allows in a formula name. */
  predicate IsFormulaNameChar(c: char)
  {
    IsAlnum(c) || c == '_' || c == '-'
  }

  /** A formula name the front end accepts: non-empty, letters, digits, '_' and '-' only. */
  predicate ValidFormulaName(n: string)
  {
    n != [] && forall k :: 0 <= k < |n| ==> IsFormulaNameChar(n[k])
  }

  /**
   * The formula-name check of the submit handler: refuse the empty name, then
   * scan for a character other than a letter, a digit, '_' or '-'.
   */
  method CheckFormulaName(name: string) returns (ok: bool)
    ensures ok <==> ValidFormulaName(name)
  {
    if |name| == 0 {
      return false;
    }
    var i := 0;
    while i < |name|
      invariant 0 <= i <= |name|
      invariant forall k :: 0 <= k < i ==> IsFormulaNameChar(name[k])
    {
      if !IsAlnum(name[i]) && name[i] != '_' && name[i] != '-' {
        return false;
      }
      i := i + 1;
    }
    return true;
  }

  /** The file name the submit handler builds with sprintf("%s.cnf"). */
  function CnfFileName(name: string): string
  {
    name + ".cnf"
  }

  /**
   * An accepted name yields a plain file name in the current directory: no
   * path separator or drive colon, a single '.', the one before the "cnf"
   * extension, and the name is what precedes it.
   */
  lemma CnfFileNameIsLocal(name: string)
    requires ValidFormulaName(name)
    ensures var file := CnfFileName(name);
      && (forall k :: 0 <= k < |file| ==> file[k] !in {'/', '\\', ':'})
      && (forall k :: 0 <= k < |file| && file[k] == '.' ==> k == |name|)
      && file[..|name|] == name && file[|name|..] == ".cnf"
  {
    var file := CnfFileName(name);
    forall k | 0 <= k < |file| ensures file[k] !in {'/', '\\', ':'} && (file[k] == '.' ==> k == |name|) {
      if k < |name| {
        assert file[k] == name[k] && IsFormulaNameChar(name[k]);
      }
    }
  }

  /** Different accepted names never share a file. */
  lemma CnfFileNameInjective(a: string, b: string)
    requires ValidFormulaName(a) && ValidFormulaName(b) && CnfFileName(a) == CnfFileName(b)
    ensures a == b
  {
    CnfFileNameIsLocal(a);
    CnfFileNameIsLocal(b);
    assert |a| == |b|;
    assert a == CnfFileName(a)[..|a|];
  }

  /** A line as the preview keeps it: cut at its first newline. */
  function CutLine(line: string): string
  {
    Word(line, {'\n'})
  }

  /** The lines the preview shows, cut, with the empty ones left out. */
  ghost function KeptLines(lines: seq<string>): seq<string>
    decreases |lines|
  {
    if lines == [] then []
    else
      var init := KeptLines(lines[..|lines| - 1]);
      var text := CutLine(lines[|lines| - 1]);
      if text == [] then init else init + [text]
  }

  /** One clause line as the preview shows it: its tokens separated by " V ". */
  function ShowClause(text: string): string
  {
    Join(Tokens(text, GuiDelims), " V ")
  }

  ghost function ShowAll(texts: seq<string>): (r: seq<string>)
    ensures |r| == |texts|
  {
    seq(|texts|, k requires 0 <= k < |texts| => ShowClause(texts[k]))
  }

  /** The preview text: the first line dropped, the kept lines shown and separated by " ^\n". */
  ghost function Preview(lines: seq<string>): string
  {
    if lines == [] then "" else Join(ShowAll(KeptLines(lines[1..])), " ^\n")
  }

  lemma KeptLinesSnoc(lines: seq<string>, line: string)
    ensures KeptLines(lines + [line])
         == if CutLine(line) == [] then KeptLines(lines) else KeptLines(lines) + [CutLine(line)]
  {
    assert (lines + [line])[..|lines|] == lines;
  }

  /** One more line of the file: the preview is unchanged, or gains a separator (unless it was empty) and the line shown. */
  lemma PreviewStep(prev: seq<string>, line: string)
    ensures var kept := KeptLines(prev);
      var shown := Join(ShowAll(kept), " ^\n");
      var text := CutLine(line);
      && (KeptLines(prev + [line]) == [] <==> kept == [] && text == [])
      && Join(ShowAll(KeptLines(prev + [line])), " ^\n")
         == if text == [] then shown else shown + (if kept == [] then "" else " ^\n") + ShowClause(text)
  {
    var kept := KeptLines(prev);
    var text := CutLine(line);
    KeptLinesSnoc(prev, line);
    if text != [] {
      assert ShowAll(kept + [text]) == ShowAll(kept) + [ShowClause(text)];
      JoinSnoc(ShowAll(kept), ShowClause(text), " ^\n");
    }
  }

  /** Appending the tokens of one line, " V " between them, as the inner loop of the preview does. */
  method AppendShownClause(content: string, text: string) returns (r: string)
    ensures r == content + ShowClause(text)
  {
    r := content;
    var tokens := Tokens(text, GuiDelims);
    var firstLiteral := true;
    var j := 0;
    while j < |tokens|
      invariant 0 <= j <= |tokens|
      invariant firstLiteral <==> j == 0
      invariant r == content + Join(tokens[..j], " V ")
    {
      ghost var shown := Join(tokens[..j], " V ");
      ghost var sep := if j == 0 then "" else " V ";
      JoinSnoc(tokens[..j], tokens[j], " V ");
      assert tokens[..j + 1] == tokens[..j] + [tokens[j]];
      assert Join(tokens[..j + 1], " V ") == shown + sep + tokens[j];
      if !firstLiteral {
        r := r + " V ";
      }
      assert r == content + (shown + sep);
      firstLiteral := false;
      r := r + tokens[j];
      j := j + 1;
    }
    assert tokens[..j] == tokens;
  }

  /**
   * The preview formatter: skip the first line; for each further line, cut
   * it at its first newline and pass over it if that leaves it empty;
   * otherwise write " ^\n" unless it is the first clause shown, then its
   * tokens with " V " between them.
   */
  method FormatPreview(lines: seq<string>) returns (content: string)
    ensures content == Preview(lines)
  {
    content := "";
    if |lines| == 0 {
      return;
    }
    var firstClause := true;
    var k := 1;
    while k < |lines|
      invariant 1 <= k <= |lines|
      invariant firstClause <==> KeptLines(lines[1..k]) == []
      invariant content == Join(ShowAll(KeptLines(lines[1..k])), " ^\n")
    {
      assert lines[1..k + 1] == lines[1..k] + [lines[k]];
      PreviewStep(lines[1..k], lines[k]);
      var line := CutLine(lines[k]);
      if |line| != 0 {
        if !firstClause {
          content := content + " ^\n";
        }
        firstClause := false;
        content := AppendShownClause(content, line);
      }
      k := k + 1;
    }
    assert lines[1..k] == lines[1..];
  }

  /**
   * The preview of a file the front end wrote shows every entered clause line,
   * in order, as its tokens separated by " V ", the lines separated by " ^\n".
   */
  lemma {:induction false} PreviewOfGuiFile(texts: seq<string>)
    requires forall k :: 0 <= k < |texts| ==> ValidClauseText(texts[k])
    ensures Preview(GuiFile(texts)) == Join(ShowAll(texts), " ^\n")
    decreases |texts|
  {
    assert GuiFile(texts)[1..] == seq(|texts|, k requires 0 <= k < |texts| => texts[k] + "\n");
    KeptOfEntered(texts);
  }

  lemma {:induction false} KeptOfEntered(texts: seq<string>)
    requires forall k :: 0 <= k < |texts| ==> ValidClauseText(texts[k])
    ensures KeptLines(seq(|texts|, k requires 0 <= k < |texts| => texts[k] + "\n")) == texts
    decreases |texts|
  {
    if texts != [] {
      var init, last := texts[..|texts| - 1], texts[|texts| - 1];
      var lines := seq(|texts|, k requires 0 <= k < |texts| => texts[k] + "\n");
      var initLines := seq(|init|, k requires 0 <= k < |init| => init[k] + "\n");
      assert lines == initLines + [last + "\n"];
      KeptOfEntered(init);
      KeptLinesSnoc(initLines, last + "\n");
      AcceptedLineShape(last);
      WordOfToken(last, "\n", {'\n'});
      assert texts == init + [last];
    }
  }
}
