/**
 * The text renderers at the level of the bytes they write. The connectives
 * " ∨ " and " ∧ " take five bytes each in UTF-8, but clauseToString and
 * formulaToString count three bytes for them and move the write pointer on
 * by three after copying one, so the next piece of text overwrites the last
 * two bytes of the connective.
 */
module ByteRendering {
  import opened Literals
  import opened Text
  import opened Clauses
  import opened Formulas

  newtype byte = x: int | 0 <= x < 256

  /** The UTF-8 encoding of one character. */
  function CharBytes(c: char): (b: seq<byte>)
    ensures 1 <= |b| <= 4
  {
    var n := c as int;
    if n < 0x80 then [n as byte]
    else if n < 0x800 then [(0xC0 + n / 0x40) as byte, (0x80 + n % 0x40) as byte]
    else if n < 0x10000 then
      [(0xE0 + n / 0x1000) as byte, (0x80 + (n / 0x40) % 0x40) as byte, (0x80 + n % 0x40) as byte]
    else
      [(0xF0 + n / 0x40000) as byte, (0x80 + (n / 0x1000) % 0x40) as byte,
       (0x80 + (n / 0x40) % 0x40) as byte, (0x80 + n % 0x40) as byte]
  }

  /** The UTF-8 encoding of a string: between one and four bytes per character. */
  function Utf8(s: string): (b: seq<byte>)
    ensures |s| <= |b| <= 4 * |s|
  {
    if s == [] then [] else CharBytes(s[0]) + Utf8(s[1..])
  }

  lemma {:induction false} Utf8Append(a: string, b: string)
    ensures Utf8(a + b) == Utf8(a) + Utf8(b)
    decreases |a|
  {
    if a != [] {
      assert (a + b)[0] == a[0] && (a + b)[1..] == a[1..] + b;
      Utf8Append(a[1..], b);
      calc {
        Utf8(a + b);
        CharBytes((a + b)[0]) + Utf8((a + b)[1..]);
        CharBytes(a[0]) + Utf8(a[1..] + b);
        CharBytes(a[0]) + (Utf8(a[1..]) + Utf8(b));
        Utf8(a) + Utf8(b);
      }
    } else {
      assert a + b == b;
    }
  }

  /** strlen of the two connectives: five bytes each. */
  lemma ConnectiveBytes()
    ensures Utf8(" ∨ ") == [0x20, 0xE2, 0x88, 0xA8, 0x20]
    ensures Utf8(" ∧ ") == [0x20, 0xE2, 0x88, 0xA7, 0x20]
  {
  }

  /** Byte strings with `sep` between neighbours. */
  function JoinBytes(parts: seq<seq<byte>>, sep: seq<byte>): seq<byte>
  {
    if |parts| == 0 then []
    else if |parts| == 1 then parts[0]
    else parts[0] + sep + JoinBytes(parts[1..], sep)
  }

  function SumLengths(parts: seq<seq<byte>>): nat
  {
    if parts == [] then 0 else |parts[0]| + SumLengths(parts[1..])
  }

  lemma {:induction false} JoinBytesLength(parts: seq<seq<byte>>, sep: seq<byte>)
    requires parts != []
    ensures |JoinBytes(parts, sep)| == SumLengths(parts) + |sep| * (|parts| - 1)
    decreases |parts|
  {
    if |parts| > 1 {
      JoinBytesLength(parts[1..], sep);
    }
  }

  lemma {:induction false} SumLengthsBelow(p: seq<seq<byte>>, q: seq<seq<byte>>)
    requires |p| == |q| && forall k :: 0 <= k < |p| ==> |p[k]| <= |q[k]|
    ensures SumLengths(p) <= SumLengths(q)
    decreases |p|
  {
    if p != [] {
      SumLengthsBelow(p[1..], q[1..]);
    }
  }

  /** Each string encoded. */
  function EncodeAll(parts: seq<string>): (r: seq<seq<byte>>)
    ensures |r| == |parts|
  {
    seq(|parts|, k requires 0 <= k < |parts| => Utf8(parts[k]))
  }

  /** Encoding commutes with joining. */
  lemma {:induction false} Utf8Join(parts: seq<string>, sep: string)
    ensures Utf8(Join(parts, sep)) == JoinBytes(EncodeAll(parts), Utf8(sep))
    decreases |parts|
  {
    if |parts| > 1 {
      Utf8Append(parts[0] + sep, Join(parts[1..], sep));
      Utf8Append(parts[0], sep);
      Utf8Join(parts[1..], sep);
      assert EncodeAll(parts)[1..] == EncodeAll(parts[1..]);
    }
  }

  /** How far the code moves its write pointer after copying a connective. */
  const Advance: nat := 3

  /** The size clauseToString's first pass computes: three bytes per connective. */
  function ClauseBufferAsWritten(c: seq<Literal>): nat
  {
    if c == [] then 2 else 2 + SumLengths(EncodeAll(Renderings(c))) + Advance * (|c| - 1)
  }

  /**
   * The bytes clauseToString returns: "[]" for the empty clause, otherwise '(',
   * the literals with the first three bytes of " ∨ " between them (the rest of
   * each copied connective is overwritten by the next literal), and ')'.
   */
  function ClauseBytesAsWritten(c: seq<Literal>): seq<byte>
  {
    if c == [] then Utf8("[]")
    else [0x28] + JoinBytes(EncodeAll(Renderings(c)), Utf8(" ∨ ")[..Advance]) + [0x29]
  }

  lemma {:induction false} JoinBytesSnoc(p: seq<seq<byte>>, x: seq<byte>, sep: seq<byte>)
    ensures JoinBytes(p + [x], sep) == if p == [] then x else JoinBytes(p, sep) + sep + x
    decreases |p|
  {
    if |p| == 1 {
      assert (p + [x])[1..] == [x];
    } else if |p| > 1 {
      assert (p + [x])[1..] == p[1..] + [x];
      JoinBytesSnoc(p[1..], x, sep);
    }
  }

  /** The text before the write pointer once literal i is copied, with its connective when one follows. */
  lemma WriteStep(parts: seq<seq<byte>>, sep: seq<byte>, i: nat, pre: seq<byte>)
    requires i < |parts|
    requires pre == [0x28] + JoinBytes(parts[..i], sep) + (if 0 < i then sep else [])
    ensures pre + parts[i] + (if i < |parts| - 1 then sep else [])
         == [0x28] + JoinBytes(parts[..i + 1], sep) + (if i + 1 < |parts| then sep else [])
  {
    assert parts[..i + 1] == parts[..i] + [parts[i]];
    JoinBytesSnoc(parts[..i], parts[i], sep);
  }

  /**
   * The second pass of clauseToString on a byte buffer: '(' at the start, then
   * for each literal a strcpy of its bytes at the write pointer and a pointer
   * move by their number; between literals a strcpy of the connective and a
   * pointer move by three, so that the next copy starts over whatever of the
   * connective lies past its first three bytes; then ')'. The result is the
   * buffer up to the pointer, followed by ')'.
   */
  method CopyParts(parts: seq<seq<byte>>, conn: seq<byte>) returns (out: seq<byte>)
    requires Advance <= |conn|
    ensures out == [0x28] + JoinBytes(parts, conn[..Advance]) + [0x29]
  {
    ghost var sep := conn[..Advance];
    var buf: seq<byte> := [0x28];
    var ptr := 1;
    var i := 0;
    while i < |parts|
      invariant 0 <= i <= |parts| && 1 <= ptr <= |buf|
      invariant buf[..ptr] == [0x28] + JoinBytes(parts[..i], sep) + (if 0 < i < |parts| then sep else [])
    {
      ghost var before := buf[..ptr];
      WriteStep(parts, sep, i, before);
      var lit := parts[i];
      buf := buf[..ptr] + lit;
      ptr := ptr + |lit|;
      if i < |parts| - 1 {
        ghost var mid := buf[..ptr];
        buf := buf[..ptr] + conn;
        ptr := ptr + Advance;
        assert buf[..ptr] == mid + sep;
      }
      i := i + 1;
    }
    assert parts[..|parts|] == parts;
    out := buf[..ptr] + [0x29];
  }

  /**
   * clauseToString at the level of bytes: "[]" for the empty clause, else the
   * UTF-8 bytes of each literal's text copied with the five bytes of " ∨ "
   * between them, as CopyParts does.
   */
  method WriteClauseBytes(c: seq<Literal>) returns (out: seq<byte>)
    ensures out == ClauseBytesAsWritten(c)
  {
    if c == [] {
      return Utf8("[]");
    }
    out := CopyParts(EncodeAll(Renderings(c)), Utf8(" ∨ "));
  }

  /**
   * The bytes left in the buffer fill exactly the size the first pass
   * computes. Whether the copy of the last connective stays inside the buffer
   * depends on the last literal: see LastConnectiveInBuffer.
   */
  lemma ClauseBytesAsWrittenFill(c: seq<Literal>)
    ensures |ClauseBytesAsWritten(c)| == ClauseBufferAsWritten(c)
  {
    if c != [] {
      JoinBytesLength(EncodeAll(Renderings(c)), Utf8(" ∨ ")[..Advance]);
    }
  }

  lemma {:induction false} SumLengthsSnoc(p: seq<seq<byte>>, x: seq<byte>)
    ensures SumLengths(p + [x]) == SumLengths(p) + |x|
    decreases |p|
  {
    if p != [] {
      assert (p + [x])[1..] == p[1..] + [x];
      SumLengthsSnoc(p[1..], x);
    } else {
      assert p + [x] == [x];
    }
  }

  /**
   * The last connective is copied after '(', every literal but the last, and
   * three bytes per earlier connective. strcpy writes its five bytes and the
   * terminator there, six bytes in all, into a buffer one byte longer than the
   * first pass's size: they fit exactly when the last literal renders to at
   * least one byte, and a last literal with an empty name overruns the buffer
   * by one byte.
   */
  lemma LastConnectiveInBuffer(c: seq<Literal>)
    requires |c| >= 2
    ensures var at := 1 + SumLengths(EncodeAll(Renderings(c[..|c| - 1]))) + Advance * (|c| - 2);
      at + 6 <= ClauseBufferAsWritten(c) + 1 <==> LiteralToString(c[|c| - 1]) != []
  {
    var init, last := c[..|c| - 1], c[|c| - 1];
    assert EncodeAll(Renderings(c)) == EncodeAll(Renderings(init)) + [Utf8(LiteralToString(last))];
    SumLengthsSnoc(EncodeAll(Renderings(init)), Utf8(LiteralToString(last)));
  }

  /** The size the first pass should compute: five bytes per connective. */
  function ClauseBufferIntended(c: seq<Literal>): nat
  {
    if c == [] then 2 else 2 + SumLengths(EncodeAll(Renderings(c))) + 5 * (|c| - 1)
  }

  /**
   * The intended bytes are the encoding of the rendering: '(', the literals
   * with the whole of " ∨ " between them, and ')'; they take exactly the
   * size counted with five bytes per connective.
   */
  lemma ClauseBytesIntended(c: seq<Literal>)
    ensures Utf8(RenderClause(c))
         == if c == [] then Utf8("[]") else [0x28] + JoinBytes(EncodeAll(Renderings(c)), Utf8(" ∨ ")) + [0x29]
    ensures |Utf8(RenderClause(c))| == ClauseBufferIntended(c)
  {
    if c != [] {
      var body := Join(Renderings(c), " ∨ ");
      Utf8Append("(" + body, ")");
      Utf8Append("(", body);
      Utf8Join(Renderings(c), " ∨ ");
      ConnectiveBytes();
      JoinBytesLength(EncodeAll(Renderings(c)), Utf8(" ∨ "));
    }
  }

  /**
   * Every clause of two or more literals comes out garbled: two bytes short
   * per connective, and so different from the encoding of its rendering.
   */
  lemma ClauseConnectiveTruncated(c: seq<Literal>)
    requires |c| >= 2
    ensures |Utf8(RenderClause(c))| == |ClauseBytesAsWritten(c)| + 2 * (|c| - 1)
    ensures ClauseBytesAsWritten(c) != Utf8(RenderClause(c))
  {
    ClauseBytesAsWrittenFill(c);
    ClauseBytesIntended(c);
  }

  /** (A ∨ B) is written as '(', 'A', ' ', 0xE2, 0x88, 'B', ')': an incomplete UTF-8 sequence. */
  lemma AOrBAsWritten()
    ensures ClauseBytesAsWritten([Literal("A", false), Literal("B", false)])
         == [0x28, 0x41, 0x20, 0xE2, 0x88, 0x42, 0x29]
  {
    ConnectiveBytes();
    var c := [Literal("A", false), Literal("B", false)];
    assert Renderings(c) == ["A", "B"];
    assert Utf8("A") == [0x41] && Utf8("B") == [0x42];
    assert EncodeAll(Renderings(c)) == [[0x41], [0x42]];
    var sep := Utf8(" ∨ ")[..Advance];
    assert sep == [0x20, 0xE2, 0x88];
    assert JoinBytes([[0x41], [0x42]], sep) == [0x41] + sep + [0x42];
    assert [0x28] + ([0x41] + sep + [0x42]) + [0x29] == [0x28, 0x41, 0x20, 0xE2, 0x88, 0x42, 0x29];
  }

  /** The bytes of each clause as clauseToString returns them. */
  function AllClauseBytesAsWritten(f: seq<seq<Literal>>): (r: seq<seq<byte>>)
    ensures |r| == |f|
  {
    seq(|f|, k requires 0 <= k < |f| => ClauseBytesAsWritten(f[k]))
  }

  /**
   * The bytes formulaToString returns for a non-empty formula: the clause
   * strings with the first three bytes of " ∧ " between them.
   */
  function FormulaBytesAsWritten(f: seq<seq<Literal>>): seq<byte>
    requires f != []
  {
    JoinBytes(AllClauseBytesAsWritten(f), Utf8(" ∧ ")[..Advance])
  }

  /**
   * The intended bytes of a non-empty formula are the clause encodings with
   * the whole of " ∧ " between them, five bytes per connective.
   */
  lemma FormulaBytesIntended(f: seq<seq<Literal>>)
    requires f != []
    ensures Utf8(RenderFormula(f)) == JoinBytes(EncodeAll(ClauseRenderings(f)), Utf8(" ∧ "))
    ensures |Utf8(RenderFormula(f))| == SumLengths(EncodeAll(ClauseRenderings(f))) + 5 * (|f| - 1)
  {
    Utf8Join(ClauseRenderings(f), " ∧ ");
    ConnectiveBytes();
    JoinBytesLength(EncodeAll(ClauseRenderings(f)), Utf8(" ∧ "));
  }

  /** Every formula of two or more clauses comes out garbled: at least two bytes short per connective. */
  lemma FormulaConnectiveTruncated(f: seq<seq<Literal>>)
    requires |f| >= 2
    ensures |FormulaBytesAsWritten(f)| + 2 * (|f| - 1) <= |Utf8(RenderFormula(f))|
    ensures FormulaBytesAsWritten(f) != Utf8(RenderFormula(f))
  {
    FormulaBytesIntended(f);
    ConnectiveBytes();
    JoinBytesLength(AllClauseBytesAsWritten(f), Utf8(" ∧ ")[..Advance]);
    forall k | 0 <= k < |f|
      ensures |AllClauseBytesAsWritten(f)[k]| <= |EncodeAll(ClauseRenderings(f))[k]|
    {
      ClauseBytesAsWrittenFill(f[k]);
      ClauseBytesIntended(f[k]);
    }
    SumLengthsBelow(AllClauseBytesAsWritten(f), EncodeAll(ClauseRenderings(f)));
  }
}
