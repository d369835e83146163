/** The CSV printer of cli/commands/cmd_benchmark.cpp, read back by the CSV lexer. */
module CsvField {
  import opened Bytes
  import opened CsvLexer
  import opened CsvSpec
  import opened TokenStreams

  const COMMA: byte := 0x2C
  const RETURN: byte := 0x0D

  // ---------------------------------------------------------------- the printer

  predicate IsSpecial(b: byte) {
    b == COMMA || b == QUOTE || b == RETURN || b == NEWLINE
  }

  predicate NeedsQuotes(s: bytes) {
    exists i :: 0 <= i < |s| && IsSpecial(s[i])
  }

  /** Every quote doubled. */
  function Escaped(s: bytes): bytes {
    if s == [] then [] else (if s[0] == QUOTE then [QUOTE, QUOTE] else [s[0]]) + Escaped(s[1..])
  }

  function PrintField(s: bytes): bytes {
    if NeedsQuotes(s) then [QUOTE] + Escaped(s) + [QUOTE] else s
  }

  lemma {:induction false} EscapedSnoc(s: bytes, b: byte)
    ensures Escaped(s + [b]) == Escaped(s) + if b == QUOTE then [QUOTE, QUOTE] else [b]
  {
    if s == [] {
      assert (s + [b])[1..] == [];
    } else {
      assert (s + [b])[1..] == s[1..] + [b];
      EscapedSnoc(s[1..], b);
    }
  }

  method WriteCsvField(field: bytes) returns (out: bytes)
    ensures out == PrintField(field)
  {
    var special := false;
    for i := 0 to |field|
      invariant special <==> exists k :: 0 <= k < i && IsSpecial(field[k])
    {
      special := special || IsSpecial(field[i]);
    }
    if !special {
      return field;
    }
    out := [QUOTE];
    for i := 0 to |field|
      invariant out == [QUOTE] + Escaped(field[..i])
    {
      assert field[..i + 1] == field[..i] + [field[i]];
      EscapedSnoc(field[..i], field[i]);
      if field[i] == QUOTE {
        out := out + [QUOTE];
      }
      out := out + [field[i]];
    }
    assert field[..|field|] == field;
    out := out + [QUOTE];
  }

  /** The four characters that need quotes; with one of them the field is between quotes, each of its
      own doubled, and without it is as it was. */
  lemma PrintedOnBytes(s: bytes)
    ensures var special := exists i :: 0 <= i < |s| && s[i] in [',' as int, '"' as int, '\r' as int, '\n' as int];
            if special then
              var t := PrintField(s);
              && |t| == |s| + 2 + Quotes(s) && t[0] == '"' as int && t[|t| - 1] == '"' as int
              && Quotes(t) == 2 * Quotes(s) + 2
            else PrintField(s) == s
  {
    assert NeedsQuotes(s) <==> exists i :: 0 <= i < |s| && s[i] in [',' as int, '"' as int, '\r' as int, '\n' as int];
    if NeedsQuotes(s) {
      EscapedQuotes(s);
      QuotesConcat([QUOTE] + Escaped(s), [QUOTE]);
      QuotesConcat([QUOTE], Escaped(s));
      QuotesOne();
    }
  }

  function Quotes(s: bytes): nat {
    if s == [] then 0 else (if s[0] == '"' as int then 1 else 0) + Quotes(s[1..])
  }

  lemma QuotesOne()
    ensures Quotes([QUOTE]) == 1 && Quotes([QUOTE, QUOTE]) == 2
  {
    assert [QUOTE][1..] == [] && [QUOTE, QUOTE][1..] == [QUOTE];
  }

  lemma {:induction false} QuotesConcat(a: bytes, b: bytes)
    ensures Quotes(a + b) == Quotes(a) + Quotes(b)
  {
    if a == [] {
      assert a + b == b;
    } else {
      assert (a + b)[1..] == a[1..] + b;
      QuotesConcat(a[1..], b);
    }
  }

  lemma {:induction false} EscapedQuotes(s: bytes)
    ensures Quotes(Escaped(s)) == 2 * Quotes(s) && |Escaped(s)| == |s| + Quotes(s)
  {
    if s != [] {
      EscapedQuotes(s[1..]);
      var head := if s[0] == QUOTE then [QUOTE, QUOTE] else [s[0]];
      QuotesConcat(head, Escaped(s[1..]));
      QuotesOne();
      assert [s[0]][1..] == [];
    }
  }

  /** A row of fields joined by commas and ended by a newline. */
  function PrintRow(row: seq<bytes>): (r: bytes)
    requires row != []
    ensures r != []
  {
    PrintField(row[0]) + if |row| == 1 then [NEWLINE] else [COMMA] + PrintRow(row[1..])
  }

  function PrintTable(rows: seq<seq<bytes>>): bytes
    requires forall i :: 0 <= i < |rows| ==> rows[i] != []
  {
    if rows == [] then [] else PrintRow(rows[0]) + PrintTable(rows[1..])
  }

  // ---------------------------------------------------------------- reading it back

  /** Undoes the doubling of quotes. */
  function Unescaped(t: bytes): bytes {
    if t == [] then []
    else if t[0] == QUOTE && |t| > 1 then [QUOTE] + Unescaped(t[2..])
    else [t[0]] + Unescaped(t[1..])
  }

  function Unquoted(t: bytes): bytes {
    if |t| >= 2 && t[0] == QUOTE then Unescaped(t[1..|t| - 1]) else t
  }

  lemma {:induction false} UnescapedEscaped(s: bytes)
    ensures Unescaped(Escaped(s)) == s
  {
    if s != [] {
      UnescapedEscaped(s[1..]);
      var rest := Escaped(s[1..]);
      if s[0] == QUOTE {
        assert ([QUOTE, QUOTE] + rest)[2..] == rest;
      } else {
        assert ([s[0]] + rest)[1..] == rest;
      }
      assert s == [s[0]] + s[1..];
    }
  }

  lemma UnquotedPrinted(s: bytes)
    ensures Unquoted(PrintField(s)) == s
  {
    if NeedsQuotes(s) {
      UnescapedEscaped(s);
      var t := PrintField(s);
      assert t[1..|t| - 1] == Escaped(s);
    } else if |s| > 0 {
      assert !IsSpecial(s[0]);
    }
  }

  /** Inside quotes: the rest of the field is what follows the closing quote. */
  function AfterQuote(src: bytes, p: nat): Option<nat>
    requires p <= |src|
  {
    match CloseQuote(src, p)
    case None => None
    case Some(q) => FieldEnd(src, q + 1, COMMA)
  }

  lemma SliceOfSlice(src: bytes, p: nat, e: nat, i: nat, j: nat)
    requires p <= e <= |src| && i <= j <= e - p
    ensures src[p + i..p + j] == src[p..e][i..j]
  {
    forall k | 0 <= k < j - i ensures src[p + i..p + j][k] == src[p..e][i..j][k] {
      assert src[p..e][i..j][k] == src[p..e][i + k];
    }
  }

  /** Inside quotes, an ordinary byte and a doubled quote are passed over. */
  lemma AfterQuoteSkips(src: bytes, p: nat)
    requires p + 1 < |src|
    ensures src[p] != QUOTE ==> AfterQuote(src, p) == AfterQuote(src, p + 1)
    ensures src[p] == src[p + 1] == QUOTE ==> AfterQuote(src, p) == AfterQuote(src, p + 2)
  {
  }

  lemma {:induction false} LexEscaped(src: bytes, p: nat, s: bytes)
    requires var e := p + |Escaped(s)|; e + 1 < |src| && src[p..e] == Escaped(s) && src[e] == QUOTE
    requires src[p + |Escaped(s)| + 1] == COMMA || src[p + |Escaped(s)| + 1] == NEWLINE
    ensures AfterQuote(src, p) == Some(p + |Escaped(s)| + 1)
    decreases |s|
  {
    if s == [] {
      assert CloseQuote(src, p) == Some(p);
    } else {
      hide AfterQuote;
      var t, e := Escaped(s), p + |Escaped(s)|;
      var n := if s[0] == QUOTE then 2 else 1;
      assert t[n..|t|] == Escaped(s[1..]);
      SliceOfSlice(src, p, e, n, |t|);
      assert src[p] == t[0] && (n == 2 ==> src[p + 1] == t[1]);
      AfterQuoteSkips(src, p);
      LexEscaped(src, p + n, s[1..]);
    }
  }

  lemma {:induction false} LexPlain(src: bytes, p: nat, e: nat)
    requires p <= e < |src| && (src[e] == COMMA || src[e] == NEWLINE) && forall i :: p <= i < e ==> !IsSpecial(src[i])
    ensures FieldEnd(src, p, COMMA) == Some(e)
    decreases e - p
  {
    if p < e {
      LexPlain(src, p + 1, e);
    }
  }

  /** A printed field is lexed as one field. */
  lemma LexPrinted(src: bytes, p: nat, s: bytes)
    requires var e := p + |PrintField(s)|; e < |src| && src[p..e] == PrintField(s) && (src[e] == COMMA || src[e] == NEWLINE)
    ensures FieldEnd(src, p, COMMA) == Some(p + |PrintField(s)|)
  {
    var e := p + |PrintField(s)|;
    if NeedsQuotes(s) {
      hide Escaped;
      var text, n := src[p..e], |Escaped(s)|;
      assert text == [QUOTE] + Escaped(s) + [QUOTE];
      assert text[0] == text[n + 1] == QUOTE && text[1..n + 1] == Escaped(s);
      assert src[p] == text[0] && src[p + 1 + n] == text[n + 1];
      SliceOfSlice(src, p, e, 1, n + 1);
      LexEscaped(src, p + 1, s);
    } else {
      forall i | p <= i < e ensures !IsSpecial(src[i]) {
        assert src[i] == s[i - p];
      }
      LexPlain(src, p, e);
    }
  }

  /** The tokens of a printed row: one field per string, separated and ended. */
  function RowTokens(row: seq<bytes>, col: nat): seq<Token>
    requires row != []
  {
    [Token(Field, |PrintField(row[0])|, col)]
    + if |row| == 1 then [Token(Newline, 1, 0)] else [Token(Sep, 1, 0)] + RowTokens(row[1..], col + 1)
  }

  function TableTokens(rows: seq<seq<bytes>>): seq<Token>
    requires forall i :: 0 <= i < |rows| ==> rows[i] != []
  {
    if rows == [] then [] else RowTokens(rows[0], 0) + TableTokens(rows[1..])
  }

  /** A field and what ends it. */
  lemma LexCell(c: Csv, s: State, x: bytes)
    requires !c.nullAware && c.sep == COMMA && s.pos + |PrintField(x)| < |c.src|
    requires c.src[s.pos..s.pos + |PrintField(x)|] == PrintField(x)
    requires c.src[s.pos + |PrintField(x)|] == COMMA || c.src[s.pos + |PrintField(x)|] == NEWLINE
    ensures var e, t := s.pos + |PrintField(x)|, Token(Field, |PrintField(x)|, s.col);
            && (c.src[e] == COMMA ==>
                  All(c, s, true) == Append([t, Token(Sep, 1, 0)], All(c, State(e + 1, s.row, s.col + 1, s.numCols, true), true)))
            && (c.src[e] == NEWLINE && (s.row == 0 || s.col + 1 == s.numCols) ==>
                  All(c, s, true) == Append([t, Token(Newline, 1, 0)], All(c, State(e + 1, s.row + 1, 0, s.col + 1, true), true)))
  {
    hide PrintField, FieldEnd, SepEnd;
    LexPrinted(c.src, s.pos, x);
    var e, t := s.pos + |PrintField(x)|, Token(Field, |PrintField(x)|, s.col);
    var s' := State(e, s.row, s.col, s.numCols, false);
    assert Next(c, s, true) == Emit(t, s', false);
    var step := Next(c, s', false);
    if c.src[e] == COMMA {
      assert step == Emit(Token(Sep, 1, 0), State(e + 1, s.row, s.col + 1, s.numCols, true), true);
    } else if s.row == 0 || s.col + 1 == s.numCols {
      assert step == Emit(Token(Newline, 1, 0), State(e + 1, s.row + 1, 0, s.col + 1, true), true);
    }
    if step.Emit? {
      var rest := All(c, step.state, step.atField);
      hide Next;
      assert All(c, s', false) == Stream([step.token] + rest.tokens, rest.ok);
      assert [t] + ([step.token] + rest.tokens) == [t, step.token] + rest.tokens;
    }
  }

  /** Where the first field of a printed row ends and the others start. */
  lemma RowSlices(src: bytes, p: nat, row: seq<bytes>)
    requires row != [] && p + |PrintRow(row)| <= |src| && src[p..p + |PrintRow(row)|] == PrintRow(row)
    ensures var e, last := p + |PrintField(row[0])|, p + |PrintRow(row)|;
            && e < last && src[p..e] == PrintField(row[0])
            && if |row| == 1 then src[e] == NEWLINE && e + 1 == last
               else src[e] == COMMA && last == e + 1 + |PrintRow(row[1..])| && src[e + 1..last] == PrintRow(row[1..])
  {
    hide PrintField;
    var text, x := PrintRow(row), PrintField(row[0]);
    assert src[p..p + |text|] == text;
    assert src[p..p + |x|] == text[..|x|] == x && src[p + |x|] == text[|x|];
    if |row| > 1 {
      assert src[p + |x| + 1..p + |text|] == text[|x| + 1..] == PrintRow(row[1..]);
    }
  }

  lemma {:induction false} LexRow(c: Csv, s: State, row: seq<bytes>)
    requires !c.nullAware && c.sep == COMMA && row != [] && s.pos + |PrintRow(row)| <= |c.src|
    requires c.src[s.pos..s.pos + |PrintRow(row)|] == PrintRow(row)
    requires s.row == 0 || s.col + |row| == s.numCols
    ensures All(c, s, true)
         == Append(RowTokens(row, s.col), All(c, State(s.pos + |PrintRow(row)|, s.row + 1, 0, s.col + |row|, true), true))
    decreases |row|
  {
    hide PrintField, PrintRow, All;
    RowSlices(c.src, s.pos, row);
    var text := PrintRow(row);
    var x := PrintField(row[0]);
    var e := s.pos + |x|;
    LexCell(c, s, row[0]);
    if |row| > 1 {
      LexRow(c, State(e + 1, s.row, s.col + 1, s.numCols, true), row[1..]);
      var t := Token(Field, |x|, s.col);
      var rest := All(c, State(s.pos + |text|, s.row + 1, 0, s.col + |row|, true), true).tokens;
      assert [t, Token(Sep, 1, 0)] + (RowTokens(row[1..], s.col + 1) + rest)
          == ([t] + ([Token(Sep, 1, 0)] + RowTokens(row[1..], s.col + 1))) + rest;
    }
  }

  /** Where the first row of a printed table ends and the others start. */
  lemma TableSlices(src: bytes, p: nat, rows: seq<seq<bytes>>)
    requires rows != [] && (forall i :: 0 <= i < |rows| ==> rows[i] != []) && p <= |src| && src[p..] == PrintTable(rows)
    ensures var e := p + |PrintRow(rows[0])|;
            e <= |src| && src[p..e] == PrintRow(rows[0]) && src[e..] == PrintTable(rows[1..])
  {
    hide PrintRow;
    var text, rest := PrintRow(rows[0]), src[p..];
    assert rest == text + PrintTable(rows[1..]);
    assert src[p..p + |text|] == rest[..|text|];
    assert src[p + |text|..] == rest[|text|..];
  }

  lemma LexNothing(c: Csv, s: State)
    requires s.pos <= |c.src| && c.src[s.pos..] == PrintTable([])
    ensures All(c, s, true) == Stream(TableTokens([]), true)
  {
    assert |c.src[s.pos..]| == 0;
  }

  lemma {:induction false} LexTable(c: Csv, s: State, rows: seq<seq<bytes>>, width: nat)
    requires !c.nullAware && c.sep == COMMA && width > 0 && forall i :: 0 <= i < |rows| ==> |rows[i]| == width
    requires s.pos <= |c.src| && c.src[s.pos..] == PrintTable(rows)
    requires s.col == 0 && (s.row == 0 || s.numCols == width)
    ensures All(c, s, true) == Stream(TableTokens(rows), true)
    decreases |rows|
  {
    hide PrintRow, RowTokens, PrintTable, All;
    if rows == [] {
      LexNothing(c, s);
    } else {
      TableSlices(c.src, s.pos, rows);
      LexRow(c, s, rows[0]);
      var next := State(s.pos + |PrintRow(rows[0])|, s.row + 1, 0, width, true);
      LexTable(c, next, rows[1..], width);
    }
  }

  // ---------------------------------------------------------------- the round trip

  /** The table that tokens describe: fields unquoted, rows ended by newlines. */
  function ReadTable(src: bytes, tokens: seq<Token>, p: nat, row: seq<bytes>): seq<seq<bytes>>
    requires p <= |src|
    decreases |tokens|
  {
    if tokens == [] || p + tokens[0].size > |src| then []
    else
      var t := tokens[0];
      match t.kind
      case Field => ReadTable(src, tokens[1..], p + t.size, row + [Unquoted(src[p..p + t.size])])
      case Sep => ReadTable(src, tokens[1..], p + t.size, row)
      case Newline => [row] + ReadTable(src, tokens[1..], p + t.size, [])
  }

  /** Reading a field and what ends it. */
  lemma ReadCell(src: bytes, p: nat, size: nat, col: nat, end: Token, before: seq<bytes>, rest: seq<Token>)
    requires p + size + 1 <= |src| && end.kind != Field && end.size == 1
    ensures var row := before + [Unquoted(src[p..p + size])];
            ReadTable(src, [Token(Field, size, col), end] + rest, p, before)
            == if end.kind == Sep then ReadTable(src, rest, p + size + 1, row) else [row] + ReadTable(src, rest, p + size + 1, [])
  {
    hide Unquoted;
    var all := [Token(Field, size, col), end] + rest;
    assert all[1..] == [end] + rest && all[1..][1..] == rest;
  }

  lemma {:induction false} ReadRow(src: bytes, p: nat, row: seq<bytes>, col: nat, before: seq<bytes>, rest: seq<Token>)
    requires row != [] && p + |PrintRow(row)| <= |src| && src[p..p + |PrintRow(row)|] == PrintRow(row)
    ensures ReadTable(src, RowTokens(row, col) + rest, p, before) == [before + row] + ReadTable(src, rest, p + |PrintRow(row)|, [])
    decreases |row|
  {
    hide PrintField, PrintRow, Unquoted, ReadTable;
    RowSlices(src, p, row);
    UnquotedPrinted(row[0]);
    var field := Token(Field, |PrintField(row[0])|, col);
    if |row| == 1 {
      ReadCell(src, p, field.size, col, Token(Newline, 1, 0), before, rest);
      assert RowTokens(row, col) + rest == [field, Token(Newline, 1, 0)] + rest;
      assert row == [row[0]];
    } else {
      var more := RowTokens(row[1..], col + 1) + rest;
      ReadCell(src, p, field.size, col, Token(Sep, 1, 0), before, more);
      assert RowTokens(row, col) + rest == [field, Token(Sep, 1, 0)] + more;
      ReadRow(src, p + field.size + 1, row[1..], col + 1, before + [row[0]], rest);
      assert (before + [row[0]]) + row[1..] == before + row;
    }
  }

  lemma ReadFirstRow(src: bytes, p: nat, rows: seq<seq<bytes>>)
    requires rows != [] && (forall i :: 0 <= i < |rows| ==> rows[i] != []) && p <= |src| && src[p..] == PrintTable(rows)
    ensures var e := p + |PrintRow(rows[0])|;
            && e <= |src| && src[e..] == PrintTable(rows[1..])
            && ReadTable(src, TableTokens(rows), p, []) == [rows[0]] + ReadTable(src, TableTokens(rows[1..]), e, [])
  {
    hide PrintRow, PrintTable, RowTokens, ReadTable;
    TableSlices(src, p, rows);
    ReadRow(src, p, rows[0], 0, [], TableTokens(rows[1..]));
    var row: seq<bytes> := rows[0];
    assert [] + row == row;
  }

  lemma {:induction false} ReadRows(src: bytes, p: nat, rows: seq<seq<bytes>>)
    requires (forall i :: 0 <= i < |rows| ==> rows[i] != []) && p <= |src| && src[p..] == PrintTable(rows)
    ensures ReadTable(src, TableTokens(rows), p, []) == rows
    decreases |rows|
  {
    if rows == [] {
      assert TableTokens(rows) == [];
    } else {
      hide PrintRow, PrintTable, TableTokens, ReadTable;
      ReadFirstRow(src, p, rows);
      ReadRows(src, p + |PrintRow(rows[0])|, rows[1..]);
    }
  }

  /** Any table of equally long rows of any strings, printed and lexed, gives exactly one field per
      string in one piece, without error; and unquoting the fields gives the table back. */
  lemma TableRoundTrip(rows: seq<seq<bytes>>, width: nat)
    requires width > 0 && forall i :: 0 <= i < |rows| ==> |rows[i]| == width
    ensures var c := Csv(PrintTable(rows), ',' as int, false);
            && AllFrom(c, START) == Stream(TableTokens(rows), true)
            && ReadTable(c.src, AllFrom(c, START).tokens, 0, []) == rows
  {
    hide PrintTable, TableTokens, ReadTable, All;
    var c := Csv(PrintTable(rows), COMMA, false);
    assert c.src[0..] == c.src;
    LexTable(c, START, rows, width);
    ReadRows(c.src, 0, rows);
  }
}
