/** The resumable CSV lexer of custom_parsers/csv/csv_lexer.c: its steps, a call with a token budget
    and a size limit, and the class that refines it. */
module CsvLexer {
  import opened Bytes

  const QUOTE: byte := 0x22
  const NEWLINE: byte := 0x0A

  datatype Kind = Field | Sep | Newline

  datatype Token = Token(kind: Kind, size: nat, col: nat)

  /** What stays the same during lexing. */
  datatype Csv = Csv(src: bytes, sep: byte, nullAware: bool)

  /** The state between calls. */
  datatype State = State(pos: nat, row: nat, col: nat, numCols: nat, fieldNext: bool)

  const START := State(0, 0, 0, 0, true)

  // ---------------------------------------------------------------- scanning

  /** The first quote at or after p. */
  function CloseQuote(src: bytes, p: nat): (r: Option<nat>)
    ensures r.Some? ==> p <= r.value < |src| && src[r.value] == QUOTE
    ensures r.Some? ==> forall i :: p <= i < r.value ==> src[i] != QUOTE
    ensures r.None? ==> forall i :: p <= i < |src| ==> src[i] != QUOTE
    decreases |src| - p
  {
    if p >= |src| then None
    else if src[p] == QUOTE then Some(p)
    else CloseQuote(src, p + 1)
  }

  /** The end of the field that starts at p; None when a quote is not closed. */
  function FieldEnd(src: bytes, p: nat, sep: byte): (r: Option<nat>)
    requires p <= |src|
    ensures r.Some? ==> p <= r.value <= |src|
    ensures r.Some? && r.value < |src| ==> src[r.value] == NEWLINE || src[r.value] == sep
    ensures r.Some? && p < |src| && src[p] != NEWLINE && src[p] != sep ==> p < r.value
    decreases |src| - p
  {
    if p == |src| then Some(p)
    else if src[p] == QUOTE then
      match CloseQuote(src, p + 1)
      case None => None
      case Some(q) => FieldEnd(src, q + 1, sep)
    else if src[p] == NEWLINE || src[p] == sep then Some(p)
    else FieldEnd(src, p + 1, sep)
  }

  /** The end of the run of separators that starts at p. */
  function SepEnd(src: bytes, p: nat, sep: byte): (r: nat)
    requires p <= |src|
    ensures p <= r <= |src| && (forall i :: p <= i < r ==> src[i] == sep) && (r < |src| ==> src[r] != sep)
    decreases |src| - p
  {
    if p < |src| && src[p] == sep then SepEnd(src, p + 1, sep) else p
  }

  // ---------------------------------------------------------------- one token

  /** The next token, the state after it, and whether control is then at the top of the loop, where
      a field is read even if it is empty, or at the separator. */
  datatype Step = Bad | Emit(token: Token, state: State, atField: bool)

  function NewlineStep(c: Csv, s: State): Step
    requires s.pos < |c.src|
  {
    var numCols := if s.row == 0 then s.col + 1 else s.numCols;
    if s.col + 1 != numCols then Bad
    else Emit(Token(Newline, 1, 0), State(s.pos + 1, s.row + 1, 0, numCols, true), !c.nullAware)
  }

  function SepStep(c: Csv, s: State): Step
    requires s.pos < |c.src| && c.src[s.pos] == c.sep
  {
    var size := if c.nullAware then SepEnd(c.src, s.pos, c.sep) - s.pos else 1;
    Emit(Token(Sep, size, 0), State(s.pos + size, s.row, s.col + size, s.numCols, true), true)
  }

  function FieldStep(c: Csv, s: State): Step
    requires s.pos < |c.src|
  {
    match FieldEnd(c.src, s.pos, c.sep)
    case None => Bad
    case Some(e) => Emit(Token(Field, e - s.pos, s.col), State(e, s.row, s.col, s.numCols, false), false)
  }

  function Next(c: Csv, s: State, atField: bool): (r: Step)
    requires s.pos < |c.src|
    ensures r.Emit? ==> r.state.pos == s.pos + r.token.size <= |c.src|
    ensures r.Emit? ==> r.state.pos > s.pos || (atField && !r.atField && r.token.kind == Field)
    ensures r.Emit? ==> r.state.fieldNext == (r.token.kind != Field)
    ensures r.Emit? ==> r.atField == (match r.token.kind case Field => false case Sep => true case Newline => !c.nullAware)
  {
    if !atField && c.src[s.pos] == NEWLINE then NewlineStep(c, s)
    else if !atField && c.src[s.pos] == c.sep then SepStep(c, s)
    else FieldStep(c, s)
  }

  // ---------------------------------------------------------------- a call

  datatype Result = Failed | Done(tokens: seq<Token>, state: State)

  function Cons(t: Token, r: Result): Result {
    match r
    case Failed => Failed
    case Done(tokens, state) => Done([t] + tokens, state)
  }

  /** Up to `budget` tokens, stopping after the first newline at or beyond `limit`. */
  function Run(c: Csv, s: State, atField: bool, budget: nat, limit: nat): Result
    requires s.pos <= |c.src|
    decreases budget
  {
    if s.pos == |c.src| || budget == 0 then Done([], s)
    else
      match Next(c, s, atField)
      case Bad => Failed
      case Emit(t, s', at) =>
        if t.kind == Newline && s'.pos >= limit then Done([t], s')
        else Cons(t, Run(c, s', at, budget - 1, limit))
  }

  /** Where a new call starts. */
  predicate Fresh(c: Csv, s: State) {
    s.fieldNext && !c.nullAware
  }

  function Call(c: Csv, s: State, budget: nat, sizeLimit: nat): Result
    requires s.pos <= |c.src|
  {
    Run(c, s, Fresh(c, s), budget, s.pos + Min(|c.src| - s.pos, sizeLimit))
  }

  // ---------------------------------------------------------------- the lexer

  method CountField(src: bytes, start: nat, sep: byte) returns (size: Option<nat>)
    requires start < |src|
    ensures size == match FieldEnd(src, start, sep) case None => None case Some(e) => Some(e - start)
  {
    var p := start;
    while p < |src|
      invariant start <= p <= |src|
      invariant FieldEnd(src, start, sep) == FieldEnd(src, p, sep)
      decreases |src| - p
    {
      if src[p] == QUOTE {
        var quote := p;
        p := p + 1;
        while p < |src| && src[p] != QUOTE
          invariant quote < p <= |src|
          invariant CloseQuote(src, quote + 1) == CloseQuote(src, p)
        {
          p := p + 1;
        }
        if p >= |src| {
          return None;
        }
        p := p + 1;
      } else if src[p] == NEWLINE || src[p] == sep {
        return Some(p - start);
      } else {
        p := p + 1;
      }
    }
    return Some(p - start);
  }

  method CountSeps(src: bytes, start: nat, sep: byte, nullAware: bool) returns (size: nat)
    requires start < |src| && src[start] == sep
    ensures size == if nullAware then SepEnd(src, start, sep) - start else 1
  {
    size := 1;
    if nullAware {
      while start + size < |src| && src[start + size] == sep
        invariant start + size <= |src| && SepEnd(src, start, sep) == SepEnd(src, start + size, sep)
      {
        size := size + 1;
      }
    }
  }

  /** The first n entries of the output arrays are these tokens. */
  ghost predicate Holds(types: array<Kind>, sizes: array<nat>, cols: array<nat>, tokens: seq<Token>)
    reads types, sizes, cols
  {
    && |tokens| <= types.Length && |tokens| <= sizes.Length && |tokens| <= cols.Length
    && forall i :: 0 <= i < |tokens| ==> Token(types[i], sizes[i], cols[i]) == tokens[i]
  }

  method Put(types: array<Kind>, sizes: array<nat>, cols: array<nat>, ghost tokens: seq<Token>, n: nat, t: Token)
    requires Holds(types, sizes, cols, tokens) && n == |tokens| && sizes != cols
    requires n < types.Length && n < sizes.Length && n < cols.Length
    modifies types, sizes, cols
    ensures Holds(types, sizes, cols, tokens + [t])
  {
    types[n], sizes[n], cols[n] := t.kind, t.size, t.col;
  }

  /** The result of a call that has given some tokens already. */
  ghost function Rest(tokens: seq<Token>, r: Result): Result {
    match r
    case Failed => Failed
    case Done(more, state) => Done(tokens + more, state)
  }

  lemma RestNothing(done: seq<Token>, r: Result, s: State)
    ensures Rest([], r) == r && Rest(done, Done([], s)) == Done(done, s)
  {
    match r {
      case Failed =>
      case Done(tokens, _) => assert [] + tokens == tokens;
    }
    assert done + [] == done;
  }

  /** One step of a call, after some tokens. */
  lemma RestStep(c: Csv, s: State, atField: bool, budget: nat, limit: nat, done: seq<Token>)
    requires s.pos < |c.src| && budget > 0
    ensures match Next(c, s, atField)
            case Bad => Rest(done, Run(c, s, atField, budget, limit)) == Failed
            case Emit(t, s', at) =>
              Rest(done, Run(c, s, atField, budget, limit))
              == if t.kind == Newline && s'.pos >= limit then Done(done + [t], s') else Rest(done + [t], Run(c, s', at, budget - 1, limit))
  {
    hide Next;
    var step := Next(c, s, atField);
    if step.Emit? {
      match Run(c, step.state, step.atField, budget - 1, limit) {
        case Failed =>
        case Done(more, _) => assert done + ([step.token] + more) == (done + [step.token]) + more;
      }
    }
  }

  /** Away from separators and newlines, both control points read a field. */
  lemma RunAtOther(c: Csv, s: State, budget: nat, limit: nat)
    requires s.pos <= |c.src|
    requires s.pos < |c.src| && budget > 0 ==> c.src[s.pos] != NEWLINE && c.src[s.pos] != c.sep
    ensures Run(c, s, false, budget, limit) == Run(c, s, true, budget, limit)
  {
  }

  method FieldToken(c: Csv, s: State, types: array<Kind>, sizes: array<nat>, cols: array<nat>, n: nat, ghost done: seq<Token>)
    returns (ok: bool, s': State)
    requires s.pos < |c.src| && Holds(types, sizes, cols, done) && n == |done| && sizes != cols
    requires n < types.Length && n < sizes.Length && n < cols.Length
    modifies types, sizes, cols
    ensures match Next(c, s, true)
            case Bad => !ok
            case Emit(t, state, _) => ok && s' == state && t.kind == Field && Holds(types, sizes, cols, done + [t])
  {
    hide FieldEnd, SepEnd;
    s' := s;
    var size := CountField(c.src, s.pos, c.sep);
    if size.None? {
      return false, s;
    }
    Put(types, sizes, cols, done, n, Token(Field, size.value, s.col));
    return true, s.(pos := s.pos + size.value, fieldNext := false);
  }

  method SeparatorToken(c: Csv, s: State, types: array<Kind>, sizes: array<nat>, cols: array<nat>, n: nat, ghost done: seq<Token>)
    returns (ok: bool, s': State)
    requires s.pos < |c.src| && (c.src[s.pos] == NEWLINE || c.src[s.pos] == c.sep)
    requires Holds(types, sizes, cols, done) && n == |done| && sizes != cols
    requires n < types.Length && n < sizes.Length && n < cols.Length
    modifies types, sizes, cols
    ensures match Next(c, s, false)
            case Bad => !ok
            case Emit(t, state, _) =>
              && ok && s' == state && (t.kind == Newline <==> c.src[s.pos] == NEWLINE) && t.kind != Field
              && Holds(types, sizes, cols, done + [t])
  {
    hide FieldEnd, SepEnd;
    s' := s;
    if c.src[s.pos] == NEWLINE {
      var numCols := if s.row == 0 then s.col + 1 else s.numCols;
      if s.col + 1 != numCols {
        return false, s;
      }
      Put(types, sizes, cols, done, n, Token(Newline, 1, 0));
      return true, State(s.pos + 1, s.row + 1, 0, numCols, true);
    }
    var size := CountSeps(c.src, s.pos, c.sep, c.nullAware);
    Put(types, sizes, cols, done, n, Token(Sep, size, 0));
    return true, s.(pos := s.pos + size, col := s.col + size, fieldNext := true);
  }

  class Lexer {
    const src: bytes
    const sep: byte
    const nullAware: bool
    var pos: nat
    var row: nat
    var col: nat
    var numCols: nat
    var fieldNext: bool

    constructor (source: bytes, separator: byte, isNullAware: bool)
      ensures Config() == Csv(source, separator, isNullAware) && Current() == START && Valid()
    {
      src, sep, nullAware := source, separator, isNullAware;
      pos, row, col, numCols, fieldNext := 0, 0, 0, 0, true;
    }

    ghost function Config(): Csv {
      Csv(src, sep, nullAware)
    }

    ghost function Current(): State
      reads this
    {
      State(pos, row, col, numCols, fieldNext)
    }

    ghost predicate Valid()
      reads this
    {
      pos <= |src|
    }

    predicate Finished()
      reads this
    {
      pos == |src|
    }

    /** Lexes up to maxTokens tokens into the arrays. On an error the state is unchanged. */
    method Lex(types: array<Kind>, sizes: array<nat>, cols: array<nat>, maxTokens: nat, sizeLimit: nat) returns (ok: bool, n: nat)
      requires Valid() && sizes != cols
      requires maxTokens <= types.Length && maxTokens <= sizes.Length && maxTokens <= cols.Length
      modifies this, types, sizes, cols
      ensures !ok ==> Current() == old(Current())
      ensures match old(Call(Config(), Current(), maxTokens, sizeLimit))
              case Failed => !ok
              case Done(tokens, state) => ok && n == |tokens| && Holds(types, sizes, cols, tokens) && Current() == state && Valid()
    {
      hide Call, Holds;
      var state;
      ok, n, state := LexLoop(Csv(src, sep, nullAware), State(pos, row, col, numCols, fieldNext),
                              types, sizes, cols, maxTokens, sizeLimit);
      if ok {
        ghost var tokens := Call(Config(), Current(), maxTokens, sizeLimit).tokens;
        HoldsLast(types, sizes, cols, tokens);
        pos, row, col, numCols := state.pos, state.row, state.col, state.numCols;
        if n > 0 {
          fieldNext := types[n - 1] != Field;
        }
      }
    }
  }

  /** The loop of a call, on a local copy of the state. */
  method LexLoop(c: Csv, start: State, types: array<Kind>, sizes: array<nat>, cols: array<nat>, maxTokens: nat, sizeLimit: nat)
    returns (ok: bool, n: nat, s: State)
    requires start.pos <= |c.src| && sizes != cols
    requires maxTokens <= types.Length && maxTokens <= sizes.Length && maxTokens <= cols.Length
    modifies types, sizes, cols
    ensures match Call(c, start, maxTokens, sizeLimit)
            case Failed => !ok
            case Done(tokens, state) =>
              && ok && n == |tokens| && Holds(types, sizes, cols, tokens) && s == state && s.pos <= |c.src|
              && s.fieldNext == if n == 0 then start.fieldNext else tokens[n - 1].kind != Field
  {
    hide Run, Next, Rest, Holds;
    s := start;
    var limit := s.pos + Min(|c.src| - s.pos, sizeLimit);
    ghost var whole := Call(c, s, maxTokens, sizeLimit);
    ghost var done: seq<Token> := [];
    n := 0;
    // set when control jumps to the separator
    var skipField := !s.fieldNext || c.nullAware;
    var stopped := false;
    RestNothing(done, whole, s);
    HoldsNothing(types, sizes, cols);
    while !stopped && (skipField || (s.pos < |c.src| && n < maxTokens))
      invariant s.pos <= |c.src| && n == |done| <= maxTokens && Holds(types, sizes, cols, done)
      invariant whole == if stopped then Done(done, s) else Rest(done, Run(c, s, !skipField, maxTokens - n, limit))
      invariant s.fieldNext == if n == 0 then start.fieldNext else done[n - 1].kind != Field
      decreases !stopped, maxTokens - n, skipField
    {
      if !skipField {
        RestStep(c, s, true, maxTokens - n, limit, done);
        ghost var step := Next(c, s, true);
        ok, s := FieldToken(c, s, types, sizes, cols, n, done);
        if !ok {
          return;
        }
        done := done + [step.token];
        n := n + 1;
      }
      skipField := false;
      if s.pos < |c.src| && n < maxTokens && (c.src[s.pos] == NEWLINE || c.src[s.pos] == c.sep) {
        RestStep(c, s, false, maxTokens - n, limit, done);
        ghost var step := Next(c, s, false);
        var isNewline := c.src[s.pos] == NEWLINE;
        ok, s := SeparatorToken(c, s, types, sizes, cols, n, done);
        if !ok {
          return;
        }
        done := done + [step.token];
        n := n + 1;
        if isNewline {
          stopped := s.pos >= limit;
          skipField := c.nullAware;
        }
      } else {
        RunAtOther(c, s, maxTokens - n, limit);
      }
    }
    CallEnds(c, s, maxTokens - n, limit, done);
    ok := true;
  }

  lemma HoldsNothing(types: array<Kind>, sizes: array<nat>, cols: array<nat>)
    ensures Holds(types, sizes, cols, [])
  {
  }

  lemma HoldsLast(types: array<Kind>, sizes: array<nat>, cols: array<nat>, tokens: seq<Token>)
    requires Holds(types, sizes, cols, tokens)
    ensures |tokens| <= types.Length && |tokens| <= sizes.Length && |tokens| <= cols.Length
    ensures tokens != [] ==> types[|tokens| - 1] == tokens[|tokens| - 1].kind
  {
    if tokens != [] {
      var i := |tokens| - 1;
      assert Token(types[i], sizes[i], cols[i]) == tokens[i];
    }
  }

  lemma CallEnds(c: Csv, s: State, budget: nat, limit: nat, done: seq<Token>)
    requires s.pos <= |c.src|
    ensures s.pos == |c.src| || budget == 0 ==> Rest(done, Run(c, s, true, budget, limit)) == Done(done, s)
  {
    assert done + [] == done;
  }
}
