/** What the CSV lexer promises: its stream does not depend on how calls are split, and it agrees
    with reading the text byte by byte and counting quotes. */
module CsvSpec {
  import opened Bytes
  import opened CsvLexer
  import opened TokenStreams

  // ---------------------------------------------------------------- the whole stream

  ghost function All(c: Csv, s: State, atField: bool): Stream<Token>
    requires s.pos <= |c.src|
    decreases |c.src| - s.pos, atField
  {
    if s.pos == |c.src| then Stream([], true)
    else
      match Next(c, s, atField)
      case Bad => Stream([], false)
      case Emit(t, s', at) =>
        var rest := All(c, s', at);
        Stream([t] + rest.tokens, rest.ok)
  }

  /** Everything a new call could still give. */
  ghost function AllFrom(c: Csv, s: State): Stream<Token>
    requires s.pos <= |c.src|
  {
    All(c, s, Fresh(c, s))
  }

  ghost function Append(tokens: seq<Token>, r: Stream<Token>): Stream<Token> {
    Stream(tokens + r.tokens, r.ok)
  }

  // ---------------------------------------------------------------- splitting calls, without null-awareness

  lemma {:induction false} RunPart(c: Csv, s: State, budget: nat, limit: nat)
    requires !c.nullAware && s.pos <= |c.src|
    ensures match Run(c, s, Fresh(c, s), budget, limit)
            case Failed => !AllFrom(c, s).ok
            case Done(tokens, state) => state.pos <= |c.src| && AllFrom(c, s) == Append(tokens, AllFrom(c, state))
    decreases budget
  {
    hide Next;
    assert [] + AllFrom(c, s).tokens == AllFrom(c, s).tokens;
    if s.pos < |c.src| && budget > 0 {
      var step := Next(c, s, Fresh(c, s));
      if step.Emit? {
        RunPart(c, step.state, budget - 1, limit);
        var r := Run(c, step.state, step.atField, budget - 1, limit);
        if r.Done? {
          assert [step.token] + (r.tokens + AllFrom(c, r.state).tokens) == ([step.token] + r.tokens) + AllFrom(c, r.state).tokens;
        }
        assert [step.token] + AllFrom(c, step.state).tokens == AllFrom(c, s).tokens;
      }
    }
  }

  /** The result of calls with these budgets and size limits, one after the other. */
  ghost function Calls(c: Csv, s: State, calls: seq<(nat, nat)>): Result
    requires s.pos <= |c.src|
    decreases |calls|
  {
    if calls == [] then Done([], s)
    else
      match Call(c, s, calls[0].0, calls[0].1)
      case Failed => Failed
      case Done(tokens, state) =>
        if state.pos > |c.src| then Failed
        else
          match Calls(c, state, calls[1..])
          case Failed => Failed
          case Done(more, last) => Done(tokens + more, last)
  }

  /** Without null-awareness, however calls are split, their tokens are one and the same stream, and
      what remains is the rest of it. */
  lemma {:induction false} CallsAgree(c: Csv, s: State, calls: seq<(nat, nat)>)
    requires !c.nullAware && s.pos <= |c.src|
    ensures match Calls(c, s, calls)
            case Failed => !AllFrom(c, s).ok
            case Done(tokens, state) => state.pos <= |c.src| && AllFrom(c, s) == Append(tokens, AllFrom(c, state))
    decreases |calls|
  {
    hide AllFrom, Run;
    assert [] + AllFrom(c, s).tokens == AllFrom(c, s).tokens;
    if calls != [] {
      RunPart(c, s, calls[0].0, s.pos + Min(|c.src| - s.pos, calls[0].1));
      var first := Call(c, s, calls[0].0, calls[0].1);
      if first.Done? {
        CallsAgree(c, first.state, calls[1..]);
        var rest := Calls(c, first.state, calls[1..]);
        if rest.Done? {
          assert first.tokens + (rest.tokens + AllFrom(c, rest.state).tokens)
              == (first.tokens + rest.tokens) + AllFrom(c, rest.state).tokens;
        }
      }
    }
  }

  // ---------------------------------------------------------------- splitting calls, with null-awareness

  /** The tokens without empty fields. */
  ghost function Kept(tokens: seq<Token>): seq<Token> {
    if tokens == [] then []
    else (if tokens[0].kind == Field && tokens[0].size == 0 then [] else [tokens[0]]) + Kept(tokens[1..])
  }

  lemma {:induction false} KeptConcat(a: seq<Token>, b: seq<Token>)
    ensures Kept(a + b) == Kept(a) + Kept(b)
  {
    if a == [] {
      assert a + b == b;
    } else {
      assert (a + b)[1..] == a[1..] + b && (a + b)[0] == a[0];
      KeptConcat(a[1..], b);
      var head := if a[0].kind == Field && a[0].size == 0 then [] else [a[0]];
      assert head + (Kept(a[1..]) + Kept(b)) == (head + Kept(a[1..])) + Kept(b);
    }
  }

  ghost function KeptStream(r: Stream<Token>): Stream<Token> {
    Stream(Kept(r.tokens), r.ok)
  }

  /** At a control point that reads a field there is no separator: a run of them was one token. */
  ghost predicate NoSepAhead(c: Csv, s: State, atField: bool) {
    atField && s.pos < |c.src| ==> c.src[s.pos] != c.sep
  }

  lemma NextNoSep(c: Csv, s: State, atField: bool)
    requires c.nullAware && s.pos < |c.src| && Next(c, s, atField).Emit?
    ensures NoSepAhead(c, Next(c, s, atField).state, Next(c, s, atField).atField)
  {
  }

  /** Reading a field where there is none only adds an empty field. */
  lemma ControlPoint(c: Csv, s: State)
    requires c.nullAware && s.pos <= |c.src| && NoSepAhead(c, s, true)
    ensures KeptStream(All(c, s, true)) == KeptStream(All(c, s, false))
  {
    if s.pos < |c.src| && c.src[s.pos] == NEWLINE {
      var step := Next(c, s, true);
      assert FieldEnd(c.src, s.pos, c.sep) == Some(s.pos);
      assert step.token == Token(Field, 0, s.col);
      AllIgnoresFieldNext(c, step.state, s);
      var rest := All(c, s, false).tokens;
      assert All(c, s, true).tokens == [step.token] + rest;
      assert ([step.token] + rest)[1..] == rest;
    }
  }

  lemma {:induction false} AllIgnoresFieldNext(c: Csv, a: State, b: State)
    requires a.pos <= |c.src| && a.(fieldNext := b.fieldNext) == b
    ensures All(c, a, false) == All(c, b, false)
  {
    if a.pos < |c.src| {
      NextIgnoresFieldNext(c, a, b);
      hide Next;
      assert Next(c, a, false) == Next(c, b, false);
    }
  }

  lemma NextIgnoresFieldNext(c: Csv, a: State, b: State)
    requires a.pos < |c.src| && a.(fieldNext := b.fieldNext) == b
    ensures Next(c, a, false) == Next(c, b, false)
  {
    hide FieldEnd, SepEnd;
  }

  lemma {:induction false} RunKept(c: Csv, s: State, atField: bool, budget: nat, limit: nat)
    requires c.nullAware && s.pos <= |c.src| && NoSepAhead(c, s, atField)
    ensures match Run(c, s, atField, budget, limit)
            case Failed => !All(c, s, atField).ok
            case Done(tokens, state) =>
              && state.pos <= |c.src|
              && KeptStream(All(c, s, atField)) == KeptStream(Append(tokens, AllFrom(c, state)))
    decreases budget
  {
    hide Next, Kept;
    if s.pos == |c.src| || budget == 0 {
      assert [] + All(c, s, false).tokens == All(c, s, false).tokens;
      if atField {
        ControlPoint(c, s);
      }
    } else {
      var step := Next(c, s, atField);
      if step.Emit? {
        NextNoSep(c, s, atField);
        var t, s' := step.token, step.state;
        if t.kind == Newline && s'.pos >= limit {
          assert [t] + AllFrom(c, s').tokens == All(c, s, atField).tokens;
        } else {
          RunKept(c, s', step.atField, budget - 1, limit);
          var r := Run(c, s', step.atField, budget - 1, limit);
          KeptConcat([t], All(c, s', step.atField).tokens);
          if r.Done? {
            var rest := r.tokens + AllFrom(c, r.state).tokens;
            KeptConcat([t], rest);
            assert [t] + rest == ([t] + r.tokens) + AllFrom(c, r.state).tokens;
          }
        }
      }
    }
  }

  /** With null-awareness, the streams agree once empty fields are dropped. */
  lemma {:induction false} CallsAgreeKept(c: Csv, s: State, calls: seq<(nat, nat)>)
    requires c.nullAware && s.pos <= |c.src|
    ensures match Calls(c, s, calls)
            case Failed => !AllFrom(c, s).ok
            case Done(tokens, state) => state.pos <= |c.src| && KeptStream(AllFrom(c, s)) == KeptStream(Append(tokens, AllFrom(c, state)))
    decreases |calls|
  {
    hide All, Run, Kept;
    assert [] + AllFrom(c, s).tokens == AllFrom(c, s).tokens;
    if calls != [] {
      RunKept(c, s, false, calls[0].0, s.pos + Min(|c.src| - s.pos, calls[0].1));
      var first := Call(c, s, calls[0].0, calls[0].1);
      if first.Done? {
        CallsAgreeKept(c, first.state, calls[1..]);
        var rest := Calls(c, first.state, calls[1..]);
        KeptConcat(first.tokens, AllFrom(c, first.state).tokens);
        if rest.Done? {
          var more := rest.tokens + AllFrom(c, rest.state).tokens;
          KeptConcat(first.tokens, more);
          assert first.tokens + more == (first.tokens + rest.tokens) + AllFrom(c, rest.state).tokens;
        }
      }
    }
  }

  /** A call ended between a separator and a newline: the empty field between them, which a longer
      call gives, is lost. */
  ghost predicate DropsField(c: Csv, tokens: seq<Token>, state: State) {
    tokens != [] && tokens[|tokens| - 1].kind == Sep && AtNewline(c, state)
  }

  ghost predicate AtNewline(c: Csv, s: State) {
    s.pos < |c.src| && c.src[s.pos] == NEWLINE
  }

  lemma ControlPointExactly(c: Csv, s: State)
    requires c.nullAware && s.pos <= |c.src| && NoSepAhead(c, s, true)
    ensures !AtNewline(c, s) ==> All(c, s, true) == All(c, s, false)
    ensures AtNewline(c, s) ==> |All(c, s, true).tokens| == |All(c, s, false).tokens| + 1
  {
    if AtNewline(c, s) {
      var step := Next(c, s, true);
      assert FieldEnd(c.src, s.pos, c.sep) == Some(s.pos);
      AllIgnoresFieldNext(c, step.state, s);
    }
  }

  /** Whether stopping here loses a token: at a newline where a field, if only an empty one, is read. */
  ghost predicate Loses(c: Csv, atField: bool, tokens: seq<Token>, state: State) {
    AtNewline(c, state) && if tokens == [] then atField else tokens[|tokens| - 1].kind == Sep
  }

  /** A stream is the same as its parts, or has one token more. */
  ghost predicate SameBut(all: Stream<Token>, parts: Stream<Token>, one: bool) {
    if one then |all.tokens| == |parts.tokens| + 1 else all == parts
  }

  lemma SameButCons(t: Token, all: Stream<Token>, tokens: seq<Token>, rest: Stream<Token>, one: bool)
    requires SameBut(all, Append(tokens, rest), one)
    ensures SameBut(Append([t], all), Append([t] + tokens, rest), one)
  {
    assert [t] + (tokens + rest.tokens) == ([t] + tokens) + rest.tokens;
  }

  lemma LosesCons(c: Csv, s: State, atField: bool, tokens: seq<Token>, state: State)
    requires c.nullAware && s.pos < |c.src| && Next(c, s, atField).Emit?
    ensures var step := Next(c, s, atField);
            Loses(c, atField, [step.token] + tokens, state) == Loses(c, step.atField, tokens, state)
  {
    hide Next;
    var t := Next(c, s, atField).token;
    assert ([t] + tokens)[|tokens|] == if tokens == [] then t else tokens[|tokens| - 1];
  }

  lemma {:induction false} RunExactly(c: Csv, s: State, atField: bool, budget: nat, limit: nat)
    requires c.nullAware && s.pos <= |c.src| && NoSepAhead(c, s, atField)
    ensures match Run(c, s, atField, budget, limit)
            case Failed => true
            case Done(tokens, state) =>
              && state.pos <= |c.src|
              && SameBut(All(c, s, atField), Append(tokens, AllFrom(c, state)), Loses(c, atField, tokens, state))
    decreases budget
  {
    if s.pos == |c.src| || budget == 0 {
      StopExactly(c, s, atField);
    } else {
      AllUnfold(c, s, atField);
      RunUnfold(c, s, atField, budget, limit);
      hide Run, All, AllFrom, Next, NoSepAhead, SameBut, Loses, Append;
      var step := Next(c, s, atField);
      if step.Emit? {
        NextNoSep(c, s, atField);
        RunExactly(c, step.state, step.atField, budget - 1, limit);
        StopExactly(c, step.state, step.atField);
        var stop := step.token.kind == Newline && step.state.pos >= limit;
        var r := if stop then Done([], step.state) else Run(c, step.state, step.atField, budget - 1, limit);
        if r.Done? {
          LosesCons(c, s, atField, r.tokens, r.state);
          SameButCons(step.token, All(c, step.state, step.atField), r.tokens, AllFrom(c, r.state), Loses(c, step.atField, r.tokens, r.state));
        }
      }
    }
  }

  lemma StopExactly(c: Csv, s: State, atField: bool)
    requires c.nullAware && s.pos <= |c.src| && NoSepAhead(c, s, atField)
    ensures SameBut(All(c, s, atField), Append([], AllFrom(c, s)), Loses(c, atField, [], s))
  {
    hide All, NoSepAhead;
    assert [] + All(c, s, false).tokens == All(c, s, false).tokens;
    if atField {
      ControlPointExactly(c, s);
    }
  }

  /** The number of calls that end between a separator and a newline. */
  ghost function Drops(c: Csv, s: State, calls: seq<(nat, nat)>): nat
    requires s.pos <= |c.src|
    decreases |calls|
  {
    if calls == [] then 0
    else
      match Call(c, s, calls[0].0, calls[0].1)
      case Failed => 0
      case Done(tokens, state) =>
        if state.pos > |c.src| then 0
        else (if DropsField(c, tokens, state) then 1 else 0) + Drops(c, state, calls[1..])
  }

  lemma {:induction false} CallsExactly(c: Csv, s: State, calls: seq<(nat, nat)>)
    requires c.nullAware && s.pos <= |c.src|
    ensures match Calls(c, s, calls)
            case Failed => true
            case Done(tokens, state) =>
              && state.pos <= |c.src|
              && var all, parts := AllFrom(c, s), Append(tokens, AllFrom(c, state));
                 |all.tokens| == |parts.tokens| + Drops(c, s, calls) && (Drops(c, s, calls) == 0 ==> all == parts)
    decreases |calls|
  {
    hide All, Run, AtNewline;
    assert [] + AllFrom(c, s).tokens == AllFrom(c, s).tokens;
    if calls != [] {
      RunExactly(c, s, false, calls[0].0, s.pos + Min(|c.src| - s.pos, calls[0].1));
      var first := Call(c, s, calls[0].0, calls[0].1);
      if first.Done? {
        CallsExactly(c, first.state, calls[1..]);
        var rest := Calls(c, first.state, calls[1..]);
        if rest.Done? {
          var more := AllFrom(c, rest.state).tokens;
          assert first.tokens + (rest.tokens + more) == (first.tokens + rest.tokens) + more;
        }
      }
    }
  }

  /** With null-awareness, split calls give the stream of one call exactly when none of them ends
      between a separator and a newline. */
  lemma CallsAgreeExactly(c: Csv, s: State, calls: seq<(nat, nat)>)
    requires c.nullAware && s.pos <= |c.src|
    ensures match Calls(c, s, calls)
            case Failed => true
            case Done(tokens, state) =>
              && state.pos <= |c.src|
              && (AllFrom(c, s) == Append(tokens, AllFrom(c, state)) <==> Drops(c, s, calls) == 0)
  {
    hide All, Calls, Drops;
    CallsExactly(c, s, calls);
  }

  /** With null-awareness the streams themselves can differ: for "a,\n" one call gives an empty field
      before the newline, calls for one token each do not. */
  lemma NullAwareSplitDiffers(c: Csv)
    requires c == Csv([0x61, 0x2C, NEWLINE], 0x2C, true)
    ensures Call(c, START, 9, 9) == Done([Token(Field, 1, 0), Token(Sep, 1, 0), Token(Field, 0, 1), Token(Newline, 1, 0)], State(3, 1, 0, 2, true))
    ensures Calls(c, START, [(1, 0), (1, 0), (1, 0)]) == Done([Token(Field, 1, 0), Token(Sep, 1, 0), Token(Newline, 1, 0)], State(3, 1, 0, 2, true))
  {
    var a, b, d, e := START, State(1, 0, 0, 0, false), State(2, 0, 1, 0, true), State(2, 0, 1, 0, false);
    var end := State(3, 1, 0, 2, true);
    assert FieldEnd(c.src, 0, c.sep) == Some(1) by { assert FieldEnd(c.src, 1, c.sep) == Some(1); }
    assert FieldEnd(c.src, 2, c.sep) == Some(2);
    assert SepEnd(c.src, 1, c.sep) == 2;
    assert Next(c, a, false) == Emit(Token(Field, 1, 0), b, false);
    assert Next(c, b, false) == Emit(Token(Sep, 1, 0), d, true);
    assert Next(c, d, true) == Emit(Token(Field, 0, 1), e, false);
    assert Next(c, e, false) == Next(c, d, false) == Emit(Token(Newline, 1, 0), end, false);
    assert Run(c, e, false, 6, 3) == Done([Token(Newline, 1, 0)], end);
    assert Run(c, d, true, 7, 3) == Cons(Token(Field, 0, 1), Run(c, e, false, 6, 3));
    assert Run(c, b, false, 8, 3) == Cons(Token(Sep, 1, 0), Run(c, d, true, 7, 3));
    assert Call(c, a, 1, 0) == Cons(Token(Field, 1, 0), Run(c, b, false, 0, 0));
    assert Call(c, b, 1, 0) == Cons(Token(Sep, 1, 0), Run(c, d, true, 0, 1));
    assert Call(c, d, 1, 0) == Done([Token(Newline, 1, 0)], end);
    var calls: seq<(nat, nat)> := [(1, 0), (1, 0), (1, 0)];
    assert calls[1..] == [(1, 0), (1, 0)] && calls[1..][1..] == [(1, 0)] && |calls[1..][1..][1..]| == 0;
  }

  // ---------------------------------------------------------------- progress

  /** A call with a budget on unfinished input that does not fail gives a token, and makes progress
      in the bytes left or, reading an empty field, in what is expected next. */
  lemma CallProgress(c: Csv, s: State, budget: nat, sizeLimit: nat)
    requires s.pos < |c.src| && budget > 0
    ensures match Call(c, s, budget, sizeLimit)
            case Failed => true
            case Done(tokens, state) =>
              tokens != [] && (state.pos > s.pos || (state.pos == s.pos && s.fieldNext && !state.fieldNext))
  {
    var limit := s.pos + Min(|c.src| - s.pos, sizeLimit);
    var step := Next(c, s, Fresh(c, s));
    if step.Emit? {
      RunMonotone(c, step.state, step.atField, budget - 1, limit);
    }
  }

  lemma {:induction false} RunMonotone(c: Csv, s: State, atField: bool, budget: nat, limit: nat)
    requires s.pos <= |c.src|
    ensures match Run(c, s, atField, budget, limit)
            case Failed => true
            case Done(tokens, state) => state.pos > s.pos || (state.pos == s.pos && (state.fieldNext ==> s.fieldNext))
    decreases budget
  {
    hide FieldEnd, SepEnd;
    if s.pos < |c.src| && budget > 0 {
      var step := Next(c, s, atField);
      if step.Emit? {
        RunMonotone(c, step.state, step.atField, budget - 1, limit);
      }
    }
  }

  // ---------------------------------------------------------------- where a call stops

  ghost function SizeOf(tokens: seq<Token>): nat {
    if tokens == [] then 0 else tokens[0].size + SizeOf(tokens[1..])
  }

  /** No newline token before the last token ends so many bytes on, or more. */
  ghost predicate NewlinesWithin(tokens: seq<Token>, room: int) {
    forall k :: 0 <= k < |tokens| - 1 && tokens[k].kind == Newline ==> SizeOf(tokens[..k + 1]) < room
  }

  lemma NewlinesCons(t: Token, rest: seq<Token>, room: int)
    requires NewlinesWithin(rest, room - t.size) && (t.kind == Newline && rest != [] ==> t.size < room)
    ensures NewlinesWithin([t] + rest, room)
  {
    var all := [t] + rest;
    forall k | 0 <= k < |all| - 1 && all[k].kind == Newline ensures SizeOf(all[..k + 1]) < room {
      assert all[..k + 1] == [t] + rest[..k];
      SizeOfCons(t, rest[..k]);
      if k == 0 {
        assert rest[..0] == [];
      } else {
        assert rest[k - 1].kind == Newline;
      }
    }
  }

  /** The tokens of a run cover what it moves over. It passes no newline at or beyond the limit, and
      with budget left before the end of the text it has stopped at one. */
  lemma {:induction false} RunStops(c: Csv, s: State, atField: bool, budget: nat, limit: nat)
    requires s.pos <= |c.src|
    ensures match Run(c, s, atField, budget, limit)
            case Failed => true
            case Done(tokens, state) =>
              && |tokens| <= budget && state.pos == s.pos + SizeOf(tokens) <= |c.src|
              && NewlinesWithin(tokens, limit - s.pos)
              && (|tokens| < budget && state.pos < |c.src| ==> tokens != [] && tokens[|tokens| - 1].kind == Newline && state.pos >= limit)
    decreases budget
  {
    hide Next, NewlinesWithin, SizeOf;
    NewlinesNone(Token(Newline, 1, 0), limit - s.pos);
    SizeOfCons(Token(Newline, 1, 0), []);
    if s.pos < |c.src| && budget > 0 {
      RunUnfold(c, s, atField, budget, limit);
      hide Run;
      var step := Next(c, s, atField);
      if step.Emit? {
        var t, s' := step.token, step.state;
        NewlinesNone(t, limit - s.pos);
        SizeOfCons(t, []);
        if t.kind != Newline || s'.pos < limit {
          RunStops(c, s', step.atField, budget - 1, limit);
          var r := Run(c, s', step.atField, budget - 1, limit);
          if r.Done? {
            TokensAfter(t, r);
            SizeOfCons(t, r.tokens);
            NewlinesCons(t, r.tokens, limit - s.pos);
          }
        }
      }
    }
  }

  lemma NewlinesNone(t: Token, room: int)
    ensures NewlinesWithin([], room) && NewlinesWithin([t], room)
  {
  }

  lemma SizeOfCons(t: Token, rest: seq<Token>)
    ensures SizeOf([t] + rest) == t.size + SizeOf(rest) && SizeOf([]) == 0 && SizeOf([t]) == t.size
  {
    assert ([t] + rest)[1..] == rest && [t][1..] == [];
  }

  /** A call passes no newline that ends at or beyond the size limit, and stops after the first such
      newline: when it has neither used up its tokens nor reached the end, it has just passed one. */
  lemma CallStops(c: Csv, s: State, budget: nat, sizeLimit: nat)
    requires s.pos <= |c.src|
    ensures match Call(c, s, budget, sizeLimit)
            case Failed => true
            case Done(tokens, state) =>
              && |tokens| <= budget && state.pos == s.pos + SizeOf(tokens) <= |c.src|
              && (forall k :: 0 <= k < |tokens| - 1 && tokens[k].kind == Newline ==> SizeOf(tokens[..k + 1]) < sizeLimit)
              && (|tokens| < budget && state.pos < |c.src| ==>
                    tokens != [] && tokens[|tokens| - 1].kind == Newline && SizeOf(tokens) >= sizeLimit)
  {
    hide Run;
    RunStops(c, s, Fresh(c, s), budget, s.pos + Min(|c.src| - s.pos, sizeLimit));
  }

  // ---------------------------------------------------------------- counting quotes

  /** An even number of quotes precedes position i. */
  ghost function Even(src: bytes, i: nat): bool
    requires i <= |src|
  {
    i == 0 || (if src[i - 1] == '"' as int then !Even(src, i - 1) else Even(src, i - 1))
  }

  ghost predicate SepAt(c: Csv, i: nat) {
    i < |c.src| && c.src[i] == c.sep && Even(c.src, i)
  }

  ghost predicate RowEnd(c: Csv, i: nat) {
    i < |c.src| && c.src[i] == '\n' as int && Even(c.src, i)
  }

  /** The number of separators since the row began. */
  ghost function Column(c: Csv, i: nat): nat
    requires i <= |c.src|
  {
    if i == 0 || RowEnd(c, i - 1) then 0 else Column(c, i - 1) + if SepAt(c, i - 1) then 1 else 0
  }

  /** All terminated rows have the same number of separators. */
  ghost predicate RowsUniform(c: Csv) {
    forall i, j :: RowEnd(c, i) && RowEnd(c, j) ==> Column(c, i) == Column(c, j)
  }

  /** A usual separator. */
  predicate PlainSep(c: Csv) {
    c.sep != '"' as int && c.sep != '\n' as int
  }

  /** Between two positions there is no separator and no row end, and no open quote at the second. */
  ghost predicate Quiet(c: Csv, p: nat, e: nat) {
    p <= e <= |c.src| && Even(c.src, e) && forall i :: p <= i < e ==> !SepAt(c, i) && !RowEnd(c, i)
  }

  lemma {:induction false} QuoteCloses(src: bytes, p: nat)
    requires p <= |src| && !Even(src, p)
    ensures match CloseQuote(src, p)
            case None => !Even(src, |src|)
            case Some(q) => Even(src, q + 1) && forall i :: p <= i <= q ==> !Even(src, i)
    decreases |src| - p
  {
    if p < |src| && src[p] != QUOTE {
      QuoteCloses(src, p + 1);
    }
  }

  /** A field ends at the first separator or row end; it fails only when a quote stays open. */
  lemma {:induction false} FieldIsQuiet(c: Csv, p: nat)
    requires PlainSep(c) && p <= |c.src| && Even(c.src, p)
    ensures match FieldEnd(c.src, p, c.sep)
            case None => !Even(c.src, |c.src|)
            case Some(e) => Quiet(c, p, e)
    decreases |c.src| - p
  {
    if p < |c.src| {
      if c.src[p] == QUOTE {
        QuoteCloses(c.src, p + 1);
        match CloseQuote(c.src, p + 1) {
          case None =>
          case Some(q) => FieldIsQuiet(c, q + 1);
        }
      } else if c.src[p] != NEWLINE && c.src[p] != c.sep {
        FieldIsQuiet(c, p + 1);
      }
    }
  }

  /** The column does not change over quiet text, quoted or not. */
  lemma {:induction false} QuietStep(c: Csv, p: nat, e: nat)
    requires p <= e <= |c.src| && forall i :: p <= i < e ==> !SepAt(c, i) && !RowEnd(c, i)
    ensures Column(c, e) == Column(c, p)
    decreases e
  {
    if p < e {
      QuietStep(c, p, e - 1);
    }
  }

  lemma {:induction false} SepsColumn(c: Csv, p: nat, e: nat)
    requires PlainSep(c) && p <= e <= |c.src| && Even(c.src, p) && forall i :: p <= i < e ==> c.src[i] == c.sep
    ensures Even(c.src, e) && Column(c, e) == Column(c, p) + (e - p) && forall i :: p <= i < e ==> SepAt(c, i)
    decreases e
  {
    if p < e {
      SepsColumn(c, p, e - 1);
      assert SepAt(c, e - 1) && !RowEnd(c, e - 1);
    }
  }

  // ---------------------------------------------------------------- the refinement

  /** What the state means: no open quote, the column, and the width of all rows so far. */
  ghost predicate Means(c: Csv, s: State) {
    && s.pos <= |c.src| && Even(c.src, s.pos) && s.col == Column(c, s.pos)
    && (s.row == 0 ==> forall i :: 0 <= i < s.pos ==> !RowEnd(c, i))
    && (s.row > 0 ==> exists i :: 0 <= i < s.pos && RowEnd(c, i))
    && (s.row > 0 ==> forall i :: 0 <= i < s.pos && RowEnd(c, i) ==> Column(c, i) + 1 == s.numCols)
  }

  /** What a token means: a field holds no separator or row end and knows its column, a separator
      token holds separators only, a newline token one row end. */
  ghost predicate TokenMeans(c: Csv, t: Token, p: nat) {
    p + t.size <= |c.src| &&
    match t.kind
    case Field => t.col == Column(c, p) && Quiet(c, p, p + t.size)
    case Sep => t.size > 0 && t.col == 0 && forall i :: p <= i < p + t.size ==> SepAt(c, i)
    case Newline => t.size == 1 && t.col == 0 && RowEnd(c, p)
  }

  lemma FieldMeans(c: Csv, s: State)
    requires PlainSep(c) && Means(c, s) && s.pos < |c.src|
    ensures match FieldStep(c, s)
            case Bad => !Even(c.src, |c.src|)
            case Emit(t, s', _) => TokenMeans(c, t, s.pos) && Means(c, s')
  {
    hide Even, Column, FieldEnd;
    FieldIsQuiet(c, s.pos);
    match FieldEnd(c.src, s.pos, c.sep) {
      case None =>
      case Some(e) => QuietStep(c, s.pos, e);
    }
  }

  lemma SepMeans(c: Csv, s: State)
    requires PlainSep(c) && Means(c, s) && s.pos < |c.src| && c.src[s.pos] == c.sep
    ensures match SepStep(c, s)
            case Bad => false
            case Emit(t, s', _) => TokenMeans(c, t, s.pos) && Means(c, s')
  {
    hide Even, Column, SepEnd;
    var t := SepStep(c, s).token;
    SepNonEmpty(c, s.pos);
    SepsColumn(c, s.pos, s.pos + t.size);
  }

  lemma SepNonEmpty(c: Csv, p: nat)
    requires p < |c.src| && c.src[p] == c.sep
    ensures p < SepEnd(c.src, p, c.sep)
  {
  }

  lemma NewlineMeans(c: Csv, s: State)
    requires PlainSep(c) && Means(c, s) && s.pos < |c.src| && c.src[s.pos] == NEWLINE
    ensures match NewlineStep(c, s)
            case Bad => !RowsUniform(c)
            case Emit(t, s', _) => TokenMeans(c, t, s.pos) && Means(c, s')
  {
    assert RowEnd(c, s.pos);
    assert Even(c.src, s.pos + 1) && Column(c, s.pos + 1) == 0;
    hide Even, Column;
    if NewlineStep(c, s).Bad? {
      var i :| 0 <= i < s.pos && RowEnd(c, i);
      assert Column(c, i) != Column(c, s.pos);
    }
  }

  lemma NextMeans(c: Csv, s: State, atField: bool)
    requires PlainSep(c) && Means(c, s) && s.pos < |c.src|
    ensures match Next(c, s, atField)
            case Bad => !(Even(c.src, |c.src|) && RowsUniform(c))
            case Emit(t, s', _) => TokenMeans(c, t, s.pos) && Means(c, s')
  {
    hide Even, Column, Means, TokenMeans, RowsUniform, FieldStep, SepStep, NewlineStep;
    if !atField && c.src[s.pos] == NEWLINE {
      NewlineMeans(c, s);
    } else if !atField && c.src[s.pos] == c.sep {
      SepMeans(c, s);
    } else {
      FieldMeans(c, s);
    }
  }

  /** Each token, at its place in the text, means what it should. */
  ghost predicate TokensMean(c: Csv, tokens: seq<Token>, p: nat)
    decreases |tokens|
  {
    tokens == [] || (TokenMeans(c, tokens[0], p) && TokensMean(c, tokens[1..], p + tokens[0].size))
  }

  lemma UniformFrom(c: Csv, s: State)
    requires Means(c, s) && s.pos == |c.src|
    ensures RowsUniform(c)
  {
  }

  lemma TokensMeanNone(c: Csv, p: nat)
    ensures TokensMean(c, [], p)
  {
  }

  lemma TokensMeanCons(c: Csv, t: Token, rest: seq<Token>, p: nat)
    ensures TokensMean(c, [t] + rest, p) <==> TokenMeans(c, t, p) && TokensMean(c, rest, p + t.size)
    ensures SizeOf([t] + rest) == t.size + SizeOf(rest)
  {
    hide TokenMeans;
    assert ([t] + rest)[1..] == rest;
  }

  lemma AllNothing(c: Csv, s: State)
    requires s.pos == |c.src| && Means(c, s)
    ensures TokensMean(c, [], s.pos) && SizeOf([]) == 0 && Even(c.src, |c.src|)
  {
  }

  lemma RunUnfold(c: Csv, s: State, atField: bool, budget: nat, limit: nat)
    requires s.pos < |c.src| && budget > 0
    ensures match Next(c, s, atField)
            case Bad => Run(c, s, atField, budget, limit) == Failed
            case Emit(t, s', at) =>
              && s'.pos <= |c.src|
              && Run(c, s, atField, budget, limit)
                 == if t.kind == Newline && s'.pos >= limit then Done([t], s') else Cons(t, Run(c, s', at, budget - 1, limit))
  {
    hide Next;
  }

  lemma AllUnfold(c: Csv, s: State, atField: bool)
    requires s.pos <= |c.src|
    ensures if s.pos == |c.src| then All(c, s, atField) == Stream([], true)
            else match Next(c, s, atField)
            case Bad => All(c, s, atField) == Stream([], false)
            case Emit(t, s', at) => s'.pos <= |c.src| && All(c, s, atField) == Append([t], All(c, s', at))
  {
    hide Next;
  }

  lemma MeansInside(c: Csv, s: State)
    requires Means(c, s)
    ensures s.pos <= |c.src|
  {
  }

  /** From any meaningful state: the rest lexes without error exactly when no quote stays open and
      all rows are equally wide; the tokens mean what they should; and they cover the rest. */
  lemma {:induction false} AllMeans(c: Csv, s: State, atField: bool)
    requires PlainSep(c) && Means(c, s)
    ensures All(c, s, atField).ok <==> Even(c.src, |c.src|) && RowsUniform(c)
    ensures TokensMean(c, All(c, s, atField).tokens, s.pos)
    ensures All(c, s, atField).ok ==> s.pos + SizeOf(All(c, s, atField).tokens) == |c.src|
    decreases |c.src| - s.pos, atField
  {
    MeansInside(c, s);
    AllUnfold(c, s, atField);
    hide All, Next, Even, Means, TokenMeans, TokensMean, SizeOf, RowsUniform;
    if s.pos == |c.src| {
      UniformFrom(c, s);
      AllNothing(c, s);
    } else {
      NextMeans(c, s, atField);
      var step := Next(c, s, atField);
      if step.Emit? {
        MeansInside(c, step.state);
        AllMeans(c, step.state, step.atField);
        TokensMeanCons(c, step.token, All(c, step.state, step.atField).tokens, s.pos);
      } else {
        TokensMeanNone(c, s.pos);
      }
    }
  }

  lemma StartMeans(c: Csv)
    ensures Means(c, START)
  {
  }

  /** A text lexes without error exactly when its quotes are balanced and its rows are equally wide. */
  lemma SuccessExactly(c: Csv)
    requires PlainSep(c)
    ensures AllFrom(c, START).ok <==> Even(c.src, |c.src|) && RowsUniform(c)
    ensures TokensMean(c, AllFrom(c, START).tokens, 0)
    ensures AllFrom(c, START).ok ==> SizeOf(AllFrom(c, START).tokens) == |c.src|
  {
    hide Means, TokensMean, Even, RowsUniform, All;
    StartMeans(c);
    AllMeans(c, START, Fresh(c, START));
  }

  // ---------------------------------------------------------------- which texts can be split anywhere

  /** Outside quotes, no separator is right before a row end: no row ends with an empty field. */
  ghost predicate NoEmptyEnd(c: Csv) {
    forall i: nat :: SepAt(c, i) ==> !RowEnd(c, i + 1)
  }

  /** After a call the state is meaningful, and a last separator token ends at its position. */
  lemma {:induction false} RunMeans(c: Csv, s: State, atField: bool, budget: nat, limit: nat)
    requires PlainSep(c) && Means(c, s) && s.pos <= |c.src|
    ensures match Run(c, s, atField, budget, limit)
            case Failed => true
            case Done(tokens, state) =>
              && Means(c, state) && state.pos <= |c.src|
              && (tokens != [] && tokens[|tokens| - 1].kind == Sep ==> state.pos > 0 && SepAt(c, state.pos - 1))
    decreases budget
  {
    MeansInside(c, s);
    if s.pos < |c.src| && budget > 0 {
      NextMeans(c, s, atField);
      RunUnfold(c, s, atField, budget, limit);
      hide Run, Next, Means, SepAt, TokenMeans, PlainSep, RowEnd;
      var step := Next(c, s, atField);
      if step.Emit? {
        SepTokenAt(c, step.token, s.pos);
        RunMeans(c, step.state, step.atField, budget - 1, limit);
        var r := Run(c, step.state, step.atField, budget - 1, limit);
        if r.Done? {
          TokensAfter(step.token, r);
        }
      }
    }
  }

  lemma SepTokenAt(c: Csv, t: Token, p: nat)
    requires TokenMeans(c, t, p)
    ensures t.kind == Sep ==> t.size > 0 && SepAt(c, p + t.size - 1)
  {
    hide Even;
  }

  lemma {:induction false} NoDrops(c: Csv, s: State, calls: seq<(nat, nat)>)
    requires PlainSep(c) && Means(c, s) && s.pos <= |c.src| && NoEmptyEnd(c)
    ensures Drops(c, s, calls) == 0
    decreases |calls|
  {
    if calls != [] {
      hide Run, Means;
      RunMeans(c, s, Fresh(c, s), calls[0].0, s.pos + Min(|c.src| - s.pos, calls[0].1));
      var first := Call(c, s, calls[0].0, calls[0].1);
      if first.Done? {
        NoDropAt(c, first.tokens, first.state);
        NoDrops(c, first.state, calls[1..]);
      }
    }
  }

  lemma NoDropAt(c: Csv, tokens: seq<Token>, s: State)
    requires Means(c, s) && s.pos <= |c.src| && NoEmptyEnd(c)
    requires tokens != [] && tokens[|tokens| - 1].kind == Sep ==> s.pos > 0 && SepAt(c, s.pos - 1)
    ensures !DropsField(c, tokens, s)
  {
    if s.pos > 0 {
      assert SepAt(c, s.pos - 1) ==> !RowEnd(c, (s.pos - 1) + 1);
    }
  }

  /** The budget of a call that ends right after the separator at i. */
  lemma {:induction false} CallUpTo(c: Csv, s: State, atField: bool, i: nat) returns (budget: nat)
    requires c.nullAware && PlainSep(c) && Means(c, s) && s.pos <= i < |c.src| && All(c, s, atField).ok
    requires SepAt(c, i) && RowEnd(c, i + 1)
    ensures var r := Run(c, s, atField, budget, |c.src|);
            r.Done? && r.state.pos == i + 1 && r.tokens != [] && r.tokens[|r.tokens| - 1].kind == Sep
    decreases |c.src| - s.pos, atField
  {
    hide *;
    var step := Next(c, s, atField);
    StepUpTo(c, s, atField, i);
    if step.state.pos <= i {
      budget := CallUpTo(c, step.state, step.atField, i);
      budget := budget + 1;
      RunUnfold(c, s, atField, budget, |c.src|);
      TokensAfter(step.token, Run(c, step.state, step.atField, budget - 1, |c.src|));
    } else {
      budget := 1;
      RunUnfold(c, s, atField, budget, |c.src|);
      RunNothing(c, step.state, step.atField, |c.src|);
      TokensAfter(step.token, Done([], step.state));
    }
  }

  lemma TokensAfter(t: Token, r: Result)
    requires r.Done?
    ensures Cons(t, r) == Done([t] + r.tokens, r.state) && ([t] + r.tokens)[|r.tokens|] == if r.tokens == [] then t else r.tokens[|r.tokens| - 1]
  {
  }

  lemma StepUpTo(c: Csv, s: State, atField: bool, i: nat)
    requires PlainSep(c) && Means(c, s) && s.pos <= i < |c.src| && All(c, s, atField).ok
    requires SepAt(c, i) && RowEnd(c, i + 1)
    ensures i + 1 < |c.src|
    ensures var step := Next(c, s, atField);
            && step.Emit? && step.state.pos <= |c.src| && Means(c, step.state) && All(c, step.state, step.atField).ok
            && (step.state.pos > s.pos || (atField && !step.atField))
            && (step.state.pos > i ==> step.token.kind == Sep && step.state.pos == i + 1)
  {
    NextMeans(c, s, atField);
    AllUnfold(c, s, atField);
    RowEndInside(c, i + 1);
    hide All, Next, Means, TokenMeans, SepAt, RowEnd;
    var step := Next(c, s, atField);
    if step.state.pos > i {
      SepTokenEnds(c, step.token, s.pos, i);
    }
  }

  lemma RowEndInside(c: Csv, i: nat)
    requires RowEnd(c, i)
    ensures i < |c.src|
  {
  }

  lemma RunNothing(c: Csv, s: State, atField: bool, limit: nat)
    requires s.pos <= |c.src|
    ensures Run(c, s, atField, 0, limit) == Done([], s)
  {
  }

  /** The token of a separator before a row end ends there. */
  lemma SepTokenEnds(c: Csv, t: Token, p: nat, i: nat)
    requires PlainSep(c) && TokenMeans(c, t, p) && p <= i < p + t.size && SepAt(c, i) && RowEnd(c, i + 1)
    ensures t.kind == Sep && p + t.size == i + 1
  {
    hide Even, Column;
    assert t.kind == Sep && i + 1 < p + t.size ==> SepAt(c, i + 1);
  }

  /** What these calls give, and what is left after them, is what a single call gives. */
  ghost predicate Agrees(c: Csv, calls: seq<(nat, nat)>) {
    match Calls(c, START, calls)
    case Failed => false
    case Done(tokens, state) => state.pos <= |c.src| && AllFrom(c, START) == Append(tokens, AllFrom(c, state))
  }

  lemma AgreesExactly(c: Csv, calls: seq<(nat, nat)>)
    requires c.nullAware && AllFrom(c, START).ok
    ensures Agrees(c, calls) <==> Drops(c, START, calls) == 0
  {
    hide All, Calls, Drops;
    CallsAgreeKept(c, START, calls);
    CallsAgreeExactly(c, START, calls);
  }

  /** With null-awareness, a text that lexes gives the same stream for every way of splitting the
      calls exactly when no row ends with an empty field. */
  lemma SplitAnywhereExactly(c: Csv)
    requires c.nullAware && PlainSep(c) && AllFrom(c, START).ok
    ensures (forall calls :: Agrees(c, calls)) <==> NoEmptyEnd(c)
  {
    hide Means, All, Run, SepAt, RowEnd, Agrees;
    StartMeans(c);
    forall calls ensures Agrees(c, calls) <==> Drops(c, START, calls) == 0 {
      AgreesExactly(c, calls);
    }
    if NoEmptyEnd(c) {
      forall calls ensures Agrees(c, calls) {
        NoDrops(c, START, calls);
      }
    } else {
      var i: nat :| SepAt(c, i) && RowEnd(c, i + 1);
      DropAt(c, i);
    }
  }

  lemma DropAt(c: Csv, i: nat)
    requires c.nullAware && PlainSep(c) && AllFrom(c, START).ok && SepAt(c, i) && RowEnd(c, i + 1)
    ensures exists calls :: Drops(c, START, calls) > 0
  {
    hide Means, All, Run, Even;
    StartMeans(c);
    var budget := CallUpTo(c, START, false, i);
    var calls: seq<(nat, nat)> := [(budget, |c.src|)];
    assert Drops(c, START, calls) > 0;
  }

  /** The kind of the token that holds byte i. */
  ghost function KindAt(tokens: seq<Token>, p: nat, i: nat): Kind
    requires p <= i < p + SizeOf(tokens)
    decreases |tokens|
  {
    if i < p + tokens[0].size then tokens[0].kind else KindAt(tokens[1..], p + tokens[0].size, i)
  }

  lemma {:induction false} KindAtMeans(c: Csv, tokens: seq<Token>, p: nat, i: nat)
    requires PlainSep(c) && TokensMean(c, tokens, p) && p <= i < p + SizeOf(tokens)
    ensures match KindAt(tokens, p, i)
            case Field => !SepAt(c, i) && !RowEnd(c, i)
            case Sep => SepAt(c, i)
            case Newline => RowEnd(c, i)
    decreases |tokens|
  {
    hide Even, Column;
    if i >= p + tokens[0].size {
      KindAtMeans(c, tokens[1..], p + tokens[0].size, i);
    }
  }

  /** In a successful lex, a byte lies in a separator token exactly when it is the separator outside
      quotes, and in a newline token exactly when it is a newline outside quotes. */
  lemma ByteKinds(c: Csv, i: nat)
    requires PlainSep(c) && i < |c.src| && AllFrom(c, START).ok
    ensures SizeOf(AllFrom(c, START).tokens) == |c.src|
    ensures var kind := KindAt(AllFrom(c, START).tokens, 0, i);
            (kind == Sep <==> SepAt(c, i)) && (kind == Newline <==> RowEnd(c, i))
  {
    hide All, TokensMean, Even;
    SuccessExactly(c);
    KindAtMeans(c, AllFrom(c, START).tokens, 0, i);
  }
}
