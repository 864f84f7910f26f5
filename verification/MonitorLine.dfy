/**
  The monitor's scanner and parser on a command line: characters are taken from the line one at a time,
  and the parser looks at one token, `mon_token`, ahead.
 */
module MonitorLine {
  import opened Options
  import opened Arithmetic
  import opened MonWords
  import opened MonTokens
  import opened MonParser

  /** The line's characters, and the zero after them. */
  function CharAt(line: string, i: nat): (c: char)
    requires i <= |line|
  {
    if i < |line| then line[i] else '\0'
  }

  function ToLower(c: char): (l: char) {
    if 'A' <= c <= 'Z' then c - 'A' + 'a' else c
  }

  /** What a parsing method reports, and the tokens it leaves. */
  predicate Yields(p: Parsed, ok: bool, number: Word, rest: seq<Token>) {
    match p
    case Fail => !ok
    case Done(v, ts) => ok && number == v && rest == ts
  }

  class Monitor {
    const input: string
    const wide: (Binary, Word, Word) -> Word
    const vars: map<string, Word>
    const dotAddress: Word
    const colonValue: Word
    var inPtr: nat
    var token: Token

    /** After a final token nothing is left to read, not even the zero. */
    predicate Valid()
      reads this
    {
      '\0' !in input && (!Final(token) ==> inPtr <= |input|)
    }

    function Environment(): (env: Env) {
      Env(vars, dotAddress, colonValue, wide)
    }

    /** The token that was read last, and those after it. */
    function Stream(): (ts: seq<Token>)
      reads this`inPtr, this`token
      ensures ts != [] && ts[0] == token
    {
      [token] + if Final(token) || inPtr > |input| then [] else Tokens(input[inPtr..])
    }

    constructor (input: string, dot: Word, colon: Word, vars: map<string, Word>, wide: (Binary, Word, Word) -> Word)
      requires '\0' !in input
      ensures Valid() && inPtr == 0 && this.input == input && Environment() == Env(vars, dot, colon, wide)
    {
      this.input, this.wide, this.vars, dotAddress, colonValue := input, wide, vars, dot, colon;
      inPtr, token := 0, T_NULL;
    }

    // ---------- Scanner ----------

    /** Reads a character; the zero at the end may be read, and nothing beyond it. */
    method GetChar() returns (c: char)
      requires inPtr <= |input|
      modifies this`inPtr
      ensures inPtr == old(inPtr) + 1 && c == CharAt(input, old(inPtr))
    {
      c := CharAt(input, inPtr);
      inPtr := inPtr + 1;
    }

    method PutBack()
      requires inPtr > 0
      modifies this`inPtr
      ensures inPtr == old(inPtr) - 1
    {
      inPtr := inPtr - 1;
    }

    method GetHexNumber() returns (t: Token)
      requires inPtr <= |input| && '\0' !in input
      modifies this`inPtr
      ensures inPtr > old(inPtr)
      ensures (t, (inPtr - old(inPtr)) as nat) == ScanDigits(Hex, 16, input[old(inPtr)..])
    {
      hide Span, ValueOf;
      ghost var start := inPtr;
      var i: Word := 0;
      var c := GetChar();
      if !In(Hex, c) {
        DigitsEnd(Hex, 16, input, start, inPtr);
        return T_NULL;
      }
      NoDigits(16);
      while In(Hex, c)
        invariant start < inPtr <= |input| + 1 && c == CharAt(input, inPtr - 1)
        invariant AllIn(Hex, input[start..inPtr - 1]) && i == ValueOf(16, input[start..inPtr - 1])
        invariant In(Hex, c) || inPtr - 1 > start
        decreases |input| + 1 - inPtr
      {
        MoreDigits(16, input, start, inPtr);
        var l := ToLower(c);
        if l < 'a' {
          i := W(i as int * 16 + (l as int - '0' as int));
        } else {
          i := W(i as int * 16 + (l as int - 'a' as int + 10));
        }
        c := GetChar();
      }
      DigitsEnd(Hex, 16, input, start, inPtr);
      if In(Alnum, c) {
        return T_NULL;
      }
      PutBack();
      t := T_NUMBER(i);
    }

    method GetDecNumber() returns (t: Token)
      requires inPtr <= |input| && '\0' !in input
      modifies this`inPtr
      ensures inPtr > old(inPtr)
      ensures (t, (inPtr - old(inPtr)) as nat) == ScanDigits(Dec, 10, input[old(inPtr)..])
    {
      hide Span, ValueOf;
      ghost var start := inPtr;
      var i: Word := 0;
      var c := GetChar();
      if !In(Dec, c) {
        DigitsEnd(Dec, 10, input, start, inPtr);
        return T_NULL;
      }
      NoDigits(10);
      while In(Dec, c)
        invariant start < inPtr <= |input| + 1 && c == CharAt(input, inPtr - 1)
        invariant AllIn(Dec, input[start..inPtr - 1]) && AllIn(Hex, input[start..inPtr - 1])
        invariant i == ValueOf(10, input[start..inPtr - 1])
        invariant In(Dec, c) || inPtr - 1 > start
        decreases |input| + 1 - inPtr
      {
        MoreDigits(10, input, start, inPtr);
        MoreIn(Dec, input, start, inPtr);
        i := W(i as int * 10 + (c as int - '0' as int));
        c := GetChar();
      }
      DigitsEnd(Dec, 10, input, start, inPtr);
      if In(Alnum, c) {
        return T_NULL;
      }
      PutBack();
      t := T_NUMBER(i);
    }

    method GetCharNumber() returns (t: Token)
      requires inPtr <= |input| && '\0' !in input
      modifies this`inPtr
      ensures inPtr > old(inPtr)
      ensures (t, (inPtr - old(inPtr)) as nat) == ScanChars(input[old(inPtr)..])
    {
      hide IndexOf, CharsOf;
      ghost var start := inPtr;
      var i: Word := 0;
      NoChars();
      var c := GetChar();
      while c != '\0'
        invariant start < inPtr <= |input| + 1 && c == CharAt(input, inPtr - 1)
        invariant '\'' !in input[start..inPtr - 1] && i == CharsOf(input[start..inPtr - 1])
        decreases |input| + 1 - inPtr
      {
        if c == '\'' {
          IndexAt('\'', input, start, inPtr - 1);
          return T_NUMBER(i);
        }
        MoreChars(input, start, inPtr);
        i := W(i as int * 0x100 + c as int % 0x100);
        c := GetChar();
      }
      IndexAt('\'', input, start, inPtr - 1);
      t := T_NULL;
    }

    /** The string's length is found first, and then it is read again to be copied. */
    method GetString() returns (t: Token)
      requires inPtr <= |input| && '\0' !in input
      modifies this`inPtr
      ensures inPtr > old(inPtr)
      ensures (t, (inPtr - old(inPtr)) as nat) == ScanString(input[old(inPtr)..])
    {
      hide IndexOf;
      var start := inPtr;
      var n := 0;
      var c := GetChar();
      while c != '\0'
        invariant start < inPtr <= |input| + 1 && c == CharAt(input, inPtr - 1)
        invariant n == inPtr - 1 - start && '\"' !in input[start..inPtr - 1]
        decreases |input| + 1 - inPtr
      {
        n := n + 1;
        if c == '\"' {
          break;
        }
        c := GetChar();
      }
      IndexAt('\"', input, start, inPtr - 1);
      if c == '\0' {
        return T_NULL;
      }
      inPtr := start;
      var str := Copy(n - 1);
      var _ := GetChar(); // skip closing quote
      t := T_STRING(str);
    }

    method Copy(n: nat) returns (s: string)
      requires inPtr + n <= |input|
      modifies this`inPtr
      ensures inPtr == old(inPtr) + n && s == input[old(inPtr)..inPtr]
    {
      s := "";
      for k := 0 to n
        invariant inPtr == old(inPtr) + k && s == input[old(inPtr)..inPtr]
      {
        var c := GetChar();
        s := s + [c];
      }
    }

    method GetHexOrName() returns (t: Token)
      requires inPtr < |input| && '\0' !in input && In(Alnum, input[inPtr])
      modifies this`inPtr
      ensures inPtr > old(inPtr)
      ensures (t, (inPtr - old(inPtr)) as nat) == ScanHexOrName(input[old(inPtr)..])
    {
      hide Span, ScanDigits;
      var start := inPtr;

      t := GetHexNumber();
      if t != T_NULL {
        return;
      }

      // back to the start: how long is the name?
      inPtr := start;
      var c := GetChar();
      var n := 1;
      while In(Alnum, c)
        invariant start < inPtr <= |input| + 1 && c == CharAt(input, inPtr - 1) && n == inPtr - start
        invariant AllIn(Alnum, input[start..inPtr - 1]) && (In(Alnum, c) || inPtr - 1 > start)
        decreases |input| + 1 - inPtr
      {
        MoreIn(Alnum, input, start, inPtr);
        n := n + 1;
        c := GetChar();
      }
      SpanEnds(Alnum, input, start, inPtr);
      inPtr := start;
      var name := Copy(n - 1);
      t := T_NAME(name);
    }

    /** Scanner: gets a token from the line. */
    method GetToken()
      requires inPtr <= |input| && '\0' !in input
      modifies this`inPtr, this`token
      ensures Valid() && Stream() == Tokens(input[old(inPtr)..])
    {
      hide Tokens, Scan;
      ghost var start := inPtr;
      SkipAndScan();
      StreamIs(input, start, token, inPtr);
    }

    method SkipAndScan()
      requires inPtr <= |input| && '\0' !in input
      modifies this`inPtr, this`token
      ensures inPtr > old(inPtr)
      ensures (token, (inPtr - old(inPtr)) as nat) == Scan(input[old(inPtr)..])
    {
      hide ScanToken, Span, AllIn;
      ghost var start := inPtr;
      var c := GetChar();

      NoneIn(Space);
      assert input[start..inPtr - 1] == [];
      while In(Space, c)
        invariant start < inPtr <= |input| + 1 && c == CharAt(input, inPtr - 1) && AllIn(Space, input[start..inPtr - 1])
        decreases |input| + 1 - inPtr
      {
        MoreIn(Space, input, start, inPtr);
        c := GetChar();
      }
      SpanEnds(Space, input, start, inPtr);
      assert input[start..][inPtr - 1 - start..] == input[inPtr - 1..];
      SwitchOn(c);
    }

    /** The token that begins with the character just read. */
    method SwitchOn(c: char)
      requires 0 < inPtr <= |input| + 1 && c == CharAt(input, inPtr - 1) && '\0' !in input
      modifies this`inPtr, this`token
      ensures inPtr > old(inPtr) - 1
      ensures (token, (inPtr - (old(inPtr) - 1)) as nat) == ScanToken(input[old(inPtr) - 1..])
    {
      hide ScanDigits, ScanChars, ScanString, ScanHexOrName, In;
      ghost var s := input[inPtr - 1..];
      assert c != '\0' ==> s[0] == c && s[1..] == input[inPtr..];
      ZeroInNoClass(Alnum);
      if c == '\0' {
        token := T_END;
      } else if Sign(c) != T_NULL {
        token := Sign(c);
      } else if c == '<' {
        var d := GetChar();
        token := if d == '<' then T_SHIFTL else T_NULL;
      } else if c == '>' {
        var d := GetChar();
        token := if d == '>' then T_SHIFTR else T_NULL;
      } else if c == '$' {
        token := GetHexNumber();
      } else if c == '_' {
        token := GetDecNumber();
      } else if c == '\'' {
        token := GetCharNumber();
      } else if c == '\"' {
        token := GetString();
      } else if In(Alnum, c) {
        PutBack();
        token := GetHexOrName();
      } else {
        token := T_NULL;
      }
    }

    /** Goes on to the next token; after a final token there is none to ask for. */
    method NextToken()
      requires Valid() && !Final(token)
      modifies this`inPtr, this`token
      ensures Valid() && Stream() == old(Stream())[1..]
    {
      hide Tokens;
      GetToken();
    }

    // ---------- Parser ----------

    /** Inclusive ORs, from left to right. */
    method MonExpression() returns (ok: bool, number: Word)
      requires Valid()
      modifies this`inPtr, this`token
      ensures Valid() && Yields(Parse(Environment(), 0, old(Stream())), ok, number, Stream())
      decreases |Stream()|, 7
    {
      hide Parse, More, Tokens, OnWords, Times, Quotient, Remainder, W, Pow2, Continues, Apply2, Environment,
          Stream, Shifted, Valid;
      ghost var env, ts := Environment(), Stream();
      ParseLevel(env, 0, ts);
      var accu: Word, expr: Word := 0, 0;
      ok, accu := EorExpr();
      if !ok {
        return false, 0;
      }
      while true
        invariant Valid() && |Stream()| < |ts|
        invariant Parse(env, 0, ts) == More(env, 0, accu, Stream())
        decreases |Stream()|
      {
        if token == T_OR {
          ghost var before := Stream();
          NextToken();
          ok, expr := EorExpr();
          Operated(env, 0, Inclusive, accu, before, ok, expr, Stream());
          Meaning(env, Inclusive, accu, expr);
          if !ok {
            return false, 0;
          }
          accu := OnWords(Or, accu, expr);
        } else {
          Ended(env, 0, accu, Stream());
          return true, accu;
        }
      }
    }

    /** Exclusive ORs, which bind more tightly. */
    method EorExpr() returns (ok: bool, number: Word)
      requires Valid()
      modifies this`inPtr, this`token
      ensures Valid() && Yields(Parse(Environment(), 1, old(Stream())), ok, number, Stream())
      decreases |Stream()|, 6
    {
      hide Parse, More, Tokens, OnWords, Times, Quotient, Remainder, W, Pow2, Continues, Apply2, Environment,
          Stream, Shifted, Valid;
      ghost var env, ts := Environment(), Stream();
      ParseLevel(env, 1, ts);
      var accu: Word, expr: Word := 0, 0;
      ok, accu := AndExpr();
      if !ok {
        return false, 0;
      }
      while true
        invariant Valid() && |Stream()| < |ts|
        invariant Parse(env, 1, ts) == More(env, 1, accu, Stream())
        decreases |Stream()|
      {
        if token == T_EOR {
          ghost var before := Stream();
          NextToken();
          ok, expr := AndExpr();
          Operated(env, 1, Exclusive, accu, before, ok, expr, Stream());
          Meaning(env, Exclusive, accu, expr);
          if !ok {
            return false, 0;
          }
          accu := OnWords(Xor, accu, expr);
        } else {
          Ended(env, 1, accu, Stream());
          return true, accu;
        }
      }
    }

    /** ANDs. */
    method AndExpr() returns (ok: bool, number: Word)
      requires Valid()
      modifies this`inPtr, this`token
      ensures Valid() && Yields(Parse(Environment(), 2, old(Stream())), ok, number, Stream())
      decreases |Stream()|, 5
    {
      hide Parse, More, Tokens, OnWords, Times, Quotient, Remainder, W, Pow2, Continues, Apply2, Environment,
          Stream, Shifted, Valid;
      ghost var env, ts := Environment(), Stream();
      ParseLevel(env, 2, ts);
      var accu: Word, expr: Word := 0, 0;
      ok, accu := ShiftExpr();
      if !ok {
        return false, 0;
      }
      while true
        invariant Valid() && |Stream()| < |ts|
        invariant Parse(env, 2, ts) == More(env, 2, accu, Stream())
        decreases |Stream()|
      {
        if token == T_AND {
          ghost var before := Stream();
          NextToken();
          ok, expr := ShiftExpr();
          Operated(env, 2, Both, accu, before, ok, expr, Stream());
          Meaning(env, Both, accu, expr);
          if !ok {
            return false, 0;
          }
          accu := OnWords(And, accu, expr);
        } else {
          Ended(env, 2, accu, Stream());
          return true, accu;
        }
      }
    }

    method Shift(op: Binary, a: Word, b: Word) returns (r: Word)
      requires op == ShiftL || op == ShiftR
      ensures Apply2(Environment(), op, a, b) == Some(r)
    {
      hide Pow2, Times, Quotient;
      r := Shifted(wide, op, a, b);
    }

    /** Shifts either way. */
    method ShiftExpr() returns (ok: bool, number: Word)
      requires Valid()
      modifies this`inPtr, this`token
      ensures Valid() && Yields(Parse(Environment(), 3, old(Stream())), ok, number, Stream())
      decreases |Stream()|, 4
    {
      hide Parse, More, Tokens, OnWords, Times, Quotient, Remainder, W, Pow2, Continues, Apply2, Environment,
          Stream, Shifted, Valid;
      ghost var env, ts := Environment(), Stream();
      ParseLevel(env, 3, ts);
      var accu: Word, expr: Word := 0, 0;
      ok, accu := AddExpr();
      if !ok {
        return false, 0;
      }
      while true
        invariant Valid() && |Stream()| < |ts|
        invariant Parse(env, 3, ts) == More(env, 3, accu, Stream())
        decreases |Stream()|
      {
        if token == T_SHIFTL {
          ghost var before := Stream();
          NextToken();
          ok, expr := AddExpr();
          Operated(env, 3, ShiftL, accu, before, ok, expr, Stream());
          if !ok {
            return false, 0;
          }
          accu := Shift(ShiftL, accu, expr);
        } else if token == T_SHIFTR {
          ghost var before := Stream();
          NextToken();
          ok, expr := AddExpr();
          Operated(env, 3, ShiftR, accu, before, ok, expr, Stream());
          if !ok {
            return false, 0;
          }
          accu := Shift(ShiftR, accu, expr);
        } else {
          Ended(env, 3, accu, Stream());
          return true, accu;
        }
      }
    }

    /** Sums and differences. */
    method AddExpr() returns (ok: bool, number: Word)
      requires Valid()
      modifies this`inPtr, this`token
      ensures Valid() && Yields(Parse(Environment(), 4, old(Stream())), ok, number, Stream())
      decreases |Stream()|, 3
    {
      hide Parse, More, Tokens, OnWords, Times, Quotient, Remainder, W, Pow2, Continues, Apply2, Environment,
          Stream, Shifted, Valid;
      ghost var env, ts := Environment(), Stream();
      ParseLevel(env, 4, ts);
      var accu: Word, expr: Word := 0, 0;
      ok, accu := MulExpr();
      if !ok {
        return false, 0;
      }
      while true
        invariant Valid() && |Stream()| < |ts|
        invariant Parse(env, 4, ts) == More(env, 4, accu, Stream())
        decreases |Stream()|
      {
        if token == T_PLUS {
          ghost var before := Stream();
          NextToken();
          ok, expr := MulExpr();
          Operated(env, 4, Add, accu, before, ok, expr, Stream());
          Meaning(env, Add, accu, expr);
          if !ok {
            return false, 0;
          }
          accu := W(accu as int + expr as int);
        } else if token == T_MINUS {
          ghost var before := Stream();
          NextToken();
          ok, expr := MulExpr();
          Operated(env, 4, Sub, accu, before, ok, expr, Stream());
          Meaning(env, Sub, accu, expr);
          if !ok {
            return false, 0;
          }
          accu := W(accu as int - expr as int);
        } else {
          Ended(env, 4, accu, Stream());
          return true, accu;
        }
      }
    }

    /** Products, quotients and remainders. */
    method MulExpr() returns (ok: bool, number: Word)
      requires Valid()
      modifies this`inPtr, this`token
      ensures Valid() && Yields(Parse(Environment(), 5, old(Stream())), ok, number, Stream())
      decreases |Stream()|, 2
    {
      hide Parse, More, Tokens, OnWords, Times, Quotient, Remainder, W, Pow2, Continues, Apply2, Environment,
          Stream, Shifted, Valid;
      ghost var env, ts := Environment(), Stream();
      ParseLevel(env, 5, ts);
      var accu: Word, expr: Word := 0, 0;
      ok, accu := Factor();
      if !ok {
        return false, 0;
      }
      while true
        invariant Valid() && |Stream()| < |ts|
        invariant Parse(env, 5, ts) == More(env, 5, accu, Stream())
        decreases |Stream()|
      {
        if token == T_MUL {
          ghost var before := Stream();
          NextToken();
          ok, expr := Factor();
          Operated(env, 5, Mul, accu, before, ok, expr, Stream());
          Meaning(env, Mul, accu, expr);
          if !ok {
            return false, 0;
          }
          accu := W(Times(accu, expr));
        } else if token == T_DIV {
          ghost var before := Stream();
          NextToken();
          ok, expr := Factor();
          Operated(env, 5, Div, accu, before, ok, expr, Stream());
          Meaning(env, Div, accu, expr);
          if !ok {
            return false, 0;
          }
          if expr == 0 {
            return false, 0;
          }
          accu := Quotient(accu, expr);
        } else if token == T_MOD {
          ghost var before := Stream();
          NextToken();
          ok, expr := Factor();
          Operated(env, 5, Mod, accu, before, ok, expr, Stream());
          Meaning(env, Mod, accu, expr);
          if !ok {
            return false, 0;
          }
          if expr == 0 {
            return false, 0;
          }
          accu := Remainder(accu, expr);
        } else {
          Ended(env, 5, accu, Stream());
          return true, accu;
        }
      }
    }

    /** What stands by itself: a number, a name, one of the special values, a sign and what it is for, or a whole
        expression in parentheses. */
    method Factor() returns (ok: bool, number: Word)
      requires Valid()
      modifies this`inPtr, this`token
      ensures Valid() && Yields(Parse(Environment(), 6, old(Stream())), ok, number, Stream())
      decreases |Stream()|, 1
    {
      hide Parse, MonParser.Factor, Tokens, W, Valid, Stream;
      ghost var env, ts := Environment(), Stream();
      FactorUnfolds(env, ts);
      ok, number := false, 0;
      match token
      case T_NUMBER(n) =>
        number := n;
        NextToken();
        ok := true;
      case T_NAME(name) =>
        if name in vars {
          number := vars[name];
          NextToken();
          ok := true;
        }
      case T_DOT =>
        number := dotAddress;
        NextToken();
        ok := true;
      case T_COLON =>
        number := colonValue;
        NextToken();
        ok := true;
      case T_PLUS =>
        NextToken();
        ok, number := Factor();
      case T_MINUS =>
        NextToken();
        ok, number := Factor();
        if ok {
          number := W(0 - number as int);
        }
      case T_NOT =>
        NextToken();
        ok, number := Factor();
        if ok {
          number := LIMIT - 1 - number;
        }
      case T_LPAREN =>
        NextToken();
        ok, number := MonExpression();
        if ok {
          if token == T_RPAREN {
            NextToken();
          } else {
            ok := false;
          }
        }
      case _ =>
    }
  }

  // ---------- The parser's steps ----------

  /** The operator applied to what its right side comes to, and on. */
  function Applied(env: Env, k: Level, accu: Word, op: Binary, right: Parsed): (r: Parsed)
    requires k < 6
  {
    if right.Fail? then Fail
    else
      var v := Apply2(env, op, accu, right.value);
      if v.None? then Fail else More(env, k, v.value, right.rest)
  }

  lemma MoreUnfolds(env: Env, k: Level, accu: Word, ts: seq<Token>)
    requires k < 6 && ts != []
    ensures More(env, k, accu, ts) ==
      if !Continues(k, ts[0]) then Done(accu, ts)
      else Applied(env, k, accu, BinaryOf(ts[0]).value, Parse(env, k + 1, ts[1..]))
  {
    hide Parse, Apply2;
  }

  /** An operator of the level and what was parsed to its right. */
  lemma Operated(env: Env, k: Level, op: Binary, accu: Word, ts: seq<Token>, ok: bool, expr: Word, rest: seq<Token>)
    requires k < 6 && ts != [] && ts[0] == BinaryToken(op) && LevelOf(op) == k
    requires Yields(Parse(env, k + 1, ts[1..]), ok, expr, rest)
    ensures ok ==> |rest| < |ts|
    ensures More(env, k, accu, ts) ==
      if !ok || Apply2(env, op, accu, expr).None? then Fail else More(env, k, Apply2(env, op, accu, expr).value, rest)
  {
    hide Parse, More, Apply2;
    MoreUnfolds(env, k, accu, ts);
  }

  lemma Meaning(env: Env, op: Binary, a: Word, b: Word)
    ensures Apply2(env, op, a, b) ==
      if op == Inclusive then Some(OnWords(Or, a, b))
      else if op == Exclusive then Some(OnWords(Xor, a, b))
      else if op == Both then Some(OnWords(And, a, b))
      else if op == ShiftL || op == ShiftR then Some(Shifted(env.wide, op, a, b))
      else if op == Add then Some(W(a as int + b as int))
      else if op == Sub then Some(W(a as int - b as int))
      else if op == Mul then Some(W(Times(a, b)))
      else if b == 0 then None
      else if op == Div then Some(Quotient(a, b))
      else Some(Remainder(a, b))
  {
  }

  lemma Ended(env: Env, k: Level, accu: Word, ts: seq<Token>)
    requires k < 6 && ts != [] && (forall op :: LevelOf(op) == k ==> ts[0] != BinaryToken(op))
    ensures More(env, k, accu, ts) == Done(accu, ts)
  {
    assert !Continues(k, ts[0]) by { IsToken(ts[0]); }
    MoreUnfolds(env, k, accu, ts);
  }

  lemma IsToken(t: Token)
    ensures BinaryOf(t).Some? ==> t == BinaryToken(BinaryOf(t).value)
  {
  }

  lemma FactorUnfolds(env: Env, ts: seq<Token>)
    requires ts != []
    ensures Parse(env, 6, ts) ==
      if Atom(env, ts[0]).Some? then Done(Atom(env, ts[0]).value, ts[1..])
      else if UnaryOf(ts[0]).Some? then
        match Parse(env, 6, ts[1..])
        case Fail => Fail
        case Done(v, rest) => Done(Apply1(UnaryOf(ts[0]).value, v), rest)
      else if ts[0] == T_LPAREN then
        match Parse(env, 0, ts[1..])
        case Fail => Fail
        case Done(v, rest) => if rest != [] && rest[0] == T_RPAREN then Done(v, rest[1..]) else Fail
      else Fail
  {
    hide Apply1, Atom, UnaryOf;
  }

  /** The tokens from `start` on: one, and those from where it ends. */
  lemma StreamIs(line: string, start: nat, t: Token, end: nat)
    requires start <= |line| && start <= end && (t, (end - start) as nat) == Scan(line[start..])
    ensures !Final(t) ==> end <= |line|
    ensures Tokens(line[start..]) == [t] + if Final(t) then [] else Tokens(line[end..])
  {
    hide Scan;
    if !Final(t) { assert line[start..][end - start..] == line[end..]; }
  }

  lemma NoneIn(cl: Class)
    ensures AllIn(cl, [])
  {
  }

  // ---------- Places in the line ----------

  lemma NoChars()
    ensures CharsOf([]) == 0
  {
  }

  lemma ZeroInNoClass(cl: Class)
    ensures !In(cl, '\0')
  {
  }

  lemma MoreDigits(base: nat, line: string, start: nat, end: nat)
    requires start < end <= |line| + 1 && AllIn(Hex, line[start..end - 1]) && In(Hex, CharAt(line, end - 1))
    ensures end <= |line| && AllIn(Hex, line[start..end])
    ensures ValueOf(base, line[start..end])
        == W(ValueOf(base, line[start..end - 1]) as int * base + DigitOf(line[end - 1]))
  {
    var s := line[start..end];
    assert s[..|s| - 1] == line[start..end - 1];
  }

  lemma MoreIn(cl: Class, line: string, start: nat, end: nat)
    requires start < end <= |line| + 1 && AllIn(cl, line[start..end - 1]) && In(cl, CharAt(line, end - 1))
    ensures end <= |line| && AllIn(cl, line[start..end])
  {
    ZeroInNoClass(cl);
    assert line[start..end] == line[start..end - 1] + [line[end - 1]];
  }

  lemma MoreChars(line: string, start: nat, end: nat)
    requires start < end <= |line| + 1 && CharAt(line, end - 1) != '\0'
    ensures end <= |line|
    ensures CharsOf(line[start..end]) == W(CharsOf(line[start..end - 1]) as int * 0x100 + line[end - 1] as int % 0x100)
  {
    var s := line[start..end];
    assert s[..|s| - 1] == line[start..end - 1];
  }

  /** The characters before the last one read are those at the start that are in the class. */
  lemma SpanEnds(cl: Class, line: string, start: nat, end: nat)
    requires start < end <= |line| + 1 && AllIn(cl, line[start..end - 1]) && !In(cl, CharAt(line, end - 1))
    ensures Span(cl, line[start..]) == end - 1 - start
    ensures line[start..][..end - 1 - start] == line[start..end - 1]
  {
    assert line[start..] == line[start..end - 1] + line[end - 1..];
    SpanIs(cl, line[start..end - 1], line[end - 1..]);
  }

  lemma DigitsEnd(cl: Class, base: nat, line: string, start: nat, end: nat)
    requires (cl == Dec || cl == Hex) && start < end <= |line| + 1 && '\0' !in line
    requires AllIn(cl, line[start..end - 1]) && !In(cl, CharAt(line, end - 1)) && AllIn(Hex, line[start..end - 1])
    ensures ScanDigits(cl, base, line[start..]) ==
      if end - 1 == start then (T_NULL, 1)
      else if In(Alnum, CharAt(line, end - 1)) then (T_NULL, end - start)
      else (T_NUMBER(ValueOf(base, line[start..end - 1])), end - 1 - start)
  {
    SpanEnds(cl, line, start, end);
    ZeroInNoClass(Alnum);
    hide Span, ValueOf, In;
  }

  lemma IndexAt(q: char, line: string, start: nat, at: nat)
    requires start <= at <= |line| && q !in line[start..at] && (at == |line| || line[at] == q)
    ensures IndexOf(q, line[start..]) == at - start && line[start..][..at - start] == line[start..at]
  {
    var s := line[start..];
    assert s == line[start..at] + line[at..];
    if at < |line| {
      IndexIs(q, line[start..at], line[at..]);
    } else {
      assert forall j :: 0 <= j < |s| ==> s[j] == line[start..at][j];
    }
  }
}
