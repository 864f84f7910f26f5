/**
  Whole lines: an expression written with any spelling of its tokens and any space between them is
  scanned and parsed to its value.
 */
module MonLines {
  import opened Options
  import opened MonWords
  import opened MonTokens
  import opened MonParser

  // ---------- Where space is not needed ----------

  /** Numbers and names: a letter or digit after them would belong to them. */
  predicate Operand(t: Token) {
    t.T_NUMBER? || t.T_NAME?
  }

  ghost predicate Separated(ts: seq<Token>) {
    forall i :: 0 <= i < |ts| - 1 && Operand(ts[i]) ==> !Operand(ts[i + 1])
  }

  /** In an expression no two numbers or names meet. */
  lemma {:induction false} PrintedSeparated(e: Expr, k: Level)
    ensures Separated(Print(e, k))
    decreases e, if Strength(e) < k then 1 else 0
  {
    if Strength(e) < k {
      PrintedSeparated(e, 0);
      JoinSeparated([T_LPAREN], Print(e, 0));
      JoinSeparated([T_LPAREN] + Print(e, 0), [T_RPAREN]);
    } else if e.Un? {
      PrintedSeparated(e.e, 6);
      JoinSeparated([UnaryToken(e.uop)], Print(e.e, 6));
    } else if e.Bin? {
      var j := LevelOf(e.op);
      PrintedSeparated(e.left, j);
      PrintedSeparated(e.right, j + 1);
      hide Print;
      JoinSeparated(Print(e.left, j), [BinaryToken(e.op)]);
      JoinSeparated(Print(e.left, j) + [BinaryToken(e.op)], Print(e.right, j + 1));
    }
  }

  lemma JoinSeparated(a: seq<Token>, b: seq<Token>)
    requires Separated(a) && Separated(b)
    requires a == [] || b == [] || !Operand(a[|a| - 1]) || !Operand(b[0])
    ensures Separated(a + b)
  {
  }

  /** Each token is spelled as it may be on its own, with space before it. */
  ghost predicate Spelled(ls: seq<Lexeme>) {
    forall i :: 0 <= i < |ls| ==> AllIn(Space, ls[i].space) && Writes(ls[i].text, ls[i].token, "")
  }

  /** What follows the last token does not belong to it. */
  predicate Detached(ls: seq<Lexeme>, rest: string) {
    ls != [] && Operand(ls[|ls| - 1].token) ==> NotAlnum(rest)
  }

  lemma {:induction false} SpelledIsWellWritten(ls: seq<Lexeme>, rest: string)
    requires Spelled(ls) && Separated(TokensOf(ls)) && Detached(ls, rest)
    ensures WellWritten(ls, rest)
  {
    if ls != [] {
      var more := Written(ls[1..], rest);
      SeparatedRest(ls);
      SpelledIsWellWritten(ls[1..], rest);
      assert Operand(ls[0].token) ==> NotAlnum(more) by {
        if Operand(ls[0].token) && |ls| > 1 {
          assert TokensOf(ls)[1] == ls[1].token;
          NotAlnumBefore(ls[1], Written(ls[2..], rest));
          assert ls[1..][1..] == ls[2..];
        }
      }
      WritesBefore(ls[0].text, ls[0].token, more);
    }
  }

  lemma SeparatedRest(ls: seq<Lexeme>)
    requires ls != [] && Separated(TokensOf(ls))
    ensures Separated(TokensOf(ls[1..]))
  {
    var ts, more := TokensOf(ls), TokensOf(ls[1..]);
    assert forall i :: 0 <= i < |more| ==> more[i] == ts[i + 1];
  }

  lemma WritesBefore(s: string, t: Token, next: string)
    requires Writes(s, t, "") && (Operand(t) ==> NotAlnum(next))
    ensures Writes(s, t, next)
  {
    hide ValueOf, CharsOf, Sign, AllIn;
  }

  lemma NotAlnumBefore(l: Lexeme, next: string)
    requires AllIn(Space, l.space) && Writes(l.text, l.token, "") && !Operand(l.token)
    ensures NotAlnum(l.space + l.text + next)
  {
    var all := l.space + l.text + next;
    if l.space != [] {
      assert all[0] == l.space[0];
    } else {
      assert all[0] == l.text[0];
    }
  }

  // ---------- The main result ----------

  function Value(v: Option<Word>, rest: seq<Token>): (r: Parsed) {
    if v.Some? then Done(v.value, rest) else Fail
  }

  /** An expression that is written with parentheses only where C's precedences need them, in whatever
      spelling and with whatever space, is parsed to its value, or fails exactly if a name is undefined
      or there is a division by 0; and the parser stops at the first token after it. */
  lemma LineParses(env: Env, e: Expr, ls: seq<Lexeme>, rest: string)
    requires TokensOf(ls) == Print(e, 0) && Spelled(ls) && Detached(ls, rest)
    requires BinaryOf(Tokens(rest)[0]).None?
    ensures Parse(env, 0, Tokens(Written(ls, rest))) == Value(Eval(env, e), Tokens(rest))
  {
    hide Tokens, Parse, More, Print, Eval, Spelled, Separated, WellWritten;
    PrintedSeparated(e, 0);
    SpelledIsWellWritten(ls, rest);
    LineScans(ls, rest);
    ParsesPrinted(env, e, 0, Tokens(rest));
    EndsHere(env, 0, Eval(env, e), Tokens(rest));
  }

  // ---------- Every expression can be written ----------

  function DigitChar(d: nat): (c: char)
    requires d < 16
    ensures In(Hex, c) && DigitOf(c) == d && (d < 10 ==> In(Dec, c))
  {
    if d < 10 then '0' + d as char else 'a' + (d - 10) as char
  }

  /** A number to a base, in digits. */
  function TextOf(base: nat, n: nat): (s: string)
    requires base == 10 || base == 16
    ensures s != [] && AllIn(Hex, s) && (base == 10 ==> AllIn(Dec, s))
    decreases n
  {
    var last := [DigitChar(n % base)];
    if n < base then last else TextOf(base, n / base) + last
  }

  lemma {:induction false} TextReadsBack(base: nat, n: Word)
    requires base == 10 || base == 16
    ensures ValueOf(base, TextOf(base, n)) == n
    decreases n
  {
    hide ValueOf, W;
    var rest, c := n / base, DigitChar(n % base);
    InWord(base, n);
    if n < base {
      OneMoreDigit(base, "", c);
      assert "" + [c] == [c];
      NoDigits(base);
    } else {
      TextReadsBack(base, rest);
      OneMoreDigit(base, TextOf(base, rest), c);
    }
  }

  lemma InWord(base: nat, n: Word)
    requires base == 10 || base == 16
    ensures n / base < 0x1_0000_0000_0000_0000 && n / base * base + n % base == n && W(n) == n
    ensures n < base ==> n / base == 0 && n % base == n
  {
  }

  lemma OneMoreDigit(base: nat, s: string, c: char)
    requires AllIn(Hex, s) && In(Hex, c)
    ensures AllIn(Hex, s + [c]) && ValueOf(base, s + [c]) == W(ValueOf(base, s) as int * base + DigitOf(c))
  {
    assert (s + [c])[..|s|] == s;
    hide DigitOf, W;
  }

  /** Names are letters and digits that are not a hexadecimal number. */
  ghost predicate ProperNames(e: Expr) {
    match e
    case Name(name) => Alpha(name) && !AllIn(Hex, name)
    case Un(_, e1) => ProperNames(e1)
    case Bin(_, l, r) => ProperNames(l) && ProperNames(r)
    case _ => true
  }

  /** How a token is commonly written. */
  function Spelling(t: Token): (s: string) {
    match t
    case T_NUMBER(n) => TextOf(16, n)
    case T_NAME(name) => name
    case T_DOT => "."
    case T_COLON => ":"
    case T_COMMA => ","
    case T_LPAREN => "("
    case T_RPAREN => ")"
    case T_PLUS => "+"
    case T_MINUS => "-"
    case T_MUL => "*"
    case T_DIV => "/"
    case T_MOD => "%"
    case T_AND => "&"
    case T_OR => "|"
    case T_EOR => "^"
    case T_SHIFTL => "<<"
    case T_SHIFTR => ">>"
    case T_NOT => "~"
    case T_ASSIGN => "="
    case _ => ""
  }

  predicate Writable(t: Token) {
    !Final(t) && !t.T_STRING? && (t.T_NAME? ==> Alpha(t.name) && !AllIn(Hex, t.name))
  }

  lemma SpellingWrites(t: Token)
    requires Writable(t)
    ensures Writes(Spelling(t), t, "")
  {
    hide ValueOf, TextOf;
    if t.T_NUMBER? { TextReadsBack(16, t.n); }
  }

  lemma {:induction false} PrintedWritable(e: Expr, k: Level)
    requires ProperNames(e)
    ensures forall t :: t in Print(e, k) ==> Writable(t)
    decreases e, if Strength(e) < k then 1 else 0
  {
    if Strength(e) < k {
      PrintedWritable(e, 0);
    } else if e.Un? {
      PrintedWritable(e.e, 6);
    } else if e.Bin? {
      PrintedWritable(e.left, LevelOf(e.op));
      PrintedWritable(e.right, LevelOf(e.op) + 1);
    }
  }

  function Lexemes(ts: seq<Token>): (ls: seq<Lexeme>)
    ensures |ls| == |ts|
    ensures forall i :: 0 <= i < |ls| ==> ls[i] == Lexeme("", Spelling(ts[i]), ts[i])
  {
    seq(|ts|, i requires 0 <= i < |ts| => Lexeme("", Spelling(ts[i]), ts[i]))
  }

  /** Every expression has a line, without any space, that is parsed to its value. */
  lemma EveryExpressionHasLine(env: Env, e: Expr)
    requires ProperNames(e)
    ensures Parse(env, 0, Tokens(Written(Lexemes(Print(e, 0)), ""))) == Value(Eval(env, e), [T_END])
  {
    var ts := Print(e, 0);
    PrintedWritable(e, 0);
    assert Tokens("") == [T_END] by { EmptyLine(); }
    hide Print, Tokens, Parse, Eval, Writable, Spelling;
    var ls := Lexemes(ts);
    assert TokensOf(ls) == ts;
    forall i | 0 <= i < |ls|
      ensures Writes(ls[i].text, ls[i].token, "")
    {
      assert ts[i] in ts;
      SpellingWrites(ts[i]);
    }
    LineParses(env, e, ls, "");
  }

  lemma EmptyLine()
    ensures Tokens("") == [T_END]
  {
    assert Scan("") == (T_END, 1);
  }

  // ---------- The operators, as they are written ----------

  /** How an operator is written, and how tightly it binds in C. */
  function Symbol(op: Binary): (r: (string, nat)) {
    match op
    case Mul => ("*", 6)
    case Div => ("/", 6)
    case Mod => ("%", 6)
    case Add => ("+", 5)
    case Sub => ("-", 5)
    case ShiftL => ("<<", 4)
    case ShiftR => (">>", 4)
    case Both => ("&", 3)
    case Exclusive => ("^", 2)
    case Inclusive => ("|", 1)
  }

  /** Of two operators in a line the one that binds more tightly comes first, and the left one of two that bind
      alike. */
  lemma ThreeOperands(env: Env, a: Word, op1: Binary, b: Word, op2: Binary, c: Word)
    ensures var line := TextOf(16, a) + Symbol(op1).0 + TextOf(16, b) + Symbol(op2).0 + TextOf(16, c);
      var first := if Symbol(op1).1 >= Symbol(op2).1 then Apply2(env, op1, a, b) else Apply2(env, op2, b, c);
      var all :=
        if first.None? then None
        else if Symbol(op1).1 >= Symbol(op2).1 then Apply2(env, op2, first.value, c)
        else Apply2(env, op1, a, first.value);
      Parse(env, 0, Tokens(line)) == Value(all, [T_END])
  {
    var left := Symbol(op1).1 >= Symbol(op2).1;
    var x, y, z := Number(a), Number(b), Number(c);
    var e := if left then Bin(op2, Bin(op1, x, y), z) else Bin(op1, x, Bin(op2, y, z));
    var ts := [T_NUMBER(a), BinaryToken(op1), T_NUMBER(b), BinaryToken(op2), T_NUMBER(c)];
    PrintedPlainly(op1, op2, x, y, z);
    if left { LeftFirst(env, a, op1, b, op2, c); } else { RightFirst(env, a, op1, b, op2, c); }
    SymbolSpells(op1);
    SymbolSpells(op2);
    hide Print, Tokens, Parse, Eval, Apply2, TextOf, Lexemes, Symbol, ProperNames, BinaryToken;
    EveryExpressionHasLine(env, e);
    FiveWritten(ts);
  }

  lemma LeftFirst(env: Env, a: Word, op1: Binary, b: Word, op2: Binary, c: Word)
    ensures var e := Bin(op2, Bin(op1, Number(a), Number(b)), Number(c));
      && ProperNames(e)
      && Eval(env, e)
         == match Apply2(env, op1, a, b) case None => None case Some(v) => Apply2(env, op2, v, c)
  {
    hide Apply2;
    assert ProperNames(Bin(op1, Number(a), Number(b)));
    assert Eval(env, Bin(op1, Number(a), Number(b))) == Apply2(env, op1, a, b);
  }

  lemma RightFirst(env: Env, a: Word, op1: Binary, b: Word, op2: Binary, c: Word)
    ensures var e := Bin(op1, Number(a), Bin(op2, Number(b), Number(c)));
      && ProperNames(e)
      && Eval(env, e)
         == match Apply2(env, op2, b, c) case None => None case Some(v) => Apply2(env, op1, a, v)
  {
    hide Apply2;
    assert ProperNames(Bin(op2, Number(b), Number(c)));
    assert Eval(env, Bin(op2, Number(b), Number(c))) == Apply2(env, op2, b, c);
  }

  lemma SymbolSpells(op: Binary)
    ensures Spelling(BinaryToken(op)) == Symbol(op).0
  {
  }

  lemma PrintedPlainly(op1: Binary, op2: Binary, x: Expr, y: Expr, z: Expr)
    requires x.Number? && y.Number? && z.Number?
    ensures var ts := [T_NUMBER(x.n), BinaryToken(op1), T_NUMBER(y.n), BinaryToken(op2), T_NUMBER(z.n)];
      if Symbol(op1).1 >= Symbol(op2).1 then Print(Bin(op2, Bin(op1, x, y), z), 0) == ts
      else Print(Bin(op1, x, Bin(op2, y, z)), 0) == ts
  {
    assert forall k: Level :: Print(x, k) == [T_NUMBER(x.n)] && Print(y, k) == [T_NUMBER(y.n)]
                           && Print(z, k) == [T_NUMBER(z.n)];
    hide BinaryToken;
    var j1, j2 := LevelOf(op1), LevelOf(op2);
    if Symbol(op1).1 >= Symbol(op2).1 {
      assert Print(Bin(op1, x, y), j2) == Print(x, j1) + [BinaryToken(op1)] + Print(y, j1 + 1);
    } else {
      assert Print(Bin(op2, y, z), j1 + 1) == Print(y, j2) + [BinaryToken(op2)] + Print(z, j2 + 1);
    }
  }

  lemma FiveWritten(ts: seq<Token>)
    requires |ts| == 5
    ensures Written(Lexemes(ts), "")
         == Spelling(ts[0]) + Spelling(ts[1]) + Spelling(ts[2]) + Spelling(ts[3]) + Spelling(ts[4])
  {
    hide Spelling;
    WrittenFirst(ts);
    WrittenFirst(ts[1..]);
    WrittenFirst(ts[2..]);
    WrittenFirst(ts[3..]);
    WrittenFirst(ts[4..]);
    assert Written(Lexemes(ts[5..]), "") == "";
    FiveJoined(Spelling(ts[0]), Spelling(ts[1]), Spelling(ts[2]), Spelling(ts[3]), Spelling(ts[4]));
  }

  lemma FiveJoined(a: string, b: string, c: string, d: string, e: string)
    ensures a + (b + (c + (d + (e + "")))) == a + b + c + d + e
  {
  }

  lemma WrittenFirst(ts: seq<Token>)
    requires ts != []
    ensures Written(Lexemes(ts), "") == Spelling(ts[0]) + Written(Lexemes(ts[1..]), "")
  {
    assert Lexemes(ts)[1..] == Lexemes(ts[1..]);
  }

  function Prefix(op: Unary): (s: string) {
    match op
    case Plus => "+"
    case Minus => "-"
    case Not => "~"
  }

  /** A sign before a number. */
  lemma SignedOperand(env: Env, op: Unary, a: Word)
    ensures Parse(env, 0, Tokens(Prefix(op) + TextOf(16, a))) == Done(Apply1(op, a), [T_END])
  {
    hide Tokens, Parse, Apply1, TextOf, Print, Prefix, UnaryToken, Eval, Written, Lexemes, Spelling, ProperNames;
    var e := Un(op, Number(a));
    SignedTree(env, op, a);
    EveryExpressionHasLine(env, e);
    SignedWritten(op, a);
  }

  lemma SignedTree(env: Env, op: Unary, a: Word)
    ensures var e := Un(op, Number(a));
      ProperNames(e) && Print(e, 0) == [UnaryToken(op), T_NUMBER(a)] && Eval(env, e) == Some(Apply1(op, a))
  {
    hide Apply1;
    assert Print(Number(a), 6) == [T_NUMBER(a)];
    assert ProperNames(Number(a)) && Eval(env, Number(a)) == Some(a);
  }

  lemma SignedWritten(op: Unary, a: Word)
    ensures Written(Lexemes([UnaryToken(op), T_NUMBER(a)]), "") == Prefix(op) + TextOf(16, a)
  {
    var ts := [UnaryToken(op), T_NUMBER(a)];
    assert Spelling(UnaryToken(op)) == Prefix(op);
    hide TextOf, Prefix, UnaryToken;
    WrittenFirst(ts);
    WrittenFirst(ts[1..]);
    assert Written(Lexemes(ts[2..]), "") == "";
    assert TextOf(16, a) + "" == TextOf(16, a);
  }

  /** The two places that have a sign of their own, and variables. */
  lemma PlainOperand(env: Env, name: string)
    requires Alpha(name) && !AllIn(Hex, name)
    ensures Parse(env, 0, Tokens(".")) == Done(env.dot, [T_END])
    ensures Parse(env, 0, Tokens(":")) == Done(env.colon, [T_END])
    ensures Parse(env, 0, Tokens(name)) == if name in env.vars then Done(env.vars[name], [T_END]) else Fail
  {
    hide Tokens, Parse, Alpha, AllIn;
    assert ProperNames(Name(name));
    OneWritten(env, Dot, T_DOT);
    OneWritten(env, Colon, T_COLON);
    OneWritten(env, Name(name), T_NAME(name));
  }

  lemma OneWritten(env: Env, e: Expr, t: Token)
    requires ProperNames(e) && Print(e, 0) == [t]
    ensures Parse(env, 0, Tokens(Spelling(t))) == Value(Eval(env, e), [T_END])
  {
    hide Tokens, Parse, Spelling, Print, Eval, ProperNames;
    EveryExpressionHasLine(env, e);
    WrittenFirst([t]);
    assert Written(Lexemes([t][1..]), "") == "";
    assert Spelling(t) + "" == Spelling(t);
  }
}
