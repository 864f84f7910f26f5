/**
  The monitor's expressions: what its parser makes of tokens, and what expressions mean.

  The parser evaluates as it goes and never builds a tree; that it computes the tree's value is
  `ParsesPrinted`.
 */
module MonParser {
  import opened Options
  import opened MonWords
  import opened MonTokens

  // ---------- The parser, on tokens ----------

  /** The level of an expression in the grammar: 0 for `|` up to 5 for `*`, and 6 for factors. */
  type Level = k: int | 0 <= k <= 6

  function LevelOf(op: Binary): (k: Level)
    ensures k < 6
  {
    match op
    case Inclusive => 0
    case Exclusive => 1
    case Both => 2
    case ShiftL | ShiftR => 3
    case Add | Sub => 4
    case Mul | Div | Mod => 5
  }

  function BinaryOf(t: Token): (op: Option<Binary>) {
    match t
    case T_OR => Some(Inclusive)
    case T_EOR => Some(Exclusive)
    case T_AND => Some(Both)
    case T_SHIFTL => Some(ShiftL)
    case T_SHIFTR => Some(ShiftR)
    case T_PLUS => Some(Add)
    case T_MINUS => Some(Sub)
    case T_MUL => Some(Mul)
    case T_DIV => Some(Div)
    case T_MOD => Some(Mod)
    case _ => None
  }

  /** The token is an operator of this level. */
  predicate Continues(k: Level, t: Token) {
    BinaryOf(t).Some? && LevelOf(BinaryOf(t).value) == k
  }

  datatype Parsed = Fail | Done(value: Word, rest: seq<Token>)

  /** An expression of a level, from the first token on. */
  function Parse(env: Env, k: Level, ts: seq<Token>): (r: Parsed)
    ensures r.Done? ==> |r.rest| < |ts|
    decreases |ts|, 6 - k, 1
  {
    if k == 6 then Factor(env, ts)
    else
      match Parse(env, k + 1, ts)
      case Fail => Fail
      case Done(accu, rest) => More(env, k, accu, rest)
  }

  /** As long as there are operators of the level. */
  function More(env: Env, k: Level, accu: Word, ts: seq<Token>): (r: Parsed)
    requires k < 6
    ensures r.Done? ==> |r.rest| <= |ts|
    decreases |ts|, 6 - k, 1
  {
    if ts == [] || !Continues(k, ts[0]) then Done(accu, ts)
    else
      match Parse(env, k + 1, ts[1..])
      case Fail => Fail
      case Done(expr, rest) =>
        match Apply2(env, BinaryOf(ts[0]).value, accu, expr)
        case None => Fail
        case Some(v) => More(env, k, v, rest)
  }

  function UnaryOf(t: Token): (op: Option<Unary>) {
    match t
    case T_PLUS => Some(Plus)
    case T_MINUS => Some(Minus)
    case T_NOT => Some(Not)
    case _ => None
  }

  /** The value of a token that is a factor by itself. */
  function Atom(env: Env, t: Token): (v: Option<Word>) {
    match t
    case T_NUMBER(n) => Some(n)
    case T_NAME(name) => if name in env.vars then Some(env.vars[name]) else None
    case T_DOT => Some(env.dot)
    case T_COLON => Some(env.colon)
    case _ => None
  }

  function Factor(env: Env, ts: seq<Token>): (r: Parsed)
    ensures r.Done? ==> |r.rest| < |ts|
    decreases |ts|, 0, 0
  {
    if ts == [] then Fail
    else if Atom(env, ts[0]).Some? then Done(Atom(env, ts[0]).value, ts[1..])
    else if UnaryOf(ts[0]).Some? then
      match Factor(env, ts[1..])
      case Fail => Fail
      case Done(v, rest) => Done(Apply1(UnaryOf(ts[0]).value, v), rest)
    else if ts[0] == T_LPAREN then
      match Parse(env, 0, ts[1..])
      case Fail => Fail
      case Done(v, rest) => if rest != [] && rest[0] == T_RPAREN then Done(v, rest[1..]) else Fail
    else Fail
  }

  // ---------- Expressions ----------

  datatype Expr =
    | Number(n: Word)
    | Name(name: string)
    | Dot
    | Colon
    | Un(uop: Unary, e: Expr)
    | Bin(op: Binary, left: Expr, right: Expr)

  /** An expression's value: none if a name is undefined, or there is a division by 0. */
  function Eval(env: Env, e: Expr): (v: Option<Word>) {
    match e
    case Number(n) => Some(n)
    case Name(name) => if name in env.vars then Some(env.vars[name]) else None
    case Dot => Some(env.dot)
    case Colon => Some(env.colon)
    case Un(op, e1) =>
      var v := Eval(env, e1);
      if v.Some? then Some(Apply1(op, v.value)) else None
    case Bin(op, l, r) =>
      var a, b := Eval(env, l), Eval(env, r);
      if a.Some? && b.Some? then Apply2(env, op, a.value, b.value) else None
  }

  function BinaryToken(op: Binary): (t: Token)
    ensures BinaryOf(t) == Some(op)
  {
    match op
    case Inclusive => T_OR
    case Exclusive => T_EOR
    case Both => T_AND
    case ShiftL => T_SHIFTL
    case ShiftR => T_SHIFTR
    case Add => T_PLUS
    case Sub => T_MINUS
    case Mul => T_MUL
    case Div => T_DIV
    case Mod => T_MOD
  }

  function UnaryToken(op: Unary): (t: Token)
    ensures UnaryOf(t) == Some(op)
  {
    match op
    case Plus => T_PLUS
    case Minus => T_MINUS
    case Not => T_NOT
  }

  /** How tightly the outermost operator binds. */
  function Strength(e: Expr): (k: Level) {
    if e.Bin? then LevelOf(e.op) else 6
  }

  /** The expression where one of level `k` is wanted, with parentheses only where they are needed: the
      precedences are those of C, and operators of one level group from left to right. */
  function Print(e: Expr, k: Level): (ts: seq<Token>)
    decreases e, if Strength(e) < k then 1 else 0
  {
    if Strength(e) < k then [T_LPAREN] + Print(e, 0) + [T_RPAREN]
    else
      match e
      case Number(n) => [T_NUMBER(n)]
      case Name(name) => [T_NAME(name)]
      case Dot => [T_DOT]
      case Colon => [T_COLON]
      case Un(op, e1) => [UnaryToken(op)] + Print(e1, 6)
      case Bin(op, l, r) => Print(l, LevelOf(op)) + [BinaryToken(op)] + Print(r, LevelOf(op) + 1)
  }

  // ---------- Printed expressions are parsed to their values ----------

  /** No operator that binds more tightly than level `k` follows. */
  predicate Loose(k: Level, ts: seq<Token>) {
    ts == [] || BinaryOf(ts[0]).None? || LevelOf(BinaryOf(ts[0]).value) <= k
  }

  /** What a parser of level `k` does once it has the value of its first part. */
  function Onward(env: Env, k: Level, v: Option<Word>, ts: seq<Token>): (r: Parsed) {
    if v.None? then Fail else if k == 6 then Done(v.value, ts) else More(env, k, v.value, ts)
  }

  /** How far a proof about an expression of a level has to go. */
  function Way(e: Expr, k: Level): (n: nat) {
    if Strength(e) < k then 14 - k else 6 - k
  }

  lemma {:induction false} ParsesPrinted(env: Env, e: Expr, k: Level, ts: seq<Token>)
    requires Loose(k, ts)
    ensures Parse(env, k, Print(e, k) + ts) == Onward(env, k, Eval(env, e), ts)
    decreases e, Way(e, k)
  {
    hide Parse, Factor, More, Print, Apply1, Apply2, Atom;
    if k == 6 && e.Bin? {
      ParsesPrinted(env, e, 0, [T_RPAREN] + ts);
      InParentheses(env, e, ts);
    } else if k == 6 {
      if e.Un? { ParsesPrinted(env, e.e, 6, ts); }
      FactorPrinted(env, e, ts);
    } else if Strength(e) != k {
      ParsesPrinted(env, e, k + 1, ts);
      NextLevel(env, e, k, ts);
    } else {
      var right := Print(e.right, k + 1) + ts;
      ParsesPrinted(env, e.right, k + 1, ts);
      ParsesPrinted(env, e.left, k, [BinaryToken(e.op)] + right);
      OperatorPrinted(env, e, ts);
    }
  }

  lemma InParentheses(env: Env, e: Expr, ts: seq<Token>)
    requires e.Bin?
    requires Parse(env, 0, Print(e, 0) + ([T_RPAREN] + ts)) == Onward(env, 0, Eval(env, e), [T_RPAREN] + ts)
    ensures Parse(env, 6, Print(e, 6) + ts) == Onward(env, 6, Eval(env, e), ts)
  {
    hide Print, Parse, Eval, More;
    PrintedParentheses(e, ts);
    ParenthesesParse(env, Print(e, 0) + ([T_RPAREN] + ts));
    EndsHere(env, 0, Eval(env, e), [T_RPAREN] + ts);
    assert ([T_RPAREN] + ts)[1..] == ts;
  }

  lemma ParenthesesParse(env: Env, inner: seq<Token>)
    ensures Parse(env, 6, [T_LPAREN] + inner) ==
      match Parse(env, 0, inner)
      case Fail => Fail
      case Done(v, rest) => if rest != [] && rest[0] == T_RPAREN then Done(v, rest[1..]) else Fail
  {
    assert ([T_LPAREN] + inner)[1..] == inner;
  }

  /** Where no operator of the level or a tighter one follows, the expression ends. */
  lemma EndsHere(env: Env, k: Level, v: Option<Word>, ts: seq<Token>)
    requires k < 6 && (ts == [] || BinaryOf(ts[0]).None? || LevelOf(BinaryOf(ts[0]).value) != k)
    ensures Onward(env, k, v, ts) == if v.Some? then Done(v.value, ts) else Fail
  {
  }

  lemma FactorPrinted(env: Env, e: Expr, ts: seq<Token>)
    requires !e.Bin?
    requires e.Un? ==> Parse(env, 6, Print(e.e, 6) + ts) == Onward(env, 6, Eval(env, e.e), ts)
    ensures Parse(env, 6, Print(e, 6) + ts) == Onward(env, 6, Eval(env, e), ts)
  {
    if e.Un? {
      var inner := Print(e.e, 6) + ts;
      assert Print(e, 6) + ts == [UnaryToken(e.uop)] + inner;
      UnaryParse(env, e.uop, inner);
    } else {
      var all := Print(e, 6) + ts;
      assert all[1..] == ts;
    }
  }

  lemma UnaryParse(env: Env, op: Unary, inner: seq<Token>)
    ensures Parse(env, 6, [UnaryToken(op)] + inner) ==
      match Parse(env, 6, inner)
      case Fail => Fail
      case Done(v, rest) => Done(Apply1(op, v), rest)
  {
    assert ([UnaryToken(op)] + inner)[1..] == inner;
    assert Atom(env, UnaryToken(op)).None?;
  }

  /** An expression that is not of the level is one of the next, and then the level's operators go on. */
  lemma NextLevel(env: Env, e: Expr, k: Level, ts: seq<Token>)
    requires k < 6 && Strength(e) != k && Loose(k, ts)
    requires Parse(env, k + 1, Print(e, k + 1) + ts) == Onward(env, k + 1, Eval(env, e), ts)
    ensures Parse(env, k, Print(e, k) + ts) == Onward(env, k, Eval(env, e), ts)
  {
    hide Eval, More;
    assert Print(e, k) == Print(e, k + 1);
    hide Print;
    var all := Print(e, k) + ts;
    if k + 1 < 6 { EndsHere(env, k + 1, Eval(env, e), ts); }
    ParseLevel(env, k, all);
  }

  lemma ParseLevel(env: Env, k: Level, ts: seq<Token>)
    requires k < 6
    ensures Parse(env, k, ts) ==
      match Parse(env, k + 1, ts)
      case Fail => Fail
      case Done(accu, rest) => More(env, k, accu, rest)
  {
  }

  lemma OperatorPrinted(env: Env, e: Expr, ts: seq<Token>)
    requires e.Bin?
    requires var k := LevelOf(e.op);
      && Loose(k, ts)
      && Parse(env, k + 1, Print(e.right, k + 1) + ts) == Onward(env, k + 1, Eval(env, e.right), ts)
      && var more := [BinaryToken(e.op)] + (Print(e.right, k + 1) + ts);
         Parse(env, k, Print(e.left, k) + more) == Onward(env, k, Eval(env, e.left), more)
    ensures Parse(env, LevelOf(e.op), Print(e, LevelOf(e.op)) + ts) == Onward(env, LevelOf(e.op), Eval(env, e), ts)
  {
    var k, right := LevelOf(e.op), Print(e.right, LevelOf(e.op) + 1) + ts;
    hide Print, Parse, More, Apply2;
    PrintedOperator(e, ts);
    var a, b := Eval(env, e.left), Eval(env, e.right);
    if a.Some? {
      MoreStep(env, k, a.value, e.op, right);
      if k + 1 < 6 { EndsHere(env, k + 1, b, ts); }
    }
  }

  lemma PrintedOperator(e: Expr, ts: seq<Token>)
    requires e.Bin?
    ensures var k := LevelOf(e.op);
      Print(e, k) + ts == Print(e.left, k) + ([BinaryToken(e.op)] + (Print(e.right, k + 1) + ts))
  {
    var k := LevelOf(e.op);
    Regroup(Print(e.left, k), [BinaryToken(e.op)], Print(e.right, k + 1), ts);
  }

  lemma Regroup(a: seq<Token>, b: seq<Token>, c: seq<Token>, d: seq<Token>)
    ensures a + b + c + d == a + (b + (c + d))
  {
  }

  lemma PrintedParentheses(e: Expr, ts: seq<Token>)
    requires e.Bin?
    ensures Print(e, 6) + ts == [T_LPAREN] + (Print(e, 0) + ([T_RPAREN] + ts))
  {
    Regroup([T_LPAREN], Print(e, 0), [T_RPAREN], ts);
  }

  lemma MoreStep(env: Env, k: Level, accu: Word, op: Binary, ts: seq<Token>)
    requires k == LevelOf(op)
    ensures More(env, k, accu, [BinaryToken(op)] + ts) ==
      match Parse(env, k + 1, ts)
      case Fail => Fail
      case Done(expr, rest) =>
        match Apply2(env, op, accu, expr)
        case None => Fail
        case Some(v) => More(env, k, v, rest)
  {
    assert ([BinaryToken(op)] + ts)[1..] == ts;
    hide Parse, Apply2;
  }
}
