/** The monitor's numbers: machine words of 64 bits, and the operators on them. */
module MonWords {
  import opened Options
  import opened Arithmetic

  const LIMIT: int := 0x1_0000_0000_0000_0000
  const WIDTH: nat := 64

  type Word = w: int | 0 <= w < 0x1_0000_0000_0000_0000

  function W(x: int): (w: Word) {
    x % 0x1_0000_0000_0000_0000
  }

  datatype Bitwise = And | Or | Xor

  function Bit(op: Bitwise, a: nat, b: nat): (c: nat)
    requires a < 2 && b < 2
    ensures c < 2
  {
    match op
    case And => if a == 1 && b == 1 then 1 else 0
    case Or => if a == 1 || b == 1 then 1 else 0
    case Xor => if a != b then 1 else 0
  }

  /** A bitwise operator on numbers of `n` bits. */
  function Bits(op: Bitwise, n: nat, a: nat, b: nat): (c: nat)
    requires a < Pow2(n) && b < Pow2(n)
    ensures c < Pow2(n)
  {
    if n == 0 then 0 else 2 * Bits(op, n - 1, a / 2, b / 2) + Bit(op, a % 2, b % 2)
  }

  /** Each bit of the result is made of the operands' bits at the same place. */
  lemma {:induction false} BitsAreBitwise(op: Bitwise, n: nat, a: nat, b: nat, i: nat)
    requires a < Pow2(n) && b < Pow2(n) && i < n
    ensures BitOf(Bits(op, n, a, b), i) == Bit(op, BitOf(a, i), BitOf(b, i))
  {
    var high := Bits(op, n - 1, a / 2, b / 2);
    assert (2 * high + Bit(op, a % 2, b % 2)) / 2 == high;
    if i > 0 { BitsAreBitwise(op, n - 1, a / 2, b / 2, i - 1); }
  }

  lemma WidthIsWord()
    ensures Pow2(WIDTH) == LIMIT
  {
    assert Pow2(4) == 16;
    Pow2Sum(4, 4);
    Pow2Sum(8, 8);
    assert Pow2(16) == 0x1_0000;
    hide Pow2;
    Pow2Sum(16, 16);
    Pow2Sum(32, 32);
  }

  function OnWords(op: Bitwise, a: Word, b: Word): (c: Word) {
    WidthIsWord();
    Bits(op, WIDTH, a, b)
  }

  // ---------- The operators of expressions ----------

  datatype Unary = Plus | Minus | Not

  datatype Binary = Inclusive | Exclusive | Both | ShiftL | ShiftR | Add | Sub | Mul | Div | Mod

  /** What expressions depend on: the variables, `.` and `:`, and what a shift by the word's width or
      more gives on the host, which C leaves open. */
  datatype Env = Env(vars: map<string, Word>, dot: Word, colon: Word, wide: (Binary, Word, Word) -> Word)

  /** What a shift by the word's width or more gives is up to the host. */
  function Shifted(wide: (Binary, Word, Word) -> Word, op: Binary, a: Word, b: Word): (r: Word) {
    if b >= WIDTH then wide(op, a, b)
    else if op == ShiftL then W(Times(a, Pow2(b)))
    else Quotient(a, Pow2(b))
  }

  function Apply1(op: Unary, a: Word): (r: Word) {
    match op
    case Plus => a
    case Minus => W(0 - a as int)
    case Not => LIMIT - 1 - a
  }

  function Times(a: nat, b: nat): (r: int) {
    a * b
  }

  function Quotient(a: Word, b: nat): (r: Word)
    requires b > 0
  {
    DivisionIs(a, b);
    a as int / b
  }

  function Remainder(a: Word, b: nat): (r: Word)
    requires b > 0
  {
    DivisionIs(a, b);
    a as int % b
  }

  lemma DivisionIs(a: nat, b: nat)
    requires b > 0
    ensures 0 <= a / b <= a && 0 <= a % b <= a
  {
    var q, r := a / b, a % b;
    assert a == q * b + r;
    ProductMonotone(1, b, q);
    assert q * b == b * q;
  }

  /** None for a division by 0. */
  function Apply2(env: Env, op: Binary, a: Word, b: Word): (r: Option<Word>) {
    match op
    case Inclusive => Some(OnWords(Or, a, b))
    case Exclusive => Some(OnWords(Xor, a, b))
    case Both => Some(OnWords(And, a, b))
    case ShiftL => Some(Shifted(env.wide, op, a, b))
    case ShiftR => Some(Shifted(env.wide, op, a, b))
    case Add => Some(W(a as int + b as int))
    case Sub => Some(W(a as int - b as int))
    case Mul => Some(W(Times(a, b)))
    case Div => if b == 0 then None else Some(Quotient(a, b))
    case Mod => if b == 0 then None else Some(Remainder(a, b))
  }

  // ---------- What the operators mean ----------

  /** `|`, `^` and `&`: each bit of the result from those of the operands. */
  lemma BitwiseMeans(env: Env, a: Word, b: Word, i: nat)
    requires i < WIDTH
    ensures var x, y := BitOf(a, i) == 1, BitOf(b, i) == 1;
      var either, one, both := Apply2(env, Inclusive, a, b), Apply2(env, Exclusive, a, b), Apply2(env, Both, a, b);
      && (either.Some? && (BitOf(either.value, i) == 1 <==> x || y))
      && (one.Some? && (BitOf(one.value, i) == 1 <==> x != y))
      && (both.Some? && (BitOf(both.value, i) == 1 <==> x && y))
  {
    WidthIsWord();
    BitsAreBitwise(Or, WIDTH, a, b, i);
    BitsAreBitwise(Xor, WIDTH, a, b, i);
    BitsAreBitwise(And, WIDTH, a, b, i);
    hide Bits, BitOf, Pow2;
  }

  /** `<<` moves bits up, and zeros in from below; `>>` moves them down, and zeros in from above. */
  lemma ShiftsMean(env: Env, a: Word, b: Word, i: nat)
    requires b < WIDTH && i < WIDTH
    ensures var up, down := Apply2(env, ShiftL, a, b), Apply2(env, ShiftR, a, b);
      && up.Some? && BitOf(up.value, i) == (if i < b then 0 else BitOf(a, i - b))
      && down.Some? && BitOf(down.value, i) == (if i + b < WIDTH then BitOf(a, i + b) else 0)
  {
    WidthIsWord();
    BitsUp(a, b, i);
    LowBits(WIDTH, a * Pow2(b), i);
    BitsDown(a, b, Quotient(a, Pow2(b)), i);
    BitIs(a, i + b);
    if i + b >= WIDTH {
      Pow2Monotone(WIDTH, i + b);
      assert a / Pow2(i + b) == 0 by { DivisionUnique(Pow2(i + b), 0, a, a); }
    }
    hide BitOf, Pow2;
  }

  /** `+`, `-` and `*` are those of the integers, cut to a word. */
  lemma ArithmeticMeans(env: Env, a: Word, b: Word)
    ensures var sum, difference := Apply2(env, Add, a, b), Apply2(env, Sub, a, b);
      && sum.Some? && (sum.value == a as int + b || sum.value == a as int + b - LIMIT)
      && difference.Some? && (difference.value == a as int - b || difference.value == a as int - b + LIMIT)
    ensures var product := Apply2(env, Mul, a, b);
      product.Some? && (a * b - product.value) % LIMIT == 0
  {
    CutOff(a * b);
    assert Times(a, b) == a * b;
    hide Times;
  }

  lemma CutOff(x: int)
    ensures (x - W(x)) % LIMIT == 0
  {
  }

  /** `/` and `%` are quotient and remainder, and fail for 0. */
  lemma DivisionMeans(env: Env, a: Word, b: Word)
    ensures var quotient, remainder := Apply2(env, Div, a, b), Apply2(env, Mod, a, b);
      if b == 0 then quotient.None? && remainder.None?
      else
        && quotient.Some? && remainder.Some?
        && a == quotient.value * b + remainder.value && remainder.value < b
  {
    if b != 0 {
      Divides(a, b);
      hide Quotient, Remainder;
    }
  }

  lemma Divides(a: Word, b: Word)
    requires b > 0
    ensures a == Quotient(a, b) * b + Remainder(a, b) && Remainder(a, b) < b
  {
  }

  /** `-` is the difference from 0, and `~` turns every bit around. */
  lemma UnaryMeans(a: Word, i: nat)
    requires i < WIDTH
    ensures Apply1(Plus, a) == a
    ensures Apply1(Minus, a) == if a == 0 then 0 else LIMIT - a
    ensures BitOf(Apply1(Not, a), i) == 1 - BitOf(a, i)
  {
    WidthIsWord();
    hide Pow2;
    BitsTurned(WIDTH, a, i);
  }
}
