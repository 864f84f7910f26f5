/**
  What the monitor's scanner makes of a line: tokens, and the characters they are written with.
 */
module MonTokens {
  import opened Arithmetic
  import opened MonWords

  datatype Token =
    | T_NULL | T_END
    | T_NUMBER(n: Word) | T_STRING(str: string) | T_NAME(name: string)
    | T_DOT | T_COLON | T_COMMA | T_LPAREN | T_RPAREN
    | T_PLUS | T_MINUS | T_MUL | T_DIV | T_MOD
    | T_AND | T_OR | T_EOR | T_SHIFTL | T_SHIFTR | T_NOT | T_ASSIGN

  /** After these there is nothing left to scan. */
  predicate Final(t: Token) {
    t == T_NULL || t == T_END
  }

  // ---------- Characters ----------

  datatype Class = Space | Dec | Hex | Alnum

  predicate In(cl: Class, c: char) {
    match cl
    case Space => c == ' ' || 9 <= c as int <= 13
    case Dec => '0' <= c <= '9'
    case Hex => '0' <= c <= '9' || 'a' <= c <= 'f' || 'A' <= c <= 'F'
    case Alnum => '0' <= c <= '9' || 'a' <= c <= 'z' || 'A' <= c <= 'Z'
  }

  /** How many characters at the start are in the class. */
  function Span(cl: Class, s: string): (n: nat)
    ensures n <= |s|
    ensures forall i :: 0 <= i < n ==> In(cl, s[i])
    ensures n < |s| ==> !In(cl, s[n])
  {
    if s == [] || !In(cl, s[0]) then 0 else 1 + Span(cl, s[1..])
  }

  predicate AllIn(cl: Class, s: string) {
    forall i :: 0 <= i < |s| ==> In(cl, s[i])
  }

  function DigitOf(c: char): (d: nat)
    requires In(Hex, c)
    ensures d < 16
  {
    if c <= '9' then c as int - '0' as int
    else if c >= 'a' then c as int - 'a' as int + 10
    else c as int - 'A' as int + 10
  }

  /** The value of digits to a base, in a machine word. */
  function ValueOf(base: nat, digits: string): (w: Word)
    requires AllIn(Hex, digits)
    decreases |digits|
  {
    if digits == [] then 0
    else
      var n := |digits| - 1;
      W(ValueOf(base, digits[..n]) as int * base + DigitOf(digits[n]))
  }

  lemma NoDigits(base: nat)
    ensures ValueOf(base, "") == 0
  {
  }

  /** The value of a character constant: its characters are the word's bytes. */
  function CharsOf(s: string): (w: Word)
    decreases |s|
  {
    if s == [] then 0 else W(CharsOf(s[..|s| - 1]) as int * 0x100 + s[|s| - 1] as int % 0x100)
  }

  /** Hexadecimal digits, in either case. */
  lemma DigitsAre(d: nat)
    requires d < 16
    ensures var small, large := "0123456789abcdef"[d], "0123456789ABCDEF"[d];
      In(Hex, small) && DigitOf(small) == d && In(Hex, large) && DigitOf(large) == d
  {
  }

  /** Eight characters make a word's bytes, the last of them the lowest: bit for bit. */
  lemma {:induction false} CharsAreBytes(s: string, j: nat, i: nat)
    requires j < |s| && j < 8 && i < 8
    ensures BitOf(CharsOf(s), 8 * j + i) == BitOf(s[|s| - 1 - j] as int % 0x100, i)
    decreases j
  {
    var n := |s| - 1;
    var high, low := CharsOf(s[..n]), s[n] as int % 0x100;
    assert CharsOf(s) == W(high as int * 0x100 + low);
    hide CharsOf, BitOf, W;
    ByteBelow(high, low, 8 * j + i);
    if j > 0 {
      CharsAreBytes(s[..n], j - 1, i);
    }
  }

  /** A byte put in at the low end. */
  lemma ByteBelow(high: nat, low: nat, k: nat)
    requires low < 0x100 && k < WIDTH
    ensures BitOf(W(high * 0x100 + low), k) == if k < 8 then BitOf(low, k) else BitOf(high, k - 8)
  {
    hide Pow2, BitOf;
    var x: nat := high * 0x100 + low;
    WidthIsWord();
    EightBits();
    LowBits(WIDTH, x, k);
    DivisionUnique(0x100, high, low, x);
    if k < 8 { LowBits(8, x, k); } else { BitsDown(x, 8, high, k - 8); }
  }

  lemma EightBits()
    ensures Pow2(8) == 0x100
  {
  }

  /** Where `c` is first in `s`; the length if it is not. */
  function IndexOf(c: char, s: string): (i: nat)
    ensures i <= |s|
    ensures i < |s| ==> s[i] == c
    ensures forall j :: 0 <= j < i ==> s[j] != c
  {
    if s == [] || s[0] == c then 0 else 1 + IndexOf(c, s[1..])
  }

  // ---------- The scanner ----------

  /** A token, and how many characters are read for it. The zero at the line's end is read too. */
  type Scanned = (Token, nat)

  /** Digits of the class, which no letter or other digit may follow. */
  function ScanDigits(cl: Class, base: nat, s: string): (r: Scanned)
    requires cl == Dec || cl == Hex
    ensures r.1 <= |s| + 1 && (r.0.T_NUMBER? ==> 0 < r.1 <= |s|) && (!r.0.T_NUMBER? ==> r.0 == T_NULL)
  {
    var n := Span(cl, s);
    DigitsAreHex(cl, s[..n]);
    if n == 0 then (T_NULL, 1)
    else if n < |s| && In(Alnum, s[n]) then (T_NULL, n + 1)
    else (T_NUMBER(ValueOf(base, s[..n])), n)
  }

  lemma DigitsAreHex(cl: Class, s: string)
    ensures (cl == Dec || cl == Hex) && AllIn(cl, s) ==> AllIn(Hex, s)
  {
  }

  /** A hexadecimal number, or else a name. */
  function ScanHexOrName(s: string): (r: Scanned)
    requires s != [] && In(Alnum, s[0])
    ensures 0 < r.1 <= |s| && (r.0.T_NUMBER? || r.0.T_NAME?)
  {
    var hex, n := ScanDigits(Hex, 16, s), Span(Alnum, s);
    if hex.0.T_NUMBER? then hex else (T_NAME(s[..n]), n)
  }

  /** Up to the closing quote. */
  function ScanChars(s: string): (r: Scanned)
    ensures r.1 <= |s| + 1 && (r.0 != T_NULL ==> r.1 <= |s|)
  {
    var n := IndexOf('\'', s);
    if n == |s| then (T_NULL, n + 1) else (T_NUMBER(CharsOf(s[..n])), n + 1)
  }

  function ScanString(s: string): (r: Scanned)
    ensures r.1 <= |s| + 1 && (r.0 != T_NULL ==> r.1 <= |s|)
  {
    var n := IndexOf('\"', s);
    if n == |s| then (T_NULL, n + 1) else (T_STRING(s[..n]), n + 1)
  }

  /** The operators and signs of one character. */
  function Sign(c: char): (t: Token)
    ensures t != T_END
  {
    match c
    case '(' => T_LPAREN
    case ')' => T_RPAREN
    case '.' => T_DOT
    case ':' => T_COLON
    case ',' => T_COMMA
    case '+' => T_PLUS
    case '-' => T_MINUS
    case '*' => T_MUL
    case '/' => T_DIV
    case '%' => T_MOD
    case '&' => T_AND
    case '|' => T_OR
    case '^' => T_EOR
    case '~' => T_NOT
    case '=' => T_ASSIGN
    case _ => T_NULL
  }

  /** `<<` and `>>`. */
  function Twice(c: char, t: Token, s: string): (r: Scanned) {
    (if s != [] && s[0] == c then t else T_NULL, 1)
  }

  function After(r: Scanned, n: nat): (r': Scanned) {
    (r.0, n + r.1)
  }

  /** A token at the start, no space before it. */
  function ScanToken(s: string): (r: Scanned)
    ensures 0 < r.1 <= |s| + 1 && (!Final(r.0) ==> r.1 <= |s|)
  {
    if s == [] then (T_END, 1)
    else
      var c, rest := s[0], s[1..];
      if Sign(c) != T_NULL then (Sign(c), 1)
      else if c == '<' then After(Twice(c, T_SHIFTL, rest), 1)
      else if c == '>' then After(Twice(c, T_SHIFTR, rest), 1)
      else if c == '$' then After(ScanDigits(Hex, 16, rest), 1)
      else if c == '_' then After(ScanDigits(Dec, 10, rest), 1)
      else if c == '\'' then After(ScanChars(rest), 1)
      else if c == '\"' then After(ScanString(rest), 1)
      else if In(Alnum, c) then ScanHexOrName(s)
      else (T_NULL, 1)
  }

  function Scan(s: string): (r: Scanned)
    ensures 0 < r.1 <= |s| + 1 && (!Final(r.0) ==> r.1 <= |s|)
  {
    var n := Span(Space, s);
    After(ScanToken(s[n..]), n)
  }

  /** All the tokens of a line, up to the first that is final. */
  function Tokens(s: string): (ts: seq<Token>)
    ensures |ts| > 0 && Final(ts[|ts| - 1])
    ensures forall i :: 0 <= i < |ts| - 1 ==> !Final(ts[i])
    decreases |s|
  {
    var r := Scan(s);
    if Final(r.0) then [r.0] else [r.0] + Tokens(s[r.1..])
  }

  // ---------- How tokens are written ----------

  predicate Alpha(s: string) {
    s != [] && AllIn(Alnum, s)
  }

  /** `s` is a way to write the token, which `next` may follow. */
  predicate Writes(s: string, t: Token, next: string) {
    if t.T_NUMBER? then WritesNumber(s, t.n, next)
    else if t.T_NAME? then s == t.name && Alpha(s) && !AllIn(Hex, s) && NotAlnum(next)
    else WritesSign(s, t)
  }

  predicate WritesSign(s: string, t: Token) {
    || (s == "<<" && t == T_SHIFTL)
    || (s == ">>" && t == T_SHIFTR)
    || (|s| == 1 && t == Sign(s[0]) != T_NULL)
  }

  predicate NotAlnum(s: string) {
    s == [] || !In(Alnum, s[0])
  }

  /** Hexadecimal digits, with or without `$`, decimal digits after `_`, or characters in quotes. */
  predicate WritesNumber(s: string, n: Word, next: string) {
    || (s != [] && AllIn(Hex, s) && ValueOf(16, s) == n && NotAlnum(next))
    || (|s| > 1 && s[0] == '$' && AllIn(Hex, s[1..]) && ValueOf(16, s[1..]) == n && NotAlnum(next))
    || (|s| > 1 && s[0] == '_' && AllIn(Dec, s[1..]) && DecimalIs(s[1..], n) && NotAlnum(next))
    || (|s| > 1 && s[0] == s[|s| - 1] == '\'' && '\'' !in s[1..|s| - 1] && CharsOf(s[1..|s| - 1]) == n)
  }

  predicate DecimalIs(s: string, n: Word)
    requires AllIn(Dec, s)
  {
    DigitsAreHex(Dec, s);
    ValueOf(10, s) == n
  }

  lemma {:induction false} SpanIs(cl: Class, a: string, b: string)
    requires AllIn(cl, a) && (b == [] || !In(cl, b[0]))
    ensures Span(cl, a + b) == |a|
  {
    if a == [] {
      assert a + b == b;
    } else {
      assert (a + b)[1..] == a[1..] + b;
      SpanIs(cl, a[1..], b);
    }
  }

  lemma {:induction false} IndexIs(c: char, a: string, b: string)
    requires c !in a && b != [] && b[0] == c
    ensures IndexOf(c, a + b) == |a|
  {
    if a == [] {
      assert a + b == b;
    } else {
      assert (a + b)[1..] == a[1..] + b;
      IndexIs(c, a[1..], b);
    }
  }

  lemma DigitsScan(cl: Class, base: nat, s: string, next: string)
    requires (cl == Dec || cl == Hex) && s != [] && AllIn(cl, s) && NotAlnum(next) && AllIn(Hex, s)
    ensures ScanDigits(cl, base, s + next) == (T_NUMBER(ValueOf(base, s)), |s|)
  {
    SpanIs(cl, s, next);
    assert (s + next)[..|s|] == s;
    hide ValueOf, Span;
  }

  lemma CharsScan(s: string, next: string)
    requires '\'' !in s
    ensures ScanChars(s + "'" + next) == (T_NUMBER(CharsOf(s)), |s| + 1)
  {
    assert s + "'" + next == s + ("'" + next);
    IndexIs('\'', s, "'" + next);
    assert (s + "'" + next)[..|s|] == s;
  }

  /** A string goes up to the next quote. */
  lemma StringScans(s: string, next: string)
    requires '\"' !in s
    ensures ScanToken("\"" + s + "\"" + next) == (T_STRING(s), |s| + 2)
    ensures ScanToken("\"" + s).0 == T_NULL
  {
    var rest := s + ("\"" + next);
    var all := "\"" + s + "\"" + next;
    IndexIs('\"', s, "\"" + next);
    assert rest[..|s|] == s;
    assert all[0] == '\"' && all[1..] == rest;
    assert ("\"" + s)[1..] == s;
    hide ScanDigits, ScanHexOrName, ScanChars, IndexOf;
  }

  lemma NameScans(s: string, next: string)
    requires Alpha(s) && !AllIn(Hex, s) && NotAlnum(next)
    ensures ScanHexOrName(s + next) == (T_NAME(s), |s|)
  {
    SpanIs(Alnum, s, next);
    assert (s + next)[..|s|] == s;
    NotHex(s, next);
    hide Span, ScanDigits;
  }

  /** A name is not taken for a number. */
  lemma NotHex(s: string, next: string)
    requires Alpha(s) && !AllIn(Hex, s)
    ensures ScanDigits(Hex, 16, s + next).0 == T_NULL
  {
    var n := Span(Hex, s + next);
    var i :| 0 <= i < |s| && !In(Hex, s[i]);
    assert (s + next)[i] == s[i];
    assert n <= i;
    assert (s + next)[n] == s[n];
  }

  lemma NumberScans(s: string, n: Word, next: string)
    requires WritesNumber(s, n, next)
    ensures ScanToken(s + next) == (T_NUMBER(n), |s|)
  {
    hide ScanDigits, ValueOf, CharsOf, ScanChars, ScanHexOrName, ScanToken;
    if s[0] == '$' {
      PrefixedScans(Hex, 16, s, next);
    } else if s[0] == '_' {
      DigitsAreHex(Dec, s[1..]);
      PrefixedScans(Dec, 10, s, next);
    } else if s[0] == '\'' {
      QuotedScans(s[1..|s| - 1], next);
      assert s == "'" + s[1..|s| - 1] + "'";
    } else {
      PlainScans(s, next);
    }
  }

  lemma PrefixedScans(cl: Class, base: nat, s: string, next: string)
    requires |s| > 1 && AllIn(cl, s[1..]) && AllIn(Hex, s[1..]) && NotAlnum(next)
    requires if s[0] == '$' then cl == Hex && base == 16 else s[0] == '_' && cl == Dec && base == 10
    ensures ScanToken(s + next) == (T_NUMBER(ValueOf(base, s[1..])), |s|)
  {
    hide ScanDigits, ValueOf, AllIn, ScanToken, NotAlnum, In;
    DigitsScan(cl, base, s[1..], next);
    FirstOf(s, next);
    ByFirst(s + next);
  }

  lemma QuotedScans(s: string, next: string)
    requires '\'' !in s
    ensures ScanToken("'" + s + "'" + next) == (T_NUMBER(CharsOf(s)), |s| + 2)
  {
    hide ScanChars, CharsOf, ScanToken;
    CharsScan(s, next);
    var all := "'" + (s + "'" + next);
    assert all == "'" + s + "'" + next;
    assert all[0] == '\'' && all[1..] == s + "'" + next;
    ByFirst(all);
  }

  lemma PlainScans(s: string, next: string)
    requires s != [] && AllIn(Hex, s) && NotAlnum(next)
    ensures ScanToken(s + next) == (T_NUMBER(ValueOf(16, s)), |s|)
  {
    assert In(Hex, s[0]) && In(Alnum, s[0]);
    hide ScanDigits, ValueOf, AllIn, ScanToken, NotAlnum, In, Span;
    DigitsScan(Hex, 16, s, next);
    FirstOf(s, next);
    ByFirst(s + next);
  }

  lemma FirstOf(s: string, next: string)
    requires s != []
    ensures (s + next)[0] == s[0] && (s + next)[1..] == s[1..] + next
  {
  }

  /** What the first character makes the scanner look for. */
  lemma ByFirst(s: string)
    requires s != []
    ensures In(Alnum, s[0]) ==> ScanToken(s) == ScanHexOrName(s)
    ensures s[0] == '$' ==> ScanToken(s) == After(ScanDigits(Hex, 16, s[1..]), 1)
    ensures s[0] == '_' ==> ScanToken(s) == After(ScanDigits(Dec, 10, s[1..]), 1)
    ensures s[0] == '\'' ==> ScanToken(s) == After(ScanChars(s[1..]), 1)
  {
    hide ScanDigits, ScanHexOrName, ScanChars, ScanString;
  }

  /** A token that is written is scanned: the same token, and just its characters. */
  lemma WrittenScans(s: string, t: Token, next: string)
    requires Writes(s, t, next)
    ensures s != [] && !In(Space, s[0]) && !Final(t) && ScanToken(s + next) == (t, |s|)
  {
    hide ScanToken, ScanHexOrName, Span, NotAlnum, WritesNumber, WritesSign, AllIn, In;
    if t.T_NUMBER? {
      NumberScans(s, t.n, next);
      NumberStarts(s, t.n, next);
    } else if t.T_NAME? {
      NameScans(s, next);
      FirstOf(s, next);
      NameStarts(s);
      ByFirst(s + next);
    } else {
      WrittenSignScans(s, t, next);
    }
  }

  lemma NumberStarts(s: string, n: Word, next: string)
    requires WritesNumber(s, n, next)
    ensures s != [] && !In(Space, s[0])
  {
    hide ValueOf, CharsOf, NotAlnum;
  }

  lemma NameStarts(s: string)
    requires Alpha(s)
    ensures s != [] && !In(Space, s[0]) && In(Alnum, s[0])
  {
  }

  lemma WrittenSignScans(s: string, t: Token, next: string)
    requires WritesSign(s, t)
    ensures s != [] && !In(Space, s[0]) && !Final(t) && ScanToken(s + next) == (t, |s|)
  {
    hide ScanToken, Sign, In;
    FirstOf(s, next);
    SignStarts(s[0]);
    SignScans(s + next);
    if |s| == 2 { FirstOf(s[1..], next); }
  }

  lemma SignStarts(c: char)
    ensures Sign(c) != T_NULL || c == '<' || c == '>' ==> !In(Space, c)
  {
  }

  lemma SignScans(s: string)
    requires s != []
    ensures Sign(s[0]) != T_NULL ==> ScanToken(s) == (Sign(s[0]), 1)
    ensures |s| > 1 && s[0] == s[1] == '<' ==> ScanToken(s) == (T_SHIFTL, 2)
    ensures |s| > 1 && s[0] == s[1] == '>' ==> ScanToken(s) == (T_SHIFTR, 2)
  {
    hide ScanDigits, ScanHexOrName, ScanChars, ScanString;
  }

  /** The same with space before it. */
  lemma SpacedScans(space: string, s: string, t: Token, next: string)
    requires AllIn(Space, space) && Writes(s, t, next)
    ensures Scan(space + s + next) == (t, |space| + |s|)
  {
    hide Writes, AllIn, Scan, ScanToken, In;
    WrittenScans(s, t, next);
    assert space + s + next == space + (s + next);
    assert (s + next)[0] == s[0];
    SpaceScans(space, s + next);
  }

  lemma SpaceScans(space: string, s: string)
    requires AllIn(Space, space) && (s == [] || !In(Space, s[0]))
    ensures Scan(space + s) == After(ScanToken(s), |space|)
  {
    SpanIs(Space, space, s);
    hide ScanToken, Span, AllIn;
    assert (space + s)[|space|..] == s;
  }

  // ---------- Lines ----------

  /** A token as it is written, after some space. */
  datatype Lexeme = Lexeme(space: string, text: string, token: Token)

  function Written(ls: seq<Lexeme>, rest: string): (s: string) {
    if ls == [] then rest else ls[0].space + ls[0].text + Written(ls[1..], rest)
  }

  function TokensOf(ls: seq<Lexeme>): (ts: seq<Token>)
    ensures |ts| == |ls|
    ensures forall i :: 0 <= i < |ls| ==> ts[i] == ls[i].token
  {
    seq(|ls|, i requires 0 <= i < |ls| => ls[i].token)
  }

  ghost predicate WellWritten(ls: seq<Lexeme>, rest: string) {
    ls != [] ==>
      AllIn(Space, ls[0].space) && Writes(ls[0].text, ls[0].token, Written(ls[1..], rest)) && WellWritten(ls[1..], rest)
  }

  /** A line of written tokens scans as these tokens, and what follows as it does alone. */
  lemma {:induction false} LineScans(ls: seq<Lexeme>, rest: string)
    requires WellWritten(ls, rest)
    ensures Tokens(Written(ls, rest)) == TokensOf(ls) + Tokens(rest)
  {
    hide Tokens, Writes, AllIn, TokensOf;
    if ls == [] {
      assert |TokensOf(ls)| == 0;
    } else {
      LineScans(ls[1..], rest);
      FirstScans(ls[0], Written(ls[1..], rest));
      TokensOfMore(ls, Tokens(rest));
    }
  }

  lemma FirstScans(l: Lexeme, more: string)
    requires AllIn(Space, l.space) && Writes(l.text, l.token, more)
    ensures Tokens(l.space + l.text + more) == [l.token] + Tokens(more)
  {
    hide Writes, AllIn, Tokens, Scan, ScanToken, In;
    SpacedScans(l.space, l.text, l.token, more);
    WrittenScans(l.text, l.token, more);
    NextTokens(l.space + l.text + more, l.token, more);
  }

  lemma TokensOfMore(ls: seq<Lexeme>, ts: seq<Token>)
    requires ls != []
    ensures TokensOf(ls) + ts == [ls[0].token] + (TokensOf(ls[1..]) + ts)
  {
    assert TokensOf(ls) == [ls[0].token] + TokensOf(ls[1..]);
  }

  lemma NextTokens(s: string, t: Token, more: string)
    requires |s| >= |more| && Scan(s) == (t, |s| - |more|) && !Final(t) && s[|s| - |more|..] == more
    ensures Tokens(s) == [t] + Tokens(more)
  {
    hide Scan;
  }
}
