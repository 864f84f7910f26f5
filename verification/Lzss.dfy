/**
  The LZSS decoder of SheepShaver's ROM loader.

  `DecodeLzss` is the loop over a 4096-byte ring dictionary. It is proved against `Decode`, a
  decoder that knows no ring: it copies bytes from its own history, which is the dictionary's
  initial contents followed by everything decoded so far.
 */
module Lzss {
  import opened Arithmetic
  import opened Bytes

  const DICT_SIZE := 0x1000
  const DICT_START := 0xfee

  // ---------- The history decoder ----------

  /** Appends `count` bytes, each equal to the byte `distance` places before it. */
  function CopyBack(history: seq<Byte>, distance: nat, count: nat): (r: seq<Byte>)
    requires 1 <= distance <= |history|
    ensures |r| == |history| + count && history <= r
    decreases count
  {
    if count == 0 then history
    else CopyBack(history + [history[|history| - distance]], distance, count - 1)
  }

  /** A copied byte repeats the byte `distance` before it, even when that byte is itself a copy. */
  lemma {:induction false} CopyBackRepeats(history: seq<Byte>, distance: nat, count: nat, i: nat)
    requires 1 <= distance <= |history| <= i < |history| + count
    ensures CopyBack(history, distance, count)[i] == CopyBack(history, distance, count)[i - distance]
    decreases count
  {
    var longer := history + [history[|history| - distance]];
    if i > |history| {
      CopyBackRepeats(longer, distance, count - 1, i);
    } else {
      assert longer <= CopyBack(longer, distance, count - 1);
    }
  }

  /** The dictionary index held by a two-byte match. */
  function MatchIndex(b0: Byte, b1: Byte): (idx: nat)
    ensures idx < DICT_SIZE
  {
    b0 + (b1 / 0x10) * 0x100
  }

  /** The length held by a two-byte match. */
  function MatchLength(b1: Byte): (n: nat)
    ensures 3 <= n <= 18
  {
    b1 % 0x10 + 3
  }

  /** How far before position `n` of the history the ring cell `idx` was last written. */
  function Distance(n: nat, idx: nat): (d: nat)
    requires idx < DICT_SIZE
    ensures 1 <= d <= DICT_SIZE
    ensures (DICT_START + n - d) % DICT_SIZE == idx
  {
    (DICT_START + n - idx - 1) % DICT_SIZE + 1
  }

  /**
    Decodes `src` onto `history`. `mask` holds the unread flag bits under a run of sentinel
    bits; a value below 0x100 means that the next source byte is a flag byte.
   */
  function Decode(history: seq<Byte>, mask: nat, src: seq<Byte>): (r: seq<Byte>)
    requires |history| >= DICT_SIZE
    ensures history <= r
    decreases |src|
  {
    if mask < 0x100 then
      if src == [] then history else Decode(history, 0xff00 + (src[0] as int), src[1..])
    else if mask % 2 == 1 then
      if src == [] then history else Decode(history + [src[0]], mask / 2, src[1..])
    else if |src| < 2 then history
    else
      var d := Distance(|history|, MatchIndex(src[0], src[1]));
      Decode(CopyBack(history, d, MatchLength(src[1])), mask / 2, src[2..])
  }

  /** How many bytes decoding `src` produces. */
  function OutputLength(mask: nat, src: seq<Byte>): (n: nat)
    decreases |src|
  {
    if mask < 0x100 then
      if src == [] then 0 else OutputLength(0xff00 + (src[0] as int), src[1..])
    else if mask % 2 == 1 then
      if src == [] then 0 else 1 + OutputLength(mask / 2, src[1..])
    else if |src| < 2 then 0
    else MatchLength(src[1]) + OutputLength(mask / 2, src[2..])
  }

  lemma {:induction false} DecodeLength(history: seq<Byte>, mask: nat, src: seq<Byte>)
    requires |history| >= DICT_SIZE
    ensures |Decode(history, mask, src)| == |history| + OutputLength(mask, src)
    decreases |src|
  {
    if mask < 0x100 {
      if src != [] { DecodeLength(history, 0xff00 + (src[0] as int), src[1..]); }
    } else if mask % 2 == 1 {
      if src != [] { DecodeLength(history + [src[0]], mask / 2, src[1..]); }
    } else if |src| >= 2 {
      var d := Distance(|history|, MatchIndex(src[0], src[1]));
      DecodeLength(CopyBack(history, d, MatchLength(src[1])), mask / 2, src[2..]);
    }
  }

  /** What decoding `src` from scratch writes, given the dictionary's initial contents. */
  function Decoded(window: seq<Byte>, src: seq<Byte>): (out: seq<Byte>)
    requires |window| == DICT_SIZE
  {
    Decode(window, 0, src)[DICT_SIZE..]
  }

  /** The decoder stops here: the source ends where a flag byte, a literal or a match should start. */
  predicate Exhausted(mask: nat, src: seq<Byte>) {
    if mask >= 0x100 && mask % 2 == 0 then |src| < 2 else src == []
  }

  lemma DecodeEnd(history: seq<Byte>, mask: nat, src: seq<Byte>)
    requires |history| >= DICT_SIZE && Exhausted(mask, src)
    ensures Decode(history, mask, src) == history
  {
  }

  lemma DecodeFlags(history: seq<Byte>, mask: nat, src: seq<Byte>)
    requires |history| >= DICT_SIZE && mask < 0x100 && src != []
    ensures Decode(history, mask, src) == Decode(history, 0xff00 + (src[0] as int), src[1..])
  {
  }

  lemma DecodeLiteral(history: seq<Byte>, mask: nat, src: seq<Byte>)
    requires |history| >= DICT_SIZE && mask >= 0x100 && mask % 2 == 1 && src != []
    ensures Decode(history, mask, src) == Decode(history + [src[0]], mask / 2, src[1..])
  {
  }

  lemma DecodeMatch(history: seq<Byte>, mask: nat, src: seq<Byte>)
    requires |history| >= DICT_SIZE && mask >= 0x100 && mask % 2 == 0 && |src| >= 2
    ensures Decode(history, mask, src)
         == Decode(CopyBack(history, Distance(|history|, MatchIndex(src[0], src[1])), MatchLength(src[1])),
                   mask / 2, src[2..])
  {
  }

  // ---------- The ring decoder refines it ----------

  /** The ring holds the last 4096 bytes of the history, each at its own cell. */
  ghost predicate RingHolds(ring: seq<Byte>, history: seq<Byte>) {
    && |ring| == DICT_SIZE <= |history|
    && forall j :: |history| - DICT_SIZE <= j < |history| ==> ring[(DICT_START + j) % DICT_SIZE] == history[j]
  }

  /** The history that the ring's initial contents stand for. */
  function InitialWindow(ring: seq<Byte>): (window: seq<Byte>)
    requires |ring| == DICT_SIZE
    ensures |window| == DICT_SIZE && RingHolds(ring, window)
  {
    seq(DICT_SIZE, j requires 0 <= j < DICT_SIZE => ring[(DICT_START + j) % DICT_SIZE])
  }

  /** The ring stands for the history, and `idx` is the next cell to write. */
  ghost predicate RingAt(ring: seq<Byte>, idx: int, history: seq<Byte>) {
    RingHolds(ring, history) && idx == (DICT_START + |history|) % DICT_SIZE
  }

  lemma RingStart(ring: seq<Byte>)
    requires |ring| == DICT_SIZE
    ensures RingAt(ring, DICT_START, InitialWindow(ring))
  {
  }

  lemma RingPush(ring: seq<Byte>, history: seq<Byte>, c: Byte)
    requires RingHolds(ring, history)
    ensures RingHolds(ring[(DICT_START + |history|) % DICT_SIZE := c], history + [c])
  {
    var at := (DICT_START + |history|) % DICT_SIZE;
    var ring', h := ring[at := c], history + [c];
    forall j | |h| - DICT_SIZE <= j < |h|
      ensures ring'[(DICT_START + j) % DICT_SIZE] == h[j]
    {
      if j < |history| {
        assert (DICT_START + j) % DICT_SIZE != at;
      }
    }
  }

  /** `base` with its front overwritten by what follows the window in `history`. */
  function Written(base: seq<Byte>, history: seq<Byte>): (r: seq<Byte>)
    requires DICT_SIZE <= |history| <= DICT_SIZE + |base|
    ensures |r| == |base|
  {
    history[DICT_SIZE..] + base[|history| - DICT_SIZE..]
  }

  lemma WriteOne(base: seq<Byte>, history: seq<Byte>, c: Byte)
    requires DICT_SIZE <= |history| < DICT_SIZE + |base|
    ensures Written(base, history)[|history| - DICT_SIZE := c] == Written(base, history + [c])
  {
  }

  lemma RingRead(ring: seq<Byte>, history: seq<Byte>, d: nat)
    requires RingHolds(ring, history) && 1 <= d <= DICT_SIZE
    ensures ring[(DICT_START + |history| - d) % DICT_SIZE] == history[|history| - d]
  {
  }

  lemma CopyBackOne(history: seq<Byte>, d: nat, count: nat)
    requires 1 <= d <= |history| && count > 0
    ensures CopyBack(history, d, count) == CopyBack(history + [history[|history| - d]], d, count - 1)
  {
  }

  lemma CopyBackNone(history: seq<Byte>, d: nat)
    requires 1 <= d <= |history|
    ensures CopyBack(history, d, 0) == history
  {
  }

  lemma NextCell(n: int)
    ensures (n % DICT_SIZE + 1) % DICT_SIZE == (n + 1) % DICT_SIZE
  {
  }

  /** Reads one decoded byte into the ring and the output, and advances the ring's write index. */
  method Emit(dict: array<Byte>, dictIdx: nat, dest: array<Byte>, out: nat, c: Byte, ghost history: seq<Byte>)
    returns (next: nat)
    requires dict != dest && out < dest.Length
    requires RingAt(dict[..], dictIdx, history)
    modifies dict, dest
    ensures RingAt(dict[..], next, history + [c])
    ensures dest[..] == old(dest[..])[out := c]
  {
    RingPush(dict[..], history, c);
    NextCell(DICT_START + |history|);
    dict[dictIdx] := c;
    dest[out] := c;
    next := (dictIdx + 1) % DICT_SIZE;
  }

  /** The copy loop of a match, source and target cells moving together. */
  method CopyFromDictionary(dict: array<Byte>, dictIdx: nat, dest: array<Byte>, out: nat, idx: nat, cnt: nat,
                            ghost history: seq<Byte>, ghost base: seq<Byte>)
    returns (dictIdx': nat, ghost history': seq<Byte>)
    requires dict != dest && dict.Length == DICT_SIZE && out + cnt <= dest.Length
    requires RingAt(dict[..], dictIdx, history)
    requires idx < DICT_SIZE
    requires |history| == DICT_SIZE + out && |base| == dest.Length && dest[..] == Written(base, history)
    modifies dict, dest
    ensures history' == CopyBack(history, Distance(|history|, idx), cnt)
    ensures RingAt(dict[..], dictIdx', history')
    ensures dest[..] == Written(base, history')
  {
    hide CopyBack, Distance, RingHolds;
    ghost var d := Distance(|history|, idx);
    var from, left, at := idx, cnt, out;
    dictIdx', history' := dictIdx, history;
    while left > 0
      invariant 0 <= left && at + left == out + cnt
      invariant |history'| == |history| + at - out && history <= history'
      invariant CopyBack(history', d, left) == CopyBack(history, d, cnt)
      invariant RingAt(dict[..], dictIdx', history')
      invariant from == (DICT_START + |history'| - d) % DICT_SIZE
      invariant dest[..] == Written(base, history')
    {
      var c := dict[from];
      RingRead(dict[..], history', d);
      CopyBackOne(history', d, left);
      NextCell(DICT_START + |history'| - d);
      from := (from + 1) % DICT_SIZE;
      WriteOne(base, history', c);
      dictIdx' := Emit(dict, dictIdx', dest, at, c, history');
      history' := history' + [c];
      at, left := at + 1, left - 1;
    }
    CopyBackNone(history', d);
  }

  method DecodeLzss(src: seq<Byte>, dest: array<Byte>) returns (ghost window: seq<Byte>)
    requires dest.Length >= OutputLength(0, src)
    modifies dest
    ensures |window| == DICT_SIZE
    ensures |Decoded(window, src)| == OutputLength(0, src)
    ensures dest[..] == Decoded(window, src) + old(dest[OutputLength(0, src)..])
  {
    hide Decode, CopyBack, RingAt, Distance, MatchIndex, MatchLength, OutputLength;
    var dict := new Byte[DICT_SIZE];
    window := InitialWindow(dict[..]);
    var size: int, at: nat, out: nat := |src|, 0, 0;
    var runMask: nat, dictIdx: nat := 0, DICT_START;
    ghost var history := window;
    ghost var base, whole := dest[..], Decode(window, 0, src);
    DecodeLength(window, 0, src);
    RingStart(dict[..]);

    while true
      invariant 0 <= size && at + size == |src|
      invariant |history| == DICT_SIZE + out
      invariant RingAt(dict[..], dictIdx, history)
      invariant whole == Decode(history, runMask, src[at..])
      invariant dest[..] == Written(base, history)
      decreases size
    {
      if runMask < 0x100 {
        // eight more flags
        size := size - 1;
        if size < 0 { DecodeEnd(history, runMask, src[at..]); break; }
        DecodeFlags(history, runMask, src[at..]);
        runMask := 0xff00 + (src[at] as int);
        at := at + 1;
      }
      var bit := runMask % 2 == 1;
      ghost var mask := runMask;
      runMask := runMask / 2;
      if bit {
        // a literal
        size := size - 1;
        if size < 0 { DecodeEnd(history, mask, src[at..]); break; }
        DecodeLiteral(history, mask, src[at..]);
        var c := src[at];
        at := at + 1;
        WriteOne(base, history, c);
        dictIdx := Emit(dict, dictIdx, dest, out, c, history);
        history := history + [c];
        out := out + 1;
      } else {
        // a match
        size := size - 1;
        if size < 0 { DecodeEnd(history, mask, src[at..]); break; }
        size := size - 1;
        if size < 0 { DecodeEnd(history, mask, src[at..]); break; }
        DecodeMatch(history, mask, src[at..]);
        var idx, cnt := MatchIndex(src[at], src[at + 1]), MatchLength(src[at + 1]);
        at := at + 2;
        dictIdx, history := CopyFromDictionary(dict, dictIdx, dest, out, idx, cnt, history, base);
        out := out + cnt;
      }
    }
  }

  // ---------- Plain LZ77 ----------

  datatype Token =
    | Literal(b: Byte)
    | Match(distance: int, length: int)
  {
    /** How many bytes the token stands for. */
    function Size(): (n: nat) {
      match this
      case Literal(_) => 1
      case Match(_, length) => if length < 0 then 0 else length
    }
  }

  /** Tokens that refer only to bytes already there, within what two bytes can say. */
  predicate WellFormed(n: nat, tokens: seq<Token>)
    decreases |tokens|
  {
    tokens != [] ==>
      && (match tokens[0]
          case Literal(_) => true
          case Match(distance, length) => 1 <= distance <= n && distance <= DICT_SIZE && 3 <= length <= 18)
      && WellFormed(n + tokens[0].Size(), tokens[1..])
  }

  /** The LZ77 meaning of a token list: no dictionary, only the output itself. */
  function Expand(out: seq<Byte>, tokens: seq<Token>): (r: seq<Byte>)
    requires WellFormed(|out|, tokens)
    ensures out <= r
    decreases |tokens|
  {
    if tokens == [] then out
    else
      match tokens[0]
      case Literal(b) => Expand(out + [b], tokens[1..])
      case Match(distance, length) => Expand(CopyBack(out, distance, length), tokens[1..])
  }

  /** The tokens of an arbitrary source, read after `n` bytes of output. */
  function Tokens(n: nat, mask: nat, src: seq<Byte>): (tokens: seq<Token>)
    decreases |src|
  {
    if mask < 0x100 then
      if src == [] then [] else Tokens(n, 0xff00 + (src[0] as int), src[1..])
    else if mask % 2 == 1 then
      if src == [] then [] else [Literal(src[0])] + Tokens(n + 1, mask / 2, src[1..])
    else if |src| < 2 then []
    else
      var length := MatchLength(src[1]);
      [Match(Distance(n, MatchIndex(src[0], src[1])), length)] + Tokens(n + length, mask / 2, src[2..])
  }

  lemma {:induction false} CopyBackUnderWindow(window: seq<Byte>, out: seq<Byte>, distance: nat, count: nat)
    requires 1 <= distance <= |out|
    ensures CopyBack(window + out, distance, count) == window + CopyBack(out, distance, count)
    decreases count
  {
    if count > 0 {
      var c := out[|out| - distance];
      assert (window + out)[|window + out| - distance] == c;
      assert window + out + [c] == window + (out + [c]);
      CopyBackUnderWindow(window, out + [c], distance, count - 1);
    }
  }

  lemma DistanceUnderWindow(n: nat, idx: nat)
    requires idx < DICT_SIZE
    ensures Distance(DICT_SIZE + n, idx) == Distance(n, idx)
  {
  }

  lemma ExpandLiteral(out: seq<Byte>, tokens: seq<Token>, b: Byte, rest: seq<Token>)
    requires tokens == [Literal(b)] + rest && WellFormed(|out|, tokens)
    ensures WellFormed(|out + [b]|, rest)
    ensures Expand(out, tokens) == Expand(out + [b], rest)
  {
    assert tokens[1..] == rest;
  }

  lemma ExpandMatch(out: seq<Byte>, tokens: seq<Token>, d: int, length: int, rest: seq<Token>)
    requires tokens == [Match(d, length)] + rest && WellFormed(|out|, tokens)
    ensures 1 <= d <= |out| && 3 <= length && WellFormed(|out| + length, rest)
    ensures Expand(out, tokens) == Expand(CopyBack(out, d, length), rest)
  {
    assert tokens[1..] == rest;
  }

  /** A source whose matches stay inside its own output decodes to the plain LZ77 meaning of its
      tokens, whatever the dictionary held at the start. */
  lemma {:induction false} DecodeIsExpand(window: seq<Byte>, out: seq<Byte>, mask: nat, src: seq<Byte>)
    requires |window| == DICT_SIZE
    requires WellFormed(|out|, Tokens(|out|, mask, src))
    ensures Decode(window + out, mask, src) == window + Expand(out, Tokens(|out|, mask, src))
    decreases |src|
  {
    hide Decode, CopyBack, Distance, MatchIndex, MatchLength;
    var tokens, h := Tokens(|out|, mask, src), window + out;
    if Exhausted(mask, src) {
      DecodeEnd(h, mask, src);
    } else if mask < 0x100 {
      DecodeFlags(h, mask, src);
      DecodeIsExpand(window, out, 0xff00 + (src[0] as int), src[1..]);
    } else if mask % 2 == 1 {
      DecodeLiteral(h, mask, src);
      ExpandLiteral(out, tokens, src[0], Tokens(|out| + 1, mask / 2, src[1..]));
      assert h + [src[0]] == window + (out + [src[0]]);
      DecodeIsExpand(window, out + [src[0]], mask / 2, src[1..]);
    } else {
      DecodeMatch(h, mask, src);
      var length := MatchLength(src[1]);
      var d := Distance(|out|, MatchIndex(src[0], src[1]));
      ExpandMatch(out, tokens, d, length, Tokens(|out| + length, mask / 2, src[2..]));
      DistanceUnderWindow(|out|, MatchIndex(src[0], src[1]));
      CopyBackUnderWindow(window, out, d, length);
      DecodeIsExpand(window, CopyBack(out, d, length), mask / 2, src[2..]);
    }
  }

  // ---------- Packing tokens ----------

  /** The bytes of one token after `n` bytes of output. */
  function Body(n: nat, token: Token): (bytes: seq<Byte>)
    requires WellFormed(n, [token])
  {
    match token
    case Literal(b) => [b]
    case Match(distance, length) =>
      var idx := (DICT_START + n - distance) % DICT_SIZE;
      [idx % 0x100, (idx / 0x100) * 0x10 + length - 3]
  }

  function Bodies(n: nat, tokens: seq<Token>): (bytes: seq<Byte>)
    requires WellFormed(n, tokens)
    decreases |tokens|
  {
    if tokens == [] then []
    else
      assert WellFormed(n, [tokens[0]]);
      Body(n, tokens[0]) + Bodies(n + tokens[0].Size(), tokens[1..])
  }

  function TotalSize(tokens: seq<Token>): (n: nat)
    decreases |tokens|
  {
    if tokens == [] then 0 else tokens[0].Size() + TotalSize(tokens[1..])
  }

  /** The flag bits of a group, first token in the lowest bit. */
  function Flags(group: seq<Token>): (f: nat)
    ensures f < Pow2(|group|)
    decreases |group|
  {
    if group == [] then 0
    else (if group[0].Literal? then 1 else 0) + 2 * Flags(group[1..])
  }

  lemma {:induction false} WellFormedSplit(n: nat, tokens: seq<Token>, k: nat)
    requires k <= |tokens| && WellFormed(n, tokens)
    ensures WellFormed(n, tokens[..k]) && WellFormed(n + TotalSize(tokens[..k]), tokens[k..])
    decreases k
  {
    if k > 0 {
      WellFormedSplit(n + tokens[0].Size(), tokens[1..], k - 1);
      assert tokens[..k][1..] == tokens[1..][..k - 1];
      assert tokens[k..] == tokens[1..][k - 1..];
    } else {
      assert tokens[0..] == tokens;
    }
  }

  function GroupSize(tokens: seq<Token>): (k: nat)
    ensures k <= 8 && k <= |tokens| && (k < 8 ==> k == |tokens|)
  {
    if |tokens| < 8 then |tokens| else 8
  }

  lemma FlagsFitByte(group: seq<Token>)
    requires |group| <= 8
    ensures Flags(group) < 0x100
  {
    assert Pow2(8) == 0x100 by {
      assert Pow2(4) == 16;
    }
    Pow2Monotone(|group|, 8);
  }

  /** Packs tokens in groups of eight, each group behind its flag byte. */
  function Encode(n: nat, tokens: seq<Token>): (bytes: seq<Byte>)
    requires WellFormed(n, tokens)
    decreases |tokens|
  {
    if tokens == [] then []
    else
      var k := GroupSize(tokens);
      var group := tokens[..k];
      WellFormedSplit(n, tokens, k);
      FlagsFitByte(group);
      [Flags(group)] + Bodies(n, group) + Encode(n + TotalSize(group), tokens[k..])
  }

  /** The decoder's mask while `k` flag bits are unread: the bits, under the rest of the sentinel. */
  function Mask(flags: nat, k: nat): (m: nat) {
    flags + 0xff * Pow2(k)
  }

  lemma FullMask(flags: nat)
    ensures Mask(flags, 8) == 0xff00 + flags && Mask(0, 0) < 0x100
  {
    assert Pow2(4) == 16;
    assert Pow2(8) == 0x100;
  }

  lemma BodyReadsBack(n: nat, token: Token)
    requires WellFormed(n, [token]) && token.Match?
    ensures var b := Body(n, token);
      && MatchLength(b[1]) == token.length
      && Distance(n, MatchIndex(b[0], b[1])) == token.distance
  {
    var idx := (DICT_START + n - token.distance) % DICT_SIZE;
    var b := Body(n, token);
    assert b[1] / 0x10 == idx / 0x100;
    assert MatchIndex(b[0], b[1]) == idx;
    DistanceUnique(n, token.distance, Distance(n, idx));
  }

  lemma DistanceUnique(n: nat, d: int, e: int)
    requires 1 <= d <= DICT_SIZE && 1 <= e <= DICT_SIZE
    requires (DICT_START + n - d) % DICT_SIZE == (DICT_START + n - e) % DICT_SIZE
    ensures d == e
  {
  }

  /** The tokens of a source that starts with the bytes of `t`, under a matching flag bit. */
  lemma FirstToken(n: nat, mask: nat, t: Token, tail: seq<Byte>)
    requires WellFormed(n, [t])
    requires mask >= 0x100 && mask % 2 == if t.Literal? then 1 else 0
    ensures Tokens(n, mask, Body(n, t) + tail) == [t] + Tokens(n + t.Size(), mask / 2, tail)
  {
    var src := Body(n, t) + tail;
    if t.Literal? {
      assert src[1..] == tail;
    } else {
      BodyReadsBack(n, t);
      assert src[2..] == tail;
    }
  }

  lemma ConsAppend<T>(s: seq<T>, rest: seq<T>)
    requires s != []
    ensures [s[0]] + (s[1..] + rest) == s + rest
  {
  }

  lemma BodiesCons(n: nat, group: seq<Token>, rest: seq<Byte>)
    requires group != [] && WellFormed(n, group)
    ensures WellFormed(n, [group[0]])
    ensures Bodies(n, group) + rest
         == Body(n, group[0]) + (Bodies(n + group[0].Size(), group[1..]) + rest)
  {
    assert WellFormed(n, [group[0]]);
  }

  lemma NoTokens(n: nat, k: nat)
    ensures Mask(Flags([]), k) == Mask(0, k)
    ensures k > 0 ==> Tokens(n, Mask(0, k), []) == []
  {
    assert k > 0 ==> Mask(0, k) >= 0x100;
  }

  lemma MaskHalves(group: seq<Token>, k: nat)
    requires 0 < |group| <= k
    ensures Mask(Flags(group), k) >= 0x100
    ensures Mask(Flags(group), k) / 2 == Mask(Flags(group[1..]), k - 1)
    ensures Mask(Flags(group), k) % 2 == if group[0].Literal? then 1 else 0
  {
  }

  /** Reading a group's bytes with its flags yields the group, then whatever follows. */
  lemma {:induction false} GroupTokens(n: nat, group: seq<Token>, k: nat, rest: seq<Byte>)
    requires |group| <= k && WellFormed(n, group)
    requires |group| < k ==> rest == []
    ensures Tokens(n, Mask(Flags(group), k), Bodies(n, group) + rest)
         == group + if |group| == k then Tokens(n + TotalSize(group), Mask(0, 0), rest) else []
    decreases |group|
  {
    hide Tokens, Mask, Flags, Body;
    var after := if |group| == k then Tokens(n + TotalSize(group), Mask(0, 0), rest) else [];
    if group == [] {
      assert Bodies(n, group) + rest == rest;
      NoTokens(n, k);
    } else {
      var t, tail := group[0], Bodies(n + group[0].Size(), group[1..]) + rest;
      MaskHalves(group, k);
      GroupTokens(n + t.Size(), group[1..], k - 1, rest);
      FirstToken(n, Mask(Flags(group), k), t, tail);
      BodiesCons(n, group, rest);
      ConsAppend(group, after);
    }
  }

  /** Reading a packed token list gives the list back. */
  lemma {:induction false} TokensOfEncoding(n: nat, tokens: seq<Token>, mask: nat)
    requires WellFormed(n, tokens) && mask < 0x100
    ensures Tokens(n, mask, Encode(n, tokens)) == tokens
    decreases |tokens|
  {
    hide Flags, Bodies, Mask;
    if tokens != [] {
      var k := GroupSize(tokens);
      var group := tokens[..k];
      WellFormedSplit(n, tokens, k);
      var rest := Encode(n + TotalSize(group), tokens[k..]);
      var src := Encode(n, tokens);
      assert src[1..] == Bodies(n, group) + rest;
      FullMask(Flags(group));
      GroupTokens(n, group, 8, rest);
      assert Tokens(n, mask, src) == Tokens(n, Mask(Flags(group), 8), src[1..]);
      if k == 8 {
        TokensOfEncoding(n + TotalSize(group), tokens[k..], Mask(0, 0));
      }
      assert tokens == group + tokens[k..];
    }
  }

  /** The round trip: unpacking what was packed is the LZ77 expansion of the tokens. */
  lemma RoundTrip(window: seq<Byte>, tokens: seq<Token>)
    requires |window| == DICT_SIZE && WellFormed(0, tokens)
    ensures Decoded(window, Encode(0, tokens)) == Expand([], tokens)
  {
    TokensOfEncoding(0, tokens, 0);
    assert window + [] == window;
    DecodeIsExpand(window, [], 0, Encode(0, tokens));
  }

  // ---------- Truncated sources ----------

  lemma {:induction false} DecodePrefix(history: seq<Byte>, mask: nat, src: seq<Byte>, n: nat)
    requires |history| >= DICT_SIZE && n <= |src|
    ensures Decode(history, mask, src[..n]) <= Decode(history, mask, src)
    decreases |src|
  {
    var cut := src[..n];
    if mask < 0x100 {
      if n > 0 {
        assert cut[1..] == src[1..][..n - 1];
        DecodePrefix(history, 0xff00 + (src[0] as int), src[1..], n - 1);
      }
    } else if mask % 2 == 1 {
      if n > 0 {
        assert cut[1..] == src[1..][..n - 1];
        DecodePrefix(history + [src[0]], mask / 2, src[1..], n - 1);
      }
    } else if n >= 2 {
      assert cut[2..] == src[2..][..n - 2];
      var d := Distance(|history|, MatchIndex(src[0], src[1]));
      DecodePrefix(CopyBack(history, d, MatchLength(src[1])), mask / 2, src[2..], n - 2);
    }
  }

  /** Decoding a truncated source writes a prefix of what the whole source decodes to. */
  lemma TruncatedSource(window: seq<Byte>, src: seq<Byte>, n: nat)
    requires |window| == DICT_SIZE && n <= |src|
    ensures Decoded(window, src[..n]) <= Decoded(window, src)
  {
    DecodePrefix(window, 0, src, n);
  }

  // ---------- The format, by example ----------

  /** Flags from the lowest bit up, set for a literal; then a match: the low byte of its place in the ring, and
      its high digit before the length less 3. */
  lemma Example(window: seq<Byte>, a: Byte, b: Byte)
    requires |window| == DICT_SIZE
    ensures Decoded(window, [0x03, a, b, 0xee, 0xf1]) == [a, b, a, b, a, b]
  {
    hide Decode, CopyBack;
    var src: seq<Byte> := [0x03, a, b, 0xee, 0xf1];
    var first, second, tail: seq<Byte> := src[1..], src[2..], src[3..];
    var h1, h2 := window + [a], window + [a] + [b];
    assert first[0] == a && first[1..] == second;
    assert second[0] == b && second[1..] == tail;
    assert tail[0] == 0xee && tail[1] == 0xf1 && tail[2..] == [];
    ExampleMatch(|h2|);
    DecodeFlags(window, 0, src);
    DecodeLiteral(window, 0xff03, first);
    DecodeLiteral(h1, 0x7f81, second);
    DecodeMatch(h2, 0x3fc0, tail);
    DecodeEnd(CopyBack(h2, 2, 4), 0x1fe0, []);
    CopyBackFour(window, a, b);
    assert (window + [a, b, a, b, a, b])[DICT_SIZE..] == [a, b, a, b, a, b];
  }

  lemma ExampleMatch(n: nat)
    requires n == DICT_SIZE + 2
    ensures Distance(n, MatchIndex(0xee, 0xf1)) == 2 && MatchLength(0xf1) == 4
  {
  }

  lemma CopyBackFour(h: seq<Byte>, a: Byte, b: Byte)
    ensures CopyBack(h + [a] + [b], 2, 4) == h + [a, b, a, b, a, b]
  {
    hide CopyBack;
    var h2, h3 := h + [a] + [b], h + [a] + [b] + [a];
    var h4, h5 := h3 + [b], h3 + [b] + [a];
    CopyBackOne(h2, 2, 4);
    CopyBackOne(h3, 2, 3);
    CopyBackOne(h4, 2, 2);
    CopyBackOne(h5, 2, 1);
    CopyBackNone(h5 + [b], 2);
    SixJoined(h, a, b);
  }

  lemma SixJoined(h: seq<Byte>, a: Byte, b: Byte)
    ensures h + [a] + [b] + [a] + [b] + [a] + [b] == h + [a, b, a, b, a, b]
  {
  }
}
