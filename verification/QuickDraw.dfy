/**
  Native QuickDraw acceleration: inverting, filling and copying rectangles of a frame buffer.

  The buffer is an array of bytes; `org` is the host address of its first byte, of which only
  the alignment matters. A pixel takes `bpp` / 8 bytes.
 */
module QuickDraw {
  import opened Arithmetic
  import opened Bytes

  // ---------- Stretches of bytes ----------

  /** What happens to the `k`-th byte of a stretch. */
  type Paint = (nat, Byte) -> Byte

  const Invert: Paint := (k, b) => 0xff - b

  /** A 32-bit colour, as its four bytes in memory order. */
  type Color = c: seq<Byte> | |c| == 4 witness [0, 0, 0, 0]

  /** The colour's bytes, repeated along the stretch. */
  function Fill(color: Color): Paint {
    (k, b) => color[k % 4]
  }

  /** The buffer with the `n` bytes from `lo` painted, and nothing else changed. */
  function Painted(s: seq<Byte>, lo: nat, n: nat, f: Paint): (r: seq<Byte>)
    ensures |r| == |s|
  {
    seq(|s|, i requires 0 <= i < |s| => if lo <= i < lo + n then f(i - lo, s[i]) else s[i])
  }

  lemma InvertTwice(s: seq<Byte>, lo: nat, n: nat)
    ensures Painted(Painted(s, lo, n, Invert), lo, n, Invert) == s
  {
  }

  /** Stepping past `k` more bytes. */
  lemma PaintMore(s: seq<Byte>, t: seq<Byte>, lo: nat, n: nat, k: nat, f: Paint)
    requires |t| == |s| && lo + n + k <= |s|
    requires forall i :: lo + n <= i < lo + n + k ==> t[i] == f(i - lo, s[i])
    requires forall i :: 0 <= i < |s| && !(lo + n <= i < lo + n + k) ==> t[i] == Painted(s, lo, n, f)[i]
    ensures t == Painted(s, lo, n + k, f)
  {
  }

  // ---------- Stores of 1, 2, 4 and 8 bytes ----------

  /** Inverts a store unit of `width` bytes. */
  method InvertUnit(mem: array<Byte>, at: nat, width: nat, ghost was: seq<Byte>, ghost lo: nat)
    requires lo <= at && at + width <= mem.Length == |was|
    requires mem[..] == Painted(was, lo, at - lo, Invert)
    modifies mem
    ensures mem[..] == Painted(was, lo, at - lo + width, Invert)
  {
    ghost var before := mem[..];
    var k := 0;
    while k < width
      invariant 0 <= k <= width
      invariant forall i :: 0 <= i < mem.Length ==>
        mem[i] == if at <= i < at + k then 0xff - was[i] else before[i]
    {
      mem[at + k] := 0xff - mem[at + k];
      k := k + 1;
    }
    PaintMore(was, mem[..], lo, at - lo, width, Invert);
  }

  /** Stores `data`, which continues the colour's pattern. */
  method FillUnit(mem: array<Byte>, at: nat, data: seq<Byte>, ghost color: Color, ghost was: seq<Byte>, ghost lo: nat)
    requires lo <= at && at + |data| <= mem.Length == |was|
    requires mem[..] == Painted(was, lo, at - lo, Fill(color))
    requires forall k :: 0 <= k < |data| ==> data[k] == color[(at - lo + k) % 4]
    modifies mem
    ensures mem[..] == Painted(was, lo, at - lo + |data|, Fill(color))
  {
    ghost var before := mem[..];
    var k := 0;
    while k < |data|
      invariant 0 <= k <= |data|
      invariant forall i :: 0 <= i < mem.Length ==>
        mem[i] == if at <= i < at + k then data[i - at] else before[i]
    {
      mem[at + k] := data[k];
      k := k + 1;
    }
    PaintMore(was, mem[..], lo, at - lo, |data|, Fill(color));
  }

  // ---------- Inversion ----------

  /** The bytes a row operation reaches: whole pixels only. */
  function WholePixels(bpp: nat, length: nat): (n: nat)
    requires bpp == 8 || bpp == 16 || bpp == 32
    ensures n <= length
  {
    if bpp == 8 then length else if bpp == 16 then length - length % 2 else length - length % 4
  }

  /** The units a row ends with are the bits of its remaining length. */
  lemma TailUnits(bpp: nat, length: nat)
    requires bpp == 8 || bpp == 16 || bpp == 32
    ensures WholePixels(bpp, length % 8)
         == (if length / 4 % 2 == 1 then 4 else 0)
          + (if bpp <= 16 && length / 2 % 2 == 1 then 2 else 0)
          + (if bpp <= 8 && length % 2 == 1 then 1 else 0)
    ensures length % 8 == (length / 4 % 2) * 4 + (length / 2 % 2) * 2 + length % 2
  {
    LowBits(length);
    BitsAndPixels(bpp, length % 8, length / 4 % 2, length / 2 % 2, length % 2);
  }

  lemma LowBits(n: nat)
    ensures n % 8 == (n / 4 % 2) * 4 + (n / 2 % 2) * 2 + n % 2
  {
    assert n / 2 / 2 == n / 4;
    assert n / 4 / 2 == n / 8;
  }

  lemma BitsAndPixels(bpp: nat, r: nat, b4: nat, b2: nat, b1: nat)
    requires bpp == 8 || bpp == 16 || bpp == 32
    requires b4 <= 1 && b2 <= 1 && b1 <= 1 && r == b4 * 4 + b2 * 2 + b1
    ensures WholePixels(bpp, r) == (if b4 == 1 then 4 else 0)
          + (if bpp <= 16 && b2 == 1 then 2 else 0) + (if bpp <= 8 && b1 == 1 then 1 else 0)
  {
  }

  lemma SmallPixels(bpp: nat, taken: nat)
    requires (bpp == 8 && taken <= 3) || (bpp == 16 && (taken == 0 || taken == 2)) || (bpp == 32 && taken == 0)
    ensures WholePixels(bpp, taken) == taken
  {
  }

  /** A prologue of whole pixels leaves the row's end where it was. */
  lemma PixelsLeft(bpp: nat, len: nat, taken: nat)
    requires bpp == 8 || bpp == 16 || bpp == 32
    requires taken <= len && taken <= 3 && taken == WholePixels(bpp, taken)
    ensures var length := len - taken;
      && WholePixels(bpp, len) == taken + length / 8 * 8 + WholePixels(bpp, length % 8)
      && (length < 8 ==> length / 8 * 8 == 0)
  {
    var length := len - taken;
    EightsAreWhole(bpp, length / 8, length % 8 + taken);
    EightsAreWhole(bpp, 0, length % 8 + taken);
  }

  lemma EightsAreWhole(bpp: nat, q: nat, r: nat)
    requires bpp == 8 || bpp == 16 || bpp == 32
    ensures WholePixels(bpp, 8 * q + r) == 8 * q + WholePixels(bpp, r)
  {
    DropMultiple(r, 4, 2 * q);
    DropMultiple(r, 2, 4 * q);
  }

  lemma DropMultiple(r: nat, m: nat, k: nat)
    requires m == 2 || m == 4
    ensures (m * k + r) % m == r % m
  {
    if m == 2 {
      assert (2 * k + r) == 2 * (k + r / 2) + r % 2;
    } else {
      assert (4 * k + r) == 4 * (k + r / 4) + r % 4;
    }
  }

  /** The alignment prologue takes a byte off an empty stretch. */
  predicate PrologueOverruns(unaligned: bool, bpp: nat, address: int, length: nat) {
    !unaligned && bpp < 16 && address % 2 == 1 && length == 0
  }

  /** How many bytes a row operation goes over: the prologue's length is a `uint32`, which wraps around. */
  function Reach(unaligned: bool, bpp: nat, address: int, length: Word32): (n: nat) {
    if PrologueOverruns(unaligned, bpp, address, length) then 0x1_0000_0000 else length
  }

  /** The row as it is painted is the row as it should be if and only if the prologue does not overrun, or
      none of the 4 GB that are painted instead looks different for it. */
  lemma RowIsRight(unaligned: bool, bpp: nat, org: nat, start: nat, length: Word32, s: seq<Byte>, f: Paint)
    requires bpp == 8 || bpp == 16 || bpp == 32
    requires start + Reach(unaligned, bpp, org + start, length) <= |s|
    ensures var painted := Painted(s, start, WholePixels(bpp, Reach(unaligned, bpp, org + start, length)), f);
      painted == Painted(s, start, WholePixels(bpp, length), f) <==>
        || !PrologueOverruns(unaligned, bpp, org + start, length)
        || forall i :: start <= i < start + 0x1_0000_0000 ==> s[i] == f(i - start, s[i])
  {
    if PrologueOverruns(unaligned, bpp, org + start, length) {
      NothingPainted(s, start, f);
      PaintShows(s, start, 0x1_0000_0000, f);
    }
  }

  lemma ShorterBy(length: Word32, n: nat)
    ensures n <= length ==> U32(length as int - n) == length - n
    ensures length == 0 && n == 1 ==> U32(length as int - n) == 0xffff_ffff
  {
  }

  lemma PaintShows(s: seq<Byte>, lo: nat, n: nat, f: Paint)
    requires lo + n <= |s|
    ensures Painted(s, lo, n, f) == s <==> forall i :: lo <= i < lo + n ==> s[i] == f(i - lo, s[i])
  {
    var painted := Painted(s, lo, n, f);
    assert forall i :: lo <= i < lo + n ==> painted[i] == f(i - lo, s[i]);
  }

  /** An inverted byte is never what it was: an empty row at an odd address always goes wrong. */
  lemma InvertedRowIsRight(unaligned: bool, bpp: nat, org: nat, start: nat, length: Word32, s: seq<Byte>)
    requires bpp == 8 || bpp == 16 || bpp == 32
    requires start + Reach(unaligned, bpp, org + start, length) <= |s|
    ensures var painted := Painted(s, start, WholePixels(bpp, Reach(unaligned, bpp, org + start, length)), Invert);
      painted == Painted(s, start, WholePixels(bpp, length), Invert) <==>
        !PrologueOverruns(unaligned, bpp, org + start, length)
  {
    RowIsRight(unaligned, bpp, org, start, length, s, Invert);
    hide Painted, WholePixels;
    if PrologueOverruns(unaligned, bpp, org + start, length) {
      assert s[start] != Invert(start - start, s[start]);
    }
  }

  /** The 8-byte words of a row: an unrolled loop, entered in its middle for the odd words. */
  method InvertWords(mem: array<Byte>, from: nat, length: nat, ghost was: seq<Byte>, ghost start: nat)
    returns (dest: nat)
    requires length >= 8 && start <= from && from + length <= mem.Length == |was|
    requires mem[..] == Painted(was, start, from - start, Invert)
    modifies mem
    ensures dest == from + length / 8 * 8
    ensures mem[..] == Painted(was, start, dest - start, Invert)
  {
    hide Painted;
    var words: nat := length / 8;
    var r := words % 8;
    dest := from + r * 8;
    var n := (words + 7) / 8;
    var word: nat := r;
    if r == 0 {
      dest, word := dest + 64, 8;
    }
    RoundsOfEight(words);
    assert dest + 64 * (n - 1) == from + words * 8 && dest - word * 8 == from;
    while true
      invariant 1 <= n && 1 <= word <= 8
      invariant start <= dest - word * 8 && dest + 64 * (n - 1) == from + words * 8
      invariant mem[..] == Painted(was, start, dest - word * 8 - start, Invert)
      decreases n
    {
      while word > 0
        invariant 0 <= word <= 8 && start <= dest - word * 8
        invariant mem[..] == Painted(was, start, dest - word * 8 - start, Invert)
      {
        InvertUnit(mem, dest - word * 8, 8, was, start);
        word := word - 1;
      }
      n := n - 1;
      if n <= 0 { break; }
      dest, word := dest + 64, 8;
    }
  }

  /** Inverts a row: `length` bytes from `dest`, aligned first unless `unaligned` access is cheap. */
  method DoInvrect(unaligned: bool, bpp: nat, mem: array<Byte>, org: nat, start: nat, len: Word32)
    requires bpp == 8 || bpp == 16 || bpp == 32
    requires start + Reach(unaligned, bpp, org + start, len) <= mem.Length
    modifies mem
    ensures mem[..] == Painted(old(mem[..]), start, WholePixels(bpp, Reach(unaligned, bpp, org + start, len)), Invert)
  {
    hide Painted, WholePixels, U32;
    ghost var was, reach := mem[..], Reach(unaligned, bpp, org + start, len);
    var dest, length := start, len;
    NothingPainted(was, start, Invert);

    // an odd address costs a byte
    if !unaligned && bpp < 16 && (org + dest) % 2 == 1 {
      InvertUnit(mem, dest, 1, was, start);
      ShorterBy(length, 1);
      dest, length := dest + 1, U32(length as int - 1);
    }

    // half a long word costs two more
    if !unaligned && bpp < 32 && (org + dest) / 2 % 2 == 1 && length >= 2 {
      InvertUnit(mem, dest, 2, was, start);
      ShorterBy(length, 2);
      dest, length := dest + 2, U32(length as int - 2);
    }
    assert WholePixels(bpp, dest - start) == dest - start by { SmallPixels(bpp, dest - start); }
    PixelsLeft(bpp, reach, dest - start);

    if length >= 8 {
      dest := InvertWords(mem, dest, length, was, start);
    }
    InvertTail(bpp, mem, dest, length, was, start);
  }

  /** What is left of a row after its 8-byte words. */
  method InvertTail(bpp: nat, mem: array<Byte>, at: nat, length: nat, ghost was: seq<Byte>, ghost start: nat)
    requires bpp == 8 || bpp == 16 || bpp == 32
    requires start <= at && at + length % 8 <= mem.Length == |was|
    requires mem[..] == Painted(was, start, at - start, Invert)
    modifies mem
    ensures mem[..] == Painted(was, start, at - start + WholePixels(bpp, length % 8), Invert)
  {
    hide Painted, WholePixels;
    TailUnits(bpp, length);
    var dest := at;
    // four, two and one more byte, as the length has them left
    if length / 4 % 2 == 1 {
      InvertUnit(mem, dest, 4, was, start);
      if bpp <= 16 {
        dest := dest + 4;
      }
    }

    if bpp <= 16 && length / 2 % 2 == 1 {
      InvertUnit(mem, dest, 2, was, start);
      if bpp <= 8 {
        dest := dest + 2;
      }
    }

    if bpp <= 8 && length % 2 == 1 {
      InvertUnit(mem, dest, 1, was, start);
    }
  }

  lemma NothingPainted(s: seq<Byte>, lo: nat, f: Paint)
    ensures Painted(s, lo, 0, f) == s
  {
  }

  // ---------- Filling ----------

  /** The colour as a `uint32` store unit leaves it at an offset that is in phase. */
  predicate GoodColor(bpp: nat, color: Color) {
    && (bpp <= 16 ==> color[0] == color[2] && color[1] == color[3])
    && (bpp <= 8 ==> color[0] == color[1])
  }

  /** Offsets at which a store of the colour continues its pattern. */
  predicate InPhase(bpp: nat, offset: nat) {
    bpp <= 8 || (bpp <= 16 && offset % 2 == 0) || offset % 4 == 0
  }

  lemma PatternContinues(bpp: nat, color: Color, offset: nat, k: nat)
    requires bpp == 8 || bpp == 16 || bpp == 32
    requires GoodColor(bpp, color) && InPhase(bpp, offset)
    ensures color[(offset + k) % 4] == color[k % 4]
  {
    if bpp == 32 {
      DropMultiple(k, 4, offset / 4);
    } else if bpp == 16 {
      DropMultiple(k, 2, offset / 2);
      assert (offset + k) % 4 % 2 == (offset + k) % 2 by { DropMultiple((offset + k) % 4, 2, (offset + k) / 4 * 2); }
      assert k % 4 % 2 == k % 2 by { DropMultiple(k % 4, 2, k / 4 * 2); }
    }
  }

  /** The bytes of a store of `width` bytes. The narrow units store the low part of the colour, which
      a little-endian host keeps in front and a big-endian host at the end. */
  function Unit(color: Color, width: nat, bigEndian: bool): (data: seq<Byte>)
    requires width == 1 || width == 2 || width == 4 || width == 8
    ensures |data| == width
  {
    if width == 8 then color + color
    else if bigEndian then color[4 - width..]
    else color[..width]
  }

  lemma UnitContinues(bpp: nat, color: Color, width: nat, bigEndian: bool, offset: nat)
    requires bpp == 8 || bpp == 16 || bpp == 32
    requires GoodColor(bpp, color) && InPhase(bpp, offset)
    requires (width == 1 && bpp == 8) || (width == 2 && bpp <= 16) || width == 4 || width == 8
    ensures var data := Unit(color, width, bigEndian);
      forall k :: 0 <= k < width ==> data[k] == color[(offset + k) % 4]
  {
    hide InPhase, GoodColor, Unit;
    var data := Unit(color, width, bigEndian);
    forall k | 0 <= k < width
      ensures data[k] == color[(offset + k) % 4]
    {
      UnitBytes(bpp, color, width, bigEndian, k);
      PatternContinues(bpp, color, offset, k);
    }
  }

  lemma UnitBytes(bpp: nat, color: Color, width: nat, bigEndian: bool, k: nat)
    requires bpp == 8 || bpp == 16 || bpp == 32
    requires GoodColor(bpp, color) && k < width
    requires (width == 1 && bpp == 8) || (width == 2 && bpp <= 16) || width == 4 || width == 8
    ensures Unit(color, width, bigEndian)[k] == color[k % 4]
  {
  }

  /** The 8-byte words of a row. */
  method FillWords(bpp: nat, mem: array<Byte>, from: nat, color: Color, bigEndian: bool, length: nat,
                   ghost was: seq<Byte>, ghost start: nat)
    returns (dest: nat)
    requires bpp == 8 || bpp == 16 || bpp == 32
    requires GoodColor(bpp, color) && start <= from && InPhase(bpp, from - start)
    requires length >= 8 && from + length <= mem.Length == |was|
    requires mem[..] == Painted(was, start, from - start, Fill(color))
    modifies mem
    ensures dest == from + length / 8 * 8
    ensures mem[..] == Painted(was, start, dest - start, Fill(color))
  {
    hide Painted, Unit, InPhase, Fill, GoodColor;
    var words: nat := length / 8;
    var r := words % 8;
    dest := from + r * 8;
    var n := (words + 7) / 8;
    var word: nat := r;
    if r == 0 {
      dest, word := dest + 64, 8;
    }
    RoundsOfEight(words);
    assert dest + 64 * (n - 1) == from + words * 8 && dest - word * 8 == from;
    while true
      invariant 1 <= n && 1 <= word <= 8
      invariant start <= dest - word * 8 && dest + 64 * (n - 1) == from + words * 8
      invariant mem[..] == Painted(was, start, dest - word * 8 - start, Fill(color))
      invariant InPhase(bpp, dest - word * 8 - start)
      decreases n
    {
      while word > 0
        invariant 0 <= word <= 8 && start <= dest - word * 8
        invariant mem[..] == Painted(was, start, dest - word * 8 - start, Fill(color))
        invariant InPhase(bpp, dest - word * 8 - start)
      {
        UnitContinues(bpp, color, 8, bigEndian, dest - word * 8 - start);
        FillUnit(mem, dest - word * 8, Unit(color, 8, bigEndian), color, was, start);
        PhaseAfterWord(bpp, dest - word * 8 - start);
        word := word - 1;
      }
      n := n - 1;
      if n <= 0 { break; }
      dest, word := dest + 64, 8;
    }
  }

  /** The unrolled loop does what is left over of eight words first, or eight. */
  lemma RoundsOfEight(words: nat)
    requires words > 0
    ensures var r, n := words % 8, (words + 7) / 8;
      n >= 1 && (if r == 0 then 64 else r * 8) + 64 * (n - 1) == words * 8
  {
    var q, r := words / 8, words % 8;
    if r == 0 { DivisionUnique(8, q, 7, words + 7); } else { DivisionUnique(8, q + 1, r - 1, words + 7); }
  }

  lemma PhaseAfterWord(bpp: nat, offset: nat)
    requires InPhase(bpp, offset)
    ensures InPhase(bpp, offset + 8)
  {
  }

  /** What is left of a row after its 8-byte words. */
  method FillTail(bpp: nat, mem: array<Byte>, at: nat, color: Color, bigEndian: bool, length: nat,
                  ghost was: seq<Byte>, ghost start: nat)
    requires bpp == 8 || bpp == 16 || bpp == 32
    requires GoodColor(bpp, color) && start <= at && InPhase(bpp, at - start)
    requires at + length % 8 <= mem.Length == |was|
    requires mem[..] == Painted(was, start, at - start, Fill(color))
    modifies mem
    ensures mem[..] == Painted(was, start, at - start + WholePixels(bpp, length % 8), Fill(color))
  {
    hide Painted, WholePixels, Unit, Fill, GoodColor, InPhase;
    TailUnits(bpp, length);
    PhaseAfterUnits(bpp, at - start);
    var dest := at;
    // four, two and one more byte, as the length has them left
    if length / 4 % 2 == 1 {
      UnitContinues(bpp, color, 4, bigEndian, dest - start);
      FillUnit(mem, dest, Unit(color, 4, bigEndian), color, was, start);
      if bpp <= 16 {
        dest := dest + 4;
      }
    }

    if bpp <= 16 && length / 2 % 2 == 1 {
      UnitContinues(bpp, color, 2, bigEndian, dest - start);
      FillUnit(mem, dest, Unit(color, 2, bigEndian), color, was, start);
      if bpp <= 8 {
        dest := dest + 2;
      }
    }

    if bpp <= 8 && length % 2 == 1 {
      UnitContinues(bpp, color, 1, bigEndian, dest - start);
      FillUnit(mem, dest, Unit(color, 1, bigEndian), color, was, start);
    }
  }

  /** Fills a row: `length` bytes from `dest`, aligned first unless `unaligned` access is cheap. */
  method DoFillrect(unaligned: bool, bigEndian: bool, bpp: nat, mem: array<Byte>, org: nat, start: nat,
                    color: Color, len: Word32)
    requires bpp == 8 || bpp == 16 || bpp == 32
    requires GoodColor(bpp, color)
    requires start + Reach(unaligned, bpp, org + start, len) <= mem.Length
    modifies mem
    ensures mem[..] == Painted(old(mem[..]), start, WholePixels(bpp, Reach(unaligned, bpp, org + start, len)),
        Fill(color))
  {
    hide Painted, WholePixels, Unit, Fill, GoodColor, InPhase, U32;
    ghost var was, reach := mem[..], Reach(unaligned, bpp, org + start, len);
    var dest, length := FillPrologue(unaligned, bigEndian, bpp, mem, org, start, color, len);
    PixelsLeft(bpp, reach, dest - start);

    ghost var from := dest;
    if length >= 8 {
      dest := FillWords(bpp, mem, dest, color, bigEndian, length, was, start);
    }
    PhaseAfterWords(bpp, from - start, length / 8);
    FillTail(bpp, mem, dest, color, bigEndian, length, was, start);
  }

  /** Fills up to an aligned address. */
  method FillPrologue(unaligned: bool, bigEndian: bool, bpp: nat, mem: array<Byte>, org: nat, start: nat,
                      color: Color, len: Word32) returns (dest: nat, length: Word32)
    requires bpp == 8 || bpp == 16 || bpp == 32
    requires GoodColor(bpp, color)
    requires start + Reach(unaligned, bpp, org + start, len) <= mem.Length
    modifies mem
    ensures start <= dest <= start + 3 && dest + length == start + Reach(unaligned, bpp, org + start, len)
    ensures mem[..] == Painted(old(mem[..]), start, dest - start, Fill(color))
    ensures InPhase(bpp, dest - start) && WholePixels(bpp, dest - start) == dest - start
  {
    hide Painted, WholePixels, Unit, Fill, GoodColor, InPhase, U32;
    ghost var was := mem[..];
    dest, length := start, len;
    NothingPainted(was, start, Fill(color));
    PhaseAtStart(bpp);

    // an odd address costs a byte
    if !unaligned && bpp < 16 && (org + dest) % 2 == 1 {
      UnitContinues(bpp, color, 1, bigEndian, 0);
      FillUnit(mem, dest, Unit(color, 1, bigEndian), color, was, start);
      ShorterBy(length, 1);
      dest, length := dest + 1, U32(length as int - 1);
    }

    // half a long word costs two more
    if !unaligned && bpp < 32 && (org + dest) / 2 % 2 == 1 && length >= 2 {
      UnitContinues(bpp, color, 2, bigEndian, dest - start);
      FillUnit(mem, dest, Unit(color, 2, bigEndian), color, was, start);
      ShorterBy(length, 2);
      dest, length := dest + 2, U32(length as int - 2);
    }
    SmallPixels(bpp, dest - start);
  }

  lemma PhaseAtStart(bpp: nat)
    ensures InPhase(bpp, 0)
    ensures bpp <= 8 ==> InPhase(bpp, 1) && InPhase(bpp, 3)
    ensures bpp <= 16 ==> InPhase(bpp, 2)
  {
  }

  lemma PhaseAfterUnits(bpp: nat, offset: nat)
    requires InPhase(bpp, offset)
    ensures InPhase(bpp, offset + 4)
    ensures bpp <= 8 ==> InPhase(bpp, offset + 2) && InPhase(bpp, offset + 6)
  {
  }

  lemma PhaseAfterWords(bpp: nat, offset: nat, words: nat)
    requires InPhase(bpp, offset)
    ensures InPhase(bpp, offset + words * 8)
  {
    DropMultiple(offset, 4, 2 * words);
    DropMultiple(offset, 2, 4 * words);
  }

  // ---------- Rectangles ----------

  /** Where row `y` starts. */
  function Row(base: int, stride: int, y: nat): (at: int)
    decreases y
  {
    if y == 0 then base else Row(base, stride, y - 1) + stride
  }

  lemma {:induction false} RowIsLinear(base: int, stride: int, y: nat)
    ensures Row(base, stride, y) == base + y * stride
    decreases y
  {
    if y > 0 {
      RowIsLinear(base, stride, y - 1);
      assert y * stride == (y - 1) * stride + stride;
    }
  }

  /** `i` is one of the `width` bytes of row `y`. */
  predicate InRow(i: int, base: int, stride: int, width: nat, y: nat) {
    Row(base, stride, y) <= i < Row(base, stride, y) + width
  }

  /** All rows from `lo` to `hi` lie inside a buffer of `size` bytes. */
  ghost predicate Fits(base: int, stride: int, width: nat, lo: nat, hi: nat, size: nat) {
    forall y :: lo <= y < hi ==> 0 <= Row(base, stride, y) && Row(base, stride, y) + width <= size
  }

  lemma {:induction false} RowsAscend(base: int, stride: nat, y: nat, z: nat)
    requires y < z
    ensures Row(base, stride, y) + stride <= Row(base, stride, z)
    decreases z
  {
    if y + 1 < z { RowsAscend(base, stride, y, z - 1); }
  }

  /** Painting row after row. */
  function PaintedRows(s: seq<Byte>, base: int, stride: int, width: nat, h: nat, f: Paint): (r: seq<Byte>)
    ensures |r| == |s|
    decreases h
  {
    if h == 0 || Row(base, stride, h - 1) < 0 then s
    else Painted(PaintedRows(s, base, stride, width, h - 1, f), Row(base, stride, h - 1), width, f)
  }

  /** Painting the rows paints each byte of the rectangle once, by its place in its row. */
  lemma {:induction false} RowsPaintRectangle(s: seq<Byte>, base: int, stride: nat, width: nat, h: nat, f: Paint,
                                              y: nat, i: nat)
    requires width <= stride && Fits(base, stride, width, 0, h, |s|)
    requires y < h && i < |s| && InRow(i, base, stride, width, y)
    ensures PaintedRows(s, base, stride, width, h, f)[i] == f(i - Row(base, stride, y), s[i])
    decreases h
  {
    hide Row;
    if y < h - 1 {
      RowsAscend(base, stride, y, h - 1);
      RowsPaintRectangle(s, base, stride, width, h - 1, f, y, i);
    } else {
      forall z | 0 <= z < h - 1
        ensures !InRow(i, base, stride, width, z)
      {
        RowsAscend(base, stride, z, y);
      }
      RowsPaintOnlyRectangle(s, base, stride, width, h - 1, f, i);
    }
  }

  /** No byte outside the rectangle changes. */
  lemma {:induction false} RowsPaintOnlyRectangle(s: seq<Byte>, base: int, stride: nat, width: nat, h: nat, f: Paint,
                                                  i: nat)
    requires Fits(base, stride, width, 0, h, |s|) && i < |s|
    requires forall y :: 0 <= y < h ==> !InRow(i, base, stride, width, y)
    ensures PaintedRows(s, base, stride, width, h, f)[i] == s[i]
    decreases h
  {
    hide Row;
    if h > 0 {
      assert !InRow(i, base, stride, width, h - 1);
      RowsPaintOnlyRectangle(s, base, stride, width, h - 1, f, i);
    }
  }

  /** What a painted rectangle looks like: every bit of an inverted one is turned around, and a filled one has
      the colour's four bytes in turn in each of its rows. */
  lemma RectangleLooks(s: seq<Byte>, base: int, stride: nat, width: nat, h: nat, color: Color, y: nat, x: nat,
                       bit: nat)
    requires width <= stride && Fits(base, stride, width, 0, h, |s|)
    requires y < h && x < width && bit < 8
    ensures var i := Row(base, stride, y) + x;
      && 0 <= i < |s|
      && BitOf(PaintedRows(s, base, stride, width, h, Invert)[i], bit) == 1 - BitOf(s[i], bit)
      && PaintedRows(s, base, stride, width, h, Fill(color))[i] == color[x % 4]
  {
    var i := Row(base, stride, y) + x;
    assert InRow(i, base, stride, width, y);
    assert Pow2(8) == 0x100;
    hide Row, Pow2, PaintedRows;
    RowsPaintRectangle(s, base, stride, width, h, Invert, y, i);
    RowsPaintRectangle(s, base, stride, width, h, Fill(color), y, i);
    BitsTurned(8, s[i], bit);
  }

  /** Inverting a rectangle twice gives the buffer back. */
  lemma InvertRectangleTwice(s: seq<Byte>, base: int, stride: nat, width: nat, h: nat)
    requires width <= stride && Fits(base, stride, width, 0, h, |s|)
    ensures var once := PaintedRows(s, base, stride, width, h, Invert);
      PaintedRows(once, base, stride, width, h, Invert) == s
  {
    hide PaintedRows;
    var once := PaintedRows(s, base, stride, width, h, Invert);
    var twice := PaintedRows(once, base, stride, width, h, Invert);
    forall i | 0 <= i < |s|
      ensures twice[i] == s[i]
    {
      if y :| 0 <= y < h && InRow(i, base, stride, width, y) {
        RowsPaintRectangle(s, base, stride, width, h, Invert, y, i);
        RowsPaintRectangle(once, base, stride, width, h, Invert, y, i);
      } else {
        RowsPaintOnlyRectangle(s, base, stride, width, h, Invert, i);
        RowsPaintOnlyRectangle(once, base, stride, width, h, Invert, i);
      }
    }
  }

  /** A negative height means no rows. */
  function Rows(height: int): (h: nat) {
    if height < 0 then 0 else height
  }

  /** No row of an empty rectangle begins where the prologue overruns. */
  ghost predicate NoRowOverruns(unaligned: bool, bpp: nat, org: nat, base: int, stride: int, h: nat) {
    forall y :: 0 <= y < h ==> !PrologueOverruns(unaligned, bpp, org + Row(base, stride, y), 0)
  }

  /** Inverts a rectangle of `width` pixels by `height` rows at `base`. */
  method NqdInvrect(unaligned: bool, bpp: nat, mem: array<Byte>, org: nat, base: int, rowBytes: int,
                    width: nat, height: int)
    requires bpp == 8 || bpp == 16 || bpp == 32
    requires width * (bpp / 8) < 0x8000     // the row length is an int16
    requires Fits(base, rowBytes, width * (bpp / 8), 0, Rows(height), mem.Length)
    requires width == 0 ==> NoRowOverruns(unaligned, bpp, org, base, rowBytes, Rows(height))
    modifies mem
    ensures mem[..] == PaintedRows(old(mem[..]), base, rowBytes, width * (bpp / 8), Rows(height), Invert)
  {
    hide Painted, WholePixels;
    var length := width * (bpp / 8);
    WholeRow(bpp, width);
    var dest, i: nat := base, 0;
    while i < height
      invariant i == 0 || i <= height
      invariant dest == Row(base, rowBytes, i)
      invariant mem[..] == PaintedRows(old(mem[..]), base, rowBytes, length, i, Invert)
    {
      assert 0 <= Row(base, rowBytes, i);
      DoInvrect(unaligned, bpp, mem, org, dest, length);
      dest := dest + rowBytes;
      i := i + 1;
    }
  }

  lemma WholeRow(bpp: nat, width: nat)
    requires bpp == 8 || bpp == 16 || bpp == 32
    ensures WholePixels(bpp, width * (bpp / 8)) == width * (bpp / 8)
  {
    if bpp == 16 {
      assert width * (bpp / 8) == 2 * width;
    } else if bpp == 32 {
      assert width * (bpp / 8) == 4 * width;
    }
  }

  /** The byte of a colour that `memset` uses. */
  function LowByte(color: Color, bigEndian: bool): (b: Byte) {
    if bigEndian then color[3] else color[0]
  }

  /** The number that C reads the colour's four bytes as. */
  function NumberOf(color: Color, bigEndian: bool): (n: nat) {
    if bigEndian then ((color[0] as int * 0x100 + color[1]) * 0x100 + color[2]) * 0x100 + color[3]
    else ((color[3] as int * 0x100 + color[2]) * 0x100 + color[1]) * 0x100 + color[0]
  }

  /** At 8 bits per pixel a rectangle is filled with the colour's number cut to a byte. */
  lemma PatternOfByte(color: Color, bigEndian: bool, k: nat)
    ensures Pattern(8, color, bigEndian)[k % 4] == NumberOf(color, bigEndian) % 0x100
  {
    assert Pattern(8, color, bigEndian)[k % 4] == LowByte(color, bigEndian);
  }

  /** The pattern a rectangle is filled with: at 8 bits per pixel, the colour's low byte. */
  function Pattern(bpp: nat, color: Color, bigEndian: bool): (c: Color) {
    var b := LowByte(color, bigEndian);
    if bpp == 8 then [b, b, b, b] else color
  }

  /** Fills a rectangle; rows of 8-bit pixels by `memset`. */
  method NqdFillrect(unaligned: bool, bigEndian: bool, bpp: nat, mem: array<Byte>, org: nat, base: int, rowBytes: int,
                     color: Color, width: nat, height: int)
    requires bpp == 8 || bpp == 16 || bpp == 32
    requires bpp == 16 ==> color[0] == color[2] && color[1] == color[3]
    requires width * (bpp / 8) < 0x8000     // the row length is an int16
    requires Fits(base, rowBytes, width * (bpp / 8), 0, Rows(height), mem.Length)
    modifies mem
    ensures mem[..] == PaintedRows(old(mem[..]), base, rowBytes, width * (bpp / 8), Rows(height),
                                   Fill(Pattern(bpp, color, bigEndian)))
  {
    hide Painted, WholePixels, Fill;
    var length := width * (bpp / 8);
    WholeRow(bpp, width);
    var dest, i: nat := base, 0;
    while i < height
      invariant i == 0 || i <= height
      invariant dest == Row(base, rowBytes, i)
      invariant mem[..] == PaintedRows(old(mem[..]), base, rowBytes, length, i, Fill(Pattern(bpp, color, bigEndian)))
    {
      assert 0 <= Row(base, rowBytes, i);
      if bpp == 8 {
        MemSet(mem, dest, LowByte(color, bigEndian), length);
      } else {
        DoFillrect(unaligned, bigEndian, bpp, mem, org, dest, color, length);
      }
      dest := dest + rowBytes;
      i := i + 1;
    }
  }

  /** The C library's `memset`. */
  method MemSet(mem: array<Byte>, at: nat, b: Byte, n: nat)
    requires at + n <= mem.Length
    modifies mem
    ensures mem[..] == Painted(old(mem[..]), at, n, Fill([b, b, b, b]))
  {
    var k := 0;
    while k < n
      invariant 0 <= k <= n
      invariant forall i :: 0 <= i < mem.Length ==> mem[i] == if at <= i < at + k then b else old(mem[i])
    {
      mem[at + k] := b;
      k := k + 1;
    }
  }

  // ---------- Copying ----------

  /** The two stretches of `width` bytes do not overlap. */
  predicate Disjoint(a: int, b: int, width: nat) {
    a + width <= b || b + width <= a
  }

  /** A row copied from `s`, the rest as in `t`. */
  function RowCopied(t: seq<Byte>, s: seq<Byte>, dst: int, src: int, width: nat): (r: seq<Byte>)
    requires |t| == |s| && 0 <= src && src + width <= |s| && 0 <= dst
    ensures |r| == |t|
  {
    seq(|t|, i requires 0 <= i < |t| => if dst <= i < dst + width then s[src + i - dst] else t[i])
  }

  /** The C library's `memmove`: right for any overlap. */
  method MemMove(mem: array<Byte>, dst: nat, src: nat, width: nat)
    requires dst + width <= mem.Length && src + width <= mem.Length
    modifies mem
    ensures mem[..] == RowCopied(old(mem[..]), old(mem[..]), dst, src, width)
  {
    if dst <= src {
      var k := 0;
      while k < width
        invariant 0 <= k <= width
        invariant forall i :: 0 <= i < mem.Length ==>
          mem[i] == if dst <= i < dst + k then old(mem[src + i - dst]) else old(mem[i])
      {
        mem[dst + k] := mem[src + k];
        k := k + 1;
      }
    } else {
      var k := width;
      while k > 0
        invariant 0 <= k <= width
        invariant forall i :: 0 <= i < mem.Length ==>
          mem[i] == if dst + k <= i < dst + width then old(mem[src + i - dst]) else old(mem[i])
      {
        k := k - 1;
        mem[dst + k] := mem[src + k];
      }
    }
  }

  /** The bytes of row `y` of a rectangle. */
  function RowBytes(s: seq<Byte>, base: int, stride: int, width: nat, y: nat): (r: seq<Byte>)
    requires 0 <= Row(base, stride, y) && Row(base, stride, y) + width <= |s|
    ensures |r| == width
  {
    s[Row(base, stride, y)..Row(base, stride, y) + width]
  }

  /** `i` is in none of the rows from `lo` to `hi`. */
  ghost predicate Outside(i: int, base: int, stride: int, width: nat, lo: nat, hi: nat) {
    forall y :: lo <= y < hi ==> !InRow(i, base, stride, width, y)
  }

  /** The two rectangles of a copy. */
  datatype Copy = Copy(dst: int, dstStride: int, src: int, srcStride: int, width: nat)

  ghost predicate BothFit(c: Copy, lo: nat, hi: nat, size: nat) {
    Fits(c.src, c.srcStride, c.width, lo, hi, size) && Fits(c.dst, c.dstStride, c.width, lo, hi, size)
  }

  /** Rows from `lo` to `hi` of the destination hold what the same rows of the source held in
      `was`, as if all had been copied at once; every other byte is as in `was`. */
  ghost predicate Copied(c: Copy, was: seq<Byte>, now: seq<Byte>, lo: nat, hi: nat) {
    && |now| == |was|
    && BothFit(c, lo, hi, |was|)
    && (forall y :: lo <= y < hi ==>
          RowBytes(now, c.dst, c.dstStride, c.width, y) == RowBytes(was, c.src, c.srcStride, c.width, y))
    && (forall i :: 0 <= i < |was| && Outside(i, c.dst, c.dstStride, c.width, lo, hi) ==> now[i] == was[i])
  }

  /** That describes the copy completely. */
  lemma CopiedIsUnique(c: Copy, was: seq<Byte>, a: seq<Byte>, b: seq<Byte>, lo: nat, hi: nat)
    requires Copied(c, was, a, lo, hi) && Copied(c, was, b, lo, hi)
    ensures a == b
  {
    hide Row;
    forall i | 0 <= i < |was|
      ensures a[i] == b[i]
    {
      if y :| lo <= y < hi && InRow(i, c.dst, c.dstStride, c.width, y) {
        var k := i - Row(c.dst, c.dstStride, y);
        assert RowBytes(a, c.dst, c.dstStride, c.width, y)[k] == RowBytes(b, c.dst, c.dstStride, c.width, y)[k];
      } else {
        assert Outside(i, c.dst, c.dstStride, c.width, lo, hi);
      }
    }
  }

  /** Copying row `y` spoils neither row `z` of the source nor row `z` of the destination. */
  predicate Harmless(c: Copy, y: nat, z: nat) {
    && Disjoint(Row(c.dst, c.dstStride, y), Row(c.src, c.srcStride, z), c.width)
    && Disjoint(Row(c.dst, c.dstStride, y), Row(c.dst, c.dstStride, z), c.width)
  }

  /** One `memmove`. */
  function CopyRow(c: Copy, s: seq<Byte>, y: nat): (r: seq<Byte>)
    requires BothFit(c, y, y + 1, |s|)
    ensures |r| == |s|
  {
    assert 0 <= Row(c.src, c.srcStride, y) && 0 <= Row(c.dst, c.dstStride, y);
    RowCopied(s, s, Row(c.dst, c.dstStride, y), Row(c.src, c.srcStride, y), c.width)
  }

  /** The rows copied so far leave the next row's source as it was. */
  lemma SourceIntact(c: Copy, was: seq<Byte>, now: seq<Byte>, lo: nat, hi: nat, y: nat)
    requires Copied(c, was, now, lo, hi) && BothFit(c, y, y + 1, |was|)
    requires forall z :: lo <= z < hi ==> Harmless(c, z, y)
    ensures RowBytes(now, c.src, c.srcStride, c.width, y) == RowBytes(was, c.src, c.srcStride, c.width, y)
  {
    hide Row, RowBytes;
    var from := Row(c.src, c.srcStride, y);
    forall i | from <= i < from + c.width
      ensures now[i] == was[i]
    {
      forall z | lo <= z < hi
        ensures !InRow(i, c.dst, c.dstStride, c.width, z)
      {
        assert Harmless(c, z, y);
      }
    }
    SameSlice(now, was, from, c.width);
    RowBytesAre(now, c.src, c.srcStride, c.width, y);
    RowBytesAre(was, c.src, c.srcStride, c.width, y);
  }

  lemma SameSlice(a: seq<Byte>, b: seq<Byte>, from: int, width: nat)
    requires |a| == |b| && 0 <= from && from + width <= |a|
    requires forall i :: from <= i < from + width ==> a[i] == b[i]
    ensures a[from..from + width] == b[from..from + width]
  {
  }

  lemma RowBytesAre(s: seq<Byte>, base: int, stride: int, width: nat, y: nat)
    requires 0 <= Row(base, stride, y) && Row(base, stride, y) + width <= |s|
    ensures RowBytes(s, base, stride, width, y) == s[Row(base, stride, y)..Row(base, stride, y) + width]
  {
  }

  /** The new row arrives, rows apart from it stay. */
  lemma CopyRowEffect(c: Copy, s: seq<Byte>, y: nat, z: nat)
    requires BothFit(c, y, y + 1, |s|) && BothFit(c, z, z + 1, |s|)
    ensures RowBytes(CopyRow(c, s, y), c.dst, c.dstStride, c.width, y) == RowBytes(s, c.src, c.srcStride, c.width, y)
    ensures Disjoint(Row(c.dst, c.dstStride, y), Row(c.dst, c.dstStride, z), c.width) ==>
      RowBytes(CopyRow(c, s, y), c.dst, c.dstStride, c.width, z) == RowBytes(s, c.dst, c.dstStride, c.width, z)
  {
    hide Row;
    assert 0 <= Row(c.src, c.srcStride, y) && 0 <= Row(c.dst, c.dstStride, y);
    assert 0 <= Row(c.src, c.srcStride, z) && 0 <= Row(c.dst, c.dstStride, z);
  }

  lemma CopyOneMore(c: Copy, was: seq<Byte>, now: seq<Byte>, lo: nat, hi: nat, y: nat, lo': nat, hi': nat)
    requires Copied(c, was, now, lo, hi) && BothFit(c, y, y + 1, |was|)
    requires (y == hi && lo' == lo <= hi && hi' == hi + 1) || (y + 1 == lo <= hi && lo' == y && hi' == hi)
    requires forall z :: lo <= z < hi ==> Harmless(c, z, y)
    ensures Copied(c, was, CopyRow(c, now, y), lo', hi')
  {
    hide Row, RowBytes, CopyRow;
    var now' := CopyRow(c, now, y);
    SourceIntact(c, was, now, lo, hi, y);
    CopyRowEffect(c, now, y, y);
    forall z | lo' <= z < hi'
      ensures BothFit(c, z, z + 1, |was|)
      ensures RowBytes(now', c.dst, c.dstStride, c.width, z) == RowBytes(was, c.src, c.srcStride, c.width, z)
    {
      if z != y {
        assert Harmless(c, z, y);
        CopyRowEffect(c, now, y, z);
      }
    }
    forall i | 0 <= i < |was| && Outside(i, c.dst, c.dstStride, c.width, lo', hi')
      ensures now'[i] == was[i]
    {
      assert !InRow(i, c.dst, c.dstStride, c.width, y);
      assert Outside(i, c.dst, c.dstStride, c.width, lo, hi);
      CopyRowElsewhere(c, now, y, i);
    }
  }

  lemma CopyRowElsewhere(c: Copy, s: seq<Byte>, y: nat, i: nat)
    requires BothFit(c, y, y + 1, |s|) && i < |s| && !InRow(i, c.dst, c.dstStride, c.width, y)
    ensures CopyRow(c, s, y)[i] == s[i]
  {
    hide Row;
    assert 0 <= Row(c.src, c.srcStride, y) && 0 <= Row(c.dst, c.dstStride, y);
  }

  /** The order in which a blit takes its rows is one in which no copied row spoils a later one. */
  ghost predicate SafeOrder(c: Copy, h: nat, topDown: bool) {
    forall y, z :: 0 <= y < h && 0 <= z < h && (if topDown then y < z else z < y) ==> Harmless(c, y, z)
  }

  /** With one stride for both, at least the row width: top-down is safe towards lower addresses,
      bottom-up towards higher ones, whatever the overlap. */
  lemma OverlapIsSafe(c: Copy, h: nat, topDown: bool)
    requires c.srcStride == c.dstStride && c.width <= c.srcStride
    requires if topDown then c.dst <= c.src else c.src <= c.dst
    ensures SafeOrder(c, h, topDown)
  {
    hide Row;
    forall y, z | 0 <= y < h && 0 <= z < h && (if topDown then y < z else z < y)
      ensures Harmless(c, y, z)
    {
      RowsShift(c.dst, c.src, c.srcStride, y);
      RowsShift(c.dst, c.src, c.srcStride, z);
      if topDown {
        RowsAscend(c.dst, c.dstStride, y, z);
      } else {
        RowsAscend(c.dst, c.dstStride, z, y);
      }
    }
  }

  lemma {:induction false} RowsShift(a: int, b: int, stride: int, y: nat)
    ensures Row(b, stride, y) == Row(a, stride, y) + b - a
    decreases y
  {
    if y > 0 { RowsShift(a, b, stride, y - 1); }
  }

  /**
    Copies `height` rows of `width` pixels. A positive source row length means top-down; otherwise
    both row lengths are negated and the rows are taken bottom-up. `src` and `dst` are where the
    top rows start.
   */
  method NqdBitblt(bpp: nat, mem: array<Byte>, src: int, srcRowBytes: int, dst: int, dstRowBytes: int,
                   width: nat, height: int)
    requires bpp == 1 || bpp == 2 || bpp == 4
    requires width * bpp < 0x8000                          // the row length is an int16
    requires var down := srcRowBytes > 0;
      var c := Copy(dst, if down then dstRowBytes else -dstRowBytes,
                    src, if down then srcRowBytes else -srcRowBytes, width * bpp);
      BothFit(c, 0, Rows(height), mem.Length) && SafeOrder(c, Rows(height), down)
    modifies mem
    ensures var down := srcRowBytes > 0;
      var c := Copy(dst, if down then dstRowBytes else -dstRowBytes,
                    src, if down then srcRowBytes else -srcRowBytes, width * bpp);
      Copied(c, old(mem[..]), mem[..], 0, Rows(height))
  {
    hide Row, RowBytes, Harmless;
    var length := width * bpp;
    if srcRowBytes > 0 {
      ghost var c := Copy(dst, dstRowBytes, src, srcRowBytes, length);
      var from, to, i: nat := src, dst, 0;
      RowZero(src, srcRowBytes);
      RowZero(dst, dstRowBytes);
      while i < height
        invariant i <= Rows(height)
        invariant from == Row(src, srcRowBytes, i) && to == Row(dst, dstRowBytes, i)
        invariant Copied(c, old(mem[..]), mem[..], 0, i)
      {
        CopyOneMore(c, old(mem[..]), mem[..], 0, i, i, 0, i + 1);
        MemMove(mem, to, from, length);
        RowNext(src, srcRowBytes, i);
        RowNext(dst, dstRowBytes, i);
        from := from + srcRowBytes;
        to := to + dstRowBytes;
        i := i + 1;
      }
    } else {
      ghost var c := Copy(dst, -dstRowBytes, src, -srcRowBytes, length);
      var from := src + (height - 1) * -srcRowBytes;
      var to := dst + (height - 1) * -dstRowBytes;
      var i := height - 1;
      if i >= 0 {
        RowIsLinear(src, -srcRowBytes, i);
        RowIsLinear(dst, -dstRowBytes, i);
      }
      while i >= 0
        invariant -1 <= i < height || i == height - 1
        invariant i >= 0 ==> from == Row(src, -srcRowBytes, i) && to == Row(dst, -dstRowBytes, i)
        invariant Copied(c, old(mem[..]), mem[..], if i < -1 then 0 else i + 1, Rows(height))
        decreases i
      {
        CopyOneMore(c, old(mem[..]), mem[..], i + 1, Rows(height), i, i, Rows(height));
        MemMove(mem, to, from, length);
        if i > 0 {
          RowNext(src, -srcRowBytes, i - 1);
          RowNext(dst, -dstRowBytes, i - 1);
        }
        from := from + srcRowBytes;
        to := to + dstRowBytes;
        i := i - 1;
      }
    }
  }

  lemma RowZero(base: int, stride: int)
    ensures Row(base, stride, 0) == base
  {
  }

  lemma RowNext(base: int, stride: int, y: nat)
    ensures Row(base, stride, y + 1) == Row(base, stride, y) + stride
  {
  }
}
