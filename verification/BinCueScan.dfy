/**
  Scanning through CD audio: blocks of six frames are played, and between them the position jumps
  forward or back.
 */
module BinCueScan {
  import opened Arithmetic
  import opened Bytes
  import opened BinCuePlay

  const PLAY_FRAMES := 6

  function JumpFrames(reverse: bool): (j: int) {
    if reverse then -150 else 190
  }

  /** One block of played frames and one gap, in the direction of the scan. */
  function CycleFrames(reverse: bool): (c: nat) {
    if reverse then 144 else 196
  }

  function PlayBytes(rs: nat): nat { PLAY_FRAMES * rs }
  function JumpBytes(rs: nat, reverse: bool): int { JumpFrames(reverse) * rs }
  function CycleBytes(rs: nat, reverse: bool): nat { CycleFrames(reverse) * rs }

  /** Position `q` is in a block that is played. */
  predicate InPlayBlock(rs: nat, reverse: bool, q: int)
    requires rs > 0
  {
    q % CycleBytes(rs, reverse) < PlayBytes(rs)
  }

  /** The position after the byte at `q` has been played. */
  function NextPosition(rs: nat, reverse: bool, q: int): (r: int)
    requires rs > 0
  {
    if (q + 1) % CycleBytes(rs, reverse) == PlayBytes(rs) then q + 1 + JumpBytes(rs, reverse) else q + 1
  }

  /** The position after `k` bytes. */
  function Orbit(rs: nat, reverse: bool, q: int, k: nat): (r: int)
    requires rs > 0
    decreases k
  {
    if k == 0 then q else NextPosition(rs, reverse, Orbit(rs, reverse, q, k - 1))
  }

  /** Where a callback that finds the player at `pos` begins: in a gap, at a block's start. */
  function ScanStart(rs: nat, reverse: bool, pos: nat): (q: int)
    requires rs > 0
  {
    var inCycle := pos % CycleBytes(rs, reverse);
    if inCycle < PlayBytes(rs) then pos else pos - inCycle + PlayBytes(rs) + JumpBytes(rs, reverse)
  }

  // ---------- Blocks and gaps ----------

  lemma CycleNumbers(rs: nat, reverse: bool)
    requires rs > 0
    ensures 0 < PlayBytes(rs) < CycleBytes(rs, reverse)
    ensures PlayBytes(rs) + JumpBytes(rs, reverse)
        == if reverse then 0 - CycleBytes(rs, reverse) as int else CycleBytes(rs, reverse)
  {
  }

  /** Moving inside a cycle. */
  lemma InsideCycle(c: nat, q: nat, j: nat)
    requires c > 0 && q % c + j < c
    ensures (q + j) % c == q % c + j
  {
    DivisionUnique(c, q / c, q % c + j, q + j);
  }

  /** Moving by a whole cycle. */
  lemma WholeCycle(c: nat, q: nat, back: bool)
    requires c > 0 && (back ==> q >= c)
    ensures (if back then q - c else q + c) % c == q % c
  {
    var r := if back then q - c else q + c;
    var k := if back then q / c - 1 else q / c + 1;
    assert k * c == q / c * c + if back then 0 - c as int else c;
    if back {
      QuotientMonotone(c, q, c);
      DivisionUnique(c, 1, 0, c);
    }
    DivisionUnique(c, k, q % c, r);
  }

  /** A block that has been played to its end is followed by the block one cycle on, in the scan's
      direction. */
  lemma BlocksOneCycleApart(rs: nat, reverse: bool, q: nat)
    requires rs > 0 && InPlayBlock(rs, reverse, q)
    requires (q + 1) % CycleBytes(rs, reverse) == PlayBytes(rs)
    ensures var c, start := CycleBytes(rs, reverse), q - q % CycleBytes(rs, reverse);
      && NextPosition(rs, reverse, q) == (if reverse then start - c else start + c)
      && (NextPosition(rs, reverse, q) >= 0 ==> NextPosition(rs, reverse, q) % c == 0)
  {
    CycleNumbers(rs, reverse);
    var c := CycleBytes(rs, reverse);
    hide CycleBytes, PlayBytes, JumpBytes;
    InsideCycle(c, q, 1);
    var start := BlockStart(c, q);
    if !reverse || start >= c { WholeCycle(c, start, reverse); }
  }

  lemma BlockStart(c: nat, q: nat) returns (start: nat)
    requires c > 0
    ensures start == q - q % c && start % c == 0
  {
    start := q / c * c;
    DivisionUnique(c, q / c, 0, start);
  }

  /** From a block that is played, positions only ever lead to blocks that are played. */
  lemma StaysInPlay(rs: nat, reverse: bool, q: nat)
    requires rs > 0 && InPlayBlock(rs, reverse, q) && NextPosition(rs, reverse, q) >= 0
    ensures InPlayBlock(rs, reverse, NextPosition(rs, reverse, q))
  {
    CycleNumbers(rs, reverse);
    var c := CycleBytes(rs, reverse);
    if (q + 1) % c == PlayBytes(rs) {
      BlocksOneCycleApart(rs, reverse, q);
    } else {
      hide CycleBytes, PlayBytes, JumpBytes;
      InsideCycle(c, q, 1);
    }
  }

  /** `j` bytes further on without leaving the block, and at its end. */
  lemma {:induction false} OrbitInBlock(rs: nat, reverse: bool, q0: int, k: nat, j: nat)
    requires rs > 0
    requires var q := Orbit(rs, reverse, q0, k);
      q >= 0 && InPlayBlock(rs, reverse, q) && q % CycleBytes(rs, reverse) + j <= PlayBytes(rs)
    ensures var q := Orbit(rs, reverse, q0, k);
      Orbit(rs, reverse, q0, k + j) ==
        if q % CycleBytes(rs, reverse) + j == PlayBytes(rs) then q + j + JumpBytes(rs, reverse) else q + j
    decreases j
  {
    var q, c := Orbit(rs, reverse, q0, k), CycleBytes(rs, reverse);
    CycleNumbers(rs, reverse);
    hide CycleBytes, PlayBytes, JumpBytes;
    if j > 0 {
      OrbitInBlock(rs, reverse, q0, k, j - 1);
      InsideCycle(c, q, j);
      assert Orbit(rs, reverse, q0, k + j) == NextPosition(rs, reverse, Orbit(rs, reverse, q0, k + j - 1));
    }
  }

  lemma {:induction false} OrbitContinues(rs: nat, reverse: bool, q: int, m: nat, k: nat)
    requires rs > 0
    ensures Orbit(rs, reverse, Orbit(rs, reverse, q, m), k) == Orbit(rs, reverse, q, m + k)
    decreases k
  {
    hide NextPosition;
    if k > 0 { OrbitContinues(rs, reverse, q, m, k - 1); }
  }

  /** Where a callback begins is in a block that is played. */
  lemma StartsInPlay(rs: nat, reverse: bool, pos: nat)
    requires rs > 0 && ScanStart(rs, reverse, pos) >= 0
    ensures InPlayBlock(rs, reverse, ScanStart(rs, reverse, pos))
  {
    CycleNumbers(rs, reverse);
    var c := CycleBytes(rs, reverse);
    hide CycleBytes, PlayBytes, JumpBytes;
    var start := BlockStart(c, pos);
    if !reverse || start >= c { WholeCycle(c, start, reverse); }
  }

  /** Which block a callback begins in: forward, at the first position from here on that is played; in
      reverse, where a gap has been reached, at the block one cycle before this one, if there is one. */
  lemma ScanStartIs(rs: nat, reverse: bool, pos: nat)
    requires rs > 0
    ensures var q, c := ScanStart(rs, reverse, pos), CycleBytes(rs, reverse);
      && (InPlayBlock(rs, reverse, pos) ==> q == pos)
      && (!reverse ==> q >= pos && InPlayBlock(rs, reverse, q)
                       && forall k :: pos <= k < q ==> !InPlayBlock(rs, reverse, k))
      && (reverse && !InPlayBlock(rs, reverse, pos) ==>
            exists start: nat :: start <= pos < start + c && start % c == 0 && q == start - c && (q < 0 <==> pos < c))
  {
    CycleNumbers(rs, reverse);
    var q, c := ScanStart(rs, reverse, pos), CycleBytes(rs, reverse);
    hide CycleBytes, PlayBytes, JumpBytes;
    var start := BlockStart(c, pos);
    if !InPlayBlock(rs, reverse, pos) {
      if reverse {
        assert start <= pos < start + c && q == start - c;
        WholeCycles(c, start);
      } else {
        StartsInPlay(rs, reverse, pos);
        forall k | pos <= k < q
          ensures !InPlayBlock(rs, reverse, k)
        {
          InsideCycle(c, pos, k - pos);
        }
      }
    }
  }

  lemma WholeCycles(c: nat, start: nat)
    requires c > 0 && start % c == 0
    ensures start < c <==> start == 0
  {
  }

  // ---------- One turn ----------

  /** A scan whose positions fit a C `int`. */
  predicate ScanRange(p: Player, d: Disc) {
    && 0 < d.rs && p.start <= p.end < 0x8000_0000
    && Range(p, d) + 392 * d.rs < 0x8000_0000 && p.pos < Range(p, d) + 392 * d.rs
    && p.silence == 0 && p.scanning && p.fileoffset >= 0
  }

  /** Such a scan whose range is in the file. */
  predicate ScanFits(p: Player, d: Disc) {
    ScanRange(p, d) && p.fileoffset + Range(p, d) <= |d.file|
  }

  /** Between callbacks a scan is at most one cycle beyond its range. */
  predicate ScanReady(p: Player, d: Disc) {
    ScanFits(p, d) && p.pos < Range(p, d) + 196 * d.rs
  }

  /** How much a turn plays. */
  function TurnLength(p: Player, d: Disc, room: nat, limit: nat): (m: int) {
    var left := Range(p, d) - p.pos;
    var wanted := if left > room then room else left;
    if wanted >= limit then limit else wanted
  }

  lemma ScanTurnEnds(p: Player, d: Disc, buf: seq<Byte>, offset: nat, limit: nat)
    requires ScanRange(p, d) && p.pos >= Range(p, d) && offset <= |buf| && limit > 0
    ensures DoTurn(p, d, buf, offset, 0 - p.pos as int, limit, JumpBytes(d.rs, p.reverse))
        == Returned(p.(status := Completed), buf)
  {
    EndByFrames(p, d);
    hide AtEnd, RangeWord, Range, U32, I32, ReadOn;
  }

  /** Up to `m` bytes on, before and after a jump, positions fit a C `int`. */
  predicate InWordAfter(pos: nat, m: nat, jump: int) {
    pos + m < 0x8000_0000 && -0x8000_0000 <= pos + jump && pos + m + jump < 0x8000_0000
  }

  /** A turn plays inside the range and the buffer. */
  lemma ScanBounds(p: Player, d: Disc, room: nat, limit: nat)
    requires ScanRange(p, d) && p.pos < Range(p, d) && limit > 0
    ensures var m := TurnLength(p, d, room, limit);
      && 0 <= m <= room && p.pos + m <= Range(p, d)
      && InWordAfter(p.pos, m, JumpBytes(d.rs, p.reverse))
      && (ScanFits(p, d) ==> ReadCount(d.file, p.fileoffset + p.pos, m) == m && p.fileoffset + p.pos + m <= |d.file|)
  {
    assert -150 * d.rs <= JumpBytes(d.rs, p.reverse) <= 190 * d.rs;
    hide Range, JumpBytes;
  }

  /** What a turn of a scan comes to when `m` bytes are wanted. */
  function ScanResult(p: Player, d: Disc, buf: seq<Byte>, offset: nat, m: nat, hit: bool, jump: int): (t: Turn)
    requires offset + m <= |buf| && p.fileoffset + p.pos >= 0
    requires InWordAfter(p.pos, m, jump)
  {
    var ret := ReadCount(d.file, p.fileoffset + p.pos, m);
    var after, filled := p.pos + ret, Filled(buf, offset, d.file, p.fileoffset + p.pos, ret);
    if after + jump < 0 then Returned(p.(pos := after, status := Completed), filled)
    else Went(p.(pos := if hit then after + jump else after), filled, offset + ret, m - ret)
  }

  lemma ScanTurnReads(p: Player, d: Disc, buf: seq<Byte>, offset: nat, limit: nat)
    requires ScanRange(p, d) && p.pos < Range(p, d) && offset <= |buf| < 0x8000_0000 && limit > 0
    requires p.pos > 0 || |buf| > 0
    ensures var m, jump := TurnLength(p, d, |buf| - offset, limit), JumpBytes(d.rs, p.reverse);
      && 0 <= m <= |buf| - offset && p.pos + m <= Range(p, d)
      && InWordAfter(p.pos, m, jump)
      && DoTurn(p, d, buf, offset, 0 - p.pos as int, limit, jump) == ScanResult(p, d, buf, offset, m, m == limit, jump)
  {
    ScanBounds(p, d, |buf| - offset, limit);
    ScanTurnGoesOn(p, d, buf, offset, limit);
    ScanReadsOn(p, d, buf, offset, limit, TurnLength(p, d, |buf| - offset, limit), JumpBytes(d.rs, p.reverse));
  }

  /** With the range in the file, all that is wanted is read. */
  lemma ScanTurnPlays(p: Player, d: Disc, buf: seq<Byte>, offset: nat, limit: nat)
    requires ScanFits(p, d) && p.pos < Range(p, d) && offset <= |buf| < 0x8000_0000 && limit > 0
    requires p.pos > 0 || |buf| > 0
    ensures var m, jump := TurnLength(p, d, |buf| - offset, limit), JumpBytes(d.rs, p.reverse);
      && 0 <= m <= |buf| - offset && p.pos + m <= Range(p, d) && p.fileoffset + p.pos + m <= |d.file|
      && p.pos + m + jump < 0x8000_0000
      && var after, filled := p.pos + m, Filled(buf, offset, d.file, p.fileoffset + p.pos, m);
         DoTurn(p, d, buf, offset, 0 - p.pos as int, limit, jump) ==
           if after + jump < 0 then Returned(p.(pos := after, status := Completed), filled)
           else Went(p.(pos := if m == limit then after + jump else after), filled, offset + m, 0)
  {
    hide DoTurn, TurnLength, Range, JumpBytes, Filled, ReadCount;
    ScanBounds(p, d, |buf| - offset, limit);
    ScanTurnReads(p, d, buf, offset, limit);
  }

  lemma ScanTurnGoesOn(p: Player, d: Disc, buf: seq<Byte>, offset: nat, limit: nat)
    requires ScanRange(p, d) && p.pos < Range(p, d) && offset <= |buf| && limit > 0
    requires p.pos > 0 || |buf| > 0
    ensures DoTurn(p, d, buf, offset, 0 - p.pos as int, limit, JumpBytes(d.rs, p.reverse))
         == ReadOn(p, d, buf, offset, limit, JumpBytes(d.rs, p.reverse))
  {
    EndByFrames(p, d);
    hide AtEnd, RangeWord, ReadOn, Range, U32, JumpBytes;
    NoWrap(p.pos);
  }

  lemma ScanReadsOn(p: Player, d: Disc, buf: seq<Byte>, offset: nat, limit: nat, m: nat, jump: int)
    requires ScanRange(p, d) && p.pos < Range(p, d) && offset <= |buf| < 0x8000_0000 && limit > 0
    requires m == TurnLength(p, d, |buf| - offset, limit) && m <= |buf| - offset && p.pos + m <= Range(p, d)
    requires InWordAfter(p.pos, m, jump)
    ensures ReadOn(p, d, buf, offset, limit, jump) == ScanResult(p, d, buf, offset, m, m == limit, jump)
  {
    ScanLeft(p, d);
    hide AtEnd, RangeWord, Range, U32, I32, Filled, ReadCount, ScanRange, Reads, ScanResult;
    ScanReads(p, d, buf, offset, m, m == limit, jump);
  }

  lemma ScanLeft(p: Player, d: Disc)
    requires ScanRange(p, d) && p.pos < Range(p, d)
    ensures 0 < d.rs && p.silence == 0 && p.fileoffset >= 0
    ensures I32(RangeWord(p, d) - p.pos) == Range(p, d) - p.pos
  {
    EndByFrames(p, d);
    hide AtEnd, RangeWord, Range, U32, I32;
    NoWrap(Range(p, d) - p.pos);
  }

  lemma ScanReads(p: Player, d: Disc, buf: seq<Byte>, offset: nat, m: nat, hit: bool, jump: int)
    requires offset + m <= |buf| && p.pos + m < 0x8000_0000 && p.fileoffset + p.pos >= 0
    requires p.silence == 0 && InWordAfter(p.pos, m, jump)
    ensures Reads(p, d, buf, offset, p.fileoffset + p.pos, m, hit, jump) == ScanResult(p, d, buf, offset, m, hit, jump)
  {
    var ret := ReadCount(d.file, p.fileoffset + p.pos, m);
    NoWrap(p.pos + ret);
    NoWrap(p.pos + ret + jump);
    hide U32, I32, Filled, ReadCount;
  }

  // ---------- One callback ----------

  /** What is left unplayed in a callback's buffer is quiet; what is played comes from the positions
      of the scan, all of them in the range and in blocks that are played. */
  ghost predicate PlayedFrom(d: Disc, p: Player, q0: int, buf: seq<Byte>, m: nat)
    requires d.rs > 0
  {
    && m <= |buf|
    && (forall k :: 0 <= k < m ==> FromScan(d, p, q0, k, buf[k]))
    && (forall k :: m <= k < |buf| ==> buf[k] == d.quiet)
  }

  /** `b` is the `k`-th byte of the scan that begins at `q0`. */
  predicate FromScan(d: Disc, p: Player, q0: int, k: nat, b: Byte)
    requires d.rs > 0
  {
    var q := Orbit(d.rs, p.reverse, q0, k);
    && 0 <= q < Range(p, d) && InPlayBlock(d.rs, p.reverse, q)
    && 0 <= p.fileoffset + q < |d.file| && b == d.file[p.fileoffset + q]
  }

  /** A callback part way: `offset` bytes are played and the player is at the next position. */
  ghost predicate Scanning(d: Disc, p0: Player, q0: int, p: Player, buf: seq<Byte>, offset: nat) {
    && ScanFits(p, d) && SamePlay(p0, p) && p.status == Playing
    && PlayedFrom(d, p0, q0, buf, offset)
    && p.pos == Orbit(d.rs, p0.reverse, q0, offset)
    && InPlayBlock(d.rs, p0.reverse, p.pos)
  }

  /** Just after the `m`-th byte of a scan, before any jump. */
  function Reached(rs: nat, reverse: bool, q0: int, m: nat): (q: int)
    requires rs > 0
  {
    if m == 0 then q0 else Orbit(rs, reverse, q0, m - 1) + 1
  }

  /** Why a scan ends after `m` bytes: the end of the range, or no room to jump back. */
  ghost predicate ScanEnded(d: Disc, p0: Player, q0: int, p: Player, buf: seq<Byte>, m: nat) {
    && d.rs > 0 && SamePlay(p0, p) && p.status == Completed
    && PlayedFrom(d, p0, q0, buf, m)
    && (|| (p.pos == Orbit(d.rs, p0.reverse, q0, m) && p.pos >= Range(p0, d))
        || (p.pos == Reached(d.rs, p0.reverse, q0, m) && p.pos + JumpBytes(d.rs, p0.reverse) < 0))
  }

  lemma SamePlayRange(p0: Player, p: Player, d: Disc)
    requires SamePlay(p0, p)
    ensures Range(p0, d) == Range(p, d) && p0.reverse == p.reverse && p0.fileoffset == p.fileoffset
  {
  }

  lemma FilledAt(d: Disc, buf: seq<Byte>, at: nat, seek: nat, m: nat)
    requires at + m <= |buf| && seek + m <= |d.file|
    ensures forall i :: 0 <= i < |buf| ==>
      Filled(buf, at, d.file, seek, m)[i] == if at <= i < at + m then d.file[seek + i - at] else buf[i]
  {
  }

  /** The bytes of a turn are the next bytes of the scan. */
  lemma TurnBytes(d: Disc, p0: Player, q0: int, p: Player, buf: seq<Byte>, offset: nat, m: nat)
    requires d.rs > 0 && Scanning(d, p0, q0, p, buf, offset) && offset + m <= |buf|
    requires p.pos + m <= Range(p, d) && p.pos % CycleBytes(d.rs, p0.reverse) + m <= PlayBytes(d.rs)
    requires p.fileoffset + p.pos + m <= |d.file|
    ensures PlayedFrom(d, p0, q0, Filled(buf, offset, d.file, p.fileoffset + p.pos, m), offset + m)
  {
    var seek: nat := p.fileoffset + p.pos;
    hide CycleBytes, PlayBytes, JumpBytes, Range, Filled, ScanFits, Orbit, FromScan, InPlayBlock;
    FilledAt(d, buf, offset, seek, m);
    var filled := Filled(buf, offset, d.file, seek, m);
    forall k | 0 <= k < offset + m
      ensures FromScan(d, p0, q0, k, filled[k])
    {
      if k >= offset { TurnByte(d, p0, q0, p, buf, offset, m, k - offset); }
    }
  }

  lemma TurnByte(d: Disc, p0: Player, q0: int, p: Player, buf: seq<Byte>, offset: nat, m: nat, j: nat)
    requires Scanning(d, p0, q0, p, buf, offset) && j < m
    requires p.pos + m <= Range(p, d) && p.pos % CycleBytes(d.rs, p0.reverse) + m <= PlayBytes(d.rs)
    requires p.fileoffset + p.pos + m <= |d.file|
    ensures FromScan(d, p0, q0, offset + j, d.file[p.fileoffset + p.pos + j])
  {
    SamePlayRange(p0, p, d);
    CycleNumbers(d.rs, p0.reverse);
    OrbitInBlock(d.rs, p0.reverse, q0, offset, j);
    hide CycleBytes, PlayBytes, JumpBytes, Range, ScanFits, Orbit, PlayedFrom;
    InsideCycle(CycleBytes(d.rs, p0.reverse), p.pos, j);
  }

  /** Where a turn leaves the player. */
  lemma TurnPosition(d: Disc, p0: Player, q0: int, p: Player, buf: seq<Byte>, offset: nat, m: nat)
    requires Scanning(d, p0, q0, p, buf, offset) && m > 0
    requires p.pos % CycleBytes(d.rs, p0.reverse) + m <= PlayBytes(d.rs)
    ensures Reached(d.rs, p0.reverse, q0, offset + m) == p.pos + m
    ensures var c, jump, after := CycleBytes(d.rs, p0.reverse), JumpBytes(d.rs, p0.reverse), p.pos + m;
      if p.pos % c + m == PlayBytes(d.rs) then
        && Orbit(d.rs, p0.reverse, q0, offset + m) == after + jump
        && (after + jump >= 0 ==> (after + jump) % c == 0 && InPlayBlock(d.rs, p0.reverse, after + jump))
      else
        Orbit(d.rs, p0.reverse, q0, offset + m) == after && InPlayBlock(d.rs, p0.reverse, after)
  {
    CycleNumbers(d.rs, p0.reverse);
    var c := CycleBytes(d.rs, p0.reverse);
    OrbitInBlock(d.rs, p0.reverse, q0, offset, m);
    OrbitInBlock(d.rs, p0.reverse, q0, offset, m - 1);
    hide PlayedFrom, ScanFits, Orbit;
    InsideCycle(c, p.pos, m);
    InsideCycle(c, p.pos, m - 1);
    if p.pos % c + m == PlayBytes(d.rs) {
      BlocksOneCycleApart(d.rs, p0.reverse, p.pos + m - 1);
    }
  }

  /** A turn's result keeps to the scan. */
  ghost predicate KeepsScan(d: Disc, p0: Player, q0: int, t: Turn, offset: nat, n: nat) {
    match t
    case SeekFailed(_) => false
    case Returned(p, buf) => |buf| == n && exists m: nat :: ScanEnded(d, p0, q0, p, buf, m)
    case Went(p, buf, offset', available) =>
      && |buf| == n && available == 0 && offset < offset' <= n
      && Scanning(d, p0, q0, p, buf, offset') && ScanReady(p, d)
      && (offset' == n || p.pos >= Range(p, d) || p.pos % CycleBytes(d.rs, p0.reverse) == 0)
  }

  lemma TurnAmount(p: Player, d: Disc, room: nat, limit: nat)
    requires d.rs > 0 && p.pos < Range(p, d) && 0 < room && 0 < limit
    ensures var m := TurnLength(p, d, room, limit);
      0 < m <= limit && (m < limit ==> m == room || p.pos + m == Range(p, d))
    ensures JumpBytes(d.rs, p.reverse) <= 190 * d.rs
  {
    hide Range;
  }

  /** What a turn plays, and where it leaves the player. */
  lemma TurnOutcome(d: Disc, p0: Player, q0: int, p: Player, buf: seq<Byte>, offset: nat, limit: nat)
    returns (m: nat, filled: seq<Byte>)
    requires Scanning(d, p0, q0, p, buf, offset) && offset < |buf| < 0x8000_0000 && p.pos < Range(p, d)
    requires limit == PlayBytes(d.rs) - p.pos % CycleBytes(d.rs, p0.reverse)
    ensures 0 < m && offset + m <= |buf| == |filled| && PlayedFrom(d, p0, q0, filled, offset + m)
    ensures Reached(d.rs, p0.reverse, q0, offset + m) == p.pos + m
    ensures var jump, after := JumpBytes(d.rs, p0.reverse), p.pos + m;
      var pos := if m == limit then after + jump else after;
      && after <= Range(p, d) && pos < Range(p, d) + 196 * d.rs && pos < 0x1_0000_0000 && after < 0x1_0000_0000
      && DoTurn(p, d, buf, offset, 0 - p.pos as int, limit, jump) ==
           (if after + jump < 0 then Returned(p.(pos := after, status := Completed), filled)
            else Went(p.(pos := pos), filled, offset + m, 0))
      && (after + jump >= 0 ==>
            && pos >= 0 && pos == Orbit(d.rs, p0.reverse, q0, offset + m) && InPlayBlock(d.rs, p0.reverse, pos)
            && (offset + m == |buf| || pos >= Range(p, d) || pos % CycleBytes(d.rs, p0.reverse) == 0))
  {
    SamePlayRange(p0, p, d);
    ScanTurnPlays(p, d, buf, offset, limit);
    m := TurnLength(p, d, |buf| - offset, limit);
    filled := Filled(buf, offset, d.file, p.fileoffset + p.pos, m);
    TurnAmount(p, d, |buf| - offset, limit);
    hide DoTurn, PlayedFrom, Orbit, Reached, InPlayBlock, CycleBytes, PlayBytes, Range, Filled, JumpBytes, TurnLength;
    TurnBytes(d, p0, q0, p, buf, offset, m);
    TurnPosition(d, p0, q0, p, buf, offset, m);
  }

  /** One turn of a scan plays at least a byte of its block, and keeps to the scan. */
  lemma TurnScans(d: Disc, p0: Player, q0: int, p: Player, buf: seq<Byte>, offset: nat, limit: nat)
    requires Scanning(d, p0, q0, p, buf, offset) && offset < |buf| < 0x8000_0000 && p.pos < Range(p, d)
    requires limit == PlayBytes(d.rs) - p.pos % CycleBytes(d.rs, p0.reverse)
    ensures KeepsScan(d, p0, q0, DoTurn(p, d, buf, offset, 0 - p.pos as int, limit, JumpBytes(d.rs, p.reverse)),
                      offset, |buf|)
  {
    hide DoTurn, PlayedFrom, Orbit, Reached, InPlayBlock, CycleBytes, PlayBytes, Range, JumpBytes;
    var m, filled := TurnOutcome(d, p0, q0, p, buf, offset, limit);
    var jump, after := JumpBytes(d.rs, p0.reverse), p.pos + m;
    SamePlayRange(p0, p, d);
    if after + jump < 0 {
      TurnEndsScan(d, p0, q0, p, p.(pos := after, status := Completed), filled, offset + m);
    } else {
      TurnWent(d, p0, q0, p, p.(pos := if m == limit then after + jump else after), filled, offset + m);
    }
  }

  lemma TurnEndsScan(d: Disc, p0: Player, q0: int, p: Player, p': Player, buf: seq<Byte>, m: nat)
    requires d.rs > 0 && SamePlay(p0, p) && p' == p.(pos := p'.pos, status := Completed)
    requires PlayedFrom(d, p0, q0, buf, m) && p'.pos + JumpBytes(d.rs, p0.reverse) < 0
    requires p'.pos == Reached(d.rs, p0.reverse, q0, m)
    ensures ScanEnded(d, p0, q0, p', buf, m)
  {
    hide PlayedFrom, JumpBytes, Reached;
  }

  lemma TurnWent(d: Disc, p0: Player, q0: int, p: Player, p': Player, buf: seq<Byte>, offset: nat)
    requires ScanFits(p, d) && SamePlay(p0, p) && p.status == Playing && p' == p.(pos := p'.pos)
    requires p'.pos < Range(p, d) + 196 * d.rs
    requires PlayedFrom(d, p0, q0, buf, offset)
    requires p'.pos == Orbit(d.rs, p0.reverse, q0, offset) && InPlayBlock(d.rs, p0.reverse, p'.pos)
    ensures Scanning(d, p0, q0, p', buf, offset) && ScanReady(p', d) && Range(p', d) == Range(p, d)
  {
    hide PlayedFrom, Orbit, InPlayBlock;
    SamePlayRange(p, p', d);
  }

  // ---------- What the fill loop relies on ----------

  /** Once the pregap is behind, it makes no difference how far behind it is. */
  lemma PregapBehind(p: Player, d: Disc, buf: seq<Byte>, offset: nat, r: int, r': int, limit: int, jump: int)
    requires d.rs > 0 && offset <= |buf| && (limit == -1 || limit > 0) && r <= 0 && r' <= 0 && |buf| > 0
    ensures DoTurn(p, d, buf, offset, r, limit, jump) == DoTurn(p, d, buf, offset, r', limit, jump)
  {
    hide AtEnd, ReadOn;
  }
}
