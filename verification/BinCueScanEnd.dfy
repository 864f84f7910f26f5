/**
  Whether the fill loop of a scan ends when the scan has come to where the file has ended. Nothing is
  read there, so that only jumps can get the loop on.
 */
module BinCueScanEnd {
  import opened Arithmetic
  import opened Bytes
  import opened BinCuePlay
  import opened BinCueScan

  // ---------- The loop ----------

  /** The loop ends within so many turns: with `full` as the limit of each turn after the first. */
  predicate LoopEnds(p: Player, d: Disc, buf: seq<Byte>, offset: nat, remaining: int, limit: nat, full: nat, turns: nat)
    requires d.rs > 0 && offset <= |buf| && remaining <= 0 && limit > 0 && full > 0
    decreases turns
  {
    turns > 0 &&
    match DoTurn(p, d, buf, offset, remaining, limit, JumpBytes(d.rs, p.reverse))
    case Returned(_, _) => true
    case SeekFailed(_) => true
    case Went(p', buf', offset', _) =>
      || offset' >= |buf'|
      || (offset' >= 0 && p'.reverse == p.reverse && LoopEnds(p', d, buf', offset', remaining, full, full, turns - 1))
  }

  // ---------- The loop in numbers ----------

  /** What does not change: the range's end, the file's end, the jump and the whole block. */
  datatype Scan = Scan(range: int, fileEnd: int, jump: int, block: nat)

  /** The position, the room left in the buffer, and the limit of the next turn. */
  datatype Place = Done | At(pos: int, room: int, limit: int)

  function Clip(x: int, m: int): (r: int) {
    if x < 0 then 0 else if x < m then x else m
  }

  function Turned(s: Scan, a: Place): (b: Place)
    requires a.At?
  {
    if a.pos >= s.range then Done
    else
      var left := s.range - a.pos;
      var wanted := if left > a.room then a.room else left;
      var m := if wanted >= a.limit then a.limit else wanted;
      var ret := Clip(s.fileEnd - a.pos, m);
      var after := a.pos + ret;
      if after + s.jump < 0 || ret >= a.room then Done
      else At(if m == a.limit then after + s.jump else after, a.room - ret, s.block)
  }

  predicate Ends(s: Scan, a: Place, turns: nat)
    decreases turns
  {
    a.Done? || (turns > 0 && Ends(s, Turned(s, a), turns - 1))
  }

  ghost predicate EndsSometime(s: Scan, a: Place) {
    exists turns: nat :: Ends(s, a, turns)
  }

  lemma OneTurn(s: Scan, a: Place)
    requires a.At?
    ensures EndsSometime(s, a) <==> EndsSometime(s, Turned(s, a))
  {
    if turns: nat :| Ends(s, a, turns) { assert Ends(s, Turned(s, a), turns - 1); }
    if turns: nat :| Ends(s, Turned(s, a), turns) { assert Ends(s, a, turns + 1); }
  }

  lemma EndsNow(s: Scan)
    ensures EndsSometime(s, Done)
  {
    assert Ends(s, Done, 0);
  }

  /** A turn that leaves things as they are is followed by the same turn for ever. */
  lemma {:induction false} Sticks(s: Scan, a: Place, turns: nat)
    requires a.At? && Turned(s, a) == a
    ensures !Ends(s, a, turns)
    decreases turns
  {
    if turns > 0 { Sticks(s, a, turns - 1); }
  }

  lemma Stuck(s: Scan, a: Place)
    requires a.At? && Turned(s, a) == a
    ensures !EndsSometime(s, a)
  {
    forall turns: nat
      ensures !Ends(s, a, turns)
    {
      Sticks(s, a, turns);
    }
  }

  // ---------- When it ends ----------

  /** A jump is longer than a block, and forward or back. */
  predicate Proper(s: Scan) {
    0 < s.block && (s.jump >= s.block || -s.jump >= s.block)
  }

  /** The first turn reaches its limit, so that it jumps. */
  predicate Hits(s: Scan, a: Place)
    requires a.At?
  {
    a.room >= a.limit && s.range - a.pos >= a.limit
  }

  /** The loop ends from a place where the file has ended. */
  predicate Finishes(s: Scan, a: Place)
    requires a.At? && Proper(s)
  {
    || a.pos >= s.range
    || a.pos + s.jump < 0
    || (Hits(s, a) &&
        if s.jump > 0 then FinishesForward(s, a.pos + s.jump, a.room) else FinishesBack(s, a.pos + s.jump, a.room))
  }

  /** Whole jumps lead to the range's end, or to a last whole block before it. */
  predicate FinishesForward(s: Scan, pos: int, room: int)
    requires s.jump > 0
  {
    || pos >= s.range
    || (room >= s.block && ((s.range - pos) % s.jump == 0 || (s.range - pos) % s.jump >= s.block))
  }

  /** With room for a block, jumps lead back into the file or to its start. With less room there is only the
      turn after the first jump: it must fill the buffer, or find no room to jump back. */
  predicate FinishesBack(s: Scan, pos: int, room: int) {
    || room >= s.block
    || (if pos >= s.fileEnd then pos + s.jump < 0 else s.fileEnd - pos >= room || s.fileEnd + s.jump < 0)
  }

  lemma {:induction false} EndsForward(s: Scan, pos: int, room: int)
    requires Proper(s) && s.jump > 0 && pos >= 0 && pos >= s.fileEnd && room > 0
    ensures EndsSometime(s, At(pos, room, s.block)) <==> FinishesForward(s, pos, room)
    decreases s.range - pos
  {
    var a := At(pos, room, s.block);
    OneTurn(s, a);
    EndsNow(s);
    if pos < s.range {
      if room >= s.block && s.range - pos >= s.block {
        EndsForward(s, pos + s.jump, room);
        RemainderAfterJump(s.range - pos, s.jump, s.block);
      } else {
        Stuck(s, a);
        if s.range - pos < s.block { SmallRemainder(s.range - pos, s.jump); }
      }
    }
  }

  lemma SmallRemainder(x: nat, m: nat)
    requires 0 < x < m
    ensures x % m == x
  {
  }

  lemma RemainderAfterJump(x: nat, m: nat, block: nat)
    requires 0 < block <= m && block <= x
    ensures x > m ==> (x - m) % m == x % m
    ensures x <= m ==> x % m == 0 || x % m >= block
  {
    if x > m {
      DivisionUnique(m, x / m, x % m, x);
      QuotientMonotone(m, x, m);
      DivisionUnique(m, 1, 0, m);
      assert (x / m - 1) * m == x / m * m - m;
      DivisionUnique(m, x / m - 1, x % m, x - m);
    } else if x < m {
      SmallRemainder(x, m);
    } else {
      DivisionUnique(m, 1, 0, m);
    }
  }

  /** Inside the file, a jump or more before its end: each turn fills a block, or all there is room for. */
  lemma {:induction false} EndsInFile(s: Scan, pos: int, room: int)
    requires Proper(s) && s.jump < 0 && room > 0 && s.fileEnd - pos >= -s.jump && s.range - pos >= -s.jump
    ensures EndsSometime(s, At(pos, room, s.block))
    decreases room
  {
    var a := At(pos, room, s.block);
    OneTurn(s, a);
    EndsNow(s);
    if Turned(s, a).At? { EndsInFile(s, pos + s.block + s.jump, room - s.block); }
  }

  /** With room for a block, jumping back ends. */
  lemma {:induction false} EndsBack(s: Scan, pos: int, room: int)
    requires Proper(s) && s.jump < 0 && pos >= 0 && room >= s.block && s.range - pos >= -s.jump
    ensures EndsSometime(s, At(pos, room, s.block))
    decreases pos
  {
    var a := At(pos, room, s.block);
    OneTurn(s, a);
    EndsNow(s);
    if Turned(s, a).At? {
      if pos >= s.fileEnd {
        EndsBack(s, pos + s.jump, room);
      } else {
        var ret := Clip(s.fileEnd - pos, s.block);
        EndsInFile(s, pos + ret + s.jump, room - ret);
      }
    }
  }

  /** The turn after a jump back, with room for less than a block. */
  lemma EndsAfterOneJump(s: Scan, pos: int, room: int)
    requires Proper(s) && s.jump < 0 && pos >= 0 && 0 < room < s.block && s.range - pos >= -s.jump
    requires s.fileEnd <= pos - s.jump
    ensures EndsSometime(s, At(pos, room, s.block)) <==> FinishesBack(s, pos, room)
  {
    var a := At(pos, room, s.block);
    OneTurn(s, a);
    EndsNow(s);
    if pos >= s.fileEnd {
      if pos + s.jump >= 0 { Stuck(s, a); }
    } else if s.fileEnd - pos < room && s.fileEnd + s.jump >= 0 {
      Stuck(s, At(s.fileEnd, room - (s.fileEnd - pos), s.block));
    }
  }

  /** From a place where the file has ended the loop ends if and only if these numbers say so. */
  lemma EndsIffFinishes(s: Scan, a: Place)
    requires Proper(s) && a.At? && a.pos >= 0 && a.pos >= s.fileEnd && a.room > 0 && 0 < a.limit <= s.block
    ensures EndsSometime(s, a) <==> Finishes(s, a)
  {
    OneTurn(s, a);
    EndsNow(s);
    if a.pos < s.range && a.pos + s.jump >= 0 {
      var pos := a.pos + s.jump;
      if !Hits(s, a) {
        Stuck(s, At(a.pos, a.room, s.block));
      } else if s.jump > 0 {
        EndsForward(s, pos, a.room);
      } else if a.room >= s.block {
        EndsBack(s, pos, a.room);
      } else {
        EndsAfterOneJump(s, pos, a.room);
      }
    }
  }

  // ---------- The loop is what the numbers say ----------

  function ScanOf(p: Player, d: Disc): (s: Scan) {
    Scan(Range(p, d), |d.file| - p.fileoffset, JumpBytes(d.rs, p.reverse), PlayBytes(d.rs))
  }

  lemma TurnIsTurned(p: Player, d: Disc, buf: seq<Byte>, offset: nat, remaining: int, limit: nat)
    requires ScanRange(p, d) && offset < |buf| < 0x8000_0000 && remaining <= 0 && limit > 0
    ensures var t := DoTurn(p, d, buf, offset, remaining, limit, JumpBytes(d.rs, p.reverse));
      match Turned(ScanOf(p, d), At(p.pos, |buf| - offset, limit))
      case Done => t.Returned? || (t.Went? && t.offset >= |t.buf|)
      case At(pos, room, block) =>
        && t.Went? && t.p == p.(pos := t.p.pos) && t.p.pos == pos && |t.buf| == |buf| && block == PlayBytes(d.rs)
        && offset <= t.offset < |buf| && room == |buf| - t.offset && ScanRange(t.p, d) && Range(t.p, d) == Range(p, d)
  {
    hide DoTurn, Range, JumpBytes, Filled;
    PregapBehind(p, d, buf, offset, remaining, 0 - p.pos as int, limit, JumpBytes(d.rs, p.reverse));
    if p.pos >= Range(p, d) {
      ScanTurnEnds(p, d, buf, offset, limit);
    } else {
      ScanTurnReads(p, d, buf, offset, limit);
      ReadIsClipped(d.file, p.fileoffset, p.pos, TurnLength(p, d, |buf| - offset, limit));
      hide ReadCount;
      JumpIsShort(d.rs, p.reverse);
      RangeStays(p, d);
    }
  }

  lemma ReadIsClipped(file: seq<Byte>, fileoffset: nat, pos: nat, m: nat)
    ensures ReadCount(file, fileoffset + pos, m) == Clip(|file| - fileoffset - pos, m)
  {
  }

  lemma JumpIsShort(rs: nat, reverse: bool)
    requires rs > 0
    ensures JumpBytes(rs, reverse) <= 190 * rs
    ensures 0 < PlayBytes(rs) && (JumpBytes(rs, reverse) >= PlayBytes(rs) || -JumpBytes(rs, reverse) >= PlayBytes(rs))
  {
  }

  lemma RangeStays(p: Player, d: Disc)
    ensures forall pos: Word32 :: Range(p.(pos := pos), d) == Range(p, d)
  {
  }

  lemma {:induction false} LoopIsNumbers(p: Player, d: Disc, buf: seq<Byte>, offset: nat, remaining: int, limit: nat,
                                         turns: nat)
    requires ScanRange(p, d) && offset < |buf| < 0x8000_0000 && remaining <= 0 && limit > 0 && PlayBytes(d.rs) > 0
    ensures LoopEnds(p, d, buf, offset, remaining, limit, PlayBytes(d.rs), turns)
       <==> Ends(ScanOf(p, d), At(p.pos, |buf| - offset, limit), turns)
    decreases turns
  {
    assert d.rs > 0;
    hide DoTurn, Turned, ScanRange, Range, JumpBytes, PlayBytes, LoopEnds, Ends;
    var s, a := ScanOf(p, d), At(p.pos, |buf| - offset, limit);
    LoopUnfolds(p, d, buf, offset, remaining, limit, PlayBytes(d.rs), turns);
    EndsUnfolds(s, a, turns);
    if turns > 0 {
      TurnIsTurned(p, d, buf, offset, remaining, limit);
      var t := DoTurn(p, d, buf, offset, remaining, limit, JumpBytes(d.rs, p.reverse));
      if Turned(s, a).At? {
        LoopIsNumbers(t.p, d, t.buf, t.offset, remaining, PlayBytes(d.rs), turns - 1);
        assert ScanOf(t.p, d) == s;
      } else {
        EndsUnfolds(s, Done, turns - 1);
      }
    }
  }

  lemma EndsUnfolds(s: Scan, a: Place, turns: nat)
    ensures Ends(s, a, turns) <==> a.Done? || (turns > 0 && Ends(s, Turned(s, a), turns - 1))
  {
    hide Turned;
  }

  lemma LoopUnfolds(p: Player, d: Disc, buf: seq<Byte>, offset: nat, remaining: int, limit: nat, full: nat, turns: nat)
    requires d.rs > 0 && offset <= |buf| && remaining <= 0 && limit > 0 && full > 0
    ensures var t := DoTurn(p, d, buf, offset, remaining, limit, JumpBytes(d.rs, p.reverse));
      LoopEnds(p, d, buf, offset, remaining, limit, full, turns) <==>
        turns > 0 && (t.Went? && 0 <= t.offset < |t.buf| ==>
          t.p.reverse == p.reverse && LoopEnds(t.p, d, t.buf, t.offset, remaining, full, full, turns - 1))
  {
    hide DoTurn, JumpBytes;
    var t := DoTurn(p, d, buf, offset, remaining, limit, JumpBytes(d.rs, p.reverse));
    if t.Went? { OffsetGrows(p, d, buf, offset, remaining, limit, JumpBytes(d.rs, p.reverse)); }
  }

  lemma OffsetGrows(p: Player, d: Disc, buf: seq<Byte>, offset: nat, remaining: int, limit: nat, jump: int)
    requires d.rs > 0 && offset <= |buf| && remaining <= 0 && limit > 0
    ensures var t := DoTurn(p, d, buf, offset, remaining, limit, jump); t.Went? ==> t.offset >= 0
  {
    hide AtEnd, RangeWord, U32, I32, ReadCount, Filled;
  }

  /** The fill loop of a scan has come to where the file has ended: it ends if and only if the room in the
      buffer, what is left of the range, the jump and the limit say so. */
  lemma LoopEndsIffFinishes(p: Player, d: Disc, buf: seq<Byte>, offset: nat, remaining: int, limit: nat)
    requires ScanRange(p, d) && p.fileoffset + p.pos >= |d.file|
    requires offset < |buf| < 0x8000_0000 && remaining <= 0 && 0 < limit <= PlayBytes(d.rs)
    ensures Proper(ScanOf(p, d))
    ensures (exists turns: nat :: LoopEnds(p, d, buf, offset, remaining, limit, PlayBytes(d.rs), turns))
       <==> Finishes(ScanOf(p, d), At(p.pos, |buf| - offset, limit))
  {
    JumpIsShort(d.rs, p.reverse);
    hide Range, JumpBytes, PlayBytes, Finishes, ScanRange, LoopEnds, Ends;
    var s, a := ScanOf(p, d), At(p.pos, |buf| - offset, limit);
    EndsIffFinishes(s, a);
    if turns: nat :| LoopEnds(p, d, buf, offset, remaining, limit, PlayBytes(d.rs), turns) {
      LoopIsNumbers(p, d, buf, offset, remaining, limit, turns);
    }
    if EndsSometime(s, a) {
      var turns: nat :| Ends(s, a, turns);
      LoopIsNumbers(p, d, buf, offset, remaining, limit, turns);
    }
  }
}
