/**
  The A-trap table in a Mac ROM: 1024 toolbox traps, then 1024 OS traps, as a variable-length
  delta code.
 */
module TrapTable {
  import opened Options
  import opened Bytes

  const TOOLBOX := 0xa800
  const OS := 0xa000
  const TRAPS := 0x400

  // ---------- The code's view: bytes ----------

  /** One table entry read at `at`: the offset after it, whether the trap is unimplemented, and
      where the next entry starts. */
  datatype Reading =
    | OffEnd
    | ZeroDelta
    | Read(ofs: Word32, unimplemented: bool, next: nat)

  /** A 16-bit value as C's `int16` holds it. */
  function I16(x: int): (i: int)
    ensures -0x8000 <= i < 0x8000
  {
    var u := x % 0x1_0000;
    if u < 0x8000 then u else u - 0x1_0000
  }

  function BigEndian(a: Byte, b: Byte, c: Byte, d: Byte): (w: Word32) {
    (a as int * 0x100 + b) * 0x1_0000 + (c as int * 0x100 + d)
  }

  function ReadEntry(rom: seq<Byte>, at: nat, ofs: Word32): (r: Reading)
    ensures r.Read? ==> at < r.next <= |rom|
  {
    if at >= |rom| then OffEnd
    else
      var b: int := rom[at];
      if b == 0x80 then Read(ofs, true, at + 1)
      else if b == 0xff then
        if at + 5 > |rom| then OffEnd
        else
          Read(BigEndian(rom[at + 1], rom[at + 2], rom[at + 3], rom[at + 4]), false, at + 5)
      else if b >= 0x80 then
        // The code tests for a zero delta here too, but 0x80 was dealt with above.
        Read(U32(ofs + (b - 0x80) * 2), false, at + 1)
      else if at + 2 > |rom| then OffEnd
      else
        var add := I16((b * 0x100 + rom[at + 1] as int) * 2);
        if add == 0 then ZeroDelta else Read(U32(ofs + add), false, at + 2)
  }

  /** The trap the search has reached after `i` entries. */
  function TrapNumber(i: nat): (trap: int) {
    if i < TRAPS then TOOLBOX + i else OS + i % TRAPS
  }

  /** What the search finds for a trap from entry `i` on; nothing if the ROM ends first. */
  function Search(rom: seq<Byte>, at: nat, ofs: Word32, i: nat, trap: int): (r: Option<Word32>)
    decreases |rom| - at
  {
    match ReadEntry(rom, at, ofs)
    case OffEnd => None
    case ZeroDelta => Some(0)
    case Read(ofs', unimplemented, next) =>
      if TrapNumber(i) == trap then Some(if unimplemented then 0 else ofs')
      else Search(rom, next, ofs', i + 1, trap)
  }

  predicate IsTrap(trap: int) {
    TOOLBOX <= trap < TOOLBOX + TRAPS || OS <= trap < OS + TRAPS
  }

  /** `rom` is the ROM from the table on. */
  method FindRomTrap(rom: seq<Byte>, trap: Word16) returns (r: Word32)
    requires IsTrap(trap)
    requires Search(rom, 0, 0, 0, trap).Some?
    ensures Search(rom, 0, 0, 0, trap) == Some(r)
  {
    hide I16, U32;
    var bp: nat, romTrap: int, ofs: Word32 := 0, TOOLBOX, 0;
    ghost var result, n: nat := Search(rom, 0, 0, 0, trap), 0;
    while true
      invariant if n == 0 then romTrap == TOOLBOX else n == TRAPS && romTrap == OS && OS <= trap < OS + TRAPS
      invariant result == Search(rom, bp, ofs, n, trap)
      decreases 2 * TRAPS - n
    {
      ghost var first := n;
      for i := 0 to TRAPS
        invariant n == first + i
        invariant romTrap == TrapNumber(first) + i
        invariant result == Search(rom, bp, ofs, n, trap)
        invariant first == 0 && trap < TOOLBOX + i ==> OS <= trap < OS + TRAPS
        invariant first == TRAPS ==> OS + i <= trap < OS + TRAPS
      {
        assert romTrap == TrapNumber(n);
        ghost var reading := ReadEntry(rom, bp, ofs);
        assert !reading.OffEnd?;
        var unimplemented := false;
        var b: int := rom[bp];
        bp := bp + 1;
        if b == 0x80 {
          unimplemented := true;
        } else if b == 0xff {
          ofs := BigEndian(rom[bp], rom[bp + 1], rom[bp + 2], rom[bp + 3]);
          bp := bp + 4;
        } else if b >= 0x80 {
          var add: int := (b - 0x80) * 2;
          ofs := U32(ofs + add);
        } else {
          var add: int := I16((b * 0x100 + rom[bp] as int) * 2);
          bp := bp + 1;
          if add == 0 { return 0; }
          ofs := U32(ofs + add);
        }
        assert reading == Read(ofs, unimplemented, bp);
        if romTrap == trap {
          return if unimplemented then 0 else ofs;
        }
        romTrap := romTrap + 1;
        n := n + 1;
      }
      romTrap := OS;
    }
  }

  // ---------- The table's view: entries ----------

  datatype Entry =
    | Unimplemented
    | Absolute(ofs: Word32)
    | Short(delta: int)
    | Long(delta: int)
  {
    predicate Valid() {
      match this
      case Unimplemented => true
      case Absolute(_) => true
      case Short(delta) => 2 <= delta <= 252 && delta % 2 == 0
      case Long(delta) => -0x8000 <= delta < 0x8000 && delta % 2 == 0 && delta != 0
    }

    /** The running offset after this entry. */
    function After(ofs: Word32): (r: Word32) {
      match this
      case Unimplemented => ofs
      case Absolute(o) => o
      case Short(delta) => U32(ofs + delta)
      case Long(delta) => U32(ofs + delta)
    }
  }

  predicate AllValid(table: seq<Entry>) {
    forall i :: 0 <= i < |table| ==> table[i].Valid()
  }

  /** The running offset after the first `i` entries. */
  function OffsetAfter(table: seq<Entry>, i: nat): (r: Word32)
    requires i <= |table|
    decreases i
  {
    if i == 0 then 0 else table[i - 1].After(OffsetAfter(table, i - 1))
  }

  /** What the table says about trap number `i` in table order. */
  function Tabled(table: seq<Entry>, i: nat): (r: Word32)
    requires i < |table|
  {
    if table[i].Unimplemented? then 0 else OffsetAfter(table, i + 1)
  }

  function EncodeEntry(e: Entry): (bytes: seq<Byte>)
    requires e.Valid()
  {
    match e
    case Unimplemented => [0x80]
    case Absolute(o) => var high, low := o / 0x1_0000, o % 0x1_0000;
      [0xff, high / 0x100, high % 0x100, low / 0x100, low % 0x100]
    case Short(delta) => [0x80 + delta / 2]
    case Long(delta) =>
      var v := (delta / 2) % 0x8000;
      [v / 0x100, v % 0x100]
  }

  function Encode(table: seq<Entry>): (bytes: seq<Byte>)
    requires AllValid(table)
    decreases |table|
  {
    if table == [] then [] else Encode(table[..|table| - 1]) + EncodeEntry(table[|table| - 1])
  }

  lemma BigEndianReadsBack(o: Word32)
    ensures var high, low := o / 0x1_0000, o % 0x1_0000;
      BigEndian(high / 0x100, high % 0x100, low / 0x100, low % 0x100) == o
  {
  }

  /** Reading an encoded entry gives the entry's effect, wherever it stands. */
  lemma EntryReadsBack(before: seq<Byte>, e: Entry, rest: seq<Byte>, ofs: Word32)
    requires e.Valid()
    ensures ReadEntry(before + EncodeEntry(e) + rest, |before|, ofs)
         == Read(e.After(ofs), e.Unimplemented?, |before| + |EncodeEntry(e)|)
  {
    hide U32, BigEndian, I16;
    var rom, at, bytes := before + EncodeEntry(e) + rest, |before|, EncodeEntry(e);
    assert forall j :: 0 <= j < |bytes| ==> rom[at + j] == bytes[j];
    match e
    case Unimplemented =>
      assert rom[at] == 0x80;
    case Absolute(o) =>
      assert rom[at] == 0xff;
      BigEndianReadsBack(o);
      assert rom[at + 1] == bytes[1] && rom[at + 2] == bytes[2] && rom[at + 3] == bytes[3] && rom[at + 4] == bytes[4];
    case Short(delta) =>
      assert rom[at] == 0x80 + delta / 2;
    case Long(delta) =>
      assert rom[at] == bytes[0] && rom[at + 1] == bytes[1];
      DeltaReadsBack(delta);
  }

  lemma DeltaReadsBack(delta: int)
    requires Long(delta).Valid()
    ensures var v := (delta / 2) % 0x8000;
      0 <= v / 0x100 < 0x80 && I16((v / 0x100 * 0x100 + v % 0x100) * 2) == delta
  {
  }

  /** The search steps through the encoded table up to the trap's own entry, and reads it. */
  lemma {:induction false} SearchFrom(table: seq<Entry>, rest: seq<Byte>, i: nat, target: nat)
    requires AllValid(table) && i <= target < |table| && target < 2 * TRAPS
    ensures Search(Encode(table) + rest, |Encode(table[..i])|, OffsetAfter(table, i), i, TrapNumber(target))
         == Some(Tabled(table, target))
    decreases target - i
  {
    hide U32, ReadEntry, EncodeEntry, Encode;
    var rest' := EncodeSplit(table, i, rest);
    EntryReadsBack(Encode(table[..i]), table[i], rest', OffsetAfter(table, i));
    EncodeLonger(table, i);
    if i < target {
      SearchFrom(table, rest, i + 1, target);
    }
  }

  lemma EncodeLonger(table: seq<Entry>, i: nat)
    requires AllValid(table) && i < |table|
    ensures Encode(table[..i + 1]) == Encode(table[..i]) + EncodeEntry(table[i])
  {
    hide EncodeEntry;
    assert table[..i + 1][..i] == table[..i];
  }

  lemma {:induction false} EncodeSplit(table: seq<Entry>, i: nat, rest: seq<Byte>) returns (rest': seq<Byte>)
    requires AllValid(table) && i < |table|
    ensures Encode(table) + rest == Encode(table[..i]) + EncodeEntry(table[i]) + rest'
    decreases |table| - i
  {
    hide EncodeEntry, Encode;
    if i + 1 == |table| {
      assert table[..i + 1] == table;
      EncodeLonger(table, i);
      rest' := rest;
    } else {
      var r := EncodeSplit(table, i + 1, rest);
      EncodeLonger(table, i);
      rest' := EncodeEntry(table[i + 1]) + r;
      assert Encode(table[..i]) + EncodeEntry(table[i]) + EncodeEntry(table[i + 1]) + r
          == Encode(table[..i]) + EncodeEntry(table[i]) + rest';
    }
  }

  /** Where a trap stands in table order: toolbox traps first, then OS traps. */
  function TableIndex(trap: int): (i: nat)
    requires IsTrap(trap)
    ensures i < 2 * TRAPS && TrapNumber(i) == trap
  {
    if trap >= TOOLBOX then trap - TOOLBOX else TRAPS + trap - OS
  }

  /** For every table the search returns the tabled offset of every trap, and 0 for the
      unimplemented ones. */
  lemma SearchFindsTabled(table: seq<Entry>, rest: seq<Byte>, trap: int)
    requires AllValid(table) && |table| == 2 * TRAPS && IsTrap(trap)
    ensures Search(Encode(table) + rest, 0, 0, 0, trap) == Some(Tabled(table, TableIndex(trap)))
  {
    hide Search;
    assert table[..0] == [];
    SearchFrom(table, rest, 0, TableIndex(trap));
  }

  // ---------- Any assignment of offsets can be tabled ----------

  /** The shortest entry that takes the running offset from `ofs` to `goal`. */
  function Shortest(ofs: Word32, goal: Option<Word32>): (e: Entry)
    ensures e.Valid()
    ensures goal.Some? ==> !e.Unimplemented? && e.After(ofs) == goal.value
    ensures goal.None? ==> e.Unimplemented?
  {
    match goal
    case None => Unimplemented
    case Some(o) =>
      var delta := o - ofs;
      if 2 <= delta <= 252 && delta % 2 == 0 then Short(delta)
      else if -0x8000 <= delta < 0x8000 && delta % 2 == 0 && delta != 0 then Long(delta)
      else Absolute(o)
  }

  /** A table for any offsets, missing ones unimplemented. */
  function Assemble(offsets: seq<Option<Word32>>): (table: seq<Entry>)
    ensures |table| == |offsets|
    decreases |offsets|
  {
    if offsets == [] then []
    else
      var n := |offsets| - 1;
      var front := Assemble(offsets[..n]);
      front + [Shortest(OffsetAfter(front, n), offsets[n])]
  }

  lemma {:induction false} OffsetAfterPrefix(table: seq<Entry>, longer: seq<Entry>, i: nat)
    requires table <= longer && i <= |table|
    ensures OffsetAfter(longer, i) == OffsetAfter(table, i)
    decreases i
  {
    if i > 0 { OffsetAfterPrefix(table, longer, i - 1); }
  }

  lemma {:induction false} AssembleIsRight(offsets: seq<Option<Word32>>, i: nat)
    requires i < |offsets|
    ensures AllValid(Assemble(offsets))
    ensures Tabled(Assemble(offsets), i) == match offsets[i] case None => 0 case Some(o) => o
    decreases |offsets|
  {
    hide Shortest;
    var n := |offsets| - 1;
    var front, table := Assemble(offsets[..n]), Assemble(offsets);
    assert front <= table;
    OffsetAfterPrefix(front, table, n);
    if n > 0 {
      AssembleIsRight(offsets[..n], if i < n then i else 0);
    }
    if i < n {
      OffsetAfterPrefix(front, table, i + 1);
    }
    assert forall j :: 0 <= j < n ==> table[j] == front[j];
  }

  /** The round trip: tabling any 2048 offsets and searching gives each of them back. */
  lemma RoundTrip(offsets: seq<Option<Word32>>, rest: seq<Byte>, trap: int)
    requires |offsets| == 2 * TRAPS && IsTrap(trap)
    ensures AllValid(Assemble(offsets))
    ensures Search(Encode(Assemble(offsets)) + rest, 0, 0, 0, trap)
         == Some(match offsets[TableIndex(trap)] case None => 0 case Some(o) => o)
  {
    hide Search, Assemble, Encode, Tabled;
    AssembleIsRight(offsets, TableIndex(trap));
    SearchFindsTabled(Assemble(offsets), rest, trap);
  }

  // ---------- The format, by example ----------

  /** The first traps of a table: a one-byte delta of words, an unimplemented trap, an absolute offset, and a
      two-byte delta of words, back. */
  lemma Example()
    ensures var rom: seq<Byte> := [0x90, 0x80, 0xff, 0x00, 0x01, 0x02, 0x03, 0x7f, 0xff, 0x81];
      && Search(rom, 0, 0, 0, 0xa800) == Some(0x20) && Search(rom, 0, 0, 0, 0xa801) == Some(0)
      && Search(rom, 0, 0, 0, 0xa802) == Some(0x10203) && Search(rom, 0, 0, 0, 0xa803) == Some(0x10201)
      && Search(rom, 0, 0, 0, 0xa804) == Some(0x10203) && Search(rom, 0, 0, 0, 0xa805) == None
  {
    var rom: seq<Byte> := [0x90, 0x80, 0xff, 0x00, 0x01, 0x02, 0x03, 0x7f, 0xff, 0x81];
    ExampleEntries(rom);
    hide ReadEntry;
    ExampleSearch(rom, 0xa800);
    ExampleSearch(rom, 0xa801);
    ExampleSearch(rom, 0xa802);
    ExampleSearch(rom, 0xa803);
    ExampleSearch(rom, 0xa804);
    ExampleSearch(rom, 0xa805);
  }

  lemma ExampleEntries(rom: seq<Byte>)
    requires rom == [0x90, 0x80, 0xff, 0x00, 0x01, 0x02, 0x03, 0x7f, 0xff, 0x81]
    ensures ReadEntry(rom, 0, 0) == Read(0x20, false, 1) && ReadEntry(rom, 1, 0x20) == Read(0x20, true, 2)
    ensures ReadEntry(rom, 2, 0x20) == Read(0x10203, false, 7) && ReadEntry(rom, 7, 0x10203) == Read(0x10201, false, 9)
    ensures ReadEntry(rom, 9, 0x10201) == Read(0x10203, false, 10) && ReadEntry(rom, 10, 0x10203) == OffEnd
  {
  }

  lemma ExampleSearch(rom: seq<Byte>, trap: int)
    requires ReadEntry(rom, 0, 0) == Read(0x20, false, 1) && ReadEntry(rom, 1, 0x20) == Read(0x20, true, 2)
    requires ReadEntry(rom, 2, 0x20) == Read(0x10203, false, 7) && ReadEntry(rom, 7, 0x10203) == Read(0x10201, false, 9)
    requires ReadEntry(rom, 9, 0x10201) == Read(0x10203, false, 10) && ReadEntry(rom, 10, 0x10203) == OffEnd
    ensures Search(rom, 0, 0, 0, trap) ==
      if trap == 0xa800 then Some(0x20)
      else if trap == 0xa801 then Some(0)
      else if trap == 0xa802 then Some(0x10203)
      else if trap == 0xa803 then Some(0x10201)
      else if trap == 0xa804 then Some(0x10203)
      else None
  {
    hide ReadEntry;
    assert Search(rom, 10, 0x10203, 5, trap) == None;
    assert Search(rom, 9, 0x10201, 4, trap) == if trap == 0xa804 then Some(0x10203) else None;
    assert Search(rom, 7, 0x10203, 3, trap)
        == if trap == 0xa803 then Some(0x10201) else Search(rom, 9, 0x10201, 4, trap);
    assert Search(rom, 2, 0x20, 2, trap) == if trap == 0xa802 then Some(0x10203) else Search(rom, 7, 0x10203, 3, trap);
    assert Search(rom, 1, 0x20, 1, trap) == if trap == 0xa801 then Some(0) else Search(rom, 2, 0x20, 2, trap);
  }

  /** The table begins with the Toolbox traps, and goes on with those of the operating system. */
  lemma TrapsInOrder(i: nat)
    requires i < 2 * TRAPS
    ensures TrapNumber(i) == if i < 0x400 then 0xa800 + i else 0xa000 + (i - 0x400)
  {
  }
}
