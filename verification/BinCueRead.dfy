/**
  Reading the data track of a raw CD image: each raw sector holds a header, the sector's cooked
  bytes, and error correction.
 */
module BinCueRead {
  import opened Arithmetic
  import opened Bytes

  /** The sizes a cue sheet's mode sets. */
  datatype Sizes = Sizes(raw: nat, cooked: nat, header: nat)
  {
    predicate Valid() {
      0 < cooked && header + cooked <= raw
    }
  }

  /** Where cooked byte `x` of the disc is in the image. */
  function RawPosition(z: Sizes, x: nat): (at: nat)
    requires z.Valid()
  {
    x / z.cooked * z.raw + z.header + x % z.cooked
  }

  /** Whether the image holds the whole raw sector that cooked byte `x` is in. */
  predicate SectorPresent(z: Sizes, bin: seq<Byte>, x: nat)
    requires z.Valid()
  {
    (x / z.cooked + 1) * z.raw <= |bin|
  }

  /** Sectors are present up to some point. */
  lemma PresentUpTo(z: Sizes, bin: seq<Byte>, x: nat, y: nat)
    requires z.Valid() && SectorPresent(z, bin, y) && x <= y
    ensures SectorPresent(z, bin, x)
  {
    QuotientMonotone(x, y, z.cooked);
    ProductMonotone(x / z.cooked + 1, y / z.cooked + 1, z.raw);
  }

  /** Places inside one sector. */
  lemma SameSector(z: Sizes, x: nat, k: nat)
    requires z.Valid() && x % z.cooked + k < z.cooked
    ensures (x + k) / z.cooked == x / z.cooked && (x + k) % z.cooked == x % z.cooked + k
  {
    var s, r := x / z.cooked, x % z.cooked;
    assert x + k == s * z.cooked + (r + k);
    DivisionUnique(z.cooked, s, r + k, x + k);
  }

  lemma NextSector(z: Sizes, x: nat)
    requires z.Valid()
    ensures var rest := z.cooked - x % z.cooked;
      (x + rest) / z.cooked == x / z.cooked + 1 && (x + rest) % z.cooked == 0
  {
    var s, r := x / z.cooked, x % z.cooked;
    assert x + (z.cooked - r) == (s + 1) * z.cooked + 0 by {
      assert (s + 1) * z.cooked == s * z.cooked + z.cooked;
    }
    DivisionUnique(z.cooked, s + 1, 0, x + (z.cooked - r));
  }

  /** `b` is the cooked byte at `x`. */
  predicate IsCookedByte(z: Sizes, bin: seq<Byte>, x: nat, b: Byte)
    requires z.Valid()
  {
    RawPosition(z, x) < |bin| && b == bin[RawPosition(z, x)]
  }

  /** The cooked bytes from `offset` on. */
  ghost predicate Cooked(z: Sizes, bin: seq<Byte>, offset: nat, buf: seq<Byte>)
    requires z.Valid()
  {
    forall k :: 0 <= k < |buf| ==> IsCookedByte(z, bin, offset + k, buf[k])
  }

  /**
    Reads `length` cooked bytes from `offset`, one raw sector at a time, and stops early only at a
    sector that the image does not hold in full.
   */
  method ReadBincue(z: Sizes, bin: seq<Byte>, offset: nat, length: nat) returns (buf: seq<Byte>)
    requires z.Valid()
    ensures |buf| <= length && Cooked(z, bin, offset, buf)
    ensures |buf| < length ==> !SectorPresent(z, bin, offset + |buf|)
    ensures |buf| == length <==> (length == 0 || SectorPresent(z, bin, offset + length - 1))
  {
    hide RawPosition, SectorPresent, Cooked, AtSector;
    buf := [];
    NothingCooked(z, bin, offset);
    var sec: nat, secoff: nat := offset / z.cooked * z.raw, offset % z.cooked;
    StartAt(z, offset, sec, secoff);
    var left := length;
    while left > 0
      invariant |buf| + left == length && left >= 0
      invariant Cooked(z, bin, offset, buf)
      invariant left > 0 ==> AtSector(z, offset + |buf|, sec, secoff)
      invariant 0 < length && left == 0 ==> SectorPresent(z, bin, offset + length - 1)
    {
      ghost var here := offset + |buf|;
      SectorIsPresent(z, bin, here, sec, secoff);

      // up to the end of the sector, or all that is wanted
      var available := z.cooked - secoff;
      available := if available > left then left else available;

      if sec + z.raw > |bin| {
        if SectorPresent(z, bin, offset + length - 1) { PresentUpTo(z, bin, here, offset + length - 1); }
        return;
      }
      CookedMore(z, bin, offset, buf, sec, secoff, available);
      LastPresent(z, bin, here, sec, secoff, available);
      if available < left { NextSectorAt(z, here, sec, secoff); }
      buf := buf + bin[sec + z.header + secoff..sec + z.header + secoff + available];
      secoff := 0;
      sec := sec + z.raw;
      left := left - available;
    }
  }

  /** The reader is at cooked byte `x`: `sec` is its sector's place, `secoff` its place in there. */
  ghost predicate AtSector(z: Sizes, x: nat, sec: nat, secoff: nat)
    requires z.Valid()
  {
    sec == x / z.cooked * z.raw && secoff == x % z.cooked
  }

  lemma StartAt(z: Sizes, x: nat, sec: nat, secoff: nat)
    requires z.Valid() && sec == x / z.cooked * z.raw && secoff == x % z.cooked
    ensures AtSector(z, x, sec, secoff)
  {
  }

  lemma NothingCooked(z: Sizes, bin: seq<Byte>, offset: nat)
    requires z.Valid()
    ensures Cooked(z, bin, offset, [])
  {
  }

  lemma SectorIsPresent(z: Sizes, bin: seq<Byte>, x: nat, sec: nat, secoff: nat)
    requires z.Valid() && AtSector(z, x, sec, secoff)
    ensures SectorPresent(z, bin, x) <==> sec + z.raw <= |bin|
    ensures secoff < z.cooked
  {
    assert (x / z.cooked + 1) * z.raw == x / z.cooked * z.raw + z.raw;
  }

  lemma ByteAt(z: Sizes, x: nat, sec: nat, secoff: nat, k: nat)
    requires z.Valid() && AtSector(z, x, sec, secoff) && secoff + k < z.cooked
    ensures RawPosition(z, x + k) == sec + z.header + secoff + k
  {
    SameSector(z, x, k);
  }

  lemma CookedMore(z: Sizes, bin: seq<Byte>, offset: nat, buf: seq<Byte>, sec: nat, secoff: nat, n: nat)
    requires z.Valid() && Cooked(z, bin, offset, buf) && AtSector(z, offset + |buf|, sec, secoff)
    requires secoff + n <= z.cooked && sec + z.raw <= |bin|
    ensures Cooked(z, bin, offset, buf + bin[sec + z.header + secoff..sec + z.header + secoff + n])
  {
    hide RawPosition, AtSector;
    var longer := buf + bin[sec + z.header + secoff..sec + z.header + secoff + n];
    forall k | 0 <= k < |longer|
      ensures IsCookedByte(z, bin, offset + k, longer[k])
    {
      if k >= |buf| {
        var k' := k - |buf|;
        ByteAt(z, offset + |buf|, sec, secoff, k');
        assert offset + |buf| + k' == offset + k;
        assert longer[k] == bin[sec + z.header + secoff + k'];
      } else {
        assert longer[k] == buf[k];
      }
    }
  }

  lemma NextSectorAt(z: Sizes, x: nat, sec: nat, secoff: nat)
    requires z.Valid() && AtSector(z, x, sec, secoff)
    ensures secoff < z.cooked && AtSector(z, x + (z.cooked - secoff), sec + z.raw, 0)
  {
    NextSector(z, x);
    assert (x / z.cooked + 1) * z.raw == x / z.cooked * z.raw + z.raw;
  }

  lemma LastPresent(z: Sizes, bin: seq<Byte>, x: nat, sec: nat, secoff: nat, n: nat)
    requires z.Valid() && AtSector(z, x, sec, secoff) && 0 < n && secoff + n <= z.cooked && SectorPresent(z, bin, x)
    ensures SectorPresent(z, bin, x + n - 1)
  {
    SameSector(z, x, n - 1);
  }
}
