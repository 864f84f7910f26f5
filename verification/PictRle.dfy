/**
  The run-length encoder of the PICT writer. Rows are packed as PackBits (TIFF 6.0, section 9)
  behind a one- or two-byte length.
 */
module PictRle {
  import opened Options
  import opened Bytes

  // ---------- PackBits ----------

  function Repeat(b: Byte, n: nat): (s: seq<Byte>)
    ensures |s| == n
  {
    seq(n, _ => b)
  }

  /** Unpacks a PackBits stream: a header below 128 announces that many literal bytes plus one, a
      header above 128 a repeated byte, and 128 is skipped. Nothing if the stream ends too soon. */
  function Unpack(p: seq<Byte>): (r: Option<seq<Byte>>)
    decreases |p|
  {
    if p == [] then Some([])
    else if p[0] == 128 then Unpack(p[1..])
    else if p[0] < 128 then
      var n := p[0] as int + 1;
      if |p| < 1 + n then None else Prepend(p[1..1 + n], Unpack(p[1 + n..]))
    else if |p| < 2 then None
    else Prepend(Repeat(p[1], 257 - p[0] as int), Unpack(p[2..]))
  }

  function Prepend(s: seq<Byte>, r: Option<seq<Byte>>): (r': Option<seq<Byte>>) {
    match r
    case None => None
    case Some(t) => Some(s + t)
  }

  /** Streams unpack piece by piece. */
  lemma {:induction false} UnpackAppend(p: seq<Byte>, q: seq<Byte>)
    requires Unpack(p).Some?
    ensures Unpack(p + q) == Prepend(Unpack(p).value, Unpack(q))
    decreases |p|
  {
    hide Unpack, Repeat;
    UnpackOne(p);
    UnpackOne(p + q);
    if p == [] {
      assert p + q == q;
      PrependNothing(Unpack(q));
    } else if p[0] == 128 {
      assert (p + q)[1..] == p[1..] + q;
      UnpackAppend(p[1..], q);
    } else {
      var n := PacketSize(p);
      assert (p + q)[1..n] == p[1..n];
      assert (p + q)[n..] == p[n..] + q;
      UnpackAppend(p[n..], q);
      var front := if p[0] < 128 then p[1..n] else Repeat(p[1], 257 - p[0] as int);
      PrependTwice(front, Unpack(p[n..]).value, Unpack(q));
    }
  }

  /** How many bytes the packet in front takes. */
  function PacketSize(p: seq<Byte>): (n: nat)
    requires p != []
  {
    if p[0] == 128 then 1 else if p[0] < 128 then p[0] as int + 2 else 2
  }

  lemma UnpackOne(p: seq<Byte>)
    ensures p == [] ==> Unpack(p) == Some([])
    ensures p != [] ==>
      var n := PacketSize(p);
      if |p| < n then Unpack(p) == None
      else if p[0] == 128 then Unpack(p) == Unpack(p[1..])
      else if p[0] < 128 then Unpack(p) == Prepend(p[1..n], Unpack(p[n..]))
      else Unpack(p) == Prepend(Repeat(p[1], 257 - p[0] as int), Unpack(p[n..]))
  {
  }

  lemma PrependNothing(r: Option<seq<Byte>>)
    ensures Prepend([], r) == r
  {
    match r
    case None =>
    case Some(t) => assert [] + t == t;
  }

  lemma PrependTwice(a: seq<Byte>, b: seq<Byte>, r: Option<seq<Byte>>)
    ensures Prepend(a, Prepend(b, r)) == Prepend(a + b, r)
  {
    match r
    case None =>
    case Some(t) => assert a + (b + t) == a + b + t;
  }

  /** What a stream of one packet unpacks to. */
  lemma UnpackSingle(q: seq<Byte>, x: seq<Byte>)
    requires q != [] && q[0] != 128 && PacketSize(q) == |q|
    requires x == if q[0] < 128 then q[1..] else Repeat(q[1], 257 - q[0] as int)
    ensures Unpack(q) == Some(x)
  {
    hide Unpack, Repeat;
    UnpackOne(q);
    UnpackOne([]);
    var n := PacketSize(q);
    assert q[n..] == [] && q[1..n] == q[1..];
    assert x + [] == x;
  }

  /** A run packet: `n` times the byte. */
  lemma UnpackRun(p: seq<Byte>, x: seq<Byte>, n: nat, b: Byte)
    requires Unpack(p) == Some(x) && 2 <= n <= 128
    ensures Unpack(p + [257 - n, b]) == Some(x + Repeat(b, n))
  {
    hide Unpack, Repeat;
    var q: seq<Byte> := [257 - n, b];
    UnpackSingle(q, Repeat(b, n));
    UnpackAppend(p, q);
  }

  /** A literal packet. */
  lemma UnpackLiterals(p: seq<Byte>, x: seq<Byte>, data: seq<Byte>)
    requires Unpack(p) == Some(x) && 1 <= |data| <= 128
    ensures Unpack(p + ([|data| - 1] + data)) == Some(x + data)
  {
    hide Unpack, Repeat;
    var q: seq<Byte> := [|data| - 1] + data;
    assert q[1..] == data;
    UnpackSingle(q, data);
    UnpackAppend(p, q);
  }

  // ---------- The encoder ----------

  /** The length prefix takes one byte for short rows, two for long ones. */
  function PrefixSize(n: nat): (k: nat) {
    if n > 250 then 2 else 1
  }

  /** Enough to output the row uncompressed, with its packet headers and its prefix. */
  function MaxSize(n: nat): (size: nat) {
    PrefixSize(n) + n + (n + 126) / 127
  }

  /** The first bytes of `out` are the length of the payload that follows them. */
  ghost predicate PrefixIs(out: seq<Byte>, k: nat, length: nat)
    requires k == 1 || k == 2
    requires |out| >= k
  {
    if k == 2 then out[0] as int * 0x100 + out[1] == length else out[0] as int == length
  }

  /** What is in `out` if the length does not fit: its low byte, or its two low bytes. */
  ghost predicate PrefixEndsIn(out: seq<Byte>, k: nat, length: nat)
    requires k == 1 || k == 2
    requires |out| >= k
  {
    if k == 2 then out[0] as int * 0x100 + out[1] == length % 0x1_0000 else out[0] as int == length % 0x100
  }

  /** `r` bytes of `out` are a prefix and a payload that unpacks to `row`. */
  ghost predicate Carries(out: seq<Byte>, r: int, row: seq<Byte>) {
    var k := PrefixSize(|row|);
    && k <= r <= |out|
    && PrefixEndsIn(out, k, r - k)
    && Unpack(out[k..r]) == Some(row)
  }

  /** `r` bytes of `out` are a complete encoding of `row`. */
  ghost predicate Encodes(out: seq<Byte>, r: int, row: seq<Byte>) {
    var k := PrefixSize(|row|);
    && k <= r <= |out|
    && PrefixIs(out, k, r - k)
    && Unpack(out[k..r]) == Some(row)
  }

  // ---------- How long rows become ----------

  /** How many further bytes of a run there are from `at` on, when it has `n` already; at most 127 in all. */
  function RunOn(row: seq<Byte>, b: Byte, at: nat, n: nat): (m: nat)
    requires n <= 127
    ensures n <= m <= 127 && (at <= |row| ==> at + (m - n) <= |row|)
    decreases 127 - n
  {
    if at < |row| && n < 127 && row[at] == b then RunOn(row, b, at + 1, n + 1) else n
  }

  /** How many literals from `at` on do not begin a run, when there are `n` already and `next` is the last. */
  function LiteralsOn(row: seq<Byte>, at: nat, n: nat, next: Byte): (m: nat)
    requires n <= 127
    ensures n <= m <= 127 && (m > n ==> at + m < |row|)
    decreases 127 - n
  {
    if at + n + 1 < |row| && n < 127 && next != row[at + n + 1] then LiteralsOn(row, at, n + 1, row[at + n + 1]) else n
  }

  /** How many bytes the packets of the row take from `at` on. */
  function PackedSize(row: seq<Byte>, at: nat): (n: nat)
    decreases |row| - at
  {
    if at >= |row| then 0
    else if at + 1 < |row| && row[at + 1] == row[at] then
      2 + PackedSize(row, at + 1 + RunOn(row, row[at], at + 2, 1))
    else
      var literals := LiteralsOn(row, at + 1, 0, if at + 1 < |row| then row[at + 1] else row[at]);
      2 + literals + PackedSize(row, at + 1 + literals)
  }

  /** What the encoder answers: the packed row's length, or the uncompressed one's where that is too long. */
  function AnswerFor(row: seq<Byte>, bufSize: nat): (r: int) {
    var k := PrefixSize(|row|);
    if k + PackedSize(row, 0) <= bufSize then k + PackedSize(row, 0)
    else if bufSize < MaxSize(|row|) then -1
    else k + |row| + (|row| + 127) / 128
  }

  /** The prefix has room for the payload's length: it has two bytes, or the packed row is short enough, or
      so long that the row is not packed. */
  predicate PrefixFits(row: seq<Byte>, bufSize: nat) {
    || |row| > 250
    || 1 + PackedSize(row, 0) <= 0x100
    || 1 + PackedSize(row, 0) > bufSize
  }

  /** The 16-bit cursor in the buffer does not wrap: the buffer is shorter than that, or the packets are. */
  predicate CursorFits(row: seq<Byte>, bufSize: nat) {
    bufSize < 0x1_0000 || PrefixSize(|row|) + PackedSize(row, 0) < 0x1_0000
  }

  /** A row is encoded if and only if its prefix has room. */
  lemma EncodedIfPrefixFits(out: seq<Byte>, row: seq<Byte>, bufSize: nat)
    requires CursorFits(row, bufSize) && AnswerFor(row, bufSize) <= bufSize
    requires AnswerFor(row, bufSize) != -1 && Carries(out, AnswerFor(row, bufSize), row)
    ensures Encodes(out, AnswerFor(row, bufSize), row) <==> PrefixFits(row, bufSize)
  {
    hide Unpack, PackedSize, Carries, Encodes;
    EncodedByRoom(out, AnswerFor(row, bufSize), row);
  }

  lemma EncodedByRoom(out: seq<Byte>, r: nat, row: seq<Byte>)
    requires Carries(out, r, row) && r < 0x1_0000
    ensures Encodes(out, r, row) <==> |row| > 250 || r <= 0x100
  {
    hide Unpack;
  }

  /** A short buffer, or one of the size that the query reports, makes the prefix fit. */
  lemma EnoughIsRight(row: seq<Byte>, bufSize: nat)
    ensures bufSize <= 0x100 || |row| > 250 || bufSize == MaxSize(|row|) ==> PrefixFits(row, bufSize)
    ensures bufSize >= MaxSize(|row|) ==> AnswerFor(row, bufSize) != -1
  {
    hide PackedSize;
  }

  /** A row in which one byte and two of another take turns. */
  function Alternating(n: nat): (row: seq<Byte>)
    ensures |row| == n
    ensures forall i :: 0 <= i < n ==> row[i] == if i % 3 == 0 then 0 else 1
  {
    seq(n, i => if i % 3 == 0 then 0 else 1)
  }

  /** Such a row takes four bytes for every three. */
  lemma {:induction false} AlternatingGrows(j: nat)
    requires j <= 83
    ensures PackedSize(Alternating(250), 3 * j) == 4 * (83 - j) + 2
    decreases 83 - j
  {
    var row, at := Alternating(250), 3 * j;
    hide Alternating;
    if j == 83 {
      assert PackedSize(row, 250) == 0;
      assert LiteralsOn(row, 250, 0, row[249]) == 0;
    } else {
      assert row[at] == 0 && row[at + 1] == 1 && row[at + 2] == 1 && row[at + 3] == 0;
      AlternatingGrows(j + 1);
      assert LiteralsOn(row, at + 1, 0, 1) == 0;
      assert RunOn(row, 1, at + 3, 1) == 1;
      assert PackedSize(row, at + 1) == 2 + PackedSize(row, at + 3);
    }
  }

  /** With more room than the query asks for, this row of 250 bytes becomes 334, and its prefix says 78. */
  lemma PrefixTooShort(bufSize: nat, out: seq<Byte>)
    requires 335 <= bufSize
    ensures var row := Alternating(250);
      && AnswerFor(row, bufSize) == 335 && !PrefixFits(row, bufSize)
      && (Carries(out, 335, row) ==> out[0] == 78 && !Encodes(out, 335, row))
  {
    hide PackedSize, Unpack, Alternating, Carries, Encodes;
    var row := Alternating(250);
    AlternatingGrows(0);
    assert PackedSize(row, 0) == 334;
    if Carries(out, 335, row) {
      EncodedByRoom(out, 335, row);
      CarriesLength(out, 335, row);
    }
  }

  lemma CarriesLength(out: seq<Byte>, r: nat, row: seq<Byte>)
    requires Carries(out, r, row) && |row| <= 250
    ensures |out| > 0 && out[0] as int == (r - 1) % 0x100
  {
    hide Unpack;
  }

  // ---------- Packing in place ----------

  /** The payload so far. */
  ghost predicate Packed(out: seq<Byte>, k: nat, cursor: nat, x: seq<Byte>) {
    k <= cursor <= |out| && Unpack(out[k..cursor]) == Some(x)
  }

  /** Bytes of `out` before `lo` and from `hi` on are as in `was`. */
  ghost predicate Kept(was: seq<Byte>, out: seq<Byte>, lo: nat, hi: nat) {
    |out| == |was| && forall i :: 0 <= i < |was| && (i < lo || hi <= i) ==> out[i] == was[i]
  }

  /** Writing a packet behind the payload extends what it unpacks to. */
  lemma PackMore(was: seq<Byte>, out: seq<Byte>, k: nat, cursor: nat, x: seq<Byte>, packet: seq<Byte>, y: seq<Byte>)
    requires Packed(was, k, cursor, x) && Kept(was, out, cursor, cursor + |packet|)
    requires cursor + |packet| <= |out| && out[cursor..cursor + |packet|] == packet
    requires Unpack(was[k..cursor] + packet) == Some(y)
    ensures Packed(out, k, cursor + |packet|, y)
  {
    hide Unpack;
    var end := cursor + |packet|;
    SplitSlice(out, k, cursor, end);
    assert out[k..cursor] == was[k..cursor];
  }

  lemma SplitSlice(s: seq<Byte>, a: nat, b: nat, c: nat)
    requires a <= b <= c <= |s|
    ensures s[a..c] == s[a..b] + s[b..c]
  {
  }

  /** Writes a run of `n` equal bytes. */
  method PutRun(outBuf: array<Byte>, cursor: nat, n: nat, b: Byte, ghost k: nat, ghost x: seq<Byte>)
    requires 2 <= n <= 128 && cursor + 2 <= outBuf.Length
    requires Packed(outBuf[..], k, cursor, x)
    modifies outBuf
    ensures Packed(outBuf[..], k, cursor + 2, x + Repeat(b, n))
    ensures Kept(old(outBuf[..]), outBuf[..], cursor, cursor + 2)
  {
    hide Unpack;
    ghost var was := outBuf[..];
    UnpackRun(was[k..cursor], x, n, b);
    outBuf[cursor] := 257 - n;
    outBuf[cursor + 1] := b;
    PackMore(was, outBuf[..], k, cursor, x, [257 - n, b], x + Repeat(b, n));
  }

  /** Writes a header and the literal bytes `row[start..start + n]`. */
  method PutLiterals(outBuf: array<Byte>, cursor: nat, row: seq<Byte>, start: nat, n: nat, ghost k: nat)
    requires 1 <= n <= 128 && start + n <= |row| && cursor + 1 + n <= outBuf.Length
    requires Packed(outBuf[..], k, cursor, row[..start])
    modifies outBuf
    ensures Packed(outBuf[..], k, cursor + 1 + n, row[..start + n])
    ensures Kept(old(outBuf[..]), outBuf[..], cursor, cursor + 1 + n)
  {
    hide Unpack;
    ghost var was, data := outBuf[..], row[start..start + n];
    UnpackLiterals(was[k..cursor], row[..start], data);
    assert row[..start] + data == row[..start + n];
    outBuf[cursor] := n - 1;
    var i := 0;
    while i < n
      invariant 0 <= i <= n
      invariant outBuf[cursor] == n - 1
      invariant forall j :: 0 <= j < outBuf.Length && (j < cursor || cursor + 1 + i <= j) ==> outBuf[j] == was[j]
      invariant forall j :: 0 <= j < i ==> outBuf[cursor + 1 + j] == data[j]
    {
      outBuf[cursor + 1 + i] := row[start + i];
      i := i + 1;
    }
    LiteralPacket(outBuf[..], cursor, data);
    PackMore(was, outBuf[..], k, cursor, row[..start], [n - 1] + data, row[..start + n]);
  }

  lemma LiteralPacket(out: seq<Byte>, cursor: nat, data: seq<Byte>)
    requires 0 < |data| <= 128 && cursor + 1 + |data| <= |out| && out[cursor] == |data| - 1
    requires forall j :: 0 <= j < |data| ==> out[cursor + 1 + j] == data[j]
    ensures out[cursor..cursor + 1 + |data|] == [|data| - 1] + data
  {
    var s := out[cursor..cursor + 1 + |data|];
    forall i | 0 <= i < |s|
      ensures s[i] == ([|data| - 1] + data)[i]
    {
      if i > 0 { assert s[i] == out[cursor + 1 + (i - 1)]; }
    }
  }

  /** The fallback: the whole row as literals, in chunks of 128. */
  method PutUncompressed(row: seq<Byte>, outBuf: array<Byte>, k: nat, bufSize: nat) returns (cmpCursor: nat)
    requires k + |row| + (|row| + 126) / 127 <= bufSize <= outBuf.Length
    modifies outBuf
    ensures k <= cmpCursor <= bufSize
    ensures cmpCursor == k + |row| + (|row| + 127) / 128
    ensures Packed(outBuf[..], k, cmpCursor, row)
    ensures Kept(old(outBuf[..]), outBuf[..], k, bufSize)
  {
    hide Unpack;
    ghost var was := outBuf[..];
    var cursor: nat := 0;
    cmpCursor := k;
    NothingPacked(outBuf[..], k);
    assert row[..0] == [];
    while cursor < |row|
      invariant cursor <= |row|
      invariant cmpCursor == k + cursor + (cursor + 127) / 128
      invariant cursor % 128 == 0 || cursor == |row|
      invariant Packed(outBuf[..], k, cmpCursor, row[..cursor])
      invariant Kept(was, outBuf[..], k, bufSize)
    {
      var bytesToCopy := if |row| - cursor > 128 then 128 else |row| - cursor;
      ChunksFit(cursor, bytesToCopy, |row|);
      PutLiterals(outBuf, cmpCursor, row, cursor, bytesToCopy, k);
      cmpCursor := cmpCursor + 1 + bytesToCopy;
      cursor := cursor + bytesToCopy;
    }
    ChunksFit(cursor, 0, |row|);
    assert row[..|row|] == row;
  }

  lemma NothingPacked(out: seq<Byte>, k: nat)
    requires k <= |out|
    ensures Packed(out, k, k, [])
  {
    assert out[k..k] == [];
  }

  lemma ChunksFit(cursor: nat, chunk: nat, n: nat)
    requires cursor + chunk <= n && (cursor % 128 == 0 || chunk == 0) && chunk <= 128
    ensures chunk > 0 ==> (cursor + chunk + 127) / 128 == (cursor + 127) / 128 + 1
    ensures (cursor + chunk + 127) / 128 <= (n + 126) / 127
  {
  }

  /**
    Writes the row run-length encoded, or uncompressed where encoding makes it too long for the
    buffer. Without a buffer it answers how much room is enough.
   */
  method CompressUsingRLE(row: seq<Byte>, outBuf: array?<Byte>, bufSize: nat) returns (r: int)
    requires |row| < 0x1_0000
    requires outBuf != null ==> bufSize <= outBuf.Length
    requires CursorFits(row, bufSize)
    modifies if outBuf == null then {} else {outBuf}
    ensures outBuf == null || bufSize == 0 ==> r == MaxSize(|row|)
    ensures outBuf != null && bufSize > 0 ==>
              && Kept(old(outBuf[..]), outBuf[..], 0, bufSize)
              && r == AnswerFor(row, bufSize) <= bufSize
              && (r != -1 ==> 0 < r && Carries(outBuf[..], r, row))
              && (r != -1 ==> (Encodes(outBuf[..], r, row) <==> PrefixFits(row, bufSize)))
              && (bufSize == MaxSize(|row|) ==> r != -1 && Encodes(outBuf[..], r, row))
              && ((|row| > 250 || bufSize <= 0x100) && r != -1 ==> Encodes(outBuf[..], r, row))
  {
    hide Unpack, Repeat, Packed, Kept, MaxSize, Carries, Encodes, PackedSize, PrefixFits, AnswerFor;
    if outBuf == null || bufSize == 0 {
      return MaxSize(|row|);
    }
    r := CompressInto(row, outBuf, bufSize);
    EnoughIsRight(row, bufSize);
    if r != -1 { EncodedIfPrefixFits(outBuf[..], row, bufSize); }
  }

  /** The part with a buffer. */
  method CompressInto(row: seq<Byte>, outBuf: array<Byte>, bufSize: nat) returns (r: int)
    requires |row| < 0x1_0000 && 0 < bufSize <= outBuf.Length && CursorFits(row, bufSize)
    modifies outBuf
    ensures Kept(old(outBuf[..]), outBuf[..], 0, bufSize)
    ensures r == AnswerFor(row, bufSize) <= bufSize
    ensures r != -1 ==> 0 < r && Carries(outBuf[..], r, row)
  {
    hide Unpack, Repeat, Packed, Kept, MaxSize, Carries, PackedSize;
    var byteCountLength := PrefixSize(|row|);
    var maxSize := MaxSize(|row|);
    ghost var was, k := outBuf[..], byteCountLength;
    var cmpCursor: nat, cursor: nat := byteCountLength, 0;
    var outOfRoom := false;
    if k <= bufSize { NothingPacked(outBuf[..], k); }
    assert row[..0] == [];
    KeptRefl(outBuf[..], k, bufSize);

    while cursor < |row|
      invariant cursor <= |row| && !outOfRoom && k <= cmpCursor
      invariant cmpCursor + PackedSize(row, cursor) == k + PackedSize(row, 0)
      invariant Fitting(outBuf[..], k, cmpCursor, bufSize, row[..cursor])
      invariant Kept(was, outBuf[..], k, bufSize)
    {
      ghost var before, at := outBuf[..], cmpCursor;
      var fits: bool;
      fits, cursor, cmpCursor := PutPacket(row, outBuf, k, bufSize, cursor, cmpCursor);
      if !fits {
        outOfRoom := true;
        break;
      }
      KeptTrans(was, before, outBuf[..], k, bufSize, at, cmpCursor);
    }
    hide Fitting;
    PackedAll(row, cursor);
    WhenFitting(outBuf[..], k, cmpCursor, bufSize, row);

    if outOfRoom {
      // the packets need more room than there is, so the row is written as it is
      if bufSize < maxSize {
        KeptWider(was, outBuf[..], k, bufSize);
        return -1;
      }
      ghost var before := outBuf[..];
      MaxSizeIs(|row|);
      cmpCursor := PutUncompressed(row, outBuf, byteCountLength, bufSize);
      KeptTrans(was, before, outBuf[..], k, bufSize, k, bufSize);
    }

    r := PutPrefix(outBuf, cmpCursor, was, bufSize, row);
  }

  /** The payload is `x` so far, and in the buffer; with not even room for the prefix there is none. */
  ghost predicate Fitting(out: seq<Byte>, k: nat, cursor: nat, bufSize: nat, x: seq<Byte>) {
    if k <= bufSize then cursor <= bufSize && Packed(out, k, cursor, x) else cursor == k && x == []
  }

  lemma WhenFitting(out: seq<Byte>, k: nat, cursor: nat, bufSize: nat, row: seq<Byte>)
    ensures Fitting(out, k, cursor, bufSize, row) && k <= bufSize ==> cursor <= bufSize && Packed(out, k, cursor, row)
    ensures Fitting(out, k, cursor, bufSize, row) && k > bufSize ==> row == []
  {
  }

  lemma PackedAll(row: seq<Byte>, cursor: nat)
    ensures cursor == |row| ==> row[..cursor] == row && PackedSize(row, cursor) == 0
  {
  }

  /** Writes the length in front. */
  method PutPrefix(outBuf: array<Byte>, cmpCursor: nat, ghost was: seq<Byte>, bufSize: nat,
                   row: seq<Byte>) returns (r: nat)
    requires var k := PrefixSize(|row|);
      k <= cmpCursor <= bufSize <= outBuf.Length && cmpCursor < 0x1_0000
      && Packed(outBuf[..], k, cmpCursor, row) && Kept(was, outBuf[..], k, bufSize)
    modifies outBuf
    ensures r == cmpCursor && Carries(outBuf[..], r, row) && Kept(was, outBuf[..], 0, bufSize)
  {
    hide Unpack, Packed, Kept, Carries;
    var byteCountLength := PrefixSize(|row|);
    var cmpLength := cmpCursor - byteCountLength;
    ghost var packed := outBuf[..];
    if byteCountLength == 2 {
      outBuf[0] := cmpLength / 0x100;
      outBuf[1] := cmpLength % 0x100;
    } else {
      outBuf[0] := cmpLength % 0x100;
    }
    Finish(was, packed, outBuf[..], byteCountLength, cmpCursor, bufSize, row);
    r := cmpCursor;
  }

  /** A packet was written, if there was room for it. */
  ghost predicate PacketPut(row: seq<Byte>, was: seq<Byte>, out: seq<Byte>, k: nat, bufSize: nat, start: nat, at: nat,
                            fits: bool, cursor: nat, cmpCursor: nat)
  {
    && start < cursor <= |row|
    && var size := PackedSize(row, start) - PackedSize(row, cursor);
       && size >= 2 && (fits <==> at + size <= bufSize)
       && if fits then
            && cmpCursor == at + size && Fitting(out, k, cmpCursor, bufSize, row[..cursor])
            && Kept(was, out, at, cmpCursor)
          else out == was && cmpCursor == at
  }

  method PutPacket(row: seq<Byte>, outBuf: array<Byte>, ghost k: nat, bufSize: nat, start: nat, at: nat)
    returns (fits: bool, cursor: nat, cmpCursor: nat)
    requires start < |row| && bufSize <= outBuf.Length && Fitting(outBuf[..], k, at, bufSize, row[..start])
    modifies outBuf
    ensures PacketPut(row, old(outBuf[..]), outBuf[..], k, bufSize, start, at, fits, cursor, cmpCursor)
  {
    if start + 1 < |row| && row[start + 1] == row[start] {
      fits, cursor, cmpCursor := PutRunPacket(row, outBuf, k, bufSize, start, at);
    } else {
      fits, cursor, cmpCursor := PutLiteralPacket(row, outBuf, k, bufSize, start, at);
    }
  }

  method PutRunPacket(row: seq<Byte>, outBuf: array<Byte>, ghost k: nat, bufSize: nat, start: nat, at: nat)
    returns (fits: bool, cursor: nat, cmpCursor: nat)
    requires start + 1 < |row| && row[start + 1] == row[start]
    requires bufSize <= outBuf.Length && Fitting(outBuf[..], k, at, bufSize, row[..start])
    modifies outBuf
    ensures PacketPut(row, old(outBuf[..]), outBuf[..], k, bufSize, start, at, fits, cursor, cmpCursor)
  {
    hide Unpack, Repeat, Packed, Kept, PackedSize;
    SizeFrom(row, start);
    var byte := row[start];
    cursor, cmpCursor, fits := start + 2, at, true;
    var matches: nat := 1;
    while cursor < |row| && matches < 127 && row[cursor] == byte
      invariant 1 <= matches <= 127 && cursor == start + matches + 1 <= |row|
      invariant RunOn(row, byte, start + 2, 1) == RunOn(row, byte, cursor, matches)
      invariant forall j :: start <= j < cursor ==> row[j] == byte
    {
      matches := matches + 1;
      cursor := cursor + 1;
    }

    if cmpCursor + 2 > bufSize {
      fits := false;
      return;
    }
    RunOf(row, start, matches + 1, byte);
    PutRun(outBuf, cmpCursor, matches + 1, byte, k, row[..start]);
    cmpCursor := cmpCursor + 2;
  }

  method PutLiteralPacket(row: seq<Byte>, outBuf: array<Byte>, ghost k: nat, bufSize: nat, start: nat, at: nat)
    returns (fits: bool, cursor: nat, cmpCursor: nat)
    requires start < |row| && (start + 1 < |row| ==> row[start + 1] != row[start])
    requires bufSize <= outBuf.Length && Fitting(outBuf[..], k, at, bufSize, row[..start])
    modifies outBuf
    ensures PacketPut(row, old(outBuf[..]), outBuf[..], k, bufSize, start, at, fits, cursor, cmpCursor)
  {
    hide Unpack, Repeat, Packed, Kept, PackedSize;
    SizeFrom(row, start);
    cursor, cmpCursor, fits := start + 1, at, true;
    var literals: nat := 0;
    var nextByte := if cursor < |row| then row[cursor] else row[start];
    ghost var next := nextByte;
    while cursor + literals + 1 < |row| && literals < 127 && nextByte != row[cursor + literals + 1]
      invariant literals <= 127 && (literals == 0 || cursor + literals < |row|)
      invariant LiteralsOn(row, cursor, 0, next) == LiteralsOn(row, cursor, literals, nextByte)
    {
      nextByte := row[cursor + literals + 1];
      literals := literals + 1;
    }

    cursor := cursor + literals;
    if cmpCursor + 2 + literals > bufSize {
      fits := false;
      return;
    }
    PutLiterals(outBuf, cmpCursor, row, start, literals + 1, k);
    cmpCursor := cmpCursor + 2 + literals;
  }

  lemma SizeFrom(row: seq<Byte>, at: nat)
    requires at < |row|
    ensures PackedSize(row, at) ==
      if at + 1 < |row| && row[at + 1] == row[at] then
        2 + PackedSize(row, at + 1 + RunOn(row, row[at], at + 2, 1))
      else
        var literals := LiteralsOn(row, at + 1, 0, if at + 1 < |row| then row[at + 1] else row[at]);
        2 + literals + PackedSize(row, at + 1 + literals)
  {
  }

  lemma KeptRefl(s: seq<Byte>, lo: nat, hi: nat)
    ensures Kept(s, s, lo, hi)
  {
  }

  lemma KeptTrans(a: seq<Byte>, b: seq<Byte>, c: seq<Byte>, lo: nat, hi: nat, lo': nat, hi': nat)
    requires Kept(a, b, lo, hi) && Kept(b, c, lo', hi') && lo <= lo' && hi' <= hi
    ensures Kept(a, c, lo, hi)
  {
  }

  lemma KeptWider(a: seq<Byte>, b: seq<Byte>, lo: nat, hi: nat)
    requires Kept(a, b, lo, hi)
    ensures Kept(a, b, 0, hi)
  {
  }

  lemma MaxSizeIs(n: nat)
    ensures MaxSize(n) == PrefixSize(n) + n + (n + 126) / 127
  {
  }

  /** The prefix goes in front of the payload. */
  lemma Finish(was: seq<Byte>, packed: seq<Byte>, out: seq<Byte>, k: nat, r: nat, bufSize: nat, row: seq<Byte>)
    requires k == PrefixSize(|row|) && Packed(packed, k, r, row) && r <= bufSize
    requires |out| == |packed| && forall i :: k <= i < |out| ==> out[i] == packed[i]
    requires Kept(was, packed, k, bufSize) && PrefixEndsIn(out, k, r - k)
    ensures Carries(out, r, row) && Kept(was, out, 0, bufSize)
  {
    hide Unpack;
    assert out[k..r] == packed[k..r];
  }

  lemma RunOf(row: seq<Byte>, start: nat, n: nat, b: Byte)
    requires start + n <= |row| && forall j :: start <= j < start + n ==> row[j] == b
    ensures row[..start] + Repeat(b, n) == row[..start + n]
  {
  }
}
