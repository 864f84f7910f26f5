/**
  Conversion of an RGBA image to a PICT picture with run-length encoded rows of separate planes.
 */
module Pict {
  import opened Options
  import opened Bytes
  import opened PictRle

  const INITIAL_SIZE := 134

  // ---------- Planes ----------

  /** Component `c` of each pixel. */
  function Plane(px: seq<Byte>, w: nat, c: nat): (s: seq<Byte>)
    requires |px| == 4 * w && c < 4
    ensures |s| == w
  {
    seq(w, j requires 0 <= j < w => px[4 * j + c])
  }

  /** A row of pixels as the picture stores it: alpha, red, green, blue. */
  function Planes(px: seq<Byte>, w: nat): (row: seq<Byte>)
    requires |px| == 4 * w
    ensures |row| == 4 * w
  {
    Plane(px, w, 3) + Plane(px, w, 0) + Plane(px, w, 1) + Plane(px, w, 2)
  }

  /** The pixels of a stored row. */
  function Unplane(row: seq<Byte>, w: nat): (px: seq<Byte>)
    requires |row| == 4 * w
    ensures |px| == 4 * w
  {
    seq(4 * w, t requires 0 <= t < 4 * w =>
      var j, c := t / 4, t % 4;
      if c == 3 then row[j] else if c == 0 then row[w + j] else if c == 1 then row[2 * w + j] else row[3 * w + j])
  }

  lemma UnplanePlanes(px: seq<Byte>, w: nat)
    requires |px| == 4 * w
    ensures Unplane(Planes(px, w), w) == px
  {
    var row := Planes(px, w);
    forall t | 0 <= t < 4 * w
      ensures Unplane(row, w)[t] == px[t]
    {
      PlaceInPlanes(px, w, t / 4);
      assert t == 4 * (t / 4) + t % 4;
    }
  }

  lemma PlaceInPlanes(px: seq<Byte>, w: nat, j: nat)
    requires |px| == 4 * w && j < w
    ensures var row := Planes(px, w);
      && row[j] == px[4 * j + 3] && row[w + j] == px[4 * j]
      && row[2 * w + j] == px[4 * j + 1] && row[3 * w + j] == px[4 * j + 2]
  {
  }

  // ---------- Reading a picture ----------

  /** The encoded row at the front of `p`, and what follows it; `n` is the unpacked length. */
  function ReadRow(p: seq<Byte>, n: nat): (r: Option<(seq<Byte>, seq<Byte>)>)
    ensures r.Some? ==> |r.value.0| == n && |r.value.1| < |p|
  {
    var k := PrefixSize(n);
    if |p| < k then None
    else
      var length := if k == 2 then p[0] as int * 0x100 + p[1] else p[0] as int;
      if |p| < k + length then None
      else
        match Unpack(p[k..k + length])
        case None => None
        case Some(row) => if |row| == n then Some((row, p[k + length..])) else None
  }

  /** The pixel rows of the body of a picture, which must hold exactly `h` of them. */
  function ReadRows(p: seq<Byte>, w: nat, h: nat): (r: Option<seq<seq<Byte>>>)
    decreases h
  {
    if h == 0 then if p == [] then Some([]) else None
    else
      match ReadRow(p, 4 * w)
      case None => None
      case Some((row, rest)) =>
        match ReadRows(rest, w, h - 1)
        case None => None
        case Some(rows) => Some([Unplane(row, w)] + rows)
  }

  lemma ReadRowAppend(p: seq<Byte>, q: seq<Byte>, n: nat)
    requires ReadRow(p, n).Some?
    ensures ReadRow(p + q, n) == Some((ReadRow(p, n).value.0, ReadRow(p, n).value.1 + q))
  {
    hide Unpack;
    var k := PrefixSize(n);
    var length := if k == 2 then p[0] as int * 0x100 + p[1] else p[0] as int;
    assert (p + q)[k..k + length] == p[k..k + length];
    assert (p + q)[k + length..] == p[k + length..] + q;
  }

  /** One more encoded row at the end is one more row read. */
  lemma {:induction false} ReadRowsAppend(p: seq<Byte>, q: seq<Byte>, w: nat, h: nat, row: seq<Byte>)
    requires ReadRows(p, w, h).Some? && |row| == 4 * w && ReadRow(q, 4 * w) == Some((row, []))
    ensures ReadRows(p + q, w, h + 1) == Some(ReadRows(p, w, h).value + [Unplane(row, w)])
    decreases h
  {
    hide ReadRow, Unplane;
    if h == 0 {
      assert p + q == q;
      assert ReadRows([], w, 0) == Some([]);
      assert ReadRows(q, w, 0 + 1) == Some([Unplane(row, w)] + []);
      assert [] + [Unplane(row, w)] == [Unplane(row, w)] + [];
    } else {
      ReadRowAppend(p, q, 4 * w);
      var (first, rest) := ReadRow(p, 4 * w).value;
      ReadRowsAppend(rest, q, w, h - 1, row);
      var rows := ReadRows(rest, w, h - 1).value;
      assert [Unplane(first, w)] + (rows + [Unplane(row, w)]) == [Unplane(first, w)] + rows + [Unplane(row, w)];
    }
  }

  lemma EncodedRowReads(out: seq<Byte>, r: int, row: seq<Byte>)
    requires Encodes(out, r, row)
    ensures 0 <= r <= |out| && ReadRow(out[..r], |row|) == Some((row, []))
  {
    hide Unpack;
    var k := PrefixSize(|row|);
    assert out[..r][k..r] == out[k..r];
  }

  // ---------- The writer ----------

  function Big16(x: nat): (s: seq<Byte>)
    requires x < 0x1_0000
  {
    [x / 0x100, x % 0x100]
  }

  function Zeros(n: nat): (s: seq<Byte>)
    ensures |s| == n
  {
    seq(n, _ => 0)
  }

  function Rect(w: nat, h: nat): (s: seq<Byte>)
    requires w < 0x1_0000 && h < 0x1_0000
    ensures |s| == 8
  {
    Zeros(4) + Big16(h) + Big16(w)
  }

  function Region(w: nat, h: nat): (s: seq<Byte>)
    requires w < 0x1_0000 && h < 0x1_0000
    ensures |s| == 10
  {
    [0x00, 0x0a] + Rect(w, h)
  }

  /** Frame, version and header opcodes, default highlight, clip region. */
  function Opcodes(w: nat, h: nat): (s: seq<Byte>)
    requires w < 0x1_0000 && h < 0x1_0000
    ensures |s| == 54
  {
    var fixedRect := Zeros(8) + Big16(w) + Zeros(2) + Big16(h) + Zeros(2);
    Rect(w, h) + [0x00, 0x11, 0x02, 0xff] + [0x0c, 0x00, 0xff, 0xff, 0xff, 0xff] + fixedRect + Zeros(4)
    + [0x00, 0x1e] + [0x00, 0x01] + Region(w, h) + [0x00, 0x9b]
  }

  /** The pixel map of direct pixels: 32 bits in four components, rows packed plane by plane. */
  function PixMap(w: nat, h: nat): (s: seq<Byte>)
    requires 4 * w < 0x8000 && h < 0x1_0000
    ensures |s| == 50
  {
    var dpi: seq<Byte> := [0x00, 0x48, 0x00, 0x00];
    Zeros(4) + [4 * w / 0x100 + 0x80, 4 * w % 0x100] + Rect(w, h) + [0x00, 0x00, 0x00, 0x04] + Zeros(4)
    + dpi + dpi + [0x00, 0x10, 0x00, 0x20, 0x00, 0x04, 0x00, 0x08] + Zeros(12)
  }

  /** Everything between the size field and the rows. */
  function Header(w: nat, h: nat): (s: seq<Byte>)
    requires 4 * w < 0x8000 && h < 0x1_0000
    ensures |s| == INITIAL_SIZE - 2
  {
    Opcodes(w, h) + PixMap(w, h) + (Rect(w, h) + Rect(w, h) + [0x00, 0x00] + Region(w, h))
  }

  /** Room for `h` rows. */
  function Room(h: nat, rowSize: nat): (n: nat) {
    h * rowSize
  }

  /** The size query's answer. */
  function PictBound(w: nat, h: nat): (n: nat) {
    INITIAL_SIZE + Room(h, MaxSize(4 * w)) + 2
  }

  predicate RowFits(rgba: seq<Byte>, w: nat, i: nat) {
    i * (4 * w) + 4 * w <= |rgba|
  }

  /** The pixels of row `i`. */
  function PixelRow(rgba: seq<Byte>, w: nat, i: nat): (px: seq<Byte>)
    requires RowFits(rgba, w, i)
    ensures |px| == 4 * w
  {
    rgba[i * (4 * w)..i * (4 * w) + 4 * w]
  }

  ghost predicate HoldsImage(rgba: seq<Byte>, w: nat, h: nat) {
    forall i :: 0 <= i < h ==> RowFits(rgba, w, i)
  }

  /** What is read is the first `h` rows of the image. */
  ghost predicate RowsOf(rows: Option<seq<seq<Byte>>>, rgba: seq<Byte>, w: nat, h: nat)
    requires HoldsImage(rgba, w, h)
  {
    && rows.Some? && |rows.value| == h
    && forall i :: 0 <= i < h && RowFits(rgba, w, i) ==> rows.value[i] == PixelRow(rgba, w, i)
  }

  /** The first `r` bytes of `out` are a picture of the image. */
  ghost predicate IsPicture(out: seq<Byte>, r: int, rgba: seq<Byte>, w: nat, h: nat)
    requires 4 * w < 0x8000 && h < 0x1_0000 && HoldsImage(rgba, w, h)
  {
    && INITIAL_SIZE + 2 <= r <= |out|
    && out[..2] == (if r > 0xffff then [0xff, 0xff] else Big16(r))
    && out[2..INITIAL_SIZE] == Header(w, h)
    && RowsOf(ReadRows(out[INITIAL_SIZE..r - 2], w, h), rgba, w, h)
    && out[r - 2..r] == [0x00, 0xff]
  }

  /** The C library's `memcpy` into the picture. */
  method Append(buf: array<Byte>, cursor: nat, data: seq<Byte>) returns (cursor': nat)
    requires cursor + |data| <= buf.Length
    modifies buf
    ensures cursor' == cursor + |data|
    ensures buf[..] == old(buf[..cursor]) + data + old(buf[cursor'..])
  {
    var i := 0;
    while i < |data|
      invariant 0 <= i <= |data|
      invariant forall j :: 0 <= j < buf.Length ==>
        buf[j] == if cursor <= j < cursor + i then data[j - cursor] else old(buf[j])
    {
      buf[cursor + i] := data[i];
      i := i + 1;
    }
    return cursor + |data|;
  }

  /** Separates a row of pixels into its planes. */
  method SplitRow(rgba: seq<Byte>, w: nat, i: nat) returns (row: seq<Byte>)
    requires RowFits(rgba, w, i)
    ensures row == Planes(PixelRow(rgba, w, i), w)
  {
    hide Planes, PixelRow, RowFits;
    var a := new Byte[4 * w];
    var px, j := PixelRow(rgba, w, i), 0;
    ghost var alpha, red, green, blue := Plane(px, w, 3), Plane(px, w, 0), Plane(px, w, 1), Plane(px, w, 2);
    while j < w
      invariant 0 <= j <= w
      invariant forall t :: 0 <= t < j ==> a[t] == alpha[t]
      invariant forall t :: w <= t < w + j ==> a[t] == red[t - w]
      invariant forall t :: 2 * w <= t < 2 * w + j ==> a[t] == green[t - 2 * w]
      invariant forall t :: 3 * w <= t < 3 * w + j ==> a[t] == blue[t - 3 * w]
    {
      assert PixelAt(px, w, j, alpha, red, green, blue);
      a[j] := px[4 * j + 3];
      a[w + j] := px[4 * j];
      a[2 * w + j] := px[4 * j + 1];
      a[3 * w + j] := px[4 * j + 2];
      j := j + 1;
    }
    JoinPlanes(px, w, a[..]);
    row := a[..];
  }

  ghost predicate PixelAt(px: seq<Byte>, w: nat, j: nat, alpha: seq<Byte>, red: seq<Byte>, green: seq<Byte>,
                          blue: seq<Byte>)
    requires |px| == 4 * w && j < w == |alpha| == |red| == |green| == |blue|
  {
    alpha[j] == px[4 * j + 3] && red[j] == px[4 * j] && green[j] == px[4 * j + 1] && blue[j] == px[4 * j + 2]
  }

  lemma JoinPlanes(px: seq<Byte>, w: nat, row: seq<Byte>)
    requires |px| == |row| == 4 * w
    requires forall t :: 0 <= t < w ==> row[t] == Plane(px, w, 3)[t]
    requires forall t :: w <= t < w + w ==> row[t] == Plane(px, w, 0)[t - w]
    requires forall t :: 2 * w <= t < 2 * w + w ==> row[t] == Plane(px, w, 1)[t - 2 * w]
    requires forall t :: 3 * w <= t < 3 * w + w ==> row[t] == Plane(px, w, 2)[t - 3 * w]
    ensures row == Planes(px, w)
  {
    hide Plane;
    assert row == row[..w] + row[w..2 * w] + row[2 * w..3 * w] + row[3 * w..];
    assert row[..w] == Plane(px, w, 3);
    assert row[w..2 * w] == Plane(px, w, 0);
    assert row[2 * w..3 * w] == Plane(px, w, 1);
    assert row[3 * w..] == Plane(px, w, 2);
  }

  /** A picture part way: the header, `i` rows, and nothing beyond the buffer's size touched. */
  ghost predicate InProgress(was: seq<Byte>, out: seq<Byte>, cursor: nat, bufSize: nat, rgba: seq<Byte>, w: nat, h: nat,
                             i: nat)
    requires 4 * w < 0x8000 && h < 0x1_0000
  {
    && INITIAL_SIZE <= cursor <= bufSize <= |out|
    && Kept(was, out, 0, bufSize)
    && out[2..INITIAL_SIZE] == Header(w, h)
    && i <= h && HoldsImage(rgba, w, h) && HoldsImage(rgba, w, i)
    && RowsOf(ReadRows(out[INITIAL_SIZE..cursor], w, i), rgba, w, i)
  }

  lemma Begin(was: seq<Byte>, out: seq<Byte>, bufSize: nat, rgba: seq<Byte>, w: nat, h: nat)
    requires 4 * w < 0x8000 && h < 0x1_0000 && HoldsImage(rgba, w, h) && INITIAL_SIZE <= bufSize <= |was|
    requires out == was[..2] + Header(w, h) + was[INITIAL_SIZE..]
    ensures InProgress(was, out, INITIAL_SIZE, bufSize, rgba, w, h, 0)
  {
    hide Header, PixelRow, RowFits;
    assert out[INITIAL_SIZE..INITIAL_SIZE] == [];
  }

  lemma WriteRow(was: seq<Byte>, before: seq<Byte>, out: seq<Byte>, cursor: nat, bufSize: nat, rgba: seq<Byte>,
                 w: nat, h: nat, i: nat, packed: seq<Byte>, r: int)
    requires 4 * w < 0x8000 && h < 0x1_0000
    requires InProgress(was, before, cursor, bufSize, rgba, w, h, i) && i < h && RowFits(rgba, w, i)
    requires 0 <= r <= |packed| && Encodes(packed, r, Planes(PixelRow(rgba, w, i), w))
    requires cursor + r <= bufSize && out == before[..cursor] + packed[..r] + before[cursor + r..]
    ensures InProgress(was, out, cursor + r, bufSize, rgba, w, h, i + 1)
  {
    hide ReadRows, Planes, PixelRow, Encodes, RowFits, ReadRow, Header;
    var px := PixelRow(rgba, w, i);
    EncodedRowReads(packed, r, Planes(px, w));
    UnplanePlanes(px, w);
    ReadRowsAppend(before[INITIAL_SIZE..cursor], packed[..r], w, i, Planes(px, w));
    SliceAfterAppend(before, out, INITIAL_SIZE, cursor, packed[..r]);
    assert out[2..INITIAL_SIZE] == before[2..INITIAL_SIZE];
  }

  lemma SliceAfterAppend(before: seq<Byte>, out: seq<Byte>, from: nat, cursor: nat, data: seq<Byte>)
    requires from <= cursor && cursor + |data| <= |before|
    requires out == before[..cursor] + data + before[cursor + |data|..]
    ensures out[from..cursor + |data|] == before[from..cursor] + data
  {
  }

  lemma End(was: seq<Byte>, before: seq<Byte>, out: seq<Byte>, cursor: nat, bufSize: nat, rgba: seq<Byte>, w: nat,
            h: nat)
    requires 4 * w < 0x8000 && h < 0x1_0000
    requires InProgress(was, before, cursor, bufSize, rgba, w, h, h) && cursor + 2 <= bufSize
    requires |out| == |before| && out[cursor..cursor + 2] == [0x00, 0xff]
    requires out[..2] == if cursor + 2 > 0xffff then [0xff, 0xff] else Big16(cursor + 2)
    requires forall j :: 0 <= j < |out| && !(0 <= j < 2) && !(cursor <= j < cursor + 2) ==> out[j] == before[j]
    ensures IsPicture(out, cursor + 2, rgba, w, h) && Kept(was, out, 0, bufSize)
  {
    hide ReadRows, PixelRow, RowFits, Header;
    assert out[2..INITIAL_SIZE] == before[2..INITIAL_SIZE];
    assert out[INITIAL_SIZE..cursor] == before[INITIAL_SIZE..cursor];
  }

  /** A row of at most 8191 pixels can be encoded in a buffer of the size its query reports. */
  lemma RowSizeFits(w: nat)
    requires w <= 8191
    ensures 0 < MaxSize(4 * w) <= if 4 * w > 250 then 0xffff else 0x100
  {
  }

  lemma RowsNeed(i: nat, h: nat, rowSize: nat)
    requires i <= h
    ensures Room(0, rowSize) == 0
    ensures Room(i, rowSize) <= Room(h, rowSize) && Room(i + 1, rowSize) == Room(i, rowSize) + rowSize
  {
    if i < h { RowsNeed(i, h - 1, rowSize); }
  }

  /**
    Writes a picture of the image. Without a buffer it answers how much room is enough; with that
    much room it does not fail.
   */
  method ConvertRGBAToPICT(buf: array?<Byte>, bufSize: nat, rgba: seq<Byte>, width: nat, height: nat) returns (r: int)
    requires width <= 8191 && height < 0x1_0000 && HoldsImage(rgba, width, height)
    requires buf != null ==> bufSize <= buf.Length
    modifies if buf == null then {} else {buf}
    ensures buf == null || bufSize == 0 ==> r == PictBound(width, height)
    ensures buf != null && bufSize > 0 ==>
              && Kept(old(buf[..]), buf[..], 0, bufSize)
              && (if r == -1 then bufSize < PictBound(width, height)
                  else r <= bufSize && r <= PictBound(width, height) && IsPicture(buf[..], r, rgba, width, height))
  {
    hide PackedSize, PrefixFits, AnswerFor, Header, ReadRows, Planes, PixelRow, Encodes, Carries, RowsOf,
        InProgress, RowFits, Kept, IsPicture, Room;
    RowSizeFits(width);
    var cmpBufSize := MaxSize(4 * width);
    if buf == null || bufSize == 0 {
      return INITIAL_SIZE + Room(height, cmpBufSize) + 2;
    }
    hide MaxSize, PictBound;
    BoundIs(width, height);
    ghost var was := buf[..];
    KeptRefl(was, 0, bufSize);
    RowsNeed(0, height, cmpBufSize);
    if bufSize < INITIAL_SIZE {
      return -1;
    }
    var cmpBuf := new Byte[cmpBufSize];
    var cursor: nat := Append(buf, 2, Header(width, height));
    Begin(was, buf[..], bufSize, rgba, width, height);

    var i: nat := 0;
    while i < height
      invariant i <= height && INITIAL_SIZE <= cursor <= INITIAL_SIZE + Room(i, cmpBufSize) && cursor <= bufSize
      invariant InProgress(was, buf[..], cursor, bufSize, rgba, width, height, i)
    {
      assert RowFits(rgba, width, i);
      var row := SplitRow(rgba, width, i);
      var cmpLength := CompressUsingRLE(row, cmpBuf, cmpBufSize);
      RowsNeed(i, height, cmpBufSize);
      RowsNeed(i + 1, height, cmpBufSize);
      if cmpLength < 0 || cursor + cmpLength > bufSize {
        ProgressKept(was, buf[..], cursor, bufSize, rgba, width, height, i);
        return -1;
      }
      ghost var before, start := buf[..], cursor;
      cursor := Append(buf, cursor, cmpBuf[..cmpLength]);
      WriteRow(was, before, buf[..], start, bufSize, rgba, width, height, i, cmpBuf[..], cmpLength);
      i := i + 1;
    }

    if cursor + 2 > bufSize {
      ProgressKept(was, buf[..], cursor, bufSize, rgba, width, height, i);
      return -1;
    }
    r := PutEnd(buf, cursor, was, bufSize, rgba, width, height);
  }

  /** Ends the picture, and fills in its size. */
  method PutEnd(buf: array<Byte>, end: nat, ghost was: seq<Byte>, bufSize: nat, rgba: seq<Byte>, w: nat, h: nat)
    returns (cursor: nat)
    requires 4 * w < 0x8000 && h < 0x1_0000 && end + 2 <= bufSize <= buf.Length
    requires HoldsImage(rgba, w, h) && InProgress(was, buf[..], end, bufSize, rgba, w, h, h)
    modifies buf
    ensures cursor == end + 2 && IsPicture(buf[..], cursor, rgba, w, h) && Kept(was, buf[..], 0, bufSize)
  {
    InProgressSize(was, buf[..], end, bufSize, rgba, w, h, h);
    hide InProgress, IsPicture, HoldsImage, Kept;
    ghost var before := buf[..];
    buf[end] := 0x00;
    buf[end + 1] := 0xff;
    cursor := end + 2;
    if cursor > 0xffff {
      buf[0], buf[1] := 0xff, 0xff;
    } else {
      buf[0] := cursor / 0x100;
      buf[1] := cursor % 0x100;
    }
    End(was, before, buf[..], end, bufSize, rgba, w, h);
  }

  lemma InProgressSize(was: seq<Byte>, out: seq<Byte>, cursor: nat, bufSize: nat, rgba: seq<Byte>, w: nat, h: nat,
                       i: nat)
    requires 4 * w < 0x8000 && h < 0x1_0000
    requires InProgress(was, out, cursor, bufSize, rgba, w, h, i)
    ensures INITIAL_SIZE <= cursor
  {
  }

  lemma BoundIs(w: nat, h: nat)
    ensures PictBound(w, h) == INITIAL_SIZE + Room(h, MaxSize(4 * w)) + 2
  {
  }

  lemma ProgressKept(was: seq<Byte>, out: seq<Byte>, cursor: nat, bufSize: nat, rgba: seq<Byte>, w: nat, h: nat, i: nat)
    requires 4 * w < 0x8000 && h < 0x1_0000
    requires InProgress(was, out, cursor, bufSize, rgba, w, h, i)
    ensures Kept(was, out, 0, bufSize)
  {
  }
}
