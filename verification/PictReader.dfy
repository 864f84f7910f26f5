/**
  Reading a picture back: what a reader of PICT version 2 pictures of direct pixels finds in the pictures that
  `Pict` writes.
 */
module PictReader {
  import opened Options
  import opened Bytes
  import opened Pict

  datatype Box = Box(top: nat, left: nat, bottom: nat, right: nat)

  /** What is in a picture. `origin` and `corner` are the whole parts of the fixed-point bounds in its header. */
  datatype Picture = Picture(
    frame: Box,
    origin: (nat, nat),
    corner: (nat, nat),
    clip: Box,
    bounds: Box,
    source: Box,
    goal: Box,
    mask: Box,
    rowBytes: nat,
    pixelSize: nat,
    rows: seq<seq<Byte>>)

  function Word(p: seq<Byte>, at: nat): (w: Word16)
    requires at + 2 <= |p|
  {
    p[at] as int * 0x100 + p[at + 1]
  }

  /** A rectangle: top, left, bottom, right. */
  function BoxAt(p: seq<Byte>, at: nat): (b: Box)
    requires at + 8 <= |p|
  {
    Box(Word(p, at), Word(p, at + 2), Word(p, at + 4), Word(p, at + 6))
  }

  /** The opcodes are where they are in a picture of one image, and the pixels direct ones of 32 bits in four
      components, packed component by component. The places follow from the sizes of what is in front. */
  predicate Expected(p: seq<Byte>)
    requires |p| >= INITIAL_SIZE + 2
  {
    && Word(p, 10) == 0x0011 && Word(p, 12) == 0x02ff       // version opcode, version 2
    && Word(p, 14) == 0x0c00 && Word(p, 16) == Word(p, 18) == 0xffff
    && Word(p, 40) == 0x001e                                // highlight colour
    && Word(p, 42) == 0x0001 && Word(p, 44) == 10           // clip region, a rectangle
    && Word(p, 54) == 0x009b                                // direct pixels with a mask region
    && Word(p, 60) >= 0x8000                                // a pixel map
    && Word(p, 72) == 4                                     // packed by component
    && Word(p, 86) == 0x10 && Word(p, 90) == 4 && Word(p, 92) == 8
    && Word(p, 124) == 10
    && Word(p, |p| - 2) == 0x00ff                           // end of picture
  }

  function ReadPicture(p: seq<Byte>): (r: Option<Picture>) {
    if |p| < INITIAL_SIZE + 2 || !Expected(p) then None
    else
      var bounds, rowBytes := BoxAt(p, 62), Word(p, 60) - 0x8000;
      if bounds.bottom < bounds.top || bounds.right < bounds.left then None
      else
        match ReadRows(p[INITIAL_SIZE..|p| - 2], bounds.right - bounds.left, bounds.bottom - bounds.top)
        case None => None
        case Some(rows) =>
          Some(Picture(BoxAt(p, 2), (Word(p, 20), Word(p, 24)), (Word(p, 28), Word(p, 32)), BoxAt(p, 46), bounds,
                       BoxAt(p, 106), BoxAt(p, 114), BoxAt(p, 126), rowBytes, Word(p, 88), rows))
  }

  // ---------- The header, word by word ----------

  lemma OpcodesRead(w: nat, h: nat)
    requires w < 0x1_0000 && h < 0x1_0000
    ensures var s, box := Opcodes(w, h), Box(0, 0, h, w);
      && BoxAt(s, 0) == box && Word(s, 8) == 0x0011 && Word(s, 10) == 0x02ff && Word(s, 12) == 0x0c00
      && Word(s, 14) == Word(s, 16) == 0xffff
      && Word(s, 18) == Word(s, 22) == 0 && Word(s, 26) == w && Word(s, 30) == h
      && Word(s, 38) == 0x001e && Word(s, 40) == 0x0001 && Word(s, 42) == 10 && BoxAt(s, 44) == box
      && Word(s, 52) == 0x009b
  {
  }

  lemma PixMapRead(w: nat, h: nat)
    requires 4 * w < 0x8000 && h < 0x1_0000
    ensures var s := PixMap(w, h);
      && Word(s, 4) == 4 * w + 0x8000 && BoxAt(s, 6) == Box(0, 0, h, w) && Word(s, 16) == 4
      && Word(s, 30) == 0x10 && Word(s, 32) == 0x20 && Word(s, 34) == 4 && Word(s, 36) == 8
  {
  }

  lemma TailRead(w: nat, h: nat)
    requires w < 0x1_0000 && h < 0x1_0000
    ensures var s, box := Rect(w, h) + Rect(w, h) + [0x00, 0x00] + Region(w, h), Box(0, 0, h, w);
      && |s| == 28 && BoxAt(s, 0) == box && BoxAt(s, 8) == box && Word(s, 18) == 10 && BoxAt(s, 20) == box
  {
  }

  lemma WordsAlike(p: seq<Byte>, from: nat, s: seq<Byte>, at: nat)
    requires from + |s| <= |p| && p[from..from + |s|] == s && at + 2 <= |s|
    ensures Word(p, from + at) == Word(s, at)
  {
    assert p[from + at] == s[at] && p[from + at + 1] == s[at + 1];
  }

  lemma BoxesAlike(p: seq<Byte>, from: nat, s: seq<Byte>, at: nat)
    requires from + |s| <= |p| && p[from..from + |s|] == s && at + 8 <= |s|
    ensures BoxAt(p, from + at) == BoxAt(s, at)
  {
    WordsAlike(p, from, s, at);
    WordsAlike(p, from, s, at + 2);
    WordsAlike(p, from, s, at + 4);
    WordsAlike(p, from, s, at + 6);
  }

  /** The three parts of the header in a picture. */
  lemma PartsOf(p: seq<Byte>, w: nat, h: nat)
    requires 4 * w < 0x8000 && h < 0x1_0000 && |p| >= INITIAL_SIZE && p[2..INITIAL_SIZE] == Header(w, h)
    ensures p[2..56] == Opcodes(w, h) && p[56..106] == PixMap(w, h)
    ensures p[106..134] == Rect(w, h) + Rect(w, h) + [0x00, 0x00] + Region(w, h)
  {
    hide Opcodes, PixMap, Rect, Region;
    var s := Header(w, h);
    assert p[2..56] == s[..54] && p[56..106] == s[54..104] && p[106..134] == s[104..132];
  }

  lemma OpcodesThere(p: seq<Byte>, w: nat, h: nat)
    requires 4 * w < 0x8000 && h < 0x1_0000 && |p| >= INITIAL_SIZE && p[2..56] == Opcodes(w, h)
    ensures BoxAt(p, 2) == Box(0, 0, h, w) && BoxAt(p, 46) == Box(0, 0, h, w)
    ensures Word(p, 10) == 0x0011 && Word(p, 12) == 0x02ff && Word(p, 14) == 0x0c00
    ensures Word(p, 16) == Word(p, 18) == 0xffff && Word(p, 20) == Word(p, 24) == 0
    ensures Word(p, 28) == w && Word(p, 32) == h
    ensures Word(p, 40) == 0x001e && Word(p, 42) == 0x0001 && Word(p, 44) == 10 && Word(p, 54) == 0x009b
  {
    OpcodesRead(w, h);
    var s := Opcodes(w, h);
    hide Opcodes, Word, BoxAt;
    BoxesAlike(p, 2, s, 0);
    BoxesAlike(p, 2, s, 44);
    WordsAlike(p, 2, s, 8);
    WordsAlike(p, 2, s, 10);
    WordsAlike(p, 2, s, 12);
    WordsAlike(p, 2, s, 14);
    WordsAlike(p, 2, s, 16);
    WordsAlike(p, 2, s, 18);
    WordsAlike(p, 2, s, 22);
    WordsAlike(p, 2, s, 26);
    WordsAlike(p, 2, s, 30);
    WordsAlike(p, 2, s, 38);
    WordsAlike(p, 2, s, 40);
    WordsAlike(p, 2, s, 42);
    WordsAlike(p, 2, s, 52);
  }

  lemma PixMapThere(p: seq<Byte>, w: nat, h: nat)
    requires 4 * w < 0x8000 && h < 0x1_0000 && |p| >= INITIAL_SIZE && p[56..106] == PixMap(w, h)
    ensures Word(p, 60) == 4 * w + 0x8000 && BoxAt(p, 62) == Box(0, 0, h, w) && Word(p, 72) == 4
    ensures Word(p, 86) == 0x10 && Word(p, 88) == 0x20 && Word(p, 90) == 4 && Word(p, 92) == 8
  {
    PixMapRead(w, h);
    var s := PixMap(w, h);
    hide PixMap, Word, BoxAt;
    BoxesAlike(p, 56, s, 6);
    WordsAlike(p, 56, s, 4);
    WordsAlike(p, 56, s, 16);
    WordsAlike(p, 56, s, 30);
    WordsAlike(p, 56, s, 32);
    WordsAlike(p, 56, s, 34);
    WordsAlike(p, 56, s, 36);
  }

  lemma TailThere(p: seq<Byte>, w: nat, h: nat)
    requires 4 * w < 0x8000 && h < 0x1_0000 && |p| >= INITIAL_SIZE
    requires p[106..134] == Rect(w, h) + Rect(w, h) + [0x00, 0x00] + Region(w, h)
    ensures BoxAt(p, 106) == BoxAt(p, 114) == BoxAt(p, 126) == Box(0, 0, h, w) && Word(p, 124) == 10
  {
    TailRead(w, h);
    var s := Rect(w, h) + Rect(w, h) + [0x00, 0x00] + Region(w, h);
    hide Rect, Region, Word, BoxAt;
    BoxesAlike(p, 106, s, 0);
    BoxesAlike(p, 106, s, 8);
    WordsAlike(p, 106, s, 18);
    BoxesAlike(p, 106, s, 20);
  }

  // ---------- The main result ----------

  /** A reader finds one image of `w` by `h` pixels, at its size and nothing clipped off, in rows of four bytes a
      pixel: those of the image. In front is the picture's size, or the greatest that fits there. */
  lemma PictureReads(out: seq<Byte>, r: nat, rgba: seq<Byte>, w: nat, h: nat)
    requires 4 * w < 0x8000 && h < 0x1_0000 && HoldsImage(rgba, w, h) && IsPicture(out, r, rgba, w, h)
    ensures var whole := Box(0, 0, h, w);
      && ReadPicture(out[..r]).Some?
      && var pic := ReadPicture(out[..r]).value;
         && pic.frame == pic.clip == pic.bounds == pic.source == pic.goal == pic.mask == whole
         && pic.origin == (0, 0) && pic.corner == (w, h)
         && pic.rowBytes == 4 * w && pic.pixelSize == 32
         && |pic.rows| == h
         && forall i :: 0 <= i < h && RowFits(rgba, w, i) ==> pic.rows[i] == PixelRow(rgba, w, i)
    ensures Word(out, 0) == if r < 0x1_0000 then r else 0xffff
  {
    var p := out[..r];
    InFront(out, r, rgba, w, h);
    hide IsPicture, Header, ReadRows, RowsOf, HoldsImage, Word, BoxAt, Opcodes, PixMap, Rect, Region, Expected,
        ReadPicture;
    PartsOf(p, w, h);
    OpcodesThere(p, w, h);
    PixMapThere(p, w, h);
    TailThere(p, w, h);
    WholePicture(p, w, h);
    RowsAre(ReadRows(p[INITIAL_SIZE..|p| - 2], w, h), rgba, w, h);
  }

  /** The picture without what the buffer has behind it. */
  lemma InFront(out: seq<Byte>, r: nat, rgba: seq<Byte>, w: nat, h: nat)
    requires 4 * w < 0x8000 && h < 0x1_0000 && HoldsImage(rgba, w, h) && IsPicture(out, r, rgba, w, h)
    ensures var p := out[..r];
      && |p| >= INITIAL_SIZE + 2 && p[2..INITIAL_SIZE] == Header(w, h) && Word(p, |p| - 2) == 0x00ff
      && RowsOf(ReadRows(p[INITIAL_SIZE..|p| - 2], w, h), rgba, w, h)
    ensures Word(out, 0) == if r < 0x1_0000 then r else 0xffff
  {
    hide Header, ReadRows, RowsOf, HoldsImage;
    var p := out[..r];
    assert p[2..INITIAL_SIZE] == out[2..INITIAL_SIZE];
    assert p[INITIAL_SIZE..|p| - 2] == out[INITIAL_SIZE..r - 2];
    assert out[r - 2..r][0] == 0x00 && out[r - 2..r][1] == 0xff;
    assert out[..2][0] == out[0] && out[..2][1] == out[1];
  }

  lemma RowsAre(rows: Option<seq<seq<Byte>>>, rgba: seq<Byte>, w: nat, h: nat)
    requires HoldsImage(rgba, w, h) && RowsOf(rows, rgba, w, h)
    ensures rows.Some? && |rows.value| == h
    ensures forall i :: 0 <= i < h && RowFits(rgba, w, i) ==> rows.value[i] == PixelRow(rgba, w, i)
  {
    hide PixelRow;
  }

  lemma WholePicture(p: seq<Byte>, w: nat, h: nat)
    requires |p| >= INITIAL_SIZE + 2 && Word(p, |p| - 2) == 0x00ff && ReadRows(p[INITIAL_SIZE..|p| - 2], w, h).Some?
    requires Word(p, 10) == 0x0011 && Word(p, 12) == 0x02ff && Word(p, 14) == 0x0c00
    requires Word(p, 16) == Word(p, 18) == 0xffff
    requires Word(p, 40) == 0x001e && Word(p, 42) == 0x0001 && Word(p, 44) == 10 && Word(p, 54) == 0x009b
    requires Word(p, 60) >= 0x8000 && BoxAt(p, 62) == Box(0, 0, h, w) && Word(p, 72) == 4
    requires Word(p, 86) == 0x10 && Word(p, 90) == 4 && Word(p, 92) == 8 && Word(p, 124) == 10
    ensures ReadPicture(p) == Some(
      Picture(BoxAt(p, 2), (Word(p, 20), Word(p, 24)), (Word(p, 28), Word(p, 32)), BoxAt(p, 46), Box(0, 0, h, w),
              BoxAt(p, 106), BoxAt(p, 114), BoxAt(p, 126), Word(p, 60) - 0x8000, Word(p, 88),
              ReadRows(p[INITIAL_SIZE..|p| - 2], w, h).value))
  {
    hide Word, BoxAt, ReadRows;
  }
}
