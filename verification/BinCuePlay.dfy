/**
  CD audio playback from a raw image, as values: what a callback's buffer is filled with and how
  the player's position moves. `CdPlayer` has the code.

  Positions are bytes from the start frame of the play. A track may begin with a pregap, which is
  not in the file and is played as silence.
 */
module BinCuePlay {
  import opened Options
  import opened Arithmetic
  import opened Bytes

  datatype Status = NoStatus | Playing | Paused | Completed

  datatype Player = Player(
    status: Status,
    pos: Word32,          // current position from the start (bytes)
    start: Word32,        // start position (frames)
    end: Word32,          // end position (frames)
    silence: Word32,      // pregap (bytes)
    fileoffset: int,      // where the start is in the file
    scanning: bool,
    reverse: bool)

  /** What playback reads from: the image, its sector size, and the byte that is silent. */
  datatype Disc = Disc(file: seq<Byte>, rs: nat, quiet: Byte)

  function Quiet(d: Disc, n: nat): (s: seq<Byte>)
    ensures |s| == n
  {
    seq(n, _ => d.quiet)
  }

  // ---------- One turn of the fill loop ----------

  datatype Turn =
    | Returned(p: Player, buf: seq<Byte>)                      // the callback is done
    | SeekFailed(p: Player)                                    // no buffer
    | Went(p: Player, buf: seq<Byte>, offset: int, available: int)

  /** How many bytes a read of up to `want` at `at` gets. */
  function ReadCount(file: seq<Byte>, at: nat, want: nat): (n: nat)
    ensures n <= want && (n > 0 ==> at + n <= |file|)
  {
    if at >= |file| then 0 else if |file| - at < want then |file| - at else want
  }

  /** `data` laid over `buf` at `at`. */
  function Overlay(buf: seq<Byte>, at: nat, data: seq<Byte>): (r: seq<Byte>)
    requires at + |data| <= |buf|
    ensures |r| == |buf|
  {
    buf[..at] + data + buf[at + |data|..]
  }

  /** The position has reached the end frame. */
  predicate AtEnd(p: Player, d: Disc)
    requires d.rs > 0
  {
    U32(p.start + p.pos / d.rs) >= p.end
  }

  /** The length of the play in bytes, as the code computes it. */
  function RangeWord(p: Player, d: Disc): (w: Word32) {
    U32((p.end - p.start) * d.rs)
  }

  /**
    One turn: `n` is the buffer's size, `offset` what is filled, `remaining` the silence left when
    the callback began, `limit` how much to read at most (-1 for no limit), and `jump` how far to
    move after reading that much.
   */
  function DoTurn(p: Player, d: Disc, buf: seq<Byte>, offset: nat, remaining: int, limit: int, jump: int): (t: Turn)
    requires d.rs > 0 && offset <= |buf| && (limit == -1 || limit > 0)
    requires remaining <= 0 || offset == 0
  {
    var n := |buf|;
    if AtEnd(p, d) then Returned(p.(status := Completed), buf)
    else if remaining >= n then Returned(p.(pos := U32(p.pos + n)), buf)
    else
      var skip := if remaining > 0 then remaining else 0;
      ReadOn(p.(pos := U32(p.pos + skip)), d, buf, offset + skip, limit, jump)
  }

  /** The rest of a turn, past the pregap: reads from the file into the buffer at `at`. */
  function ReadOn(p: Player, d: Disc, buf: seq<Byte>, at: nat, limit: int, jump: int): (t: Turn)
    requires d.rs > 0 && at <= |buf| && (limit == -1 || limit > 0)
  {
    var left := I32(RangeWord(p, d) - p.pos);
    var wanted := if left > |buf| - at then |buf| - at else left;
    var hit := limit != -1 && wanted >= limit;
    var available := if hit then limit else wanted;
    var seek := p.fileoffset + p.pos - p.silence;
    if seek < 0 then SeekFailed(p) else Reads(p, d, buf, at, seek, available, hit, jump)
  }

  /** A read at `seek`, and the jump after it; a negative amount moves the position back to the end. */
  function Reads(p: Player, d: Disc, buf: seq<Byte>, at: nat, seek: nat, available: int, hit: bool,
                 jump: int): (t: Turn)
    requires at + available <= |buf| && at <= |buf|
  {
    var want, from := if available < 0 then 0 else available, if available < 0 then U32(p.pos + available) else p.pos;
    var ret := ReadCount(d.file, seek, want);
    var q, filled := p.(pos := U32(from + ret)), Filled(buf, at, d.file, seek, ret);
    if I32(q.pos) + jump < 0 then Returned(q.(status := Completed), filled)
    else Went(if hit then q.(pos := U32(q.pos + jump)) else q, filled, at + ret, want - ret)
  }

  /** The buffer after a read of `n` bytes at `seek` to `at`. */
  function Filled(buf: seq<Byte>, at: nat, file: seq<Byte>, seek: nat, n: nat): (r: seq<Byte>)
    requires at + n <= |buf| && (n > 0 ==> seek + n <= |file|)
    ensures |r| == |buf|
  {
    if n == 0 then buf else Overlay(buf, at, file[seek..seek + n])
  }

  // ---------- Normal playback ----------

  /** A callback that is not scanning: one turn, then silence that still counts as played up to the
      end of the range. */
  function FillNormal(p: Player, d: Disc, n: nat): (r: (Option<seq<Byte>>, Player))
    requires d.rs > 0
  {
    var buf := Quiet(d, n);
    if p.status != Playing then (Some(buf), p)
    else
      match DoTurn(p, d, buf, 0, I32(p.silence - p.pos), -1, 0)
      case Returned(p', buf') => (Some(buf'), p')
      case SeekFailed(p') => (None, p')
      case Went(p', buf', offset, available) =>
        var padded := if available <= 0 then 0 else if available < n - offset then available else n - offset;
        (Some(buf'), p'.(pos := U32(p'.pos + padded)))
  }

  /** The length of the play, in bytes. */
  function Range(p: Player, d: Disc): (e: int) {
    (p.end - p.start) * d.rs
  }

  /** A play's range, in numbers that C's 32-bit unsigned integers hold. */
  predicate RangeFits(p: Player, d: Disc) {
    0 < d.rs && p.start <= p.end < 0x8000_0000 && Range(p, d) < 0x1_0000_0000
  }

  /** The same with a position that a C `int` holds. */
  predicate EndFits(p: Player, d: Disc) {
    RangeFits(p, d) && p.pos < 0x8000_0000
  }

  /** A play whose file data fits a C `int`. The pregap may make the whole play longer than that. */
  predicate Fits(p: Player, d: Disc) {
    && EndFits(p, d)
    && Range(p, d) - p.silence < 0x8000_0000 && p.silence < 0x8000_0000
    && p.fileoffset >= 0 && !p.scanning
  }

  /** The byte at position `q` of a play: pregap silence, then the file, then silence. */
  function ByteAt(p: Player, d: Disc, q: nat): (b: Byte)
    requires p.fileoffset >= 0
  {
    if q < p.silence || q >= Range(p, d) || p.fileoffset + q - p.silence >= |d.file| then d.quiet
    else d.file[p.fileoffset + q - p.silence]
  }

  /** The player has played `l` bytes, or has reached its end. */
  predicate HasPlayed(p: Player, d: Disc, l: nat) {
    && Fits(p, d)
    && (p.status == Playing || p.status == Completed)
    && (p.pos <= Range(p, d) || p.pos <= p.silence)
    && ((p.status == Playing && p.pos == l) || (p.pos >= Range(p, d) && l >= Range(p, d)))
  }

  /** The play itself, apart from how far it has got. */
  predicate SamePlay(p: Player, p': Player) {
    p'.(status := p.status, pos := p.pos) == p
  }

  lemma EndByFrames(p: Player, d: Disc)
    requires RangeFits(p, d) && (p.pos < 0x8000_0000 || p.pos <= Range(p, d))
    ensures AtEnd(p, d) <==> p.pos >= Range(p, d)
    ensures 0 <= Range(p, d) && RangeWord(p, d) == Range(p, d)
  {
    hide U32;
    var frames, k := p.end - p.start, p.pos / d.rs;
    FramesAndBytes(p.pos, frames, d.rs);
    FramesAndBytes(p.pos, frames + 1, d.rs);
    Distribute(frames, 1, d.rs);
    ProductMonotone(0, frames, d.rs);
    NoWrap(p.start + k);
    NoWrap(frames * d.rs);
  }

  lemma FramesAndBytes(pos: nat, frames: nat, rs: nat)
    requires rs > 0
    ensures pos / rs >= frames <==> pos >= frames * rs
    ensures 0 <= pos / rs <= pos
  {
    var k := pos / rs;
    assert pos == k * rs + pos % rs;
    assert (k + 1) * rs == k * rs + rs;
    if k >= frames {
      ProductMonotone(frames, k, rs);
    } else {
      ProductMonotone(k + 1, frames, rs);
    }
    ProductMonotone(1, rs, k);
    assert k * 1 == k && k * rs == rs * k;
  }

  lemma NoWrap(x: int)
    ensures 0 <= x < 0x1_0000_0000 ==> U32(x) == x
    ensures -0x8000_0000 <= x < 0x8000_0000 ==> I32(x) == x
  {
  }

  predicate InRange(p: Player, d: Disc) {
    Fits(p, d) && p.status == Playing && (p.pos <= Range(p, d) || p.pos <= p.silence)
  }

  lemma TurnEnds(p: Player, d: Disc, buf: seq<Byte>, remaining: int)
    requires InRange(p, d) && p.pos >= Range(p, d)
    ensures DoTurn(p, d, buf, 0, remaining, -1, 0) == Returned(p.(status := Completed), buf)
  {
    EndByFrames(p, d);
    hide AtEnd, RangeWord, Range, U32, I32, ReadCount, Overlay;
  }

  lemma TurnSilent(p: Player, d: Disc, buf: seq<Byte>)
    requires InRange(p, d) && p.pos < Range(p, d) && p.silence - p.pos >= |buf|
    ensures DoTurn(p, d, buf, 0, p.silence - p.pos, -1, 0) == Returned(p.(pos := p.pos + |buf|), buf)
  {
    EndByFrames(p, d);
    NoWrap(p.pos + |buf|);
    hide AtEnd, RangeWord, Range, U32, I32, ReadCount, Overlay;
  }

  /** Reading at or before the end of the range. */
  lemma ReadsOn(p: Player, d: Disc, buf: seq<Byte>, at: nat)
    requires Fits(p, d) && p.silence <= p.pos <= Range(p, d) && at <= |buf| < 0x8000_0000
    requires p.pos + (|buf| - at) < 0x8000_0000 || Range(p, d) < 0x8000_0000
    ensures var left, seek := Range(p, d) - p.pos, p.fileoffset + p.pos - p.silence;
      var w := if left > |buf| - at then |buf| - at else left;
      var ret := ReadCount(d.file, seek, w);
      ReadOn(p, d, buf, at, -1, 0)
          == Went(p.(pos := p.pos + ret), Filled(buf, at, d.file, seek, ret), at + ret, w - ret)
  {
    LeftToRead(p, d);
    hide AtEnd, RangeWord, Range, U32, I32, ReadCount, Filled, Fits, EndFits, Reads;
    var left, seek := Range(p, d) - p.pos, p.fileoffset + p.pos - p.silence;
    var w := if left > |buf| - at then |buf| - at else left;
    ReadOnReads(p, d, buf, at, left, seek);
    hide ReadOn;
    PlainReads(p, d, buf, at, seek, w);
  }

  lemma ReadOnReads(p: Player, d: Disc, buf: seq<Byte>, at: nat, left: int, seek: nat)
    requires d.rs > 0 && at <= |buf| && left == I32(RangeWord(p, d) - p.pos) && seek == p.fileoffset + p.pos - p.silence
    ensures ReadOn(p, d, buf, at, -1, 0)
         == Reads(p, d, buf, at, seek, if left > |buf| - at then |buf| - at else left, false, 0)
  {
    hide RangeWord, I32, Reads;
  }

  lemma LeftToRead(p: Player, d: Disc)
    requires Fits(p, d) && p.silence <= p.pos <= Range(p, d)
    ensures 0 < d.rs && 0 <= Range(p, d) - p.pos < 0x8000_0000 && p.fileoffset >= 0
    ensures I32(RangeWord(p, d) - p.pos) == Range(p, d) - p.pos
  {
    EndByFrames(p, d);
    hide AtEnd, RangeWord, Range, U32, I32;
    NoWrap(Range(p, d) - p.pos);
  }

  lemma PlainReads(p: Player, d: Disc, buf: seq<Byte>, at: nat, seek: nat, w: nat)
    requires at + w <= |buf| && p.pos + ReadCount(d.file, seek, w) < 0x8000_0000
    ensures var ret := ReadCount(d.file, seek, w);
      Reads(p, d, buf, at, seek, w, false, 0)
        == Went(p.(pos := p.pos + ret), Filled(buf, at, d.file, seek, ret), at + ret, w - ret)
  {
    NoWrap(p.pos + ReadCount(d.file, seek, w));
    hide U32, I32, ReadCount, Filled;
  }

  /** Past the end, because the pregap reaches beyond it: the position is put back to the end. */
  lemma ReadsPastEnd(p: Player, d: Disc, buf: seq<Byte>, at: nat)
    requires Fits(p, d) && p.silence <= p.pos && Range(p, d) < p.pos && at <= |buf| < 0x8000_0000
    ensures ReadOn(p, d, buf, at, -1, 0) == Went(p.(pos := Range(p, d)), buf, at, 0)
  {
    EndByFrames(p, d);
    NothingRead(d.file, p.fileoffset + p.pos - p.silence);
    hide AtEnd, RangeWord, Range, U32, I32, ReadCount;
    var e := Range(p, d);
    NoWrap(e - p.pos);
    NoWrap(e);
  }

  lemma NothingRead(file: seq<Byte>, at: nat)
    ensures ReadCount(file, at, 0) == 0
  {
  }

  /** The bytes of a buffer that was quiet up to what was read. */
  lemma FilledBytes(p: Player, d: Disc, n: nat, at: nat, seek: nat, ret: nat, k: nat)
    requires at + ret <= n && (ret > 0 ==> seek + ret <= |d.file|) && k < n
    ensures Filled(Quiet(d, n), at, d.file, seek, ret)[k]
         == if at <= k < at + ret then d.file[seek + k - at] else d.quiet
  {
  }

  /** A callback's bytes are the play's next bytes. */
  ghost predicate PlaysOn(p: Player, d: Disc, l: nat, n: nat)
    requires d.rs > 0 && p.fileoffset >= 0
  {
    var (buf, p') := FillNormal(p, d, n);
    && HasPlayed(p', d, l + n) && SamePlay(p, p')
    && buf.Some? && |buf.value| == n
    && forall k :: 0 <= k < n ==> buf.value[k] == ByteAt(p, d, l + k)
  }

  /** Up to position `l` the position fits a C `int`. */
  predicate StaysBelow(p: Player, d: Disc, l: nat) {
    l < 0x8000_0000 || Range(p, d) < 0x8000_0000
  }

  /** One callback plays on from where the last one stopped. */
  lemma FillNormalPlays(p: Player, d: Disc, l: nat, n: nat)
    requires HasPlayed(p, d, l) && n < 0x8000_0000 && StaysBelow(p, d, l + n)
    ensures PlaysOn(p, d, l, n)
  {
    if p.status != Playing || p.pos >= Range(p, d) {
      PlaysNothing(p, d, l, n);
    } else if p.silence - p.pos >= n {
      PlaysSilence(p, d, n);
    } else {
      PlaysBytes(p, d, n);
    }
  }

  lemma PlaysNothing(p: Player, d: Disc, l: nat, n: nat)
    requires HasPlayed(p, d, l) && n < 0x8000_0000 && (p.status != Playing || p.pos >= Range(p, d))
    ensures PlaysOn(p, d, l, n)
  {
    NothingMore(p, d, n);
    QuietBytes(d, n);
    hide FillNormal, Quiet;
  }

  lemma PlaysSilence(p: Player, d: Disc, n: nat)
    requires InRange(p, d) && n < 0x8000_0000 && p.pos < Range(p, d) && p.silence - p.pos >= n
    ensures PlaysOn(p, d, p.pos, n)
  {
    NoWrap(p.silence - p.pos);
    TurnSilent(p, d, Quiet(d, n));
    QuietBytes(d, n);
    hide DoTurn, Quiet, I32;
  }

  lemma NothingMore(p: Player, d: Disc, n: nat)
    requires HasPlayed(p, d, p.pos) && (p.status != Playing || p.pos >= Range(p, d))
    ensures FillNormal(p, d, n) == (Some(Quiet(d, n)), p.(status := Completed))
  {
    hide DoTurn;
    if p.status == Playing {
      TurnEnds(p, d, Quiet(d, n), I32(p.silence - p.pos));
    }
  }

  lemma PlaysBytes(p: Player, d: Disc, n: nat)
    requires StaysBelow(p, d, p.pos + n)
    requires InRange(p, d) && p.pos < Range(p, d) && p.silence - p.pos < n < 0x8000_0000
    ensures PlaysOn(p, d, p.pos, n)
  {
    var skip := if p.silence > p.pos then p.silence - p.pos else 0;
    TurnGoesOn(p, d, n, skip);
    hide DoTurn, ReadOn, I32, Quiet, PlaysOn;
    if p.pos + skip <= Range(p, d) {
      PlaysFile(p, d, n, skip);
    } else {
      PlaysPregapOnly(p, d, n, skip);
    }
  }

  lemma TurnGoesOn(p: Player, d: Disc, n: nat, skip: nat)
    requires InRange(p, d) && p.pos < Range(p, d) && n < 0x8000_0000
    requires skip == (if p.silence > p.pos then p.silence - p.pos else 0) && p.silence - p.pos < n
    ensures skip <= n && p.pos + skip < 0x8000_0000 && I32(p.silence - p.pos) == p.silence - p.pos
    ensures DoTurn(p, d, Quiet(d, n), 0, p.silence - p.pos, -1, 0)
         == ReadOn(p.(pos := p.pos + skip), d, Quiet(d, n), skip, -1, 0)
  {
    hide DoTurn, ReadOn, Quiet, I32, Range;
    LongTurn(p, d, n);
  }

  /** A turn that is not at the end. */
  lemma LongTurn(p: Player, d: Disc, n: nat)
    requires EndFits(p, d) && p.pos < Range(p, d) && p.silence < 0x8000_0000 && n < 0x8000_0000
    ensures I32(p.silence - p.pos) == p.silence - p.pos
    ensures DoTurn(p, d, Quiet(d, n), 0, p.silence - p.pos, -1, 0) ==
      if p.silence - p.pos >= n then Returned(p.(pos := p.pos + n), Quiet(d, n))
      else
        var skip := if p.silence > p.pos then p.silence - p.pos else 0;
        ReadOn(p.(pos := p.pos + skip), d, Quiet(d, n), skip, -1, 0)
  {
    hide AtEnd, DoTurn, ReadOn, Range, U32, I32, Quiet, EndFits;
    NotYetAtEnd(p, d);
    var skip := if p.silence > p.pos then p.silence - p.pos else 0;
    TurnSteps(p, d, Quiet(d, n), p.silence - p.pos);
    NoWrap(p.silence - p.pos);
    NoWrap(p.pos + skip);
    NoWrap(p.pos + n);
  }

  lemma NotYetAtEnd(p: Player, d: Disc)
    requires EndFits(p, d) && p.pos < Range(p, d)
    ensures d.rs > 0 && p.pos < 0x8000_0000 && !AtEnd(p, d)
  {
    hide AtEnd;
    EndByFrames(p, d);
  }

  lemma TurnSteps(p: Player, d: Disc, buf: seq<Byte>, r: int)
    requires d.rs > 0 && !AtEnd(p, d)
    ensures var skip := if r > 0 then r else 0;
      DoTurn(p, d, buf, 0, r, -1, 0) ==
        if r >= |buf| then Returned(p.(pos := U32(p.pos + |buf|)), buf)
        else ReadOn(p.(pos := U32(p.pos + skip)), d, buf, skip, -1, 0)
  {
    hide AtEnd, ReadOn, U32;
  }

  lemma PlaysPregapOnly(p: Player, d: Disc, n: nat, skip: nat)
    requires InRange(p, d) && p.pos < Range(p, d) && n < 0x8000_0000
    requires skip == (if p.silence > p.pos then p.silence - p.pos else 0) && skip <= n && p.pos + skip > Range(p, d)
    requires p.silence - p.pos < n && I32(p.silence - p.pos) == p.silence - p.pos
    requires DoTurn(p, d, Quiet(d, n), 0, p.silence - p.pos, -1, 0)
          == ReadOn(p.(pos := p.pos + skip), d, Quiet(d, n), skip, -1, 0)
    ensures PlaysOn(p, d, p.pos, n)
  {
    hide DoTurn, ReadOn, U32, I32, ReadCount, Filled, Quiet;
    ReadsPastEnd(p.(pos := p.pos + skip), d, Quiet(d, n), skip);
    NoWrap(Range(p, d));
    assert FillNormal(p, d, n) == (Some(Quiet(d, n)), p.(pos := Range(p, d)));
    QuietBytes(d, n);
  }

  lemma QuietBytes(d: Disc, n: nat)
    ensures forall k :: 0 <= k < n ==> Quiet(d, n)[k] == d.quiet
  {
  }

  lemma PlaysFile(p: Player, d: Disc, n: nat, skip: nat)
    requires StaysBelow(p, d, p.pos + n)
    requires InRange(p, d) && p.pos < Range(p, d) && n < 0x8000_0000
    requires skip == (if p.silence > p.pos then p.silence - p.pos else 0) && skip <= n && p.pos + skip <= Range(p, d)
    requires p.silence - p.pos < n && I32(p.silence - p.pos) == p.silence - p.pos
    requires DoTurn(p, d, Quiet(d, n), 0, p.silence - p.pos, -1, 0)
          == ReadOn(p.(pos := p.pos + skip), d, Quiet(d, n), skip, -1, 0)
    ensures PlaysOn(p, d, p.pos, n)
  {
    hide DoTurn, ReadOn, FillNormal, ReadCount, Filled, Quiet, ByteAt, Range;
    var seek, left := p.fileoffset + (p.pos + skip) - p.silence, Range(p, d) - (p.pos + skip);
    var w := if left > n - skip then n - skip else left;
    var filled := Filled(Quiet(d, n), skip, d.file, seek, ReadCount(d.file, seek, w));
    FillsFromFile(p, d, n, skip);
    forall k | 0 <= k < n
      ensures filled[k] == ByteAt(p, d, p.pos + k)
    {
      FileByte(p, d, n, skip, k);
    }
    FileProgress(p, d, n, skip);
  }

  lemma FileProgress(p: Player, d: Disc, n: nat, skip: nat)
    requires StaysBelow(p, d, p.pos + n)
    requires InRange(p, d) && p.pos < Range(p, d) && n < 0x8000_0000
    requires skip == (if p.silence > p.pos then p.silence - p.pos else 0) && skip <= n && p.pos + skip <= Range(p, d)
    ensures var left := Range(p, d) - (p.pos + skip);
      var w := if left > n - skip then n - skip else left;
      p.pos + skip + w < 0x8000_0000 && HasPlayed(p.(pos := p.pos + skip + w), d, p.pos + n)
  {
    var left := Range(p, d) - (p.pos + skip);
    var w := if left > n - skip then n - skip else left;
    assert Range(p.(pos := p.pos + skip + w), d) == Range(p, d);
    hide Range;
  }

  /** What a callback that reads from the file does. */
  lemma FillsFromFile(p: Player, d: Disc, n: nat, skip: nat)
    requires StaysBelow(p, d, p.pos + n)
    requires InRange(p, d) && p.pos < Range(p, d) && n < 0x8000_0000
    requires skip == (if p.silence > p.pos then p.silence - p.pos else 0) && skip <= n && p.pos + skip <= Range(p, d)
    requires p.silence - p.pos < n && I32(p.silence - p.pos) == p.silence - p.pos
    requires DoTurn(p, d, Quiet(d, n), 0, p.silence - p.pos, -1, 0)
          == ReadOn(p.(pos := p.pos + skip), d, Quiet(d, n), skip, -1, 0)
    ensures var pos := p.pos + skip;
      var seek, left := p.fileoffset + pos - p.silence, Range(p, d) - pos;
      var w := if left > n - skip then n - skip else left;
      pos + w < 0x8000_0000 &&
      FillNormal(p, d, n) == (Some(Filled(Quiet(d, n), skip, d.file, seek, ReadCount(d.file, seek, w))),
          p.(pos := pos + w))
  {
    hide DoTurn, ReadOn, U32, I32, ReadCount, Filled, Quiet;
    var q := p.(pos := p.pos + skip);
    assert Range(q, d) == Range(p, d);
    ReadsOn(q, d, Quiet(d, n), skip);
    hide Range;
    var left := Range(p, d) - q.pos;
    NoWrap(q.pos + if left > n - skip then n - skip else left);
  }

  /** A byte of a callback that reads from the file. */
  lemma FileByte(p: Player, d: Disc, n: nat, skip: nat, k: nat)
    requires InRange(p, d) && p.pos < Range(p, d) && k < n
    requires skip == (if p.silence > p.pos then p.silence - p.pos else 0) && skip <= n && p.pos + skip <= Range(p, d)
    ensures var pos := p.pos + skip;
      var seek, left := p.fileoffset + pos - p.silence, Range(p, d) - pos;
      var w := if left > n - skip then n - skip else left;
      Filled(Quiet(d, n), skip, d.file, seek, ReadCount(d.file, seek, w))[k] == ByteAt(p, d, p.pos + k)
  {
    hide ReadCount, Filled, Quiet, Range;
    var pos := p.pos + skip;
    var seek, left := p.fileoffset + pos - p.silence, Range(p, d) - pos;
    var w := if left > n - skip then n - skip else left;
    FilledBytes(p, d, n, skip, seek, ReadCount(d.file, seek, w), k);
    if skip <= k < skip + w { ReadCountReaches(d.file, seek, w, k - skip); }
  }

  lemma ReadCountReaches(file: seq<Byte>, at: nat, want: nat, k: nat)
    requires k < want
    ensures k < ReadCount(file, at, want) <==> at + k < |file|
  {
  }

  // ---------- Whole plays ----------

  /** The bytes of one callback after another, of the given sizes. */
  function PlayAll(p: Player, d: Disc, sizes: seq<nat>): (out: seq<Byte>)
    requires d.rs > 0
    decreases |sizes|
  {
    if sizes == [] then []
    else
      var (buf, p') := FillNormal(p, d, sizes[0]);
      (if buf.Some? then buf.value else []) + PlayAll(p', d, sizes[1..])
  }

  function Sum(sizes: seq<nat>): (n: nat)
    decreases |sizes|
  {
    if sizes == [] then 0 else sizes[0] + Sum(sizes[1..])
  }

  ghost predicate ValidSizes(sizes: seq<nat>) {
    forall i :: 0 <= i < |sizes| ==> sizes[i] < 0x8000_0000
  }

  /** The play's bytes from position `l` on. */
  function Stream(p: Player, d: Disc, l: nat, n: nat): (s: seq<Byte>)
    requires p.fileoffset >= 0
    ensures |s| == n
  {
    seq<Byte>(n, k requires 0 <= k < n => ByteAt(p, d, l + k))
  }

  /** However the play is cut into callbacks, the bytes are the same: those of the absolute positions. */
  lemma {:induction false} AnySplitPlaysTheSame(p: Player, d: Disc, l: nat, sizes: seq<nat>)
    requires HasPlayed(p, d, l) && ValidSizes(sizes) && StaysBelow(p, d, l + Sum(sizes))
    ensures PlayAll(p, d, sizes) == Stream(p, d, l, Sum(sizes))
    decreases |sizes|
  {
    hide FillNormal, ByteAt, Range;
    if sizes != [] {
      var n := sizes[0];
      FillNormalPlays(p, d, l, n);
      var (buf, p') := FillNormal(p, d, n);
      SamePlaySameBytes(p, p', d, l);
      AnySplitPlaysTheSame(p', d, l + n, sizes[1..]);
      forall k | 0 <= k < Sum(sizes)
        ensures PlayAll(p, d, sizes)[k] == Stream(p, d, l, Sum(sizes))[k]
      {
        if k >= n { SamePlaySameBytes(p, p', d, l + k); }
      }
    }
  }

  lemma SamePlaySameBytes(p: Player, p': Player, d: Disc, q: nat)
    requires SamePlay(p, p') && p.fileoffset >= 0
    ensures p'.fileoffset >= 0 && ByteAt(p', d, q) == ByteAt(p, d, q) && Range(p', d) == Range(p, d)
  {
  }

  // ---------- Plays of 2^31 bytes and more ----------

  /** A play too long for a C `int`, whether the file holds all of its range or ends before. */
  predicate LongPlay(p: Player, d: Disc) {
    && EndFits(p, d) && 0x8000_0000 <= Range(p, d) && p.silence < 0x8000_0000
    && !p.scanning && p.fileoffset >= 0
  }

  /** How far such a play is heard: not at all if the file's part is itself too long for an `int`, and else
      up to where the position gets too large for one. */
  function Cut(p: Player, d: Disc): (q: nat) {
    if Range(p, d) - p.silence >= 0x8000_0000 then 0 else 0x8000_0000
  }

  /** Past the pregap the amount left is a negative `int`: nothing is read, and the play ends. */
  lemma NoneLeft(p: Player, d: Disc, buf: seq<Byte>, at: nat)
    requires LongPlay(p, d) && p.pos == p.silence && Cut(p, d) == 0 && at <= |buf| < 0x8000_0000
    ensures ReadOn(p, d, buf, at, -1, 0) == Returned(p.(status := Completed, pos := Range(p, d)), buf)
  {
    var left := Range(p, d) - p.silence - 0x1_0000_0000;
    LeftWraps(p, d);
    hide RangeWord, Range, ReadOn, Reads, LongPlay, I32;
    ReadOnReads(p, d, buf, at, left, p.fileoffset);
    NegativeReads(p, d, buf, at, p.fileoffset, left);
  }

  lemma LeftWraps(p: Player, d: Disc)
    requires LongPlay(p, d) && p.pos == p.silence && Cut(p, d) == 0
    ensures d.rs > 0 && p.fileoffset >= 0 && 0x8000_0000 <= Range(p, d) < 0x1_0000_0000
    ensures I32(RangeWord(p, d) - p.pos) == Range(p, d) - p.silence - 0x1_0000_0000 < 0
  {
    EndByFrames(p, d);
    hide AtEnd, RangeWord, Range, U32, I32;
    Wraps(Range(p, d), p.silence);
  }

  lemma NegativeReads(p: Player, d: Disc, buf: seq<Byte>, at: nat, seek: nat, left: int)
    requires left < 0 && at <= |buf| && 0x8000_0000 <= p.pos + left + 0x1_0000_0000 < 0x1_0000_0000
    ensures Reads(p, d, buf, at, seek, left, false, 0)
         == Returned(p.(status := Completed, pos := p.pos + left + 0x1_0000_0000), buf)
  {
    Wraps(p.pos + left + 0x1_0000_0000, 0);
    NothingRead(d.file, seek);
    NothingFilled(buf, d.file, seek);
    hide U32, I32, ReadCount, Filled;
  }

  lemma Wraps(e: int, silence: int)
    requires 0x8000_0000 <= e < 0x1_0000_0000 && 0 <= silence < 0x8000_0000
    ensures I32(e) == e - 0x1_0000_0000 && U32(e - 0x1_0000_0000) == e == U32(e)
    ensures e - silence >= 0x8000_0000 ==> I32(e - silence) == e - silence - 0x1_0000_0000
  {
  }

  /** No callback of such a play is heard, and it is in its pregap or at its end. */
  lemma CallbackIsSilent(p: Player, d: Disc, n: nat)
    requires LongPlay(p, d) && Cut(p, d) == 0 && n < 0x8000_0000
    requires p.status == Completed || (p.status == Playing && p.pos <= p.silence)
    ensures var (buf, p') := FillNormal(p, d, n);
      && buf == Some(Quiet(d, n)) && p' == p.(status := p'.status, pos := p'.pos)
      && (p'.status == Completed || (p'.status == Playing && p'.pos <= p'.silence))
  {
    hide DoTurn, ReadOn, U32, I32, Quiet, Range;
    if p.status == Playing {
      NoWrap(p.silence - p.pos);
      if p.silence - p.pos >= n {
        LongTurn(p, d, n);
      } else {
        LongTurn(p, d, n);
        LongStays(p, p.(pos := p.silence), d);
        NoneLeft(p.(pos := p.silence), d, Quiet(d, n), p.silence - p.pos);
      }
    }
  }

  /** The file has ended, and silence has been played on to a position too large for an `int`. */
  predicate RunsOut(p: Player, d: Disc) {
    && LongPlay(p.(pos := 0), d) && Cut(p, d) > 0 && p.status == Playing
    && 0x8000_0000 <= p.pos <= Range(p, d) && p.fileoffset + p.pos - p.silence >= |d.file|
  }

  /** The next callback ends such a play: nothing is read, and the position looks negative. */
  lemma RunOutIsSilent(p: Player, d: Disc, n: nat)
    requires RunsOut(p, d) && n < 0x8000_0000
    ensures FillNormal(p, d, n) == (Some(Quiet(d, n)), p.(status := Completed))
  {
    hide RunsOut, DoTurn, FillNormal, Range, I32, Quiet;
    RunOutNumbers(p, d);
    RunOutTurn(p, d, Quiet(d, n));
    CutOffFills(p, d, n);
  }

  lemma RunOutTurn(p: Player, d: Disc, buf: seq<Byte>)
    requires RunsOut(p, d)
    ensures d.rs > 0 && p.silence < p.pos
    ensures DoTurn(p, d, buf, 0, p.silence - p.pos, -1, 0) == Returned(p.(status := Completed), buf)
  {
    hide RunsOut, AtEnd, DoTurn, ReadOn, Range, RangeWord, U32, I32;
    RunOutNumbers(p, d);
    if p.pos < Range(p, d) {
      TurnSteps(p, d, buf, p.silence - p.pos);
      RunOutReads(p, d, buf);
      assert p.(pos := p.pos) == p;
    } else {
      TurnAtEnd(p, d, buf, p.silence - p.pos);
    }
  }

  lemma RunOutNumbers(p: Player, d: Disc)
    requires RunsOut(p, d)
    ensures d.rs > 0 && p.status == Playing && p.silence < p.pos && U32(p.pos) == p.pos
    ensures I32(p.silence - p.pos) == p.silence - p.pos < 0
    ensures AtEnd(p, d) <==> p.pos >= Range(p, d)
    ensures I32(RangeWord(p, d) - p.pos) == Range(p, d) - p.pos >= 0
    ensures p.fileoffset + p.pos - p.silence >= |d.file| && p.pos >= 0x8000_0000
  {
    assert Range(p.(pos := 0), d) == Range(p, d);
    EndByFrames(p, d);
    hide AtEnd, RangeWord, Range, U32, I32;
    NoWrap(p.pos);
    NoWrap(p.silence - p.pos);
    NoWrap(Range(p, d) - p.pos);
  }

  lemma TurnAtEnd(p: Player, d: Disc, buf: seq<Byte>, r: int)
    requires d.rs > 0 && AtEnd(p, d)
    ensures DoTurn(p, d, buf, 0, r, -1, 0) == Returned(p.(status := Completed), buf)
  {
    hide AtEnd, ReadOn;
  }

  lemma RunOutReads(p: Player, d: Disc, buf: seq<Byte>)
    requires d.rs > 0 && I32(RangeWord(p, d) - p.pos) >= 0 && 0x8000_0000 <= p.pos && U32(p.pos) == p.pos
    requires p.fileoffset + p.pos - p.silence >= |d.file|
    ensures ReadOn(p, d, buf, 0, -1, 0) == Returned(p.(status := Completed), buf)
  {
    var seek, left := p.fileoffset + p.pos - p.silence, I32(RangeWord(p, d) - p.pos);
    ReadOnReads(p, d, buf, 0, left, seek);
    var w := if left > |buf| then |buf| else left;
    assert ReadCount(d.file, seek, w) == 0;
    NothingFilled(buf, d.file, seek);
    Wraps(p.pos, 0);
    hide ReadOn, U32, I32, ReadCount, Filled, RangeWord;
    assert p.(pos := p.pos) == p;
  }

  /** Nothing more of the play is heard. */
  predicate Unheard(p: Player, d: Disc) {
    || p.status == Completed
    || RunsOut(p, d)
    || (LongPlay(p, d) && Cut(p, d) == 0 && p.status == Playing && p.pos <= p.silence)
  }

  lemma UnheardCallback(p: Player, d: Disc, n: nat)
    requires Unheard(p, d) && d.rs > 0 && n < 0x8000_0000
    ensures var (buf, p') := FillNormal(p, d, n); buf == Some(Quiet(d, n)) && Unheard(p', d)
  {
    if RunsOut(p, d) {
      RunOutIsSilent(p, d, n);
    } else if p.status == Playing {
      CallbackIsSilent(p, d, n);
      var p' := FillNormal(p, d, n).1;
      hide FillNormal, LongPlay;
      if p'.status == Playing { LongStays(p, p', d); }
    }
  }

  lemma {:induction false} LongPlayIsSilent(p: Player, d: Disc, sizes: seq<nat>)
    requires Unheard(p, d) && d.rs > 0 && ValidSizes(sizes)
    ensures PlayAll(p, d, sizes) == Quiet(d, Sum(sizes))
    decreases |sizes|
  {
    hide FillNormal, Unheard;
    if sizes != [] {
      UnheardCallback(p, d, sizes[0]);
      LongPlayIsSilent(FillNormal(p, d, sizes[0]).1, d, sizes[1..]);
      QuietJoins(d, sizes[0], Sum(sizes[1..]));
    }
  }

  lemma LongStays(p: Player, p': Player, d: Disc)
    requires LongPlay(p, d) && SamePlay(p, p') && p'.pos < 0x8000_0000
    ensures LongPlay(p', d) && Cut(p', d) == Cut(p, d) && Range(p', d) == Range(p, d)
  {
    assert Range(p', d) == Range(p, d);
    hide Range;
  }

  lemma QuietJoins(d: Disc, m: nat, n: nat)
    ensures Quiet(d, m) + Quiet(d, n) == Quiet(d, m + n)
  {
  }

  /** The callback in which the position gets too large for an `int` plays its bytes; it ends the play, or the
      next one does because the file has ended. */
  lemma CallbackCutsOff(p: Player, d: Disc, n: nat)
    requires LongPlay(p, d) && Cut(p, d) > 0 && p.status == Playing && n < 0x8000_0000
    requires p.pos + n >= 0x8000_0000
    ensures var (buf, p') := FillNormal(p, d, n);
      && buf == Some(Stream(p, d, p.pos, n)) && Unheard(p', d) && SamePlay(p, p')
  {
    var skip, w, seek := ReadingAt(p, d, n);
    var ret := ReadCount(d.file, seek, w);
    var filled := Filled(Quiet(d, n), skip, d.file, seek, ret);
    CutOffReads(p, d, n, skip, w, seek, ret, filled);
    LongFacts(p, d);
    hide Quiet, Filled, ReadCount, Range, FillNormal, Unheard, Stream;
    ReadsStream(p, d, n, skip, w, seek, ret, filled);
  }

  /** Such a callback's bytes are the play's. */
  lemma ReadsStream(p: Player, d: Disc, n: nat, skip: nat, w: nat, seek: nat, ret: nat, filled: seq<Byte>)
    requires InRange(p, d) && p.fileoffset >= 0 && p.pos < Range(p, d)
    requires Reading(p, d, n, skip, w, seek) && ret == ReadCount(d.file, seek, w)
    requires skip + ret <= n && filled == Filled(Quiet(d, n), skip, d.file, seek, ret)
    ensures filled == Stream(p, d, p.pos, n)
  {
    hide InRange, Quiet, Filled, ReadCount, Range, ByteAt;
    forall k | 0 <= k < n
      ensures filled[k] == ByteAt(p, d, p.pos + k)
    {
      FileByte(p, d, n, skip, k);
    }
  }

  /** What a callback reads that takes the position to 2^31 or beyond: how much pregap there is before it, how
      much is wanted, and from where. */
  predicate Reading(p: Player, d: Disc, n: nat, skip: nat, w: nat, seek: nat) {
    && skip == (if p.silence > p.pos then p.silence - p.pos else 0) && skip <= n
    && w == (if Range(p, d) - (p.pos + skip) > n - skip then n - skip else Range(p, d) - (p.pos + skip))
    && seek == p.fileoffset + (p.pos + skip) - p.silence
    && p.pos + skip < 0x8000_0000 <= p.pos + skip + w <= Range(p, d) < 0x1_0000_0000
  }

  lemma ReadingAt(p: Player, d: Disc, n: nat)
    returns (skip: nat, w: nat, seek: nat)
    requires LongPlay(p, d) && Cut(p, d) > 0 && n < 0x8000_0000 && p.pos + n >= 0x8000_0000
    ensures Reading(p, d, n, skip, w, seek)
  {
    skip := if p.silence > p.pos then p.silence - p.pos else 0;
    var left := Range(p, d) - (p.pos + skip);
    w := if left > n - skip then n - skip else left;
    seek := p.fileoffset + (p.pos + skip) - p.silence;
    hide Range;
  }

  lemma CutOffReads(p: Player, d: Disc, n: nat, skip: nat, w: nat, seek: nat, ret: nat, filled: seq<Byte>)
    requires LongPlay(p, d) && Cut(p, d) > 0 && p.status == Playing && n < 0x8000_0000
    requires Reading(p, d, n, skip, w, seek) && ret == ReadCount(d.file, seek, w)
    requires skip + ret <= n && filled == Filled(Quiet(d, n), skip, d.file, seek, ret)
    ensures var (buf, p') := FillNormal(p, d, n); buf == Some(filled) && Unheard(p', d) && SamePlay(p, p')
  {
    hide DoTurn, FillNormal, I32, Quiet, Filled, ReadCount, Reads, Range, LongPlay, Cut, RunsOut;
    var q := p.(pos := p.pos + skip);
    LongReads(p, q, d, n, skip, w, seek);
    if q.pos + ret >= 0x8000_0000 {
      CutOffNow(p, q, d, n, skip, w, seek);
    } else {
      CutOffNext(p, q, d, n, skip, w, seek);
    }
  }

  lemma CutOffNow(p: Player, q: Player, d: Disc, n: nat, skip: nat, w: nat, seek: nat)
    requires d.rs > 0 && p.status == Playing && q == p.(pos := q.pos)
    requires skip + w <= n && q.pos + w < 0x1_0000_0000 && q.pos + ReadCount(d.file, seek, w) >= 0x8000_0000
    requires DoTurn(p, d, Quiet(d, n), 0, I32(p.silence - p.pos), -1, 0)
          == Reads(q, d, Quiet(d, n), skip, seek, w, false, 0)
    ensures var ret := ReadCount(d.file, seek, w);
      FillNormal(p, d, n)
        == (Some(Filled(Quiet(d, n), skip, d.file, seek, ret)), p.(pos := q.pos + ret, status := Completed))
  {
    hide DoTurn, FillNormal, I32, U32, Quiet, Filled, ReadCount, Reads;
    CutOffFills(p, d, n);
    ReadsTooFar(q, d, Quiet(d, n), skip, seek, w);
  }

  lemma CutOffNext(p: Player, q: Player, d: Disc, n: nat, skip: nat, w: nat, seek: nat)
    requires LongPlay(p, d) && Cut(p, d) > 0 && p.status == Playing && q == p.(pos := q.pos)
    requires 0x8000_0000 <= q.pos + w <= Range(p, d) < 0x1_0000_0000 && seek == p.fileoffset + q.pos - p.silence
    requires skip + w <= n && q.pos + ReadCount(d.file, seek, w) < 0x8000_0000
    requires d.rs > 0
    requires DoTurn(p, d, Quiet(d, n), 0, I32(p.silence - p.pos), -1, 0)
          == Reads(q, d, Quiet(d, n), skip, seek, w, false, 0)
    ensures FillNormal(p, d, n)
         == (Some(Filled(Quiet(d, n), skip, d.file, seek, ReadCount(d.file, seek, w))), p.(pos := q.pos + w))
    ensures RunsOut(p.(pos := q.pos + w), d)
  {
    hide DoTurn, FillNormal, I32, U32, Quiet, Filled, ReadCount, Reads, Range, LongPlay, Cut, RunsOut;
    CutOffFills(p, d, n);
    PlainReads(q, d, Quiet(d, n), skip, seek, w);
    ReadsToEnd(d.file, seek, w);
    NoWrap(q.pos + w);
    RunsOutThere(p, d, q.pos + w);
  }

  lemma ReadsToEnd(file: seq<Byte>, at: nat, want: nat)
    ensures ReadCount(file, at, want) < want ==> at + want >= |file|
  {
  }

  /** The callback's turn comes to its read. */
  lemma LongReads(p: Player, q: Player, d: Disc, n: nat, skip: nat, w: nat, seek: nat)
    requires LongPlay(p, d) && Cut(p, d) > 0 && n < 0x8000_0000 && Reading(p, d, n, skip, w, seek)
    requires q == p.(pos := q.pos) && q.pos == p.pos + skip
    ensures d.rs > 0
    ensures DoTurn(p, d, Quiet(d, n), 0, I32(p.silence - p.pos), -1, 0)
         == Reads(q, d, Quiet(d, n), skip, seek, w, false, 0)
  {
    hide DoTurn, ReadOn, Reads, I32, Quiet, Range, RangeWord, LongPlay, Cut, EndFits, Reading;
    LongTurnTo(p, q, d, n, skip, w, seek);
    LongWants(p, q, d, n, skip, w, seek);
    ReadOnReads(q, d, Quiet(d, n), skip, Range(p, d) - q.pos, seek);
  }

  lemma LongWants(p: Player, q: Player, d: Disc, n: nat, skip: nat, w: nat, seek: nat)
    requires LongPlay(p, d) && Cut(p, d) > 0 && Reading(p, d, n, skip, w, seek)
    requires q == p.(pos := q.pos) && q.pos == p.pos + skip
    ensures d.rs > 0 && I32(RangeWord(q, d) - q.pos) == Range(p, d) - q.pos
    ensures skip <= n && seek == q.fileoffset + q.pos - q.silence
    ensures w == if Range(p, d) - q.pos > n - skip then n - skip else Range(p, d) - q.pos
  {
    hide I32, Range, RangeWord, LongPlay, Cut;
    LongStays(p, q, d);
    LongLeft(q, d);
  }

  lemma LongTurnTo(p: Player, q: Player, d: Disc, n: nat, skip: nat, w: nat, seek: nat)
    requires LongPlay(p, d) && n < 0x8000_0000 && Reading(p, d, n, skip, w, seek)
    requires q == p.(pos := q.pos) && q.pos == p.pos + skip
    ensures d.rs > 0 && I32(p.silence - p.pos) == p.silence - p.pos
    ensures DoTurn(p, d, Quiet(d, n), 0, p.silence - p.pos, -1, 0) == ReadOn(q, d, Quiet(d, n), skip, -1, 0)
  {
    hide DoTurn, ReadOn, I32, Quiet, Range, LongPlay, EndFits;
    LongFacts(p, d);
    LongTurn(p, d, n);
  }

  lemma LongFacts(p: Player, d: Disc)
    requires LongPlay(p, d)
    ensures EndFits(p, d) && d.rs > 0 && p.silence < 0x8000_0000 && p.pos < Range(p, d)
  {
    hide Range;
  }

  /** A read that takes the position to 2^31 or beyond makes it look negative. */
  lemma ReadsTooFar(p: Player, d: Disc, buf: seq<Byte>, at: nat, seek: nat, w: nat)
    requires at + w <= |buf| && p.pos + w < 0x1_0000_0000 && p.pos + ReadCount(d.file, seek, w) >= 0x8000_0000
    ensures var ret := ReadCount(d.file, seek, w);
      Reads(p, d, buf, at, seek, w, false, 0)
        == Returned(p.(status := Completed, pos := p.pos + ret), Filled(buf, at, d.file, seek, ret))
  {
    NoWrap(p.pos + ReadCount(d.file, seek, w));
    Wraps(p.pos + ReadCount(d.file, seek, w), 0);
    hide U32, I32, ReadCount, Filled;
  }

  /** What the callback makes of its turn. */
  lemma CutOffFills(p: Player, d: Disc, n: nat)
    requires d.rs > 0 && p.status == Playing
    ensures var t := DoTurn(p, d, Quiet(d, n), 0, I32(p.silence - p.pos), -1, 0);
      && (t.Returned? ==> FillNormal(p, d, n) == (Some(t.buf), t.p))
      && (t.Went? && 0 < t.available <= n - t.offset ==>
            FillNormal(p, d, n) == (Some(t.buf), t.p.(pos := U32(t.p.pos + t.available))))
  {
    hide DoTurn, I32, U32, Quiet;
  }

  /** What is left of the play, where the file's part fits an `int`. */
  lemma LongLeft(p: Player, d: Disc)
    requires LongPlay(p, d) && Cut(p, d) > 0 && p.silence <= p.pos
    ensures d.rs > 0 && 0 <= Range(p, d) - p.pos < 0x8000_0000 && Range(p, d) < 0x1_0000_0000
    ensures p.fileoffset >= 0 && I32(RangeWord(p, d) - p.pos) == Range(p, d) - p.pos
  {
    EndByFrames(p, d);
    hide AtEnd, RangeWord, Range, U32, I32;
    NoWrap(Range(p, d) - p.pos);
  }

  lemma RunsOutThere(p: Player, d: Disc, pos: Word32)
    requires LongPlay(p, d) && Cut(p, d) > 0 && p.status == Playing
    requires 0x8000_0000 <= pos <= Range(p, d) && p.fileoffset + pos - p.silence >= |d.file|
    ensures RunsOut(p.(pos := pos), d)
  {
    assert Range(p.(pos := pos), d) == Range(p, d) == Range(p.(pos := 0), d);
    hide Range;
  }

  /** Where all that is cut off is quiet, cutting it off does not matter. */
  lemma {:induction false} LongPlayIsRight(p: Player, d: Disc, l: nat, sizes: seq<nat>)
    requires LongPlay(p, d) && Cut(p, d) > 0 && HasPlayed(p, d, l) && ValidSizes(sizes)
    requires forall q: nat :: 0x8000_0000 <= q < Range(p, d) ==> ByteAt(p, d, q) == d.quiet
    ensures PlayAll(p, d, sizes) == Stream(p, d, l, Sum(sizes))
    decreases |sizes|
  {
    hide FillNormal, ByteAt, Range;
    if sizes != [] {
      var n, rest := sizes[0], Sum(sizes[1..]);
      var (buf, p') := FillNormal(p, d, n);
      if l + n < 0x8000_0000 {
        FillNormalPlays(p, d, l, n);
        SamePlaySameBytes(p, p', d, l);
        SamePlayCovers(p, p', d);
        forall q: nat | 0x8000_0000 <= q < Range(p', d)
          ensures ByteAt(p', d, q) == d.quiet
        {
          SamePlaySameBytes(p, p', d, q);
        }
        LongPlayIsRight(p', d, l + n, sizes[1..]);
        StreamsMatch(p, p', d, l + n, rest);
        assert buf.value == Stream(p, d, l, n);
      } else {
        CallbackCutsOff(p, d, n);
        LongPlayIsSilent(p', d, sizes[1..]);
        QuietAfter(p, d, l + n, rest);
      }
      StreamJoins(p, d, l, n, rest);
    }
  }

  lemma SamePlayCovers(p: Player, p': Player, d: Disc)
    requires LongPlay(p, d) && SamePlay(p, p') && HasPlayed(p, d, p.pos)
    requires Fits(p', d)
    ensures LongPlay(p', d) && Cut(p', d) == Cut(p, d)
  {
  }

  lemma StreamsMatch(p: Player, p': Player, d: Disc, l: nat, n: nat)
    requires SamePlay(p, p') && p.fileoffset >= 0
    ensures Stream(p', d, l, n) == Stream(p, d, l, n)
  {
    forall k | 0 <= k < n
      ensures Stream(p', d, l, n)[k] == Stream(p, d, l, n)[k]
    {
      SamePlaySameBytes(p, p', d, l + k);
    }
  }

  lemma StreamJoins(p: Player, d: Disc, l: nat, m: nat, n: nat)
    requires p.fileoffset >= 0
    ensures Stream(p, d, l, m) + Stream(p, d, l + m, n) == Stream(p, d, l, m + n)
  {
    hide ByteAt;
  }

  lemma QuietAfter(p: Player, d: Disc, l: nat, n: nat)
    requires p.fileoffset >= 0 && l >= 0x8000_0000
    requires forall q: nat :: 0x8000_0000 <= q < Range(p, d) ==> ByteAt(p, d, q) == d.quiet
    ensures Stream(p, d, l, n) == Quiet(d, n)
  {
    forall k | 0 <= k < n
      ensures Stream(p, d, l, n)[k] == d.quiet
    {
      if l + k >= Range(p, d) { assert ByteAt(p, d, l + k) == d.quiet; }
    }
  }

  /** Callbacks that play up to just past position `q`. */
  function SizesTo(q: nat): (sizes: seq<nat>)
    requires q < 0xffff_ffff
  {
    if q < 0x8000_0000 then [q, 1] else [0x4000_0000, 0x4000_0000, q - 0x7fff_ffff]
  }

  lemma SizesReach(q: nat)
    requires q < 0xffff_ffff
    ensures ValidSizes(SizesTo(q)) && Sum(SizesTo(q)) == q + 1
  {
    var sizes := SizesTo(q);
    assert Sum(sizes[1..]) == if q < 0x8000_0000 then 1 else 0x4000_0000 + (q - 0x7fff_ffff) by {
      assert Sum(sizes[1..][1..]) == if q < 0x8000_0000 then 0 else q - 0x7fff_ffff;
    }
  }

  /** A byte that is cut off is not heard. */
  lemma LongPlayMisses(p: Player, d: Disc, q: nat)
    requires LongPlay(p, d) && p.status == Playing && p.pos == 0
    requires Cut(p, d) <= q < Range(p, d) && ByteAt(p, d, q) != d.quiet
    ensures PlayAll(p, d, SizesTo(q)) != Stream(p, d, 0, q + 1)
  {
    SizesReach(q);
    var sizes := SizesTo(q);
    if Cut(p, d) == 0 {
      hide LongPlay, Range, ByteAt, SizesTo, PlayAll;
      LongPlayIsSilent(p, d, sizes);
      assert Quiet(d, q + 1)[q] != Stream(p, d, 0, q + 1)[q];
    } else {
      LongPlayLast(p, d, sizes[2]);
      hide ByteAt, PlayAll;
      assert sizes == [0x4000_0000, 0x4000_0000, sizes[2]];
      assert PlayAll(p, d, sizes)[q] == d.quiet != Stream(p, d, 0, q + 1)[q];
    }
  }

  /** Two callbacks up to position 2^31, and one more that is silent. */
  lemma LongPlayLast(p: Player, d: Disc, n: nat)
    requires LongPlay(p, d) && Cut(p, d) > 0 && p.status == Playing && p.pos == 0 && n < 0x8000_0000
    ensures PlayAll(p, d, [0x4000_0000, 0x4000_0000, n]) == Stream(p, d, 0, 0x8000_0000) + Quiet(d, n)
  {
    hide FillNormal, ByteAt, Range;
    var half, sizes := 0x4000_0000, [0x4000_0000, 0x4000_0000, n];
    FillNormalPlays(p, d, 0, half);
    var (buf, p1) := FillNormal(p, d, half);
    SamePlaySameBytes(p, p1, d, 0);
    SamePlayCovers(p, p1, d);
    CallbackCutsOff(p1, d, half);
    var (buf1, p2) := FillNormal(p1, d, half);
    assert sizes[1..] == [half, n] && sizes[1..][1..] == [n];
    assert Sum([n]) == n by { assert Sum([n][1..]) == 0; }
    LongPlayIsSilent(p2, d, [n]);
    StreamsMatch(p, p1, d, half, half);
    StreamJoins(p, d, 0, half, half);
    assert buf.value == Stream(p, d, 0, half) && buf1.value == Stream(p, d, half, half);
    assert PlayAll(p1, d, [half, n]) == buf1.value + PlayAll(p2, d, [n]);
    assert PlayAll(p, d, sizes) == buf.value + PlayAll(p1, d, [half, n]);
  }

  /** A play is right, in callbacks of any sizes, if and only if its range is shorter than 2^31 bytes, or all that
      is cut off would have been quiet. */
  lemma WholePlayIsRight(p: Player, d: Disc)
    requires EndFits(p, d) && p.silence < 0x8000_0000 && p.status == Playing && p.pos == 0
    requires !p.scanning && p.fileoffset >= 0
    ensures (forall sizes: seq<nat> :: ValidSizes(sizes) ==> PlayAll(p, d, sizes) == Stream(p, d, 0, Sum(sizes)))
       <==> Range(p, d) < 0x8000_0000 || forall q: nat :: Cut(p, d) <= q < Range(p, d) ==> ByteAt(p, d, q) == d.quiet
  {
    EndByFrames(p, d);
    hide PlayAll, Sum, Range, ValidSizes, ByteAt;
    if Range(p, d) < 0x8000_0000 {
      forall sizes: seq<nat> | ValidSizes(sizes)
        ensures PlayAll(p, d, sizes) == Stream(p, d, 0, Sum(sizes))
      {
        AnySplitPlaysTheSame(p, d, 0, sizes);
      }
    } else if forall q: nat :: Cut(p, d) <= q < Range(p, d) ==> ByteAt(p, d, q) == d.quiet {
      forall sizes: seq<nat> | ValidSizes(sizes)
        ensures PlayAll(p, d, sizes) == Stream(p, d, 0, Sum(sizes))
      {
        if Cut(p, d) == 0 {
          LongPlayIsSilent(p, d, sizes);
          AllQuiet(p, d, Sum(sizes));
        } else {
          LongPlayIsRight(p, d, 0, sizes);
        }
      }
    } else {
      var q: nat :| Cut(p, d) <= q < Range(p, d) && ByteAt(p, d, q) != d.quiet;
      SizesReach(q);
      LongPlayMisses(p, d, q);
    }
  }

  lemma AllQuiet(p: Player, d: Disc, n: nat)
    requires p.fileoffset >= 0 && forall q: nat :: 0 <= q < Range(p, d) ==> ByteAt(p, d, q) == d.quiet
    ensures Stream(p, d, 0, n) == Quiet(d, n)
  {
    forall k | 0 <= k < n
      ensures Stream(p, d, 0, n)[k] == d.quiet
    {
      if k >= Range(p, d) { assert ByteAt(p, d, k) == d.quiet; }
    }
  }

  lemma NothingFilled(buf: seq<Byte>, file: seq<Byte>, seek: nat)
    ensures Filled(buf, 0, file, seek, 0) == buf
  {
  }

  // ---------- Starting a play ----------

  const AUDIO := 0

  datatype Track = Track(start: Word32, length: Word32, fileoffset: int, pregap: Word32, tcf: int)

  /** A cue sheet: `tcnt` tracks, in an array with room for more. */
  datatype CueSheet = CueSheet(tracks: seq<Track>, tcnt: nat)
  {
    predicate Valid() {
      tcnt < |tracks|
    }
  }

  predicate InTrack(t: Track, position: Word32) {
    t.start <= position <= U32(t.start + t.length)
  }

  /** The first track from `i` on that the frame is in; the track count if there is none. */
  function TrackFrom(cs: CueSheet, position: Word32, i: nat): (k: nat)
    requires cs.Valid() && i <= cs.tcnt
    ensures i <= k <= cs.tcnt
    ensures k < cs.tcnt ==> InTrack(cs.tracks[k], position)
    ensures forall j :: i <= j < k ==> !InTrack(cs.tracks[j], position)
    decreases cs.tcnt - i
  {
    if i == cs.tcnt || InTrack(cs.tracks[i], position) then i else TrackFrom(cs, position, i + 1)
  }

  /** How much pregap is left at `frame`, in bytes. */
  function SilenceAt(t: Track, frame: Word32, rs: nat): (n: Word32) {
    if U32(frame - t.start) > t.pregap then 0 else U32(U32(t.pregap - frame + t.start) * rs)
  }

  /** The player told to play from frame to frame. `enabled` says whether it has audio output. */
  function PlayFrom(p: Player, cs: CueSheet, rs: nat, from: Word32, to: Word32, enabled: bool): (r: (Player, bool))
    requires cs.Valid()
  {
    var q := p.(scanning := false, status := NoStatus, start := from, end := to);
    var k := TrackFrom(cs, from, 0);
    var t := cs.tracks[k];
    var silence := SilenceAt(t, from, rs);
    var ready :=
      if k == cs.tcnt then q
      else
        q.(pos := 0, silence := silence,
           fileoffset := t.fileoffset + if silence == 0 then U32(U32(from - t.start - t.pregap) * rs) else 0);
    if t.tcf == AUDIO && enabled then (ready.(status := Playing), true) else (ready, false)
  }

  /** The byte at absolute byte position `a` of the disc, for a play inside track `t` up to frame `to`. */
  function AbsoluteByte(t: Track, d: Disc, to: nat, a: nat): (b: Byte)
    requires t.fileoffset >= 0
  {
    var data := (t.start + t.pregap) * d.rs;
    if a < data || a >= to * d.rs || t.fileoffset + a - data >= |d.file| then d.quiet
    else d.file[t.fileoffset + a - data]
  }

  /** The play fits C's integers. */
  predicate PlayFits(t: Track, d: Disc, from: nat, to: nat) {
    && 0 < d.rs && from <= to < 0x8000_0000 && t.fileoffset >= 0
    && from * d.rs < 0x1_0000_0000 && (to - from) * d.rs < 0x8000_0000 && t.pregap * d.rs < 0x8000_0000
  }

  /** A play starts at position 0, and its bytes are those of the disc's absolute positions. */
  lemma PlayIsAbsolute(p: Player, cs: CueSheet, d: Disc, from: Word32, to: Word32, q: nat)
    requires cs.Valid() && TrackFrom(cs, from, 0) < cs.tcnt
    requires var t := cs.tracks[TrackFrom(cs, from, 0)]; t.tcf == AUDIO && PlayFits(t, d, from, to)
    ensures var t, p' := cs.tracks[TrackFrom(cs, from, 0)], PlayFrom(p, cs, d.rs, from, to, true).0;
      HasPlayed(p', d, 0) && ByteAt(p', d, q) == AbsoluteByte(t, d, to, from * d.rs + q)
  {
    var t := cs.tracks[TrackFrom(cs, from, 0)];
    var p' := PlayFrom(p, cs, d.rs, from, to, true).0;
    hide TrackFrom;
    var inside := from - t.start;
    StartNumbers(t, d, from, to);
    assert p'.pos == 0 && p'.start == from && p'.end == to && p'.silence == SilenceAt(t, from, d.rs);
    hide SilenceAt, U32;
    RangeEnds(from, to, d.rs, q);
  }

  /** Silence and file offset at the start of a play, without wrap-around. */
  lemma StartNumbers(t: Track, d: Disc, from: Word32, to: Word32)
    requires InTrack(t, from) && PlayFits(t, d, from, to)
    ensures var inside := from - t.start;
      && SilenceAt(t, from, d.rs) == (if inside > t.pregap then 0 else (t.pregap - inside) * d.rs) < 0x8000_0000
      && (SilenceAt(t, from, d.rs) == 0 <==> inside >= t.pregap)
      && (inside >= t.pregap ==> U32(U32(from - t.start - t.pregap) * d.rs) == (inside - t.pregap) * d.rs)
      && (inside >= t.pregap ==> (t.start + t.pregap) * d.rs + (inside - t.pregap) * d.rs == from * d.rs)
      && (inside < t.pregap ==> from * d.rs + (t.pregap - inside) * d.rs == (t.start + t.pregap) * d.rs)
  {
    var inside := from - t.start;
    hide U32;
    NoWrap(inside);
    NoWrap(t.pregap - inside);
    NoWrap(inside - t.pregap);
    if inside <= t.pregap {
      ProductMonotone(t.pregap - inside, t.pregap, d.rs);
      NoWrap((t.pregap - inside) * d.rs);
      ProductMonotone(0, t.pregap - inside, d.rs);
      if inside < t.pregap { ProductMonotone(1, t.pregap - inside, d.rs); }
      Distribute(from, t.pregap - inside, d.rs);
    }
    if inside >= t.pregap {
      ProductMonotone(inside - t.pregap, from, d.rs);
      ProductMonotone(0, inside - t.pregap, d.rs);
      NoWrap((inside - t.pregap) * d.rs);
      Distribute(t.start + t.pregap, inside - t.pregap, d.rs);
    }
  }

  lemma RangeEnds(from: nat, to: nat, rs: nat, q: nat)
    requires from <= to
    ensures q >= (to - from) * rs <==> from * rs + q >= to * rs
  {
    Distribute(from, to - from, rs);
  }

  /** A play is refused, and nothing is played, if it begins in a data track, or there is no audio output; else
      it begins, in the track's audio, up to the frame it is told to end at. Behind the last track the player
      stays where it was. */
  lemma PlayNeedsAudio(p: Player, cs: CueSheet, rs: nat, from: Word32, to: Word32, enabled: bool)
    requires cs.Valid()
    ensures var (p', ok) := PlayFrom(p, cs, rs, from, to, enabled);
      && (ok <==> cs.tracks[TrackFrom(cs, from, 0)].tcf == AUDIO && enabled)
      && (p'.status == Playing <==> ok) && !p'.scanning
      && (p'.status != Playing ==> p'.status == NoStatus)
      && p'.start == from && p'.end == to
      && (TrackFrom(cs, from, 0) == cs.tcnt ==>
            p'.pos == p.pos && p'.silence == p.silence && p'.fileoffset == p.fileoffset)
  {
    hide TrackFrom, SilenceAt, U32;
  }

  /** Two plays that start at different frames of one track and end at the same frame agree at every
      absolute position that both reach. */
  lemma PlaysAgree(p: Player, p': Player, cs: CueSheet, d: Disc, from: Word32, from': Word32, to: Word32, a: nat)
    requires cs.Valid() && TrackFrom(cs, from, 0) == TrackFrom(cs, from', 0) < cs.tcnt
    requires var t := cs.tracks[TrackFrom(cs, from, 0)];
      t.tcf == AUDIO && PlayFits(t, d, from, to) && PlayFits(t, d, from', to)
    requires from * d.rs <= a && from' * d.rs <= a
    ensures var q, q' := PlayFrom(p, cs, d.rs, from, to, true).0, PlayFrom(p', cs, d.rs, from', to, true).0;
      && HasPlayed(q, d, 0) && HasPlayed(q', d, 0)
      && ByteAt(q, d, a - from * d.rs) == ByteAt(q', d, a - from' * d.rs)
  {
    hide HasPlayed, ByteAt, AbsoluteByte, PlayFrom;
    PlayIsAbsolute(p, cs, d, from, to, a - from * d.rs);
    PlayIsAbsolute(p', cs, d, from', to, a - from' * d.rs);
  }
}
