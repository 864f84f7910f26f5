/**
  The CD audio player: one object per drive, told to play or to scan, and asked by the host's audio
  output to fill one buffer after another.
 */
module CdPlayer {
  import opened Options
  import opened Arithmetic
  import opened Bytes
  import opened BinCuePlay
  import opened BinCueScan
  import opened BinCueScanEnd

  // ---------- Minutes, seconds and frames ----------

  const CD_FRAMES := 75

  datatype Msf = Msf(m: int, s: int, f: int)

  function FramesToMsf(frames: Word32): (r: Msf) {
    var rest := frames % (60 * CD_FRAMES);
    Msf(frames / (60 * CD_FRAMES), rest / CD_FRAMES, rest % CD_FRAMES)
  }

  function MsfToFrames(t: Msf): (r: int) {
    t.m * 60 * CD_FRAMES + t.s * CD_FRAMES + t.f
  }

  predicate ProperMsf(t: Msf) {
    0 <= t.m && 0 <= t.s < 60 && 0 <= t.f < CD_FRAMES
  }

  /** Every frame number has exactly one proper time, and that is what the conversion gives. */
  lemma MsfRoundTrip(frames: Word32, t: Msf)
    ensures ProperMsf(FramesToMsf(frames)) && MsfToFrames(FramesToMsf(frames)) == frames
    ensures ProperMsf(t) && MsfToFrames(t) == frames ==> t == FramesToMsf(frames)
  {
    if ProperMsf(t) && MsfToFrames(t) == frames {
      assert frames == t.m * 4500 + (t.s * 75 + t.f);
      assert frames / 4500 == t.m && frames % 4500 == t.s * 75 + t.f;
    }
  }

  // ---------- The audio tracks around a frame ----------

  /** `first..last` are the audio tracks around track `k`, as far as they go in both directions. */
  predicate AudioRegion(cs: CueSheet, k: nat, first: nat, last: nat)
    requires cs.Valid()
  {
    && first <= k <= last < |cs.tracks|
    && (forall i :: first <= i <= last ==> cs.tracks[i].tcf == AUDIO)
    && (first == 0 || cs.tracks[first - 1].tcf != AUDIO)
    && (last + 1 >= cs.tcnt || cs.tracks[last + 1].tcf != AUDIO)
    && last <= if k < cs.tcnt then cs.tcnt - 1 else k
  }

  /** There is only one such region. */
  lemma OneRegion(cs: CueSheet, k: nat, first: nat, last: nat, first': nat, last': nat)
    requires cs.Valid() && k <= cs.tcnt && AudioRegion(cs, k, first, last) && AudioRegion(cs, k, first', last')
    ensures first == first' && last == last'
  {
  }

  /** Tracks follow one another, and fit C's integers. */
  predicate Ordered(cs: CueSheet) {
    && (forall i :: 0 <= i < |cs.tracks| ==> cs.tracks[i].start + cs.tracks[i].length < 0x8000_0000)
    && (forall i, j :: 0 <= i < j < cs.tcnt <= |cs.tracks| ==>
          && cs.tracks[i].start <= cs.tracks[j].start
          && cs.tracks[i].start + cs.tracks[i].length <= cs.tracks[j].start + cs.tracks[j].length)
  }

  /** The player told to scan from `frame` in the region. */
  function ScanFrom(p: Player, cs: CueSheet, rs: nat, frame: int, first: nat, last: nat, reverse: bool,
                    enabled: bool): (r: Player)
    requires cs.Valid() && first < |cs.tracks| && last < |cs.tracks|
  {
    var start := cs.tracks[first].start;
    p.(start := start, fileoffset := cs.tracks[first].fileoffset,
       end := U32(cs.tracks[last].start + cs.tracks[last].length),
       silence := 0, pos := U32((frame - start) * rs), reverse := reverse, scanning := true,
       status := if enabled then Playing else p.status)
  }

  /** A scan begins at the frame it is told to, within its range. */
  lemma ScanBegins(p: Player, cs: CueSheet, d: Disc, frame: Word32, first: nat, last: nat, reverse: bool, enabled: bool)
    requires cs.Valid() && Ordered(cs) && 0 < d.rs
    requires var k := TrackFrom(cs, frame, 0); k < cs.tcnt && AudioRegion(cs, k, first, last)
    requires cs.tracks[first].fileoffset >= 0
    requires var p' := ScanFrom(p, cs, d.rs, frame, first, last, reverse, enabled);
      Range(p', d) + 392 * d.rs < 0x8000_0000 && p'.fileoffset + Range(p', d) <= |d.file|
    ensures var p' := ScanFrom(p, cs, d.rs, frame, first, last, reverse, enabled);
      ScanReady(p', d) && p'.start + p'.pos / d.rs == frame && p'.pos <= Range(p', d)
  {
    var p' := ScanFrom(p, cs, d.rs, frame, first, last, reverse, enabled);
    var k := TrackFrom(cs, frame, 0);
    var inside := frame - cs.tracks[first].start;
    hide TrackFrom, U32;
    NoWrap(cs.tracks[last].start + cs.tracks[last].length);
    NoWrap(cs.tracks[k].start + cs.tracks[k].length);
    assert 0 <= inside <= p'.end - p'.start;
    hide Ordered, AudioRegion;
    ProductMonotone(inside, p'.end - p'.start, d.rs);
    ProductMonotone(0, inside, d.rs);
    NoWrap(inside * d.rs);
    FramesAndBytes(inside * d.rs, inside, d.rs);
    FramesAndBytes(inside * d.rs, inside + 1, d.rs);
    Distribute(inside, 1, d.rs);
  }

  /** The range of a scan is just what its audio tracks cover: it begins and ends with one of their frames, and
      has all the others in between. Without audio output the player does not start to play. */
  lemma ScanCovers(p: Player, cs: CueSheet, rs: nat, frame: Word32, first: nat, last: nat, reverse: bool, enabled: bool,
                   i: nat, f: Word32)
    requires cs.Valid() && Ordered(cs) && first <= i <= last < cs.tcnt && InTrack(cs.tracks[i], f)
    ensures var s := ScanFrom(p, cs, rs, frame, first, last, reverse, enabled);
      && s.start <= f <= s.end
      && InTrack(cs.tracks[first], s.start) && InTrack(cs.tracks[last], s.end)
      && s.scanning && s.reverse == reverse
      && (s.status == Playing <==> enabled || p.status == Playing)
  {
    hide U32;
    NoWrap(cs.tracks[i].start + cs.tracks[i].length);
    NoWrap(cs.tracks[first].start + cs.tracks[first].length);
    NoWrap(cs.tracks[last].start + cs.tracks[last].length);
  }

  /** A scan does not count a track's pregap, which is not in the file: it begins with the byte that a play from
      the same frame begins with, whatever is in the file, if and only if the track has none. Here for the first
      track of the region. */
  lemma ScanSkipsPregap(p: Player, p0: Player, cs: CueSheet, d: Disc, frame: Word32, to: Word32, first: nat,
                        last: nat, reverse: bool)
    requires cs.Valid() && TrackFrom(cs, frame, 0) == first < cs.tcnt && last < |cs.tracks|
    requires cs.tracks[first].tcf == AUDIO && PlayFits(cs.tracks[first], d, frame, to) && frame < to
    ensures var s := ScanFrom(p, cs, d.rs, frame, first, last, reverse, true);
      var q := PlayFrom(p0, cs, d.rs, frame, to, true).0;
      && q.fileoffset >= 0 && s.fileoffset + s.pos >= 0
      && ((forall file: seq<Byte> :: s.fileoffset + s.pos < |file| ==>
             ByteAt(q, d.(file := file), 0) == file[s.fileoffset + s.pos])
          <==> cs.tracks[first].pregap == 0)
  {
    var t := cs.tracks[first];
    var s := ScanFrom(p, cs, d.rs, frame, first, last, reverse, true);
    var q := PlayFrom(p0, cs, d.rs, frame, to, true).0;
    var inside := frame - t.start;
    ScanPlace(t, d, frame, to);
    StartNumbers(t, d, frame, to);
    ProductMonotone(1, to - frame, d.rs);
    hide TrackFrom, U32, SilenceAt;
    assert s.fileoffset + s.pos == t.fileoffset + inside * d.rs;
    if t.pregap == 0 {
      forall file: seq<Byte> | s.fileoffset + s.pos < |file|
        ensures ByteAt(q, d.(file := file), 0) == file[s.fileoffset + s.pos]
      {
      }
    } else {
      var at := t.fileoffset + inside * d.rs;
      if inside >= t.pregap {
        ProductMonotone(1, t.pregap, d.rs);
        Distribute(inside - t.pregap, t.pregap, d.rs);
      }
      var file := OddOneOut(d.quiet, at);
      assert ByteAt(q, d.(file := file), 0) == d.quiet != file[at];
    }
  }

  lemma ScanPlace(t: Track, d: Disc, frame: Word32, to: Word32)
    requires InTrack(t, frame) && PlayFits(t, d, frame, to)
    ensures 0 <= (frame - t.start) * d.rs && U32((frame - t.start) * d.rs) == (frame - t.start) * d.rs
  {
    ProductMonotone(0, frame - t.start, d.rs);
    ProductMonotone(frame - t.start, frame, d.rs);
  }

  /** Silence up to one byte that is not. */
  function OddOneOut(quiet: Byte, at: nat): (file: seq<Byte>)
    ensures |file| == at + 1 && file[at] != quiet && forall i :: 0 <= i < at ==> file[i] == quiet
  {
    seq(at, _ => quiet) + [(quiet as int + 1) % 0x100]
  }

  /** A cue sheet of one audio track, of a file that is missing its data. */
  function EmptyDisc(): (r: (CueSheet, Disc)) {
    (CueSheet([Track(0, 1000, 0, 0, AUDIO), Track(0, 0, 0, 0, AUDIO)], 1), Disc([], 2352, 0))
  }

  /** A scan there, into a buffer of 4096 bytes, never ends. This is where `CDScan` and `EnterCycle` leave the
      player, with the limit that they give the first turn. */
  lemma ScanCanHang(p: Player, turns: nat)
    ensures var (cs, d) := EmptyDisc();
      && AudioRegion(cs, 0, 0, 0) && TrackFrom(cs, 0, 0) == 0
      && var p' := ScanFrom(p, cs, d.rs, 0, 0, 0, false, true);
         && p'.status == Playing && ScanStart(d.rs, false, p'.pos) == p'.pos == 0
         && ScanRange(p', d)
         && !LoopEnds(p', d, Quiet(d, 4096), 0, 0, PlayBytes(d.rs), PlayBytes(d.rs), turns)
  {
    var (cs, d) := EmptyDisc();
    var p' := ScanFrom(p, cs, d.rs, 0, 0, 0, false, true);
    assert Range(p', d) == 2_352_000 && JumpBytes(2352, false) == 446_880 && PlayBytes(2352) == 14_112;
    hide LoopEnds;
    LoopEndsIffFinishes(p', d, Quiet(d, 4096), 0, 0, PlayBytes(d.rs));
  }

  /** A cue sheet of one long audio track. */
  const LONG_TRACK := CueSheet([Track(0, 1_151_999, 0, 0, AUDIO), Track(0, 0, 0, 0, AUDIO)], 1)

  /** A play to the last frame that a time can name, of an image that does not begin with silence: none of it is
      heard, although the image is an ordinary one of 400 million bytes. */
  lemma PlayCanBeSilent(p: Player, file: seq<Byte>, quiet: Byte, sizes: seq<nat>)
    requires |file| == 400_000_000 && file[0] != quiet && ValidSizes(sizes)
    ensures var d, last := Disc(file, 2352, quiet), U32(MsfToFrames(Msf(255, 59, 74)));
      var (p', playing) := PlayFrom(p, LONG_TRACK, d.rs, 0, last, true);
      && playing && p'.status == Playing && p'.fileoffset >= 0 && ByteAt(p', d, 0) == file[0]
      && PlayAll(p', d, sizes) == Quiet(d, Sum(sizes))
  {
    LongTrackPlays(p);
    var d := Disc(file, 2352, quiet);
    var p' := PlayFrom(p, LONG_TRACK, d.rs, 0, 1_151_999, true).0;
    hide PlayFrom;
    assert Range(p', d) == 2_709_501_648;
    hide PlayAll, Sum, Range;
    LongPlayIsSilent(p', d, sizes);
  }

  lemma LongTrackPlays(p: Player)
    ensures U32(MsfToFrames(Msf(255, 59, 74))) == 1_151_999
    ensures PlayFrom(p, LONG_TRACK, 2352, 0, 1_151_999, true)
         == (Player(Playing, 0, 0, 1_151_999, 0, 0, false, p.reverse), true)
  {
    LongTrackIsFirst();
    hide TrackFrom;
    FirstTrackPlays(p, LONG_TRACK);
  }

  lemma LongTrackIsFirst()
    ensures LONG_TRACK.Valid() && TrackFrom(LONG_TRACK, 0, 0) == 0
  {
    assert InTrack(LONG_TRACK.tracks[0], 0);
  }

  lemma FirstTrackPlays(p: Player, cs: CueSheet)
    requires cs.Valid() && TrackFrom(cs, 0, 0) == 0 < cs.tcnt && cs.tracks[0] == Track(0, 1_151_999, 0, 0, AUDIO)
    ensures PlayFrom(p, cs, 2352, 0, 1_151_999, true)
         == (Player(Playing, 0, 0, 1_151_999, 0, 0, false, p.reverse), true)
  {
    hide TrackFrom;
    assert SilenceAt(cs.tracks[0], 0, 2352) == 0;
  }

  // ---------- The player ----------

  /** What the fill loop does after a turn. */
  datatype Step = Return | Fail | GoOn

  /** A turn in place comes to what the turn on values does. */
  predicate Comes(t: Turn, step: Step, p: Player, buf: seq<Byte>, offset: nat, available: int) {
    match t
    case Returned(p', buf') => step == Return && p == p' && buf == buf'
    case SeekFailed(p') => step == Fail && p == p'
    case Went(p', buf', offset', available') =>
      step == GoOn && p == p' && buf == buf' && offset == offset' && available == available'
  }

  /** A callback's effect when the player is scanning. */
  ghost predicate ScanPlays(d: Disc, p0: Player, p: Player, buf: seq<Byte>)
    requires d.rs > 0
  {
    var q0 := ScanStart(d.rs, p0.reverse, p0.pos);
    if q0 < 0 then p == p0.(status := Completed) && buf == Quiet(d, |buf|)
    else if p.status == Playing then
      && ScanReady(p, d) && SamePlay(p0, p)
      && PlayedFrom(d, p0, q0, buf, |buf|) && p.pos == Orbit(d.rs, p0.reverse, q0, |buf|)
    else
      exists m: nat :: ScanEnded(d, p0, q0, p, buf, m)
  }

  class CDPlayer {
    const cs: CueSheet
    const disc: Disc
    const audioEnabled: bool
    var audioposition: Word32
    var audiostart: Word32
    var audioend: Word32
    var silence: Word32
    var audiostatus: Status
    var fileoffset: int
    var scanning: bool
    var reverse: bool

    predicate Valid() {
      cs.Valid() && disc.rs > 0
    }

    function State(): (p: Player)
      reads this
    {
      Player(audiostatus, audioposition, audiostart, audioend, silence, fileoffset, scanning, reverse)
    }

    constructor (cs: CueSheet, disc: Disc, enabled: bool)
      requires cs.Valid() && disc.rs > 0
      ensures Valid() && this.cs == cs && this.disc == disc && audioEnabled == enabled
      ensures State() == Player(NoStatus, 0, 0, 0, 0, 0, false, false)
    {
      this.cs, this.disc, this.audioEnabled := cs, disc, enabled;
      audioposition, audiostart, audioend, silence, audiostatus := 0, 0, 0, 0, NoStatus;
      fileoffset, scanning, reverse := 0, false, false;
    }

    /** The first track that the frame is in; the track count if there is none. */
    method PositionToTrack(position: Word32) returns (i: nat)
      requires Valid()
      ensures i == TrackFrom(cs, position, 0)
    {
      i := 0;
      while i < cs.tcnt
        invariant i <= cs.tcnt && TrackFrom(cs, position, 0) == TrackFrom(cs, position, i)
      {
        if cs.tracks[i].start <= position <= U32(cs.tracks[i].start + cs.tracks[i].length) {
          break;
        }
        i := i + 1;
      }
    }

    method PreparePlayOrScanAudio() returns (ok: bool)
      modifies this`audiostatus
      ensures ok == audioEnabled
      ensures State() == old(State()).(status := if ok then Playing else old(audiostatus))
    {
      ok := audioEnabled;
      if ok { audiostatus := Playing; }
    }

    method CDPlay(from: Msf, to: Msf) returns (ok: bool)
      requires Valid()
      modifies this
      ensures (State(), ok)
          == PlayFrom(old(State()), cs, disc.rs, U32(MsfToFrames(from)), U32(MsfToFrames(to)), audioEnabled)
    {
      ok := false;
      scanning := false;
      audiostatus := NoStatus;
      audiostart := U32(MsfToFrames(from));
      audioend := U32(MsfToFrames(to));
      var track := PositionToTrack(audiostart);
      var t := cs.tracks[track];
      if track < cs.tcnt {
        audioposition := 0;
        if U32(audiostart - t.start) > t.pregap {
          silence := 0;
        } else {
          silence := U32(U32(t.pregap - audiostart + t.start) * disc.rs);
        }
        fileoffset := t.fileoffset;

        // a play that begins behind the pregap begins further on in the file
        if silence == 0 {
          fileoffset := fileoffset + U32(U32(audiostart - t.start - t.pregap) * disc.rs);
        }
      }
      if t.tcf == AUDIO {
        ok := PreparePlayOrScanAudio();
      }
    }

    /** Scanning plays on in the whole region of audio tracks around the frame. */
    method CDScan(from: Msf, reverse: bool) returns (ok: bool, ghost first: nat, ghost last: nat)
      requires Valid() && 0 <= MsfToFrames(from) < 0x8000_0000
      modifies this
      ensures var k := TrackFrom(cs, MsfToFrames(from), 0);
        if cs.tracks[k].tcf != AUDIO then !ok && State() == old(State())
        else
          && AudioRegion(cs, k, first, last) && ok == audioEnabled
          && State() == ScanFrom(old(State()), cs, disc.rs, MsfToFrames(from), first, last, reverse, audioEnabled)
    {
      first, last := 0, 0;
      var goto := MsfToFrames(from);
      var here := PositionToTrack(goto);
      if cs.tracks[here].tcf != AUDIO {
        ok := false;
        return;
      }

      // how far the audio tracks go before and after the one to begin with
      var firstAudio, lastAudio := here, here;
      var track: int := here - 1;
      while track >= 0 && cs.tracks[track].tcf == AUDIO
        invariant -1 <= track < here && firstAudio == track + 1
        invariant forall i :: firstAudio <= i <= here ==> cs.tracks[i].tcf == AUDIO
      {
        firstAudio := firstAudio - 1;
        track := track - 1;
      }
      track := here + 1;
      while track < cs.tcnt && cs.tracks[track].tcf == AUDIO
        invariant here < track && lastAudio == track - 1
        invariant lastAudio <= if here < cs.tcnt then cs.tcnt - 1 else here
        invariant forall i :: here <= i <= lastAudio ==> cs.tracks[i].tcf == AUDIO
      {
        lastAudio := lastAudio + 1;
        track := track + 1;
      }

      audiostart := cs.tracks[firstAudio].start;
      fileoffset := cs.tracks[firstAudio].fileoffset;
      audioend := U32(cs.tracks[lastAudio].start + cs.tracks[lastAudio].length);
      silence := 0;
      audioposition := U32((goto - audiostart) * disc.rs);
      this.reverse := reverse;
      scanning := true;
      first, last := firstAudio, lastAudio;
      ok := PreparePlayOrScanAudio();
    }

    /** One turn of the fill loop. */
    method FillTurn(buf: array<Byte>, start: nat, remaining: int, limit: int, jump: int)
      returns (step: Step, offset: nat, available: int)
      requires Valid() && start <= buf.Length && (limit == -1 || limit > 0) && (remaining <= 0 || start == 0)
      modifies this, buf
      ensures Comes(DoTurn(old(State()), disc, old(buf[..]), start, remaining, limit, jump),
                    step, State(), buf[..], offset, available)
    {
      hide ReadOn, U32;
      NoWrap(audioposition);
      offset, available := start, 0;
      if U32(audiostart + audioposition / disc.rs) >= audioend {
        audiostatus := Completed;
        step := Return;
        return;
      }
      if remaining >= buf.Length {
        audioposition := U32(audioposition + buf.Length);
        step := Return;
        return;
      }
      if remaining > 0 {
        offset := offset + remaining;
        audioposition := U32(audioposition + remaining);
      }
      step, offset, available := ReadTurn(buf, offset, limit, jump);
    }

    /** The rest of a turn, past the pregap. */
    method ReadTurn(buf: array<Byte>, at: nat, limit: int, jump: int)
      returns (step: Step, offset: nat, available: int)
      requires Valid() && at <= buf.Length && (limit == -1 || limit > 0)
      modifies this, buf
      ensures Comes(ReadOn(old(State()), disc, old(buf[..]), at, limit, jump),
                    step, State(), buf[..], offset, available)
    {
      assert RangeWord(State(), disc) == U32((audioend - audiostart) * disc.rs);
      hide Reads, U32, I32, RangeWord;
      offset := at;
      available := I32(U32((audioend - audiostart) * disc.rs) - audioposition);
      if available > buf.Length - offset {
        available := buf.Length - offset;
      }

      var hitReadLimit := false;
      if limit != -1 && available >= limit {
        available := limit;
        hitReadLimit := true;
      }

      if fileoffset + audioposition - silence < 0 {
        step := Fail;
        return;
      }
      var seek := fileoffset + audioposition - silence;

      assert ReadOn(State(), disc, buf[..], at, limit, jump)
          == Reads(State(), disc, buf[..], at, seek, available, hitReadLimit, jump);
      hide Comes, ReadOn;
      step, offset, available := ReadAndJump(buf, offset, seek, available, hitReadLimit, jump);
    }

    /** Reads at `seek`, and jumps if the limit is hit. */
    method ReadAndJump(buf: array<Byte>, at: nat, seek: nat, amount: int, hitReadLimit: bool, jump: int)
      returns (step: Step, offset: nat, available: int)
      requires at <= buf.Length && at + amount <= buf.Length
      modifies this, buf
      ensures Comes(Reads(old(State()), disc, old(buf[..]), at, seek, amount, hitReadLimit, jump),
                    step, State(), buf[..], offset, available)
    {
      hide Filled, ReadCount, U32, I32;
      offset, available := at, amount;
      if available < 0 {
        audioposition := U32(audioposition + available); // back to the range's end
        available := 0;
      }

      var ret := ReadFile(seek, buf, offset, available);
      audioposition := U32(audioposition + ret);
      offset := offset + ret;
      available := available - ret;

      if I32(audioposition) + jump < 0 {
        audiostatus := Completed;
        step := Return;
        return;
      }
      if hitReadLimit {
        audioposition := U32(audioposition + jump);
      }
      step := GoOn;
    }

    /** The host's read. */
    method ReadFile(seek: nat, buf: array<Byte>, offset: nat, want: nat) returns (ret: nat)
      requires offset + want <= buf.Length
      modifies buf
      ensures ret == ReadCount(disc.file, seek, want)
      ensures buf[..] == Filled(old(buf[..]), offset, disc.file, seek, ret)
    {
      ret := ReadCount(disc.file, seek, want);
      var i := 0;
      while i < ret
        invariant 0 <= i <= ret
        invariant forall k :: 0 <= k < buf.Length ==>
          buf[k] == if offset <= k < offset + i then disc.file[seek + k - offset] else old(buf[k])
      {
        buf[offset + i] := disc.file[seek + i];
        i := i + 1;
      }
      assert buf[..] == Filled(old(buf[..]), offset, disc.file, seek, ret);
    }

    /** Where a callback of a scan is in its cycle: blocks of frames are played, and the gaps between
        them are jumped over. `limit` is how much may be read before the first jump, `full` how much
        before each later one. */
    method EnterCycle() returns (ended: bool, limit: int, full: int, jump: int)
      requires Valid() && audioposition < 0x8000_0000
      modifies this`audioposition, this`audiostatus
      ensures full == PlayBytes(disc.rs) && jump == JumpBytes(disc.rs, reverse)
      ensures var q0 := ScanStart(disc.rs, reverse, old(audioposition));
        if q0 < 0 then ended && State() == old(State()).(status := Completed)
        else !ended && State() == old(State()).(pos := U32(q0)) && limit == full - q0 % CycleBytes(disc.rs, reverse)
    {
      var playFrames, jumpFrames := 6, if reverse then -150 else 190;

      // a block, and the gap before the next one
      var sum := playFrames + jumpFrames;
      var cycleSizeFrames := if sum < 0 then -sum else sum;
      full := playFrames * disc.rs;
      jump := jumpFrames * disc.rs;
      var cycleSizeBytes := cycleSizeFrames * disc.rs;
      assert cycleSizeBytes == CycleBytes(disc.rs, reverse);
      var cycleBytesOffset := audioposition % cycleSizeBytes;
      ended := false;
      if cycleBytesOffset < full {
        limit := full - cycleBytesOffset;
      } else {
        // between blocks: on to the next one
        limit := full;
        var delta := -cycleBytesOffset + full + jump;
        ghost var q0 := ScanStart(disc.rs, reverse, audioposition);
        assert q0 == audioposition + delta;
        if I32(audioposition) + delta < 0 {
          audiostatus := Completed;
          ended := true;
          return;
        }
        GapEndsAtBlock(disc.rs, reverse, audioposition);
        audioposition := U32(audioposition + delta);
      }
    }

    /** Fills a buffer: what the host's audio output calls. */
    method FillBuffer(buf: array<Byte>) returns (ok: bool)
      requires Valid() && buf.Length < 0x8000_0000
      requires scanning && audiostatus == Playing ==> ScanReady(State(), disc) && buf.Length > 0
      modifies this, buf
      ensures !old(scanning) ==>
          (if ok then Some(buf[..]) else None, State()) == FillNormal(old(State()), disc, buf.Length)
      ensures old(scanning) && old(audiostatus) != Playing ==>
          ok && State() == old(State()) && buf[..] == Quiet(disc, buf.Length)
      ensures old(scanning) && old(audiostatus) == Playing ==> ok && ScanPlays(disc, old(State()), State(), buf[..])
    {
      MemSet(buf);
      ok := true;
      if audiostatus != Playing {
        return;
      }
      if scanning {
        ok := FillScanning(buf);
      } else {
        ok := FillPlaying(buf);
      }
    }

    method MemSet(buf: array<Byte>)
      modifies buf
      ensures buf[..] == Quiet(disc, buf.Length)
    {
      for i := 0 to buf.Length
        invariant forall k :: 0 <= k < i ==> buf[k] == disc.quiet
      {
        buf[i] := disc.quiet;
      }
    }

    /** The fill loop when playing: one turn, then silence to the buffer's end. */
    method FillPlaying(buf: array<Byte>) returns (ok: bool)
      requires Valid() && audiostatus == Playing && buf[..] == Quiet(disc, buf.Length)
      modifies this, buf
      ensures (if ok then Some(buf[..]) else None, State()) == FillNormal(old(State()), disc, buf.Length)
    {
      hide DoTurn, U32, I32, Quiet, FillNormal;
      var remaining := I32(silence - audioposition);
      var step, offset, available := FillTurn(buf, 0, remaining, -1, 0);
      if step != GoOn {
        ok := step == Return;
        NormalStops(old(State()), disc, buf.Length);
        return;
      }
      ok := true;
      RestIsQuiet(old(State()), disc, buf.Length, remaining);
      ghost var from, filled, left, first := State(), buf[..], available, offset;
      NoWrap(from.pos);
      while offset < buf.Length
        invariant first <= offset <= buf.Length && buf[..] == filled
        invariant available == left - (offset - first)
        invariant State() == from.(pos := U32(from.pos + Clamp(left, offset - first)))
        decreases buf.Length - offset
      {
        assert filled[offset] == disc.quiet;
        CountOne(from.pos, left, offset - first);
        buf[offset] := disc.quiet;
        offset := offset + 1;
        if available > 0 {
          audioposition := U32(audioposition + 1);
        }
        available := available - 1;
      }
      NormalFinishes(old(State()), disc, buf.Length, from, filled, first, left);
    }

    /** The fill loop when scanning: turns until the buffer is full or the scan ends. */
    method FillScanning(buf: array<Byte>) returns (ok: bool)
      requires Valid() && scanning && audiostatus == Playing && ScanReady(State(), disc)
      requires 0 < buf.Length < 0x8000_0000 && buf[..] == Quiet(disc, buf.Length)
      modifies this, buf
      ensures ok && ScanPlays(disc, old(State()), State(), buf[..])
    {
      hide DoTurn, Orbit, PlayedFrom, ScanEnded, Scanning, CycleBytes, PlayBytes, JumpBytes, InPlayBlock, Range,
          I32, ScanStart;
      ghost var p0, q0 := State(), ScanStart(disc.rs, reverse, audioposition);
      SilenceBehind(p0, disc);
      var remaining := I32(silence - audioposition);
      var ended, limit, full, jump := EnterCycle();
      if ended {
        return true;
      }
      ScanSetsOut(disc, p0, State(), buf.Length);
      var step, offset, available := GoOn, 0, 0;
      var more := true;
      while more
        invariant 0 <= offset <= buf.Length && (more <==> offset < buf.Length)
        invariant full == PlayBytes(disc.rs) && jump == JumpBytes(disc.rs, p0.reverse)
        invariant reverse == p0.reverse && scanning
        invariant Scanning(disc, p0, q0, State(), buf[..], offset)
        invariant !more ==> ScanReady(State(), disc)
        invariant more ==> TurnReady(disc, p0, State(), limit)
        decreases buf.Length - offset
      {
        ghost var p, before, from := State(), buf[..], offset;
        TurnKeepsScan(disc, p0, q0, p, before, offset, remaining, limit);
        step, offset, available := FillTurn(buf, offset, remaining, limit, jump);
        NextTurn(disc, p0, q0, DoTurn(p, disc, before, from, remaining, limit, jump), from, buf.Length, full);
        limit := full;
        if step != GoOn {
          ok := step == Return;
          return;
        }
        more := scanning && offset < buf.Length;
      }
      ok := true;
      ScanGoesOn(disc, p0, q0, State(), buf[..]);
    }
  }

  // ---------- The fill loop of a scan ----------

  /** Ready for another turn: at the end of the range, or with the rest of a block as the limit. */
  ghost predicate TurnReady(d: Disc, p0: Player, p: Player, limit: int)
    requires d.rs > 0
  {
    limit > 0 && (p.pos >= Range(p, d) || limit == PlayBytes(d.rs) - p.pos % CycleBytes(d.rs, p0.reverse))
  }

  lemma SilenceBehind(p: Player, d: Disc)
    requires ScanFits(p, d)
    ensures I32(p.silence - p.pos) <= 0
  {
    NoWrap(0 - p.pos);
    hide I32;
  }

  /** At the start of a callback. */
  lemma ScanSetsOut(d: Disc, p0: Player, p: Player, n: nat)
    requires ScanReady(p0, d) && p0.status == Playing && ScanStart(d.rs, p0.reverse, p0.pos) >= 0
    requires var q0 := ScanStart(d.rs, p0.reverse, p0.pos); p == p0.(pos := U32(q0))
    ensures var q0 := ScanStart(d.rs, p0.reverse, p0.pos);
      && Scanning(d, p0, q0, p, Quiet(d, n), 0) && p.pos == q0
      && TurnReady(d, p0, p, PlayBytes(d.rs) - q0 % CycleBytes(d.rs, p0.reverse))
  {
    var q0 := ScanStart(d.rs, p0.reverse, p0.pos);
    CycleNumbers(d.rs, p0.reverse);
    StartBelow(d.rs, p0.reverse, p0.pos);
    StartsInPlay(d.rs, p0.reverse, p0.pos);
    assert Range(p, d) == Range(p0, d);
    hide Range, CycleBytes, PlayBytes, ScanStart, JumpBytes, U32;
    NoWrap(q0);
  }

  lemma StartBelow(rs: nat, reverse: bool, pos: nat)
    requires rs > 0
    ensures ScanStart(rs, reverse, pos) <= pos + 196 * rs
  {
  }

  /** A turn in the loop keeps to the scan. */
  lemma TurnKeepsScan(d: Disc, p0: Player, q0: int, p: Player, buf: seq<Byte>, offset: nat, remaining: int, limit: int)
    requires Scanning(d, p0, q0, p, buf, offset) && offset < |buf| < 0x8000_0000 && remaining <= 0
    requires TurnReady(d, p0, p, limit)
    ensures limit > 0 && p.reverse == p0.reverse
    ensures KeepsScan(d, p0, q0, DoTurn(p, d, buf, offset, remaining, limit, JumpBytes(d.rs, p0.reverse)), offset,
        |buf|)
  {
    hide DoTurn, PlayedFrom, Orbit, InPlayBlock, CycleBytes, PlayBytes, Range, JumpBytes;
    SamePlayRange(p0, p, d);
    PregapBehind(p, d, buf, offset, remaining, 0 - p.pos, limit, JumpBytes(d.rs, p0.reverse));
    if p.pos >= Range(p, d) {
      ScanTurnEnds(p, d, buf, offset, limit);
      AtRangeEnd(d, p0, q0, p, buf, offset);
    } else {
      TurnScans(d, p0, q0, p, buf, offset, limit);
    }
  }

  lemma AtRangeEnd(d: Disc, p0: Player, q0: int, p: Player, buf: seq<Byte>, offset: nat)
    requires Scanning(d, p0, q0, p, buf, offset) && p.pos >= Range(p, d)
    ensures ScanEnded(d, p0, q0, p.(status := Completed), buf, offset)
  {
    hide PlayedFrom, Orbit, InPlayBlock, Reached;
    SamePlayRange(p0, p, d);
  }

  /** After a turn: at the start of a block, unless the buffer is full or the range at its end. */
  lemma NextTurn(d: Disc, p0: Player, q0: int, t: Turn, offset: nat, n: nat, full: nat)
    requires d.rs > 0 && KeepsScan(d, p0, q0, t, offset, n) && full == PlayBytes(d.rs)
    ensures t.Returned? ==> ScanStart(d.rs, p0.reverse, p0.pos) == q0 >= 0 ==> ScanPlays(d, p0, t.p, t.buf)
    ensures t.Went? ==> t.p.reverse == p0.reverse && t.p.scanning == p0.scanning && (t.offset < n ==>
        TurnReady(d, p0, t.p, full))
  {
    hide PlayedFrom, Orbit, InPlayBlock, Reached, Range, JumpBytes, CycleBytes;
  }

  lemma ScanGoesOn(d: Disc, p0: Player, q0: int, p: Player, buf: seq<Byte>)
    requires Scanning(d, p0, q0, p, buf, |buf|) && ScanReady(p, d)
    requires q0 == ScanStart(d.rs, p0.reverse, p0.pos) >= 0
    ensures ScanPlays(d, p0, p, buf)
  {
    hide PlayedFrom, Orbit, InPlayBlock, Range, ScanStart;
  }

  /** What a turn leaves of a quiet buffer is quiet. */
  lemma RestIsQuiet(p: Player, d: Disc, n: nat, remaining: int)
    requires d.rs > 0
    ensures var t := DoTurn(p, d, Quiet(d, n), 0, remaining, -1, 0);
      t.Went? ==> 0 <= t.offset <= n == |t.buf| && forall k :: t.offset <= k < n ==> t.buf[k] == d.quiet
  {
    hide AtEnd, U32, I32, RangeWord, ReadCount;
  }

  function Clamp(a: int, b: nat): (r: nat)
    ensures r == if a <= 0 then 0 else if a < b then a else b
  {
    if a <= 0 then 0 else if a < b then a else b
  }

  lemma CountOne(pos: int, left: int, done: nat)
    ensures left - done > 0 ==> U32(U32(pos + Clamp(left, done)) + 1) == U32(pos + Clamp(left, done + 1))
    ensures left - done <= 0 ==> Clamp(left, done) == Clamp(left, done + 1)
  {
  }

  lemma NormalStops(p: Player, d: Disc, n: nat)
    requires d.rs > 0 && p.status == Playing
    ensures match DoTurn(p, d, Quiet(d, n), 0, I32(p.silence - p.pos), -1, 0)
      case Returned(q, buf) => FillNormal(p, d, n) == (Some(buf), q)
      case SeekFailed(q) => FillNormal(p, d, n) == (None, q)
      case Went(_, _, _, _) => true
  {
    hide DoTurn, I32, U32, Quiet;
  }

  lemma NormalFinishes(p: Player, d: Disc, n: nat, q: Player, buf: seq<Byte>, offset: nat, available: int)
    requires d.rs > 0 && p.status == Playing && offset <= n
    requires DoTurn(p, d, Quiet(d, n), 0, I32(p.silence - p.pos), -1, 0) == Went(q, buf, offset, available)
    ensures FillNormal(p, d, n) == (Some(buf), q.(pos := U32(q.pos + Clamp(available, n - offset))))
  {
    hide DoTurn, I32, U32, Quiet;
  }

  lemma GapEndsAtBlock(rs: nat, reverse: bool, pos: nat)
    requires rs > 0 && pos % CycleBytes(rs, reverse) >= PlayBytes(rs) && ScanStart(rs, reverse, pos) >= 0
    ensures ScanStart(rs, reverse, pos) % CycleBytes(rs, reverse) == 0
  {
    CycleNumbers(rs, reverse);
    var c := CycleBytes(rs, reverse);
    hide CycleBytes, PlayBytes, JumpBytes;
    var start := BlockStart(c, pos);
    if !reverse || start >= c { WholeCycle(c, start, reverse); }
  }
}
