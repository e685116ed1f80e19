/**
 The timestamp state of the ADTS (AAC) sample reader and its inline
 accessors. The reader's state is an immutable record; every accessor is a
 function of it, and every setter returns the updated record.

 The frame parser the reader delegates to, and the bodies of Start,
 ReadSample, Reset and TimeSeek, are not part of this model.
 */
module AdtsSampleReader {
  import opened Ints

  /** Ticks per second of the reader's timestamps. */
  const TimeScale: uint32 := 90000

  /** Ticks of the duration unit the reader reports (microseconds). */
  const MicrosPerSecond: nat := 1_000_000

  /** All bits set (~0ULL): the "no offset set" value of the PTS offset. */
  const PtsOffsetUnset: uint64 := 0xFFFF_FFFF_FFFF_FFFF

  /** STREAM_NOPTS_VALUE of the player's inputstream interface. */
  const NoPtsValue: uint64 := 0xFFF0_0000_0000_0000

  datatype Reader = Reader(
    streamId: uint32,
    eos: bool,
    started: bool,
    pts: uint64,
    ptsDiff: int64,
    ptsOffs: uint64,
    startPts: uint64)

  /** A reader as constructed, before Start: not started, not at end of
      stream, clock at zero, no offset, no start timestamp. */
  function NewReader(streamId: uint32): (r: Reader)
    ensures !IsStarted(r) && !EOS(r)
    ensures PTS(r) == 0 && DTS(r) == 0 && GetPTSDiff(r) == 0
    ensures r.ptsOffs == PtsOffsetUnset
    ensures GetStartPTS(r) == NoPtsValue
    ensures GetStreamId(r) == streamId
  {
    Reader(streamId, false, false, 0, 0, PtsOffsetUnset, NoPtsValue)
  }

  /* ---------------------------------------------------------------------
     Accessors.
     --------------------------------------------------------------------- */

  function IsStarted(r: Reader): bool { r.started }

  function EOS(r: Reader): bool { r.eos }

  function PTS(r: Reader): uint64 { r.pts }

  /** Audio elementary streams decode in presentation order: the decode
      timestamp is the presentation timestamp. */
  function DTS(r: Reader): (d: uint64)
    ensures d == PTS(r)
  {
    r.pts
  }

  function GetStartPTS(r: Reader): uint64 { r.startPts }

  function GetPTSDiff(r: Reader): int64 { r.ptsDiff }

  function GetStreamId(r: Reader): uint32 { r.streamId }

  /** ADTS samples are never encrypted. */
  function IsEncrypted(r: Reader): (e: bool)
    ensures !e
  {
    false
  }

  /** The reader's timescale does not depend on its state. */
  function GetTimeScale(r: Reader): (t: uint32)
    ensures t == TimeScale
  {
    90000
  }

  /**
   GetDuration rescales the frame parser's duration, in 90 kHz ticks, to
   microseconds: times 100, divided by 9, truncated. The product is a
   uint64; the requires rules out its wrap-around. The result is the
   largest count of microseconds that does not exceed the duration.
   */
  function GetDuration(inner: uint64): (d: uint64)
    requires inner * 100 < TwoTo64
    ensures d * TimeScale <= inner * MicrosPerSecond < (d + 1) * TimeScale
  {
    (inner * 100) / 9
  }

  /* ---------------------------------------------------------------------
     Setters.
     --------------------------------------------------------------------- */

  /** Stores the start timestamp; nothing else changes. */
  function SetStartPTS(r: Reader, pts: uint64): (r': Reader)
    ensures GetStartPTS(r') == pts
    ensures r'.(startPts := r.startPts) == r
  {
    r.(startPts := pts)
  }

  /** Stores the PTS offset; nothing else changes. */
  function SetPTSOffset(r: Reader, offset: uint64): (r': Reader)
    ensures r'.ptsOffs == offset
    ensures r'.(ptsOffs := r.ptsOffs) == r
  {
    r.(ptsOffs := offset)
  }

  /* ---------------------------------------------------------------------
     Properties.
     --------------------------------------------------------------------- */

  /** Setting the start timestamp to what it already is changes nothing;
      a second setting overrides the first. */
  lemma StartPtsLaws(r: Reader, p: uint64, q: uint64)
    ensures SetStartPTS(r, GetStartPTS(r)) == r
    ensures SetStartPTS(SetStartPTS(r, p), q) == SetStartPTS(r, q)
  {
  }

  /** Setting the offset is invisible to every accessor. */
  lemma SetPTSOffsetUnobservable(r: Reader, offset: uint64)
    ensures var r' := SetPTSOffset(r, offset);
            && PTS(r') == PTS(r) && DTS(r') == DTS(r)
            && GetStartPTS(r') == GetStartPTS(r) && GetPTSDiff(r') == GetPTSDiff(r)
            && IsStarted(r') == IsStarted(r) && EOS(r') == EOS(r)
            && GetStreamId(r') == GetStreamId(r)
  {
  }

  /** The two setters touch different fields, so their order does not matter. */
  lemma SettersCommute(r: Reader, offset: uint64, pts: uint64)
    ensures SetPTSOffset(SetStartPTS(r, pts), offset) == SetStartPTS(SetPTSOffset(r, offset), pts)
  {
  }

  /** A longer parser duration never gives a shorter rescaled duration. */
  lemma GetDurationMonotone(a: uint64, b: uint64)
    requires a <= b && b * 100 < TwoTo64
    ensures GetDuration(a) <= GetDuration(b)
  {
  }

  /** Worked rescales: 9 ticks are 100 us, 18 are 200, 1 is 11 (truncated
      from 11.1), and one second of ticks is one million microseconds. */
  lemma GetDurationExamples()
    ensures GetDuration(9) == 100
    ensures GetDuration(18) == 200
    ensures GetDuration(1) == 11
    ensures GetDuration(TimeScale) == MicrosPerSecond
  {
  }
}
