/**
 The HEVC codec handler: holds a sample description, owns the decoder
 extradata derived from it, converts that extradata to Annex-B form and
 derives the player-facing codec metadata (fourcc, frame rate).

 The handler and the metadata sink are immutable records here; each
 operation returns the updated record together with the flag the C++
 member function returns.
 */
module HevcCodecHandler {
  import opened Wrappers
  import opened Ints
  import opened AnnexBFormat

  /** Container sample-entry format of the track; every format other than
      the four HEVC ones is `OtherFormat`. */
  datatype SampleFormat =
    | Hev1
    | Hvc1
    | Dvhe
    | Dvh1
    | OtherFormat

  /**
   The sample description the handler wraps. `Hevc` is the HEVC variant,
   carrying the raw decoder configuration record, its parameter-set arrays
   and the two frame-rate hints; `Other` is any other description type.
   */
  datatype SampleDescription =
    | Hevc(format: SampleFormat, rawBytes: seq<Byte>, sequences: seq<seq<Nalu>>,
           averageFrameRate: uint32, constantFrameRate: uint32)
    | Other(format: SampleFormat)

  datatype Handler = Handler(desc: SampleDescription, extraData: seq<Byte>)

  /** Result of ExtraDataToAnnexB: the C++ return value and the new handler. */
  datatype Conversion = Conversion(converted: bool, handler: Handler)

  /** The player's stream information, as far as this handler touches it. */
  datatype StreamInfo = StreamInfo(fourcc: uint32, fpsRate: uint32, fpsScale: uint32)

  /** Result of GetInformation: whether anything changed, and the new info. */
  datatype InfoUpdate = InfoUpdate(changed: bool, info: StreamInfo)

  /** Fixed-point scale the frame rate is expressed in (256ths). */
  const FpsScale: uint32 := 256

  /**
   The four fourcc codes of CODEC::MakeFourCC for "hev1", "hvc1", "dvhe" and
   "dvh1" (first character in the low byte). MakeFourCC itself is not part of
   this model; the properties below rely only on the codes being nonzero and
   pairwise distinct.
   */
  const FourccHev1: uint32 := 0x3176_6568
  const FourccHvc1: uint32 := 0x3163_7668
  const FourccDvhe: uint32 := 0x6568_7664
  const FourccDvh1: uint32 := 0x3168_7664

  /** The conversion buffer size is an AP4_Size (32 bits); the model
      requires that the sum does not wrap. */
  predicate ConversionFits(sd: SampleDescription)
  {
    sd.Hevc? ==> ArraysSize(sd.sequences) < TwoTo32
  }

  /* ---------------------------------------------------------------------
     Construction.
     --------------------------------------------------------------------- */

  /** The constructor: an HEVC description starts with a copy of its raw
      configuration record as extradata, any other with none. */
  function NewHandler(sd: SampleDescription): (h: Handler)
    ensures h.desc == sd
    ensures sd.Hevc? ==> h.extraData == sd.rawBytes
    ensures sd.Other? ==> h.extraData == []
  {
    Handler(sd, if sd.Hevc? then sd.rawBytes else [])
  }

  /* ---------------------------------------------------------------------
     Annex-B conversion.
     --------------------------------------------------------------------- */

  /**
   ExtraDataToAnnexB: fails, changing nothing, for a non-HEVC description
   or one with no parameter-set arrays; otherwise replaces the extradata by
   the Annex-B form of the arrays, sized by the first pass.
   */
  function ExtraDataToAnnexB(h: Handler): (c: Conversion)
    requires ConversionFits(h.desc)
    ensures c.converted <==> h.desc.Hevc? && |h.desc.sequences| > 0
    ensures !c.converted ==> c.handler == h
    ensures c.handler.desc == h.desc
    ensures c.converted ==> |c.handler.extraData| == ArraysSize(h.desc.sequences)
    ensures c.converted ==>
              Unframe(c.handler.extraData, Sizes(Flatten(h.desc.sequences)))
                == Some(Flatten(h.desc.sequences))
  {
    match h.desc
    case Other(_) => Conversion(false, h)
    case Hevc(_, _, sequences, _, _) =>
      if |sequences| == 0 then Conversion(false, h)
      else
        AnnexBIsFrameOfFlatten(sequences);
        UnframeFrame(Flatten(sequences));
        Conversion(true, h.(extraData := AnnexB(sequences)))
  }

  /**
   The same operation written as the C++ member is: variant check, empty
   check, then the two-pass cursor write. It agrees with the functional
   definition on every input.
   */
  method ConvertExtraData(h: Handler) returns (converted: bool, h': Handler)
    requires ConversionFits(h.desc)
    ensures Conversion(converted, h') == ExtraDataToAnnexB(h)
    ensures converted ==> h'.extraData == AnnexB(h.desc.sequences)
  {
    if !h.desc.Hevc? {
      return false, h;
    }
    var sequences := h.desc.sequences;
    if |sequences| == 0 {
      return false, h;
    }
    var buf := WriteAnnexB(sequences);
    return true, h.(extraData := buf);
  }

  /** The result does not depend on the extradata held before the call. */
  lemma ConversionIgnoresPriorExtraData(h1: Handler, h2: Handler)
    requires h1.desc == h2.desc && ConversionFits(h1.desc)
    ensures ExtraDataToAnnexB(h1).converted == ExtraDataToAnnexB(h2).converted
    ensures ExtraDataToAnnexB(h1).converted ==>
              ExtraDataToAnnexB(h1).handler == ExtraDataToAnnexB(h2).handler
  {
  }

  /** Converting twice gives the same buffer and the same answer as once. */
  lemma ConversionIdempotent(h: Handler)
    requires ConversionFits(h.desc)
    ensures ExtraDataToAnnexB(ExtraDataToAnnexB(h).handler) == ExtraDataToAnnexB(h)
  {
  }

  /** Arrays that hold no unit at all still convert, to an empty buffer. */
  lemma EmptyArraysConvertToEmpty(h: Handler)
    requires h.desc.Hevc? && |h.desc.sequences| > 0
    requires forall i :: 0 <= i < |h.desc.sequences| ==> h.desc.sequences[i] == []
    ensures ConversionFits(h.desc)
    ensures ExtraDataToAnnexB(h) == Conversion(true, h.(extraData := []))
  {
    NoNalusNoBytes(h.desc.sequences);
  }

  /* ---------------------------------------------------------------------
     Codec information.
     --------------------------------------------------------------------- */

  /** The fourcc table: one code per known HEVC format, 0 for the rest. */
  function FormatFourcc(f: SampleFormat): (r: uint32)
    ensures r != 0 <==> !f.OtherFormat?
  {
    match f
    case Hev1 => FourccHev1
    case Hvc1 => FourccHvc1
    case Dvhe => FourccDvhe
    case Dvh1 => FourccDvh1
    case OtherFormat => 0
  }

  /** No two known formats share a fourcc. */
  lemma FormatFourccInjective(f: SampleFormat, g: SampleFormat)
    requires FormatFourcc(f) == FormatFourcc(g) != 0
    ensures f == g
  {
  }

  /**
   GetInformation. The codec-name update (UpdateInfoCodecName, outside this
   model) enters as `nameChanged`, its own return value. A known format sets
   its fourcc; an unknown one leaves the fourcc alone. The frame rate is
   filled in only when none is set yet, from the average rate if positive,
   else the constant rate if positive, with scale 256. The result reports a
   change exactly when the name changed or the info record differs.
   */
  function GetInformation(h: Handler, info: StreamInfo, nameChanged: bool): (u: InfoUpdate)
    ensures h.desc.format.OtherFormat? ==> u.info.fourcc == info.fourcc
    ensures !h.desc.format.OtherFormat? ==> u.info.fourcc == FormatFourcc(h.desc.format)
    ensures info.fpsRate != 0 ==>
              u.info.fpsRate == info.fpsRate && u.info.fpsScale == info.fpsScale
    ensures info.fpsRate == 0 && h.desc.Hevc? && h.desc.averageFrameRate > 0 ==>
              u.info.fpsRate == h.desc.averageFrameRate && u.info.fpsScale == FpsScale
    ensures info.fpsRate == 0 && h.desc.Hevc? && h.desc.averageFrameRate == 0
              && h.desc.constantFrameRate > 0 ==>
              u.info.fpsRate == h.desc.constantFrameRate && u.info.fpsScale == FpsScale
    ensures info.fpsRate == 0
              && (h.desc.Other? || (h.desc.averageFrameRate == 0 && h.desc.constantFrameRate == 0)) ==>
              u.info.fpsRate == 0 && u.info.fpsScale == info.fpsScale
    ensures u.changed <==> nameChanged || u.info != info
  {
    var fourcc := FormatFourcc(h.desc.format);
    var fourccFired := fourcc > 0 && info.fourcc != fourcc;
    var info1 := if fourccFired then info.(fourcc := fourcc) else info;
    var rate :=
      if info1.fpsRate != 0 || h.desc.Other? then 0
      else if h.desc.averageFrameRate > 0 then h.desc.averageFrameRate
      else h.desc.constantFrameRate;
    var info2 := if rate > 0 then info1.(fpsRate := rate, fpsScale := FpsScale) else info1;
    InfoUpdate(nameChanged || fourccFired || rate > 0, info2)
  }

  /** A second call on the info the first call produced reports nothing but
      its own name update, and leaves the info as it is. */
  lemma GetInformationSettles(h: Handler, info: StreamInfo, first: bool, second: bool)
    ensures var info' := GetInformation(h, info, first).info;
            GetInformation(h, info', second) == InfoUpdate(second, info')
  {
  }

  /**
   Frame-rate precedence, worked with values the configuration record can
   hold. The average rate is in frames per 256 seconds, so 7680 is 30 fps, and
   it wins over the constant-rate field. With no average rate, the code takes
   the constant-rate field itself as the rate numerator. That field is a 2-bit
   flag (0 to 2), so the result is 1/256 fps. With neither, nothing is set.
   */
  lemma FrameRatePrecedenceExamples(raw: seq<Byte>, sequences: seq<seq<Nalu>>, info: StreamInfo)
    requires info.fpsRate == 0
    ensures GetInformation(NewHandler(Hevc(Hvc1, raw, sequences, 7680, 1)), info, false).info.fpsRate == 7680
    ensures GetInformation(NewHandler(Hevc(Hvc1, raw, sequences, 0, 1)), info, false).info.fpsRate == 1
    ensures GetInformation(NewHandler(Hevc(Hvc1, raw, sequences, 0, 0)), info, false).info.fpsRate == 0
  {
  }
}
