# HEVC codec handler and ADTS reader timestamp state, in Dafny

This project models two small parts of the adaptive inputstream add-on's
demultiplexing core.

The first is the HEVC codec handler. It is given a track's sample description.
From it, the handler keeps the decoder extradata, the raw HEVC decoder
configuration record (ISO/IEC 14496-15, clause 8.3.3). It can rewrite that
record's parameter-set arrays into byte-stream form (ITU-T H.265, Annex B,
section B.2): each NAL unit is preceded by the 4-byte start code `00 00 00 01`.
It also fills in the player's stream information: the fourcc from a fixed
four-entry table, and a frame rate taken from the description's average or
constant rate hint.

The second is the timestamp state of the ADTS (AAC) sample reader: its fields,
their initial values and its inline accessors and setters.

Files:

- `annexb.dfy` (module `AnnexBFormat`): the Annex-B form as a pure function.
  `NalusSize` and `ArraysSize` give its size, computed independently.
  `Unframe` is its inverse, given the unit sizes. There are lemmas on where
  each start code and each unit sits. `WriteAnnexB` is the two-pass algorithm
  (size pass, then cursor writes into an array), proved equal to the pure form.
- `hevc_codec_handler.dfy` (module `HevcCodecHandler`): the sample
  description as a tagged union (`Hevc` / `Other`), the handler record, the
  constructor, `ExtraDataToAnnexB` (as a function and as an imperative
  method) and `GetInformation`.
- `adts_sample_reader.dfy` (module `AdtsSampleReader`): the reader record,
  its initial state, its accessors and its setters.
- `ints.dfy`, `wrappers.dfy`: fixed-width integer ranges and `Option`.

The trivial accessors `IsStarted`, `EOS`, `PTS`, `GetStartPTS`, `GetPTSDiff`
and `GetStreamId` (src/samplereader/ADTSSampleReader.h:19-22,32,34,36) are
plain field reads. They appear in the contracts below and have no rows of
their own.

## Model

| member | source | states |
|---|---|---|
| AnnexBFormat.AnnexB | src/codechandler/HEVCCodecHandler.cpp:41-65 | The converted buffer's length is the sum over all arrays and all units of (unit size + 4), the size the first pass computes. |
| AnnexBFormat.Frame | src/codechandler/HEVCCodecHandler.cpp:44-64 | Framing one array's units takes exactly the sum of (size + 4) over its units. |
| AnnexBFormat.ComputeSize | src/codechandler/HEVCCodecHandler.cpp:40-48 | The 32-bit size pass, given that the total does not wrap, yields exactly the length of the Annex-B form. |
| AnnexBFormat.WriteAnnexB | src/codechandler/HEVCCodecHandler.cpp:40-65 | Sizing the buffer once and then writing start code and unit bytes through a cursor produces exactly the Annex-B form, with the cursor ending at the buffer end. |
| AnnexBFormat.WriteArray | src/codechandler/HEVCCodecHandler.cpp:55-64 | The inner write loop over one array advances the cursor by exactly the array's (size + 4) sum. It leaves the bytes before the cursor as they were and appends the array's framing. |
| AnnexBFormat.WriteNalu | src/codechandler/HEVCCodecHandler.cpp:57-63 | The four stores and the copy put `00 00 00 01` and then the unit's bytes verbatim at the cursor, without touching earlier bytes. |
| AnnexBFormat.CursorBound | src/codechandler/HEVCCodecHandler.cpp:50-63 | The cursor never passes the end of the buffer that the size pass allocated. |
| AnnexBFormat.FramePlacement | src/codechandler/HEVCCodecHandler.cpp:55-64 | Unit k starts at the offset of the (size + 4) sum over the units before it: the start code first, then its bytes verbatim. The next unit begins size + 4 bytes later. |
| AnnexBFormat.AnnexBPlacement | src/codechandler/HEVCCodecHandler.cpp:53-65 | Unit j of array i sits, after its start code, at the combined size of everything written before it. |
| AnnexBFormat.AnnexBIsFrameOfFlatten | src/codechandler/HEVCCodecHandler.cpp:53-65 | The conversion is the framing of all units in order, arrays then units; it does not reorder, drop or insert anything. |
| AnnexBFormat.UnframeFrame | src/codechandler/HEVCCodecHandler.cpp:53-65 | Round trip: splitting the converted buffer with the known unit sizes gives back every original unit, in order. |
| AnnexBFormat.FrameUnframe | src/codechandler/HEVCCodecHandler.cpp:53-65 | Converse: any buffer that splits cleanly into start-code-prefixed units, with no trailing data, is exactly the framing of those units. |
| AnnexBFormat.UnframeCharacterisation | src/codechandler/HEVCCodecHandler.cpp:53-65 | A buffer is the Annex-B form of a unit list if and only if splitting it with those sizes recovers the list. |
| AnnexBFormat.NoNalusNoBytes | src/codechandler/HEVCCodecHandler.cpp:41-65 | If no array holds a unit, nothing is written. |
| AnnexBFormat.TwoNaluLayout | src/codechandler/HEVCCodecHandler.cpp:41-65 | One array with units of 5 and 10 bytes converts to 23 bytes, with start codes at offsets 0 and 9. |
| HevcCodecHandler.NewHandler | src/codechandler/HEVCCodecHandler.cpp:16-25 | The extradata starts as the raw configuration record for an HEVC description and empty for any other. |
| HevcCodecHandler.ExtraDataToAnnexB | src/codechandler/HEVCCodecHandler.cpp:27-71 | Succeeds if and only if the description is HEVC with at least one parameter-set array. On failure the handler is unchanged. On success the buffer has the precomputed size and splits back into exactly the original units, and the description is untouched. |
| HevcCodecHandler.ConvertExtraData | src/codechandler/HEVCCodecHandler.cpp:27-71 | The member written as in C++ (variant check, empty check, two-pass write) agrees with the functional definition on every input. On success the cursor-written extradata is exactly the Annex-B form of the arrays. |
| HevcCodecHandler.ConversionIgnoresPriorExtraData | src/codechandler/HEVCCodecHandler.cpp:41-65 | The outcome depends only on the description, not on the extradata held before. |
| HevcCodecHandler.ConversionIdempotent | src/codechandler/HEVCCodecHandler.cpp:27-71 | Converting twice gives the same flag and buffer as converting once. |
| HevcCodecHandler.EmptyArraysConvertToEmpty | src/codechandler/HEVCCodecHandler.cpp:34-67 | When arrays exist but none holds a unit, the conversion reports success and leaves an empty buffer. |
| HevcCodecHandler.FormatFourcc | src/codechandler/HEVCCodecHandler.cpp:77-94 | The table gives a nonzero fourcc for exactly the four formats hev1, hvc1, dvhe and dvh1. |
| HevcCodecHandler.FormatFourccInjective | src/codechandler/HEVCCodecHandler.cpp:80-91 | No two of the four formats share a fourcc. |
| HevcCodecHandler.GetInformation | src/codechandler/HEVCCodecHandler.cpp:73-121 | A known format sets its fourcc and an unknown one leaves the fourcc alone. The frame rate is touched only when it is 0: the average hint if positive, else the constant hint if positive, each with scale 256, else unchanged. The result is true if and only if the name changed or the info differs. |
| HevcCodecHandler.GetInformationSettles | src/codechandler/HEVCCodecHandler.cpp:95-119 | A second call on the resulting info changes nothing and reports only its own name update. |
| HevcCodecHandler.FrameRatePrecedenceExamples | src/codechandler/HEVCCodecHandler.cpp:101-119 | Average 7680 (30 fps in 256ths) wins over constant 1. Average 0 and constant 1 give rate 1, because the 2-bit constant-rate field is used as the rate itself. Both 0 leave the rate at 0. |
| AdtsSampleReader.NewReader | src/samplereader/ADTSSampleReader.h:43-49 | The initial state: not started, not at end of stream, PTS and PTS diff 0, offset all-ones (unset), start PTS is STREAM_NOPTS_VALUE. |
| AdtsSampleReader.DTS | src/samplereader/ADTSSampleReader.h:21-22 | The decode timestamp always equals the presentation timestamp. |
| AdtsSampleReader.IsEncrypted | src/samplereader/ADTSSampleReader.h:40 | ADTS samples are never reported as encrypted. |
| AdtsSampleReader.GetTimeScale | src/samplereader/ADTSSampleReader.h:35 | The timescale is 90000 in every state. |
| AdtsSampleReader.GetDuration | src/samplereader/ADTSSampleReader.h:39 | Given that times 100 fits in 64 bits, the result is the largest whole number of microseconds not exceeding the parser's 90 kHz duration (truncating division). |
| AdtsSampleReader.GetDurationMonotone | src/samplereader/ADTSSampleReader.h:39 | A longer parser duration never yields a shorter rescaled one. |
| AdtsSampleReader.GetDurationExamples | src/samplereader/ADTSSampleReader.h:35-39 | 9 maps to 100, 18 to 200, 1 to 11, and one timescale second (90000) to 1000000. |
| AdtsSampleReader.SetStartPTS | src/samplereader/ADTSSampleReader.h:32-33 | Afterwards GetStartPTS returns the value set, and no other field changes. |
| AdtsSampleReader.StartPtsLaws | src/samplereader/ADTSSampleReader.h:32-33 | Setting the current start PTS changes nothing; the last of two settings wins. |
| AdtsSampleReader.SetPTSOffset | src/samplereader/ADTSSampleReader.h:31 | Stores the offset, and no other field changes. |
| AdtsSampleReader.SetPTSOffsetUnobservable | src/samplereader/ADTSSampleReader.h:31 | Setting the offset leaves every accessor's answer as it was. |
| AdtsSampleReader.SettersCommute | src/samplereader/ADTSSampleReader.h:31-33 | Setting the offset and setting the start PTS can be done in either order. |

## Left out

- Logging (`LOG::LogF`) has no effect on state and is not modelled.
- The Bento4 class hierarchy and its dynamic cast are replaced by the `Hevc` / `Other` variants of `SampleDescription`.
- Only the NAL units of each parameter-set array are kept. The array's other fields are not modelled, because the conversion does not read them. The NALU length size the constructor captures is not modelled either, because the conversion never uses it.
- The frame-rate hints are modelled as 32-bit values, the width of the player's frame-rate field. In Bento4's hvcC atom they are narrower: a 16-bit average rate, and a 2-bit `constantFrameRate` flag (0 to 2).
- The code uses the constant-rate flag as a fallback frame rate without converting it (HEVCCodecHandler.cpp:112-116). The resulting rate is therefore 1/256 or 2/256 fps. The model reproduces this as written; the 32-bit widening says nothing about what the field means.
- `UpdateInfoCodecName` belongs to the codec handler base class, which is not part of this model. Its return value enters `GetInformation` as the flag `nameChanged`, and the codec name itself is not part of `StreamInfo`.
- `CODEC::MakeFourCC` belongs to the add-on's codec utilities, which are not part of this model. The constants used here are one plausible packing. Every property relies only on them being nonzero and pairwise distinct.
- `STREAM_NOPTS_VALUE` is taken as 0xFFF0000000000000, its value in Kodi's inputstream API header.
- ExtraDataToAnnexB: requires that the total size fits in 32 bits, instead of modelling the wrap-around of the `AP4_Size` accumulator. The same precondition is on `ConvertExtraData`, `ComputeSize` and `WriteAnnexB`.
- GetDuration: requires that the parser duration times 100 fits in 64 bits, instead of modelling the wrap-around. Below that bound, Dafny's division agrees with C++ truncating division, because both operands are non-negative.
- The parser's own duration (`ADTSReader::GetDuration`) is not modelled. It enters `GetDuration` as a parameter.
- Parts of the reader live in source files that are not part of this model, so they are left out. These are the reader's constructor body; `Start`, `ReadSample`, `Reset` and `TimeSeek`; its delegations to the ADTS frame parser (`GetInformation`, `GetSampleDataSize`, `GetSampleData`); and the byte-stream I/O. Without them, PTS monotonicity across reads and the reset/start state machine cannot be stated.
- The accessors are functions of an immutable record, so their `const` qualifier holds by construction and has no lemma.
- `ExtraDataToAnnexB` signals an empty list of arrays only by returning false (HEVCCodecHandler.cpp:34-38). There is no separate error value, and the model reports `converted == false`.
- Splitting the output on the `00 00 00 01` marker does not invert the conversion. A unit's own bytes may contain that marker, and nothing is escaped. `Unframe` therefore splits using the known unit sizes.
