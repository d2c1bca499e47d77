# A verified model of the PlayStation disc, audio and video encoders

This project models, in Dafny, the parts of the toolchain that turn data into
the byte formats a PlayStation reads: the CD sector coder of `pscd-new`, the
SPU/XA-ADPCM encoder of `libpsxav`, the MDEC/STR frame coder of `psxavenc`, and
the voice pool of the MIDI player in `orelei`. It proves what each of them is
for: codes that detect and correct errors, bit streams that a decoder takes
apart again, searches that find the best candidate, loops that stop exactly on
budget, and invariants over every run. Where the code falls short of what it is
for, the exact condition under which it does not is proved, with an input that
shows the failure.

## What is modelled

**CD sectors** (ECMA-130, section 14.3 and annex A). `GaloisField` and
`DiscreteLog` define the parity field GF(2^8) and prove that its generator has
order 255. `ReedSolomon` gives the code by its two sums and the parity bytes in
closed form; `ParityTables` shows that the encoder's logarithm arithmetic is
that closed form. `Edc` is the 32-bit error detection code as a division.
`SectorLayout` places columns and diagonals in the sector, `SectorFormat` says
what a whole sector is, `SectorGuarantees` what its reader may rely on,
`SectorDistance` what columns and diagonals give together, `SectorBytes` what
stands in every byte as the disc format has it. `SectorCoder` holds the tables
and the in-place encoder itself, `PsxCdrom` the bit-at-a-time code of the other
library.

**ADPCM.** `Adpcm` has both sides of the predictor loop, `AdpcmSearch` the
filter and shift search and its quality, `AdpcmChoice` what its choices are
worth, `AdpcmFormat` a player's one step, `AdpcmEncoder` the encoder that
rewrites predictor state and nibbles in place. `SpuStream` strings blocks
together; `XaBlock` interleaves eight units, `XaEncoder` fills sectors,
`XaSilence` says what becomes of samples that are not of four bits,
`XaGuarantees` decodes the sectors and puts them on a disc with the sector
coder, and `XaQuality` carries the search's bound to what is decoded.
`SpuPlayer` and `XaPlayer` are players that know the format alone, down to the
place of every header, nibble and sample.

**MDEC frames** (code words of ISO/IEC 13818-2, table B-14). `BitStrings` and
`BitWriter` are the bit fields and the 16-bit word writer, `HuffmanCodes` the
variable-length code and its decoder, `MdecBlock` one block and back,
`MdecFormat` the steps, scan, words and bits as a player has them,
`FrameTransform` the thresholding of a frame, `FrameBudget`, `FrameLayout` and
`FrameShedder` the coefficient shedding, `FrameCoder` and `FrameEncoder` the
frame, `FrameCapacity` the largest frame there is. `FrameScheduler` spreads
frames over sectors, `VideoSectors` are those sectors, `VideoStream` is the
encoder that codes each frame when its first sector is due, and
`StreamConditions` says at which sizes and rates it succeeds. `VideoPlayer` goes
by the sectors' headers, takes pieces in any order and shows the frame.

**MIDI voices.** `VoicePool` refines a bounded list of held notes, oldest
first.

`Arithmetic`, `Wrappers` and `FiniteSets` hold what several of them share.

## How it is modelled

Code that changes things step by step is imperative Dafny on arrays and
classes, proved against specification functions; the lemmas are about those
functions. Bytes and words are naturals below a power of two: a left shift is a
multiplication, a right shift a division, a low mask a remainder; exclusive-or,
or and and are defined bit by bit in `Bits` and `BitStrings`. C division
truncates (`Arithmetic.CDiv`) where operands may be negative; an arithmetic
right shift is Dafny's division by a power of two, which rounds down for these
positive divisors. A C pointer into an array is the array and an offset. The
struct `vid_encoder_state_t` is split into the bit writer and the stream
encoder; its six block lists are one array with six regions, and its size
counter is passed in and out. The assertions of `flush_bits` abort the program;
here a method returns `ok == false` instead, and its contract says when. A
sector that the coder takes "raw" is whatever 2352 bytes the caller gives.

Where the code and its surroundings differ, the model follows the code. The
Form 1 encoder saves and restores the four header bytes around the parity pass
without clearing them (toolsrc/pscd-new/pscd-new.c:500-503), so parity closes
over the header that is present. `BcdRoundTrip` shows that the binary-coded
time is right for values below 160, not only below 100, and exactly for those.
The remark at toolsrc/psxavenc/mdec.c:229-230 that wide fields break the main
logic is explained by `BitWriter.Writer.FlushBits`: a word with all 16 places
free is not stored, whatever has been put into it, so a field has to be split
at 16 bits.

Four promises hold only under a condition, and the condition is proved exact:

- The shedding loop ends for every frame of every stream if and only if twelve
  counts for each macroblock fit the rate rounded down
  (`StreamConditions.StreamEndsExactlyWhen`). Below one sector a frame the first
  frame gets none and the encoder hangs (`StarvedFrame`); at 320x240 it hangs
  above 32 frames a second (`UpTo32Frames`).
- Shedding counts coefficients, not bits, so a frame on budget may still be too
  large, and then the program aborts. All frames of a size fit their sectors if
  and only if the frame of escaped coefficients does
  (`FrameCapacity.CapacityExactly`). At 320x240 some frame of nine sectors is 36
  bytes too large (`NineSectorsMayNot`); no stream aborts from 17 frames a
  second on (`StreamConditions.From17Frames`), and at 15, the rate for which
  toolsrc/psxavenc/filefmt.c:106 works out 8.75 sectors, some may.
- A frame needs at most the buffer's nine pieces if and only if the rate is at
  most nine sectors a frame (`FrameScheduler.BufferSuffices`).
- A voice just started counts as the oldest if and only if the 32-bit counter
  has wrapped (`VoicePool.WrapMakesOldest`), and then the next note takes it.

## Model

| member | source | states |
|---|---|---|
| DiscreteLog.Order | toolsrc/pscd-new/pscd-new.c:340-354 | the generator of the log table has order exactly 255: its 255th power is 1 and no earlier one is |
| DiscreteLog.LogExists | toolsrc/pscd-new/pscd-new.c:340-354 | every nonzero byte is a power below 255, so the log table has an entry for it |
| DiscreteLog.AlphaInjective | toolsrc/pscd-new/pscd-new.c:340-354 | powers below 255 are distinct, so no log entry is overwritten |
| GaloisField.MulAlpha | toolsrc/pscd-new/pscd-new.c:366-375 | multiplying powers adds exponents, in the field reduced by x^8+x^4+x^3+x^2+1 |
| ParityTables.DivideAlphaInverse | toolsrc/pscd-new/pscd-new.c:306-318 | `subfunc` undoes multiplication by a power of the generator, for every byte including zero |
| ParityTables.HighFactorByLogs | toolsrc/pscd-new/pscd-new.c:358-359 | subtracting 0x19 from a logarithm divides by a+1, which gives the factor (a^e+1)/(a+1) |
| ParityTables.LowFactorByLogs | toolsrc/pscd-new/pscd-new.c:361-362 | the two-step form with 0x01 and 0x18 gives the factor (a^e+a)/(a+1) |
| ParityTables.MulByLogs | toolsrc/pscd-new/pscd-new.c:366-375 | a field product is a table look-up of the logarithms' sum, reduced once by 255 |
| ReedSolomon.ParityIsTheCompletion | toolsrc/pscd-new/pscd-new.c:379-404 | two bytes complete data to a codeword (plain and weighted sum both zero) if and only if they are the computed parity bytes |
| ReedSolomon.MinimumDistance | toolsrc/pscd-new/pscd-new.c:379-404 | two different codewords of equal length up to 255 differ outside any two given places, so in at least three |
| ReedSolomon.SingleByteRepair | toolsrc/pscd-new/pscd-new.c:379-404 | a reader's two sums tell whether a codeword had a byte replaced, which one, and the change |
| Edc.AbsorbByTable | toolsrc/pscd-new/pscd-new.c:421-425 | one table step equals eight bit steps after the byte has entered, for every register and byte |
| Edc.Residue | toolsrc/pscd-new/pscd-new.c:416-432 | every message followed by the four stored bytes of its code has code zero |
| Edc.FeedIsFeedBits | toolsrc/libpsxav/cdrom.c:27-37 | feeding bytes is feeding their bits, lowest first, one at a time |
| Edc.BurstDetection | toolsrc/pscd-new/pscd-new.c:416-432 | messages of equal length that differ only inside a window of 32 consecutive bits have equal codes if and only if they are equal |
| Edc.OddErrors | toolsrc/pscd-new/pscd-new.c:324-338 | the code's parity of ones is the message's, so an odd number of flipped bits is always noticed |
| Edc.PolynomialIs | toolsrc/pscd-new/pscd-new.c:332-333 | the constant is (x^16+x^15+x^2+1)(x^16+x^2+x+1) without its highest power, lowest bit for the highest power |
| Edc.LastBit | toolsrc/pscd-new/pscd-new.c:416-424 | zeroes have code zero, and a message whose last bit alone is set has the polynomial as its code |
| SectorLayout.ColumnsPartition | toolsrc/pscd-new/pscd-new.c:406-409 | the P walk reads each 16-bit word of bytes 0x00C to 0x81B exactly once |
| SectorLayout.DiagonalWalk | toolsrc/pscd-new/pscd-new.c:394-396 | the running Q offset with its one conditional subtraction is the wrapped diagonal position, at every step |
| SectorLayout.DiagonalsPartition | toolsrc/pscd-new/pscd-new.c:411-414 | each 16-bit word of bytes 0x00C to 0x8C7 is on exactly one of the 26 diagonals, at exactly one step |
| SectorLayout.LineStaysInside | toolsrc/pscd-new/pscd-new.c:387-397 | every read of both walks stays below the parity that the pass writes |
| SectorLayout.ColumnKept | toolsrc/pscd-new/pscd-new.c:411-414 | the Q pass changes no byte of any P column |
| SectorLayout.ParityEstablished | toolsrc/pscd-new/pscd-new.c:406-414 | for every sector, P pass then Q pass make all 86 byte columns and all 52 byte diagonals codewords |
| SectorCoder.Tables.Subfunc | toolsrc/pscd-new/pscd-new.c:306-318 | computes the field quotient by a power from the two tables |
| SectorCoder.Tables.InitTables | toolsrc/pscd-new/pscd-new.c:320-377 | fills the EDC, log, antilog and product tables with the field's and the code's values |
| SectorCoder.Tables.CalcParity | toolsrc/pscd-new/pscd-new.c:379-404 | the in-place pass writes exactly the parity bytes of its columns or diagonals and nothing else |
| SectorCoder.Tables.CalcPParity | toolsrc/pscd-new/pscd-new.c:406-409 | the P pass is the column completion of the whole sector |
| SectorCoder.Tables.CalcQParity | toolsrc/pscd-new/pscd-new.c:411-414 | the Q pass is the diagonal completion of the whole sector |
| SectorCoder.Tables.AdjustEdc | toolsrc/pscd-new/pscd-new.c:416-432 | the table-driven loop stores, behind the stretch, the code that bitwise division gives |
| PsxCdrom.CalculateEdc | toolsrc/libpsxav/cdrom.c:27-37 | the bitwise loop computes the same code, for every stretch |
| PsxCdrom.CalculateChecksums | toolsrc/libpsxav/cdrom.c:39-69 | each sector kind gets its code in its place and no other byte changes but the eight cleared ones of mode 1 |
| PsxCdrom.ChecksumsHold | toolsrc/libpsxav/cdrom.c:39-69 | for each sector kind a reader finds the code right, eight bytes cleared in mode 1, and every other byte as it was |
| SectorFormat.BcdRoundTrip | toolsrc/pscd-new/pscd-new.c:434-437 | reading the stored binary-coded byte gives the value back if and only if it is from 0 to 159 |
| SectorFormat.AddressRoundTrip | toolsrc/pscd-new/pscd-new.c:445-449 | the header address decodes to the block number plus 150 if and only if that is from 0 to below 160 minutes |
| SectorCoder.Tables.EncodeSector | toolsrc/pscd-new/pscd-new.c:439-525 | for every mode the 2352 bytes are those of the sector function, whose every byte the `SectorBytes` rows give, and failure is reported exactly where that gives none |
| SectorGuarantees.StoredCodeChecks | toolsrc/pscd-new/pscd-new.c:416-432 | a stretch and the code stored behind it have code zero |
| SectorGuarantees.EncodedSound | toolsrc/pscd-new/pscd-new.c:439-525 | every encoded sector passes its reader's checks of code and parity, carries its address, and delivers exactly the requested content, all 2336 bytes of a mode 0 sector included |
| SectorGuarantees.EncodingFails | toolsrc/pscd-new/pscd-new.c:453-525 | the encoder fails exactly for the audio mode and for a raw source whose mode byte is above 2 |
| SectorBytes.FrontBytes | toolsrc/pscd-new/pscd-new.c:441-449 | sync pattern, the two digits of minute, second and frame, and the mode byte of every encoded sector |
| SectorBytes.Form1Submode | toolsrc/pscd-new/pscd-new.c:488-497 | Form 1 stores the requested submode twice, bit by bit but for the form bit, and zeroes in the rest of the subheader |
| SectorBytes.Form2Submode | toolsrc/pscd-new/pscd-new.c:507-515 | Form 2 stores the source's second subheader copy twice, bit by bit, with the form bit set |
| SectorBytes.Mode1Content | toolsrc/pscd-new/pscd-new.c:478-486 | Mode 1 stores the source's 2048 bytes at 0x010, a code that is right from byte 0 on, and zeroes behind it unless a raw source has others |
| SectorBytes.Form1Content | toolsrc/pscd-new/pscd-new.c:488-505 | Form 1 stores the source's 2048 bytes at 0x018 and a code that is right from the subheader on |
| SectorBytes.Form2Content | toolsrc/pscd-new/pscd-new.c:507-518 | Form 2 stores the source's 2324 bytes at 0x018, no code where the source has none and the right one where it has any |
| SectorBytes.Mode0Content | toolsrc/pscd-new/pscd-new.c:474-476 | mode 0 stores zeroes, or the bytes of a raw source |
| SectorBytes.ParityBytes | toolsrc/pscd-new/pscd-new.c:379-414 | the bytes of every column and diagonal, by their offsets in the sector, are a codeword in Mode 1 and Form 1 |
| SectorGuarantees.RefitForgets | toolsrc/pscd-new/pscd-new.c:453-474 | for mode bytes 0, 1 and 2, fitting to one address and then another gives the same 2352 bytes as fitting to the last alone |
| SectorGuarantees.RefitKeepsForm2 | toolsrc/pscd-new/pscd-new.c:507-518 | a raw Form 2 sector changes in its front alone if and only if its subheader copies agree and its code is zero or right |
| SectorGuarantees.SectorRepair | toolsrc/pscd-new/pscd-new.c:379-409 | after any one byte of a sound sector's data or P parity is replaced, exactly its column fails and tells the byte's place and its change |
| SectorDistance.DiagonalRepair | toolsrc/pscd-new/pscd-new.c:379-414 | after any one byte behind the header is replaced, Q parity bytes included, exactly its diagonal fails and tells the byte's place and its change |
| SectorDistance.NineBytes | toolsrc/pscd-new/pscd-new.c:406-414 | two sound sectors that are not the same from 0x00C on differ in at least nine bytes |
| Adpcm.ClosedLoop | toolsrc/libpsxav/adpcm.c:84-112 | decoding the nibbles reaches the tracked predictor state, and the accumulated error is the squared distance to the coded samples |
| Adpcm.LastTwo | toolsrc/libpsxav/adpcm.c:110-111 | the predictor state is the last two decoded samples |
| AdpcmFormat.SoundedIs | toolsrc/libpsxav/adpcm.c:92-101 | one decoded sample is the nibble's step and the filter's share of the last two samples, with the format's five filters |
| AdpcmSearch.NoOverflow | toolsrc/libpsxav/adpcm.c:85-103 | no intermediate value of a sample leaves 32 bits and the asserted error bounds hold |
| AdpcmSearch.AttemptBeatsStart | toolsrc/libpsxav/adpcm.c:119-147 | every attempt on a unit is below the start value 2^50, so the search always picks one |
| AdpcmSearch.BestUnique | toolsrc/libpsxav/adpcm.c:123-148 | at most one searched pair is the first with the least error |
| AdpcmSearch.BestIsGood | toolsrc/libpsxav/adpcm.c:117-156 | with no carried error the chosen pair's squared error is at most 28 (2^r - 1)^2, r the least right shift of the raw samples |
| AdpcmSearch.PlainShiftMeaning | toolsrc/libpsxav/adpcm.c:51-63 | that r is at most q if and only if every raw sample, shifted right by q, is a signed nibble |
| AdpcmChoice.ShiftMeaning | toolsrc/libpsxav/adpcm.c:35-68 | for every filter, the least right shift is at most q if and only if every prediction error from the raw samples, shifted right by q, is a signed nibble |
| AdpcmChoice.NearestNibble | toolsrc/libpsxav/adpcm.c:85-92 | no other nibble is nearer to a sample's prediction error than the coded one |
| AdpcmChoice.BestOfTried | toolsrc/libpsxav/adpcm.c:117-156 | what a player hears of the chosen pair is at least as near as with any filter at its least shift, one more or one less |
| AdpcmEncoder.FindMinShift | toolsrc/libpsxav/adpcm.c:35-68 | returns 12 minus the least right shift that brings all prediction errors into a nibble |
| AdpcmEncoder.AttemptToEncodeNibbles | toolsrc/libpsxav/adpcm.c:70-115 | state, error and nibbles are those of the coded run; no byte outside the lane and no other nibble of its bytes changes |
| AdpcmEncoder.EncodeNibbles | toolsrc/libpsxav/adpcm.c:117-156 | the header names the first searched pair with the least error, and state and nibbles are that pair's |
| SpuStream.SpuEncode | toolsrc/libpsxav/adpcm.c:287-302 | writes one best-coded block for each started 28 samples, returns their size, and touches nothing behind them |
| SpuStream.EncodeBlock | toolsrc/libpsxav/adpcm.c:292-299 | a block is a header, a zero flag and 28 packed nibbles, whatever the working buffer held before |
| SpuStream.DecodeTracks | toolsrc/libpsxav/adpcm.c:287-302 | decoding the whole stream from the same start reaches the encoder's predictor state |
| SpuStream.EndsAsHeard | toolsrc/libpsxav/adpcm.c:287-302 | the encoder is left with the last two samples a player hears |
| SpuStream.BlockDecodes | toolsrc/libpsxav/adpcm.c:287-302 | each block's reported error is the squared distance of its decoded samples to the zero-padded input |
| SpuStream.DecodedClose | toolsrc/libpsxav/adpcm.c:287-302 | each block of the decoded stream is within 28 (2^r - 1)^2 of the zero-padded input |
| SpuPlayer.HeardIsDecode | toolsrc/libpsxav/adpcm.c:287-302 | a player that takes header, nibble and the last two samples from the bytes by the format hears what the model decodes |
| SpuPlayer.FlagsClear | toolsrc/libpsxav/adpcm.c:294-294 | every block's flag byte is zero |
| SpuPlayer.BlockInput | toolsrc/libpsxav/adpcm.c:85-85 | block b codes the samples from 28 b on, each in its turn, and silence from the count on |
| SpuPlayer.HeardClose | toolsrc/libpsxav/adpcm.c:287-302 | every heard sample of a block is within the search's bound of the very sample of the input that it stands for |
| XaBlock.UnitsDisjoint | toolsrc/libpsxav/adpcm.c:158-178 | writing one of the eight units leaves every other unit's header and nibbles as they were |
| XaBlock.EncodeBlockXa | toolsrc/libpsxav/adpcm.c:158-192 | all eight units are best codings from the state before them, the two channel states are those tracked, and no byte outside the block changes |
| XaBlock.CopyHeaders | toolsrc/libpsxav/adpcm.c:260-261 | both header groups are stored twice and no unit changes |
| XaEncoder.SizesAgree | toolsrc/libpsxav/adpcm.c:194-215 | for every format, width and sample count the sectors that the block loop fills are those the buffer-size function announces |
| XaEncoder.InitSector | toolsrc/libpsxav/adpcm.c:221-238 | sets up front, both subheaders and the empty tail of one sector and nothing outside it |
| XaEncoder.XaEncode | toolsrc/libpsxav/adpcm.c:240-270 | with 4-bit samples: returns exactly the announced size, writes only that many bytes, every sector is finished with a valid code, and the blocks in it are best codings of the stream |
| XaSilence.XaEncodeSilence | toolsrc/libpsxav/adpcm.c:240-270 | with any other width: the announced size again, every sector finished with a valid code, and no audio in any of them |
| XaGuarantees.SideOfStream | toolsrc/libpsxav/adpcm.c:158-178 | each side decodes from its own headers and nibbles alone and reaches the state tracked for it |
| XaGuarantees.StreamEnds | toolsrc/libpsxav/adpcm.c:240-270 | after the whole encoder, each channel state is the last two samples a player of that side hears |
| XaQuality.DecodedClose | toolsrc/libpsxav/adpcm.c:158-178 | with no error carried over on a side, every unit its player hears is within 28 (2^r - 1)^2 of the samples it stands for |
| XaPlayer.HeardIsDecode | toolsrc/libpsxav/adpcm.c:158-178 | a player that finds blocks, header copies and nibbles by their offsets in the file hears on each side what the model decodes |
| XaPlayer.UnitInput | toolsrc/libpsxav/adpcm.c:158-178 | in stereo a side codes every other sample, its t-th from 2 t + side; in mono every other unit of 28; silence from the end on |
| XaPlayer.HeardClose | toolsrc/libpsxav/adpcm.c:158-270 | every sample heard on a side is within the search's bound of the very sample of the input that it stands for |
| XaPlayer.SectorTells | toolsrc/libpsxav/adpcm.c:221-265 | every finished sector tells file, channel, stereo, rate and width bit by bit, twice, and that it is real-time audio of Form 2; its tail is empty, its code right, its front the sync pattern of mode 2 |
| XaGuarantees.SealedRefits | toolsrc/libpsxav/adpcm.c:221-238 | a finished full-size sector fitted to any address keeps everything but its three address bytes and passes its reader's checks |
| XaGuarantees.DiscReady | toolsrc/pscd-new/pscd-new.c:453-518 | so does every sector of a whole encoded stream put on a disc from any block on |
| BitWriter.Place | toolsrc/psxavenc/mdec.c:260-268 | shifting a field into the free places overlaps nothing, stays within 16 bits and appends exactly the field's bits |
| BitWriter.Writer.FlushBits | toolsrc/psxavenc/mdec.c:212-223 | stores the word low byte first if any place of it is taken, and empties it; aborts exactly where buffer or share of sectors is full |
| BitWriter.Writer.EncodeBits | toolsrc/psxavenc/mdec.c:225-270 | for every width and fitting value, what has been written grows by exactly the field's bits, most significant first, and no other byte changes; it aborts only where they do not fit |
| BitWriter.Writer.FinalFlush | toolsrc/psxavenc/mdec.c:555-555 | the closing flush adds zero padding to what was written and nothing else, and aborts exactly where what was written does not fit |
| HuffmanCodes.RowUsed | toolsrc/psxavenc/mdec.c:37-150 | every row of the code table is in use: its run and level, of either sign, get that row's code |
| HuffmanCodes.WindowNamesRow | toolsrc/psxavenc/mdec.c:37-150 | the next sixteen bits begin with a row's code if and only if the decoder finds that row |
| HuffmanCodes.PrefixFree | toolsrc/psxavenc/mdec.c:37-150 | no code word, the escapes and the end-of-block code included, begins another |
| HuffmanCodes.CoefficientReads | toolsrc/psxavenc/mdec.c:272-294 | for every 16-bit word and whatever follows, decoding gives the word back and where its code ended |
| HuffmanCodes.EmittedLength | toolsrc/psxavenc/mdec.c:199-208 | a word takes from 3 to 22 bits |
| HuffmanCodes.InitDctData | toolsrc/psxavenc/mdec.c:197-210 | fills the map with the code of the last table row that names each word, the escape where none does |
| MdecBlock.ScanPermutes | toolsrc/psxavenc/mdec.c:164-184 | the two scan tables are inverse permutations of the 64 places |
| MdecBlock.SurvivesQuantisation | toolsrc/psxavenc/mdec.c:320-323 | a coefficient that passed the threshold quantises to zero if and only if it is zero |
| MdecBlock.WordsPerBlock | toolsrc/psxavenc/mdec.c:346-359 | a thresholded block gives as many run-length words as it has AC coefficients other than zero |
| MdecBlock.RunsExpand | toolsrc/psxavenc/mdec.c:346-359 | expanding the run-length words and filling up with zeroes gives the scan back |
| MdecBlock.BlockReads | toolsrc/psxavenc/mdec.c:328-374 | a decoder recovers every quantised block from its bits, whatever follows, and where it ended |
| MdecFormat.QuantisedRepresents | toolsrc/psxavenc/mdec.c:332-339 | a quantised value times the player's step lies from zero on towards the coefficient, less than a step short of it; out of range it is the nearest ten-bit value |
| MdecFormat.FinishedIs | toolsrc/psxavenc/mdec.c:314-324 | the transform's end leaves a 32nd or a quarter, cut off towards zero, and nothing exactly where that is below the step |
| MdecFormat.ScanWalks | toolsrc/psxavenc/mdec.c:175-184 | the scan goes along the diagonals of the block, up one and down the next |
| MdecFormat.BlockPlays | toolsrc/psxavenc/mdec.c:341-374 | a block's bits are ten for its first value, its code words and 10, and carrying the words out in scan order gives the block back |
| MdecFormat.RowCode | toolsrc/psxavenc/mdec.c:272-294 | a row's run and level, of either sign, are coded by the row's bits and a sign bit |
| MdecFormat.EscapeCode | toolsrc/psxavenc/mdec.c:199-203 | a run and value that no row has are coded as 000001 and the sixteen bits of their word |
| MdecFormat.WordsAreBits | toolsrc/psxavenc/mdec.c:212-223 | bit i of a frame is in the high byte of its word first, the highest bit of each byte first |
| FrameCoder.FinishTransform | toolsrc/psxavenc/mdec.c:314-324 | every coefficient is scaled down, and then is zero or at least its quantisation step |
| FrameTransform.FinishFrame | toolsrc/psxavenc/mdec.c:490-492 | the loop over all macroblocks and lists finishes every coefficient of the frame by its place in its block |
| FrameTransform.FinishedIsThresholded | toolsrc/psxavenc/mdec.c:314-324 | a finished frame has no coefficient other than zero below its quantisation step |
| FrameTransform.FinishedReaches | toolsrc/psxavenc/mdec.c:314-324 | and every such value is reached from some coefficient |
| FrameCoder.EncodeAcValue | toolsrc/psxavenc/mdec.c:272-294 | appends the word's code |
| FrameCoder.EncodeDctBlock | toolsrc/psxavenc/mdec.c:328-374 | the block becomes its quantised self, its bits are appended, and the size counter grows by its words and two, rounded up to 16 |
| FrameCoder.BlocksRead | toolsrc/psxavenc/mdec.c:531-548 | a decoder told the number of blocks recovers all quantised blocks of a frame in coding order |
| FrameCoder.FrameReads | toolsrc/psxavenc/mdec.c:531-555 | the same from the whole frame's bits with trailer and any padding, and the trailer is what comes next |
| FrameCoder.CoderAgreesWithReducer | toolsrc/psxavenc/mdec.c:376-396 | the coder emits exactly as many words as the reducer counted, though they visit a macroblock's lists in opposite orders |
| FrameCoder.BudgetBits | toolsrc/psxavenc/mdec.c:496-551 | a thresholded frame of n macroblocks on budget takes at most 72 n + 22 (threshold - 12 n) + 12 bits |
| FrameLayout.PlacesApart | toolsrc/psxavenc/mdec.c:504-519 | the visits of a pass reach blocks that lie in the lists and do not overlap |
| FrameBudget.ReduceMeans | toolsrc/psxavenc/mdec.c:376-396 | a pass drops only values below its limit, as many as the counter says, and with values left to shed leaves none below |
| FrameBudget.CutOff | toolsrc/psxavenc/mdec.c:381-392 | the small values that go are the first ones: all of them up to a cut, none behind it |
| FrameBudget.EndsExactlyWhen | toolsrc/psxavenc/mdec.c:502-529 | the shedding loop reaches its budget after some pass if and only if the blocks' own share fits it; otherwise it never ends |
| FrameBudget.EndsOnBudget | toolsrc/psxavenc/mdec.c:502-529 | at the end the count is the lesser of the initial count and the threshold, dropped values are at most 8 m and survivors above 8 (m - 1) |
| FrameShedder.ReduceDctBlock | toolsrc/psxavenc/mdec.c:376-396 | the in-place loop is one block's part of a pass; the first coefficient and all other blocks stay |
| FrameShedder.ReducePass | toolsrc/psxavenc/mdec.c:503-522 | one pass over all lists of all macroblocks is the pass over their coefficients in visiting order |
| FrameShedder.ShedValues | toolsrc/psxavenc/mdec.c:496-529 | the loop ends whenever the blocks' share fits, with the coefficients of the first pass that meets the threshold |
| FrameShedder.ShedOnBudget | toolsrc/psxavenc/mdec.c:496-529 | what the loop leaves in the frame: exact count, dropped at most 8 m, survivors unchanged and above 8 (m - 1) |
| FrameEncoder.ShedOrder | toolsrc/psxavenc/mdec.c:504-519 | the order of shedding, by offsets: macroblocks column by column, the lists from last to first, the places behind the first |
| FrameEncoder.ShedKeepsThreshold | toolsrc/psxavenc/mdec.c:496-529 | after shedding, every coefficient of the frame is still zero or at least its quantisation step |
| FrameEncoder.BlockThinned | toolsrc/psxavenc/mdec.c:376-396 | in every block of the frame the first coefficient is kept, every other one is kept or gone, and what is gone is at most 8 m |
| FrameEncoder.ShedFrameBits | toolsrc/psxavenc/mdec.c:496-551 | the bound on a frame's bits holds for every thresholded frame after shedding |
| FrameEncoder.CodeBlocks | toolsrc/psxavenc/mdec.c:531-548 | every block becomes its quantised self, and their bits are appended in coding order; it aborts only where they do not fit |
| FrameEncoder.EndFrame | toolsrc/psxavenc/mdec.c:550-560 | appends the trailer, pads with fewer than 32 zero bits and makes the size a multiple of four, or aborts exactly where the trailer does not fit |
| FrameEncoder.EncodeFrame | toolsrc/psxavenc/mdec.c:496-570 | from the thresholded coefficients on: succeeds if and only if what shedding on budget leaves fits the frame's sectors, and then the buffer's words are the header and the bits of that frame, zero-padded |
| FrameEncoder.FrameDecodes | toolsrc/psxavenc/mdec.c:531-570 | a player that reads the finished frame's words recovers every quantised block |
| FrameCapacity.CapacityExactly | toolsrc/psxavenc/mdec.c:496-551 | every thresholded frame of n macroblocks fits b sectors, after shedding, if and only if 72 n + 22 min(378 n, 1025 b - 12 n) + 12 bits do |
| FrameCapacity.OutcomeExists | toolsrc/psxavenc/mdec.c:502-529 | where the blocks' own share fits, every frame is left as some frame that meets the threshold |
| FrameCapacity.NineSectorsMayNot | toolsrc/psxavenc/mdec.c:212-223 | a thresholded frame of 320x240 that sheds on budget in nine sectors and is 36 bytes too large for them |
| FrameScheduler.NextTotal | toolsrc/psxavenc/mdec.c:585-587 | the carried fraction and the division give the closed form floor(n base / den) for every n |
| FrameScheduler.FloorOrCeiling | toolsrc/psxavenc/mdec.c:581-588 | a frame gets the rate rounded down or up |
| FrameScheduler.OneFrame | toolsrc/psxavenc/mdec.c:580-599 | no sector belongs to two frames |
| FrameScheduler.SomeFrame | toolsrc/psxavenc/mdec.c:580-599 | every sector belongs to a frame |
| FrameScheduler.BufferSuffices | toolsrc/psxavenc/mdec.c:640-640 | no frame needs more than the buffer's nine pieces if and only if the rate is at most nine sectors a frame |
| StreamConditions.ShareOfEveryFrame | toolsrc/psxavenc/mdec.c:499-499 | the blocks' own share fits the threshold of every frame if and only if it fits the rate rounded down |
| StreamConditions.StreamEndsExactlyWhen | toolsrc/psxavenc/mdec.c:581-590 | shedding ends for every frame of every stream if and only if it does so for the rate rounded down, a condition on size and rate alone |
| StreamConditions.StarvedFrame | toolsrc/psxavenc/mdec.c:581-590 | below one sector a frame the first frame gets none, and its shedding never ends |
| StreamConditions.StarvedAt132 | toolsrc/psxavenc/filefmt.c:107-108 | so it is at 320x240 and 132 frames a second |
| StreamConditions.UpTo32Frames | toolsrc/psxavenc/filefmt.c:107-108 | at 320x240 the condition holds if and only if there are at most 32 frames a second |
| StreamConditions.LeavesOne | toolsrc/psxavenc/mdec.c:502-529 | shedding leaves one frame and no other |
| StreamConditions.FitsExactly | toolsrc/psxavenc/mdec.c:489-551 | every frame of a size, whatever its transform gives, can be coded in b sectors if and only if the worst one can |
| StreamConditions.StreamFitsExactlyWhen | toolsrc/psxavenc/mdec.c:581-590 | every frame of every stream can be coded if and only if the worst frame fits the rate rounded down and, unless it is whole, rounded up |
| StreamConditions.From17Frames | toolsrc/psxavenc/filefmt.c:107-108 | at 320x240 and up to 32 frames a second that is so if and only if there are at least 17 |
| VideoSectors.PicksFrame | toolsrc/psxavenc/mdec.c:605-609 | the sectors of a stream whose headers name a frame are those that belong to it, in order |
| VideoSectors.FrameGathers | toolsrc/psxavenc/mdec.c:639-642 | a player that joins a frame's pieces gets the start of the frame's buffer |
| VideoSectors.FrameJoins | toolsrc/psxavenc/mdec.c:605-642 | with the size that the headers give, it gets exactly the frame's used bytes |
| VideoSectors.HeaderReads | toolsrc/psxavenc/mdec.c:591-637 | every number of a sector header stands low byte first where a player looks for it, the fixed bytes between them |
| VideoStream.Encoder.EncodeFrameStr | toolsrc/psxavenc/mdec.c:489-573 | the frame's coefficients are finished, shed and coded for the sectors it gets; aborts exactly where what is left overflows them |
| VideoStream.Encoder.NextFrame | toolsrc/psxavenc/mdec.c:582-589 | the next frame gets the sectors of the closed form and is coded for them; aborts only where a frame due by then overflows |
| VideoStream.Encoder.AdvanceFrame | toolsrc/psxavenc/mdec.c:581-590 | the inner loop, its frame encoder included, ends at the one frame that the next sector belongs to, with that frame coded and chunk index and count in closed form |
| VideoStream.Encoder.EncodeBlockStr | toolsrc/psxavenc/mdec.c:575-644 | seven sectors in a row each carry the header and the piece of the frame they belong to, over any run, and no byte around them changes; aborts exactly where a frame due by then overflows |
| VideoStream.EncodeVideo | toolsrc/psxavenc/filefmt.c:113-135 | over any number of output blocks the sectors are those of the stream from its first on; aborts exactly where a frame due by then overflows |
| VideoStream.NeverAbortsExactlyWhen | toolsrc/psxavenc/mdec.c:575-644 | no stream of a size aborts anywhere if and only if the worst frame fits at the rate |
| VideoStream.FrameRecovered | toolsrc/psxavenc/mdec.c:489-644 | end to end: picking the sectors that name a frame, joining them and reading the words recovers every quantised block of what shedding left of that frame |
| VideoPlayer.OutputHas | toolsrc/psxavenc/mdec.c:639-640 | a block of output has its sectors 24 bytes into each of seven stretches of 2352 |
| VideoPlayer.SectorReads | toolsrc/psxavenc/mdec.c:591-640 | a sector tells its piece's number, how many there are, the frame's number and sizes, and carries that very piece |
| VideoPlayer.CompleteHolds | toolsrc/psxavenc/mdec.c:591-640 | a player that puts pieces where their numbers say, in any order, has the frame's sectors when it has seen as many as the headers say |
| VideoPlayer.PickedIsComplete | toolsrc/psxavenc/mdec.c:575-644 | the sectors of a stream that name a frame are such a set |
| VideoPlayer.PictureShown | toolsrc/psxavenc/mdec.c:328-644 | end to end: from the pieces in any order, the bits give blocks whose values times the steps are within a step of what shedding left, each at its place of the frame, and the end marker behind them |
| VideoPlayer.LeftFromTransform | toolsrc/psxavenc/mdec.c:314-529 | what shedding leaves at a place is a 32nd or a quarter of what the transform gave there, cut off towards zero, or nothing |
| VideoPlayer.FrameHeader | toolsrc/psxavenc/mdec.c:562-570 | the frame's own header: size low byte first, scale 1, version 2 and the fixed bytes |
| VideoPlayer.FrameSize | toolsrc/psxavenc/mdec.c:371-557 | that size holds all run-length words and two more for each block and the end, with less than one unit of 16 lost for each |
| VoicePool.NeverTooMany | src/orelei/midi.c:125-186 | over every run of events no note is held twice and no more notes than there are voices |
| VoicePool.NothingStolen | src/orelei/midi.c:125-186 | if never more than 24 notes are on, every one of them is heard |
| VoicePool.EventMeans | src/orelei/midi.c:213-234 | a note on puts its note last and drops only the first of 24 when new; a note off, and a note on of velocity zero, removes its note alone |
| VoicePool.AllBusy | src/orelei/midi.c:154-162 | all voices are busy if and only if 24 notes are held |
| VoicePool.PressVoice | src/orelei/midi.c:125-174 | starting the picked voice keeps the pool sound and makes its note the youngest; when it steals, it steals the oldest |
| VoicePool.StopVoice | src/orelei/midi.c:176-186 | freeing a voice keeps the pool sound and removes its note alone |
| VoicePool.WrapMakesOldest | src/orelei/midi.c:169-169 | in every sound pool, a voice just started is the oldest of all if and only if the counter wrapped |
| VoicePool.WrapStealsNewest | src/orelei/midi.c:154-169 | so with all voices busy the next new note takes the voice of the note just started, and no other |
| VoicePool.Pool.Reset | src/orelei/midi.c:96-105 | no note is held, every voice is free and untouched and has been told to stop |
| VoicePool.Pool.NoteOn | src/orelei/midi.c:125-174 | at every counter value the picked voice, the first of those that qualify, gets the note and the next count, is stopped if it had the note and started with the velocity; unless the count wraps, the held notes, oldest first, change as the bounded list does, and a steal takes the oldest of 24 |
| VoicePool.Pool.NoteOff | src/orelei/midi.c:176-186 | the note is removed from the list, its voice is stopped and no voice has it any more |
| VoicePool.Pool.Play | src/orelei/midi.c:213-234 | over any run of events the pool holds what the bounded list holds, and every voice plays what the pool has it down for |

## Left out

- VoicePool.Pool.Play: runs that do not wrap the 32-bit touch counter, because order fails there; parsing of events, running status, tempo, programs and pitch bend are not modelled.
- VideoStream.Encoder.EncodeBlockStr: asks that the rate is at most nine sectors a frame and that shedding ends at it; otherwise the source reads past its buffer or hangs, as the lemmas named above say.
- VideoStream.EncodeVideo: the audio sector, the address and the codes around the seven video sectors of a block, and the supply of frames; frame f is a parameter.
- FrameEncoder.CodeBlocks: takes the six block lists as regions of one array, so it does not model separate allocations.
- XaGuarantees.SideOfStream: in mono the source alternates two predictor states, so this is about each of the two sides, not about a mono player.
- AdpcmEncoder.FindMinShift: asks for readable samples past the limit, which the source reads too.
- SectorFormat.AddressRoundTrip: the block number is an unbounded integer; overflow of a C `int` is not modelled.
- The transform itself and the colour conversion that precede thresholding; blocks are arbitrary integers there, so the frames that do not fit are frames of coefficients, and whether a picture reaches them is not modelled.
- `psx_audio_xa_encode_finalize`, which edits bytes after the code has been written, and the loop flags of the `_simple` wrappers.
- Directory and path-table generation, volume descriptors, manifests, cue sheets and all file input and output.
- Decoding of source media through FFmpeg.
- `orelei_pack_spu`, `orelei_note_to_pitch`, the SPU register code, the boot loader and the examples.
- Numbers that C would overflow outside `AdpcmSearch.NoOverflow`: counts and offsets are unbounded.
- The predictor fields are typed as 16-bit samples and the carried quantisation error as staying within 16 bits, as the encoder keeps them; other caller-made states are not modelled.
