# Shairport Sync: a verified model

Shairport Sync receives AirPlay audio, decodes it and plays it in step with other players. This project models the
parts of it whose correctness is hardest to see and proves what they are for. The language is Dafny 4.11; `dafny
verify dfyconfig.toml` checks everything.

Each part has a specification as functions on values, lemmas that say what the specification guarantees, and, where
the source changes state step by step, methods and classes whose contracts equate what they do with the specification.

## The parts

**The ALAC decoder** (`alac.c`). `Rice`, `Fir` and `Frame` say what the decoder computes from a bit string; the class
`Alac.AlacFile` does it with a byte position, a bit accumulator, push-back of one bit, buffers filled in place and a
coefficient table that rewrites itself. The repository has no encoder, so `Rice`, `Fir` and `Encoder` give one as a
specification. The theorems: every value, every block of residuals, every adaptive prediction and finally every whole
frame comes back, sample for sample, from the bytes the decoder writes (`WholeFrame.DecodeEncoded`). An encoder and a
decoder may agree on anything, so what they share is also said without either: `FirExact` gives every predicted sample
and every coefficient by the samples and residuals before them, `RiceExact` the widths and multipliers of the entropy
code, `Output.UnmixExact` the un-mixing, and bit strings and frames written by hand (`Vectors`) are decoded to their
known results. Two results say where the code stops being safe or lossless, exactly:

- `history * rice_historymult` stays in an `int` on every bit string, for every read size, k-modifier and initial
  history, if and only if the multiplier times the largest code that can be read, at most 65535, is below 2 to the 22
  (`RiceLimit.MultiplierLimit`). From read sizes of 16 bits on that is a multiplier of at most 64
  (`RiceLimit.UsualLimit`). Beyond the limit there is a block of at most 201 residuals that overflows
  (`RiceLimit.OverflowingBlock`).
- With 16-bit samples the decoder reads split low bytes but never joins them to the samples. A 16-bit frame with split
  bytes comes back if and only if every sample is 0 or -1 and, where two bytes are split off and the channels are
  mixed with a weight, the two samples of each frame are equal or are -1 and 0 with a weight of at most 2 to the
  shift: there one bit has to hold the difference (`SplitSixteen.SixteenBitSplitLossy`, and a frame of 0 and -1 that
  does not come back in `SplitSixteen.SignsNotEnough`).

**The AirPlay 2 buffered-audio loop** (`ap2_buffered_audio_processor.c`, with the requests of `rtsp.c`). One turn of
the loop is a function of the state and of what the turn learns from outside; requests of the RTSP thread come between
turns. The theorems are about all runs: which blocks become packets and what these say (`PacketContents.PacketExact`),
how they are numbered, that an immediate flush drops everything up to its end and then stops
(`ImmediateFlush.ImmediateFlushExact`), that a deferred one removes exactly its range, and that the timeline does not
run backwards. One finding: the deferred section of
the loop, unlike the immediate one, is not guarded by `blocks_read`, so that in a turn before the first block requests
are compared with block number 0. `EarlyRequests` says exactly what becomes of them: a request whose end block 0 seems
to have passed is forgotten, and for every such request there is a run in which its first block is then played
(`EarlyRequests.EarlyRangeSent`), so that a range is safe if and only if number 0 lies before its end
(`EarlyRequests.RangeSafeExact`); one that starts at number 0 becomes active early and drops blocks before its range
(`EarlyRequests.EarlyActivation`). The theorems ask nothing about number 0 when a block is read before any such turn,
and `DeferredFlush.RangeNeverSent` never asks about the start of a request.

**The search for an output configuration** (`audio.c`, `common.h`). Soundness, completeness and order over an
arbitrary back end, the rate and format it settles on by what works (`RateOrder.RateChosen`,
`FormatChoice.FormatChosen`), and transparency of the one-entry cache. Findings:

- The comments speak of the next highest and then the next lowest rate. After the doublings of the request the code
  takes, for every setting, back end and request, the first entry of a fixed list that works above the request, or
  else the last one below it (`RateOrder.RateChosen`). The list rises through the usual rates, 44100 to 384000, and
  then falls from 64000 to 5512. So the next higher rate is chosen if and only if every working higher rate outside
  the usual ones is the only working one or lies above a working usual one (`RateOrder.NextHighestExact`; 44100 with
  64000 and 96000 allowed takes 96000), and the next lower one if and only if no working lower rate lies above a
  working one outside the usual ones (`RateOrder.NextLowestExact`; 48000 with 8000 and 44100 allowed takes 8000).
- The comment on the cache key says that the format is left out of it; the code puts it in.
- Requests share a key exactly as `Formats.EncodeCollides` says, an odd rate with the even one below it for instance,
  and then the second gets the reply of the first (`SearchCache.SharedEntry`, with a wrong one in
  `SearchCache.OddRatesCollide`). As long as no two different requests of one back end share a key, the cache is
  invisible (`SearchCache.CacheTransparent`).

**The byte ring buffers** of the PipeWire and PulseAudio back ends refine a FIFO queue, with pointers that may rest at
the end of the buffer.

**Two concurrent protocols.** `SharedMemory` is the double-record read of `ptp-utilities.c`, word by word. The comment
there says that equal copies cannot be inconsistent; at the grain of single words they can, with any mixture of two
updates (`SharedMemory.TornRead`), and `SharedMemory.UndisturbedRead` gives what suffices. `ActivityMonitor` is the
monitor thread of `activity_monitor.c` under every interleaving; it also shows that the timeout is not restarted by a
short burst of activity, and that the thread gives the mutex back within five steps.

**Loops of `common.c`.** The filename parser inverts a printer of names with and without quotes; base64 encoding and
the decoding of section 4 of RFC 4648 are inverse both ways; the random generator permutes its states; dithered
silence telescopes and never reads as a positive sample.

## Reading the model

- C arithmetic on `int32_t` is written out: `Words.Wrap32` and `Words.Signed` reduce to two's complement. `|` of
  values with no bit in common is `+`, a shift is a multiplication or division by a power of two, a mask is a
  remainder. A right shift of a negative number is arithmetic. The host is little-endian wherever the source stores
  whole integers.
- What the source learns from libraries, clocks and the network is a parameter or an input of a step: the checker of a
  back end, the play flag, deciphering, lead times, the size the player reports, the room PulseAudio offers.
- The play flag of the AirPlay 2 loop is read three times in a turn without the mutex. The three readings are separate
  inputs, so the theorems hold whichever way it changes in between.
- Decoder results are `None` where the source goes on reading nonsense (streams that end early, parameters no encoder
  may choose). The decoder methods are proved for the streams where the specification gives a result, which all
  encodings are.
- Legal ALAC parameters are an initial history of 1 to 255, a k-modifier of 1 to 30, a multiplier of 1 to 64 and, for
  prediction orders 1 to 30, a quantisation of at least 1.

## Model

| member | source | states |
|---|---|---|
| Alac.AlacFile.ReadBits16 | alac.c:139-164 | up to 16 bits at the position are returned big-endian and passed over, across byte boundaries; the accumulator stays below 8 |
| Alac.AlacFile.ReadBits | alac.c:168-179 | the same for up to 32 bits, through the split into 16 and the rest |
| Alac.AlacFile.ReadBit | alac.c:182-199 | one bit, and the position advances by one |
| Alac.AlacFile.UnreadBits | alac.c:201-209 | the position is exactly as many bits earlier |
| Alac.AlacFile.EntropyDecodeValue | alac.c:302-336 | reads the value, and stops at the bit, that the specification of the Rice code gives |
| Rice.ValueRoundTrip | alac.c:302-336 | every value in range is read back from its code, whatever bits follow, and the reader ends at the end of the code |
| Rice.QuotientRoundTrip | alac.c:307-333 | the short form, with its one bit of look-ahead, is self-delimiting |
| Rice.EscapeRoundTrip | alac.c:313-316 | nine ones and the raw value |
| Rice.ZeroRunBound | alac.c:379-384 | the length of a zero run never exceeds 65535 |
| Rice.NextHistoryRange | alac.c:368-376 | the history stays in range and is never 0 where its leading zeros are counted |
| RiceHistory.HistoryBound | alac.c:342-395 | in every reachable iteration the history is at most 512 times 65535, k is 1 to 16, and the leading zeros of 0 are never counted |
| RiceLimit.IterationIsTurn | alac.c:345-396 | an iteration on a stream is the turn the meaning of a block is made of |
| RiceLimit.CodeAtMost | alac.c:302-336 | no code that can be read in a read size and remainder width is larger than the largest given, unless it is beyond the cap of 65535 |
| RiceLimit.OverflowingBlock | alac.c:345-376 | beyond the limit, bits that the decoder reads as a block of at most 201 residuals and in whose last iteration the product overflows |
| RiceLimit.MultiplierLimit | alac.c:342-376 | for every read size, k-modifier, initial history and multiplier, the product fits an int on every stream if and only if the multiplier times the largest code is below 2 to the 22 |
| RiceLimit.UsualLimit | alac.c:342-376 | from a read size of 16 or a k-modifier of 13 on, if and only if the multiplier is at most 64 |
| Alac.UpdateIsNextHistory | alac.c:367-376 | the wrapping 32-bit update is the mathematical one |
| Alac.AlacFile.DecodeResidual | alac.c:346-376 | one residual and the next history |
| Alac.AlacFile.RiceTurn | alac.c:345-396 | one iteration, with the zero run it may start, leaves the rest of the block to be decoded |
| Alac.AlacFile.EntropyRiceDecode | alac.c:338-398 | the buffer holds the residuals of the block and the reader is at its end |
| Rice.BlockRoundTrip | alac.c:338-398 | every sequence of at most 65535 residuals that fit comes back from its encoding, with zero runs, the sign modifier and escapes, whatever bits follow |
| RiceExact.ZeroRunWidths | alac.c:381-381 | the width of a run length, interval by interval of the history: 7 down to 3, then 2, 3, 2 and 3 |
| RiceExact.MainWidth | alac.c:350-355 | the width of a residual is the greatest up to the k-modifier whose power does not exceed the mean plus three |
| RiceExact.MultiplierIsMasked | alac.c:325-326 | 2 to the k less 1 under the mask, bit by bit |
| RiceExact.SignInLowBit | alac.c:361-363 | even codes are twice the residual, odd ones stand for the negative ones |
| RiceExact.RunByHand | alac.c:338-398 | seven literal bits that decode to -1, a run of four zeros read with width 3, and -1 again, whatever follows |
| RiceExact.EscapeByHand | alac.c:338-398 | an escape, and two codes of width 2, of either form |
| RiceExact.ShortRunsByHand | alac.c:338-398 | ten literal bits with an empty run and a run of one |
| Fir.SignExtendedIsSigned | alac.c:400-400 | the pair of shifts is sign extension |
| Fir.LockStep | alac.c:404-522 | fed with the encoder's residuals the predictor gives the samples back, and both coefficient tables are equal after every sample |
| Fir.ResidualsFit | alac.c:404-522 | the residuals the encoder makes fit the sample size |
| Fir.CoefficientsMove | alac.c:487-516 | a sample moves each coefficient by at most one |
| FirExact.SumCongruent | alac.c:476-478 | the sum in wrapping 32-bit arithmetic is the exact sum, wrapped once |
| FirExact.PredictionRounds | alac.c:476-482 | the prediction lies above the oldest sample by the exact sum over 2 to the quantisation, to within half a unit, halves upwards |
| FirExact.SampleExact | alac.c:465-485 | every decoded sample behind the warm-up, in every block: oldest sample of the window, plus the rounded sum of coefficient times difference, newest sample first, plus the residual, in the read size |
| FirExact.UpdateExact | alac.c:487-516 | coefficient k moves by one towards the sample if and only if the residual is larger than what the coefficients behind it took off, each the size of its difference over 2 to the quantisation, rounded down or up by the sign of the residual, times its place |
| FirExact.TableExact | alac.c:487-516 | so does every coefficient behind every sample of every block |
| FirExact.RunningSums | alac.c:422-450 | order 31 and the warm-up give the running sums of the residuals, in the read size |
| FirExact.PlainResiduals | alac.c:411-418 | order 0 gives the residuals |
| FirAdaptation.UpdateMoves | alac.c:487-516 | each coefficient that changes moves its own term of the sum in the direction of the error |
| FirAdaptation.TowardsTheSample | alac.c:467-516 | after a miss the same samples would give a prediction sum on the side of the true sample, strictly so if the two oldest samples differ |
| Fir.NoAdaptation | alac.c:411-450 | order 0, order 31 and the first samples of the others leave the table alone |
| Fir.AdaptTable | alac.c:487-516 | the table in place, from the last coefficient to the first, as specified |
| Fir.Predict | alac.c:476-482 | the rounded, scaled, weighted sum of differences to the oldest sample |
| Fir.AdaptiveSample | alac.c:465-519 | one sample and one table, earlier samples untouched |
| Fir.PredictorDecompressFirAdapt | alac.c:404-522 | for every order, the output buffer and the table end as the specification says |
| Lossless.HeaderRead | alac.c:712-721 | the fields and signed coefficients of a channel come back |
| Lossless.PreambleRead | alac.c:675-705 | the header of a frame comes back, with and without a sample count |
| Lossless.ChannelRead | alac.c:730-748 | residual coding followed by prediction returns the channel |
| Lossless.MixingRead | alac.c:870-904 | mixing parameters, both headers and the interleaved low bytes come back |
| Lossless.MonoRead | alac.c:707-748 | a compressed channel comes back with its low bytes |
| Lossless.StereoRead | alac.c:868-932 | both compressed channels come back with their low bytes |
| Lossless.RawRead | alac.c:749-778 | uncompressed samples come back, one or two channels |
| Lossless.FrameRead | alac.c:644-997 | decoding an encoded frame gives the channels the encoder coded and the right output size |
| Output.MixBack | alac.c:532-553 | un-mixing restores both channels, modulo the output width, for every weight and shift |
| Output.UnmixExact | alac.c:538-549 | the right channel lies below the middle by the weighted difference over 2 to the shift, rounded down, and the left above the right by the difference |
| Frame.QuarterOfProduct | alac.c:730-733 | the multiplier handed to the entropy decoder is a quarter of the product, rounded down |
| Frame.WithinAllocation | alac.c:653-698 | for every bit string the size reported and the frames written stay within the caller's allocation, and agree unless nothing is written |
| Frame.NothingWritten | alac.c:651-698 | which frames are turned down without a sample, by their bits, and the size reported for each kind |
| Output.JoinBack | alac.c:597-605 | a sample is restored from its top and its low bytes |
| Output.FrameLossless | alac.c:644-997 | every legal mono or stereo block of 16 or 24 bits comes back byte for byte, compressed or not, with any number of split bytes for 24 bits |
| Output.ExampleLossless | alac.c:644-997 | a weighted, predicted 24-bit frame with split bytes is legal and comes back |
| Vectors.MonoFrameDecoded | alac.c:644-808 | a predicted frame, field by field, whose third sample the rounding makes 1 |
| Vectors.StereoFrameDecoded | alac.c:868-986 | a mixed frame, field by field, with a negative difference that is halved downwards |
| SplitSixteen.NineBitsOnlySigns | alac.c:524-554 | with one split byte and any weight and shift, only 0 and -1 can come back |
| SplitSixteen.OneBitMixed | alac.c:524-554 | with two split bytes and a weight, two samples come back if and only if they are 0 or -1 and equal, or -1 and 0 with a weight of at most 2 to the shift |
| SplitSixteen.SixteenBitSplitLossy | alac.c:524-573 | a 16-bit frame with split bytes, whatever its mixing, comes back if and only if every sample is 0 or -1 and the one-bit mixing of two split bytes keeps each frame |
| SplitSixteen.HighPartsOut | alac.c:524-573 | where the mixing is exact, the top bytes of the samples come out |
| SplitSixteen.SignsNotEnough | alac.c:524-573 | a legal frame of 0 and -1 that does not come back |
| Alac.AlacFile.ReadTable | alac.c:718-721 | signed 16-bit coefficients into the table |
| Alac.AlacFile.ReadHeaderFields | alac.c:712-721 | the header the specification reads |
| Alac.AlacFile.ReadPreambleFields | alac.c:675-705 | the frame header the specification reads |
| Alac.AlacFile.ReadLowMono | alac.c:723-728 | the low bytes of one channel |
| Alac.AlacFile.ReadLowStereo | alac.c:897-904 | the low bytes of two channels, taken apart |
| Alac.AlacFile.DecodeChannel | alac.c:730-748 | residuals and prediction fill the output samples of the channel |
| Alac.AlacFile.ReadRawSample | alac.c:751-771 | one signed sample, read whole or in two parts |
| Alac.AlacFile.DecodeRawMono | alac.c:749-778 | uncompressed samples of one channel |
| Alac.AlacFile.DecodeRawStereo | alac.c:933-966 | uncompressed samples of two channels |
| Alac.AlacFile.DecodeMono | alac.c:707-748 | one compressed channel |
| Alac.AlacFile.DecodeStereo | alac.c:868-932 | two compressed channels |
| Deinterlace.OutputMono | alac.c:777-808 | the samples in place, little-endian, a frame apart, all other bytes kept |
| Deinterlace.Deinterlace16 | alac.c:524-573 | both channels un-mixed into 16-bit frames, all other bytes kept |
| Deinterlace.Deinterlace24 | alac.c:575-642 | both channels joined, un-mixed and stored as 24-bit frames, all other bytes kept |
| Alac.AlacFile.WriteOutput | alac.c:972-986 | the output loop for the format and the number of channels |
| Alac.AlacFile.DecodeFrame | alac.c:644-997 | output bytes and size are those of the specification |
| WholeFrame.DecodedInPlace | alac.c:644-997 | from packed bytes with three bytes of padding to output bytes: original samples in place, everything else kept |
| WholeFrame.DecodeEncoded | alac.c:644-997 | the decoder object, whatever it decoded before, writes exactly the original samples |
| FlushTheorems.HandOverSafe | ap2_buffered_audio_processor.c:347-461 | whenever a packet is sent, a block has been read since play began, no immediate flush is pending, and no request in use is active or starts at the block |
| FlushTheorems.PacketNumbering | ap2_buffered_audio_processor.c:303-309 | the n-th packet of a play session carries the first block number read plus n, modulo 65536 |
| FlushTheorems.TimelineTurn | ap2_buffered_audio_processor.c:585-657 | a turn never moves the expected timestamp back in 32-bit circular order |
| FlushTheorems.TimelineNeverBack | ap2_buffered_audio_processor.c:585-657 | nor does any stretch of a play session |
| PacketContents.PacketExact | ap2_buffered_audio_processor.c:461-676 | over whole runs, by what went in and came out before: which held block is sent, which is kept for the next turn, and timestamp, stream, mute flag and gap of the packet |
| ImmediateFlush.ImmediateFlushExact | ap2_buffered_audio_processor.c:350-457 | over whole runs, by block counts: until block u is read an immediate flush until u stays pending, every block is dropped, none is sent and no request is cancelled by it; the turn that has block u ends it, cancels all requests and keeps the block |
| ImmediateFlush.NothingBeforeUntil | ap2_buffered_audio_processor.c:350-401 | no block before block u is sent in any later turn |
| ImmediateFlush.PendingKeepsDeferred | ap2_buffered_audio_processor.c:361-400 | a pending immediate flush cancels no deferred request, so that the theorems on those apply meanwhile |
| ImmediateFlush.NotCancelledUnasked | ap2_buffered_audio_processor.c:350-353 | where none was asked for, none cancels them |
| DeferredFlush.RequestExact | ap2_buffered_audio_processor.c:407-455 | a request drops the current block if and only if the block is in its range, and is retired at the end of it |
| DeferredFlush.DeferredFlushExact | ap2_buffered_audio_processor.c:403-461 | over whole runs, with any number of other requests: the range and nothing else is dropped on account of the request, which is retired at its end without dropping that block; block number 0 matters only if a turn comes before the first block |
| DeferredFlush.RangeNeverSent | ap2_buffered_audio_processor.c:403-461 | no block of the range ever reaches the player, also if the request starts at number 0 |
| EarlyRequests.EarlyRequest | ap2_buffered_audio_processor.c:403-455 | what a turn without a block makes of a request: forgotten if block number 0 is not before its end, otherwise kept, and activated if it starts at 0 |
| EarlyRequests.IdleTurnKeepsWatch | ap2_buffered_audio_processor.c:403-455 | after such a turn a request stands as it should if and only if block number 0 lies before its end and, for exactness, is not its start |
| EarlyRequests.EarlyRangeSent | ap2_buffered_audio_processor.c:403-461 | for every request whose end block number 0 seems to have passed there is a run that sends the first block of its range |
| EarlyRequests.EarlyRangeSentExample | ap2_buffered_audio_processor.c:403-461 | a run that sends block 0x700001 of a request for 0x700001 to 0x700005 |
| EarlyRequests.RangeSafeExact | ap2_buffered_audio_processor.c:403-461 | a range is sent in no run if and only if block number 0 lies before its end |
| EarlyRequests.EarlyActivation | ap2_buffered_audio_processor.c:407-416 | for every request that starts at number 0 behind the first block there is a run in which the first block is dropped on its account |
| DeferredFlush.SeqDistance | utilities/mod23.c:33-47 | the circular difference is the distance of block counts up to half the range |
| Processor.Processor.ImmediateSection | ap2_buffered_audio_processor.c:350-401 | the immediate flush as specified, with the cancelling loop |
| Processor.Processor.OneRequest | ap2_buffered_audio_processor.c:407-455 | one request of the loop, the others untouched |
| Processor.Processor.DeferredSection | ap2_buffered_audio_processor.c:403-457 | the loop over all requests, every one compared with the same block |
| Processor.Processor.Edges | ap2_buffered_audio_processor.c:222-238 | play edges from three readings of the flag |
| Processor.Processor.Read | ap2_buffered_audio_processor.c:242-345 | a block is read when one is needed |
| Processor.Processor.HandOverBlock | ap2_buffered_audio_processor.c:461-676 | the held block is sent, dropped or kept |
| Processor.Processor.Turn | ap2_buffered_audio_processor.c:220-700 | a whole turn as specified, with the packet it sends |
| Processor.Processor.DeferFlush | rtsp.c:1362-1386 | the first free record takes the request; with none free nothing changes |
| Processor.Processor.FlushNow | rtsp.c:1344-1350 | an immediate flush is pending |
| Formats.DecodeEncode | common.h:175-185 | channels, rate and format come back from the encoding, up to its field widths |
| Formats.EncodeInjective | common.h:175-185 | the encoding is injective where it can be |
| Formats.EncodeCollides | common.h:175-185 | two requests share an encoding if and only if channels, halved rate and format agree in their fields |
| Search.FormatOrderComplete | audio.c:542-733 | for every recognised request all ten native formats are tried once each, a native request first |
| Search.OrderIsFlat | audio.c:542-733 | the order of formats is an order of sizes, each with both byte orders, the machine's or the requested one first |
| Search.CheckFormatsExact | audio.c:519-764 | nothing is returned if and only if no permitted native format works; what is returned works |
| SearchTheorems.RateIsTried | audio.c:958-1018 | every permissible rate is tried |
| SearchTheorems.ChannelExact | audio.c:952-1023 | a channel count fails if and only if nothing works with it |
| SearchTheorems.ChannelPreference | audio.c:952-1023 | within a channel count the first attempt that can work is taken, with the first workable format of its order |
| SearchTheorems.VisitOrder | audio.c:936-958 | channel counts are tried as c to 8 and then c-1 to 1, each once |
| SearchTheorems.SearchExact | audio.c:905-1047 | the search fails if and only if nothing is workable with any channel count; otherwise it uses the first workable count in that order, there the first workable rate, and there the first workable format |
| FormatChoice.FormatChosen | audio.c:958-1018 | by the settings and what works: the first workable format in the order of the request if the rate is no multiple, or is the requested one, with enough channels and samples that stay as they are; otherwise in the order of the machine's 32-bit format |
| FormatChoice.RequestedRate | audio.c:958-982 | where some format works at the requested channel count and rate, the search takes both, and the first such format of the order the settings give |
| FormatChoice.ExactFormat | audio.c:961-974 | volume control ignored, no maximum volume, not mono: a native format that works as requested is what is found |
| FormatChoice.WidestFormat | audio.c:975-977 | any of the three otherwise: the machine's 32-bit format is found wherever it works as requested |
| SearchTheorems.ReplyZero | audio.c:1025-1047 | the encoded reply is 0 if and only if the search failed |
| SearchCache.CacheTransparent | audio.c:917-1047 | in any run of requests of which no two different ones of one back end share a key, a cached search replies as an uncached one |
| SearchCache.EvenRatesTransparent | audio.c:917-1047 | so it does for even rates below 2 to the 20 and fewer than 128 channels |
| SearchCache.SharedEntry | audio.c:922-932 | requests with the same key get the reply of the first of them |
| SearchCache.OddRatesCollide | audio.c:922-932 | an example: after 22051 a request for 22050 is answered 5512, where the search itself finds 22050 |
| SearchCache.LowestRatePreferred | audio.c:1002-1018 | an example: on two channels, with 5512 among the rates allowed and all of them below the request, 5512 is chosen |
| RateOrder.RateChosen | audio.c:958-1018 | for every setting, back end, request and channel count: the least multiple that works, or else the first listed higher rate, or else the last listed lower rate |
| RateOrder.NextHighestExact | audio.c:984-1000 | the next higher rate is chosen if and only if every working higher rate that is not a usual one is alone or above a working usual one |
| RateOrder.NextLowestExact | audio.c:1002-1018 | the next lower rate is chosen if and only if no working lower rate lies above a working one that is not a usual one |
| RateOrder.NextHighestMissed | audio.c:984-1000 | 64000 and 96000 would do for 44100, and 96000 is taken |
| RateOrder.NextLowestOfTwo | audio.c:1002-1018 | 44100 and 48000 would do for 88200, and 48000, the next lower, is taken |
| RateOrder.NextLowestMissed | audio.c:1002-1018 | 8000 and 44100 would do for 48000, and 8000 is taken |
| Searcher.IsRatePermissible | audio.c:527-534 | the scan of the rates |
| Searcher.FindFormat | audio.c:737-757 | the first format permitted and accepted |
| Searcher.CheckConfigurationWithFormats | audio.c:519-764 | both format searches together |
| Searcher.TryMultiples | audio.c:958-982 | the doubling loop |
| Searcher.TryHigher | audio.c:984-1000 | the loop over higher rates |
| Searcher.TryLower | audio.c:1002-1018 | the loop over lower rates |
| Searcher.TryChannels | audio.c:955-1019 | the three loops one after another |
| Searcher.SearchChannels | audio.c:936-1023 | the loop over channel counts with its bit field of counts tried |
| Searcher.ConfigurationSearch.SearchForSuitableConfiguration | audio.c:912-1048 | the reply and the new cache entry |
| Ring.AcceptAppends | audio_pw.c:478-496 | what is accepted joins the end of the queue, also across the end of the buffer |
| Ring.ReleaseDrops | audio_pw.c:139-156 | what is taken is the front of the queue |
| Ring.StepConserves | audio_pw.c:131-156 | accepted is delivered plus queued plus discarded, and one step is the queue's step |
| Ring.RingIsFifo | audio_pw.c:478-496 | over any interleaving the ring is a bounded FIFO queue |
| Ring.AlwaysAligned | audio_pw.c:128-156 | occupancy and both offsets stay whole frames |
| AudioBackends.PipeWireOutput.Play | audio_pw.c:478-498 | as much as there is room for joins the queue |
| AudioBackends.PipeWireOutput.OnProcess | audio_pw.c:121-175 | the front of the queue, in whole frames, or silence when it is empty |
| AudioBackends.PipeWireOutput.OfferedIsGreatest | audio_pw.c:125-130 | what is offered is the greatest whole number of frames that request and device buffer allow |
| AudioBackends.PipeWireOutput.Flush | audio_pw.c:575-585 | an empty queue, filling enabled |
| AudioBackends.PipeWireOutput.Stop | audio_pw.c:587-592 | an empty queue |
| AudioBackends.PulseAudioOutput.Play | audio_pa.c:607-623 | as much as there is room for joins the queue |
| AudioBackends.PulseAudioOutput.PassOn | audio_pa.c:728-766 | one offer of the server takes the front of the queue |
| AudioBackends.PulseAudioOutput.StreamWriteCallback | audio_pa.c:716-770 | what is passed on is the front of the queue, never more than asked, and all of that if no call fails |
| AudioBackends.PulseAudioOutput.Reset | audio_pa.c:681-685 | an empty queue |
| SharedMemory.SuccessfulRead | ptp-utilities.c:76-99 | a successful read mixes at most two consecutive updates, none older than the last one completed when the first copy ended |
| SharedMemory.UndisturbedRead | ptp-utilities.c:76-99 | it is one published record if either copy was taken from a whole record nobody wrote to |
| SharedMemory.TornRead | ptp-utilities.c:73-74 | for every set of words, equal copies may hold exactly those words from the newer of two updates |
| SharedMemory.RunKeeps | nqptp-shm-structures.h:65-70 | the invariant of writer and reader over every run |
| SharedMemory.GetNqptpData | ptp-utilities.c:54-111 | success if and only if one of nine attempts agrees; the data are the first agreeing attempt's |
| ActivityMonitor.Safety | activity_monitor.c:101-137 | in every interleaving an active player means a state that is not inactive, and scheduled hooks alternate and balance |
| ActivityMonitor.HookSafety | activity_monitor.c:119-230 | hooks are scheduled only on the matching transition, going inactive never while the player is active |
| ActivityMonitor.ZeroTimeout | activity_monitor.c:125-130 | with no timeout the state follows the player and timing out is unreachable |
| ActivityMonitor.TransitionExact | activity_monitor.c:119-230 | every change of state in every interleaving, with what it takes; timing out ends in inactivity only right after the wait has timed out with the player inactive |
| ActivityMonitor.KeepsTimingOut | activity_monitor.c:200-228 | woken any number of times without timeout and without activity, it stays timing out and no hook is scheduled |
| ActivityMonitor.TimerNotRestarted | activity_monitor.c:200-222 | a short activity during the timeout does not restart it |
| ActivityMonitor.Progress | activity_monitor.c:164-234 | every step of the thread with the mutex brings its release nearer |
| ActivityMonitor.SpinsIfUnnoticed | activity_monitor.c:164-170 | if the player could be active in the inactive state, the thread would go round and round with the mutex |
| ActivityMonitor.ReleasedWaits | activity_monitor.c:164-234 | when it lets go, it waits for the event the state calls for |
| ActivityMonitor.AlternatingBalance | activity_monitor.c:119-130 | hooks that take turns balance |
| ActivityMonitor.Shared.SignifyActivity | activity_monitor.c:101-133 | the section under the mutex |
| ActivityMonitor.Shared.MonitorThreadCode | activity_monitor.c:162-234 | from a wake-up to the next release of the mutex |
| Filenames.RoundTrip | common.c:2550-2711 | every list of names, each quoted with either quote or not quoted, escaped, joined by commas and padded with white space, is parsed back |
| Filenames.NothingEscaped | common.c:2640-2690 | a name without comma and backslash, that begins with neither quote nor white space, is written as it is |
| Filenames.EmptyName | common.c:2640-2707 | a comma where a name should begin gives an empty name |
| Filenames.NoCommaNeeded | common.c:2583-2707 | a quoted name needs no comma behind it |
| Filenames.UnclosedQuote | common.c:2600-2638 | a quote that is never closed takes everything up to the end |
| Filenames.TrailingBackslash | common.c:2655-2690 | a backslash at the very end stands for itself |
| Filenames.EscapedName | common.c:2640-2695 | a wholly escaped name without quotes comes back if and only if it does not end in white space |
| Filenames.Append | common.c:2602-2629 | one more character, and always room for the terminator |
| Filenames.ReadBody | common.c:2600-2632 | the loop of either kind of name, with escapes |
| Filenames.ReadName | common.c:2583-2698 | one name, terminated within its buffer |
| Filenames.SkipSeparator | common.c:2699-2707 | white space, at most one comma, white space |
| Filenames.ParseIrFilenames | common.c:2555-2711 | terminates on every input; the files hold the names of the specification |
| Base64.RoundTrip | common.c:608-636 | decoding an encoding gives the bytes back |
| Base64.Canonical | common.c:608-636 | every string the decoder accepts is the encoding of what it decodes to |
| Base64.Padding | common.c:611-636 | four characters for every three bytes begun, ending in the padding section 4 of RFC 4648 asks for |
| Base64.TableIsDigit | common.c:596-600 | the table is the standard alphabet |
| Base64.KnownEncodings | common.c:608-636 | the examples of section 10 of RFC 4648 |
| Base64.EncodeTriple | common.c:617-631 | one turn of the main loop |
| Base64.PutPadding | common.c:633-634 | the padding loop overwrites what encodes nothing |
| Base64.Base64EncodeSo | common.c:608-637 | refuses exactly when the buffer is too short; otherwise the encoding, and no byte after it |
| Random.RanThenUnran | common.c:1784-1791 | a step can be undone |
| Random.RunsNeverMeet | common.c:1784-1799 | no two states ever run into each other |
| Random.EveryStateReached | common.c:1784-1799 | every state is reached, so that the generator permutes its states |
| Random.RotIsRotation | common.c:1783-1783 | the rotation, bit by bit |
| Random.XorIsBitwise | common.c:1786-1786 | the exclusive or, bit by bit |
| Random.KnownSteps | common.c:1784-1791 | one step from each of four states, which shows the three rotations and where they go |
| Random.Generator.Ranval | common.c:1784-1791 | the four words in place |
| Random.Generator.Raninit | common.c:1793-1799 | the seeded state after twenty steps |
| Silence.Telescopes | common.c:2158-2168 | the dither values sum to the last masked random number less the first |
| Silence.WidthOf | common.c:2118-2137 | the width of every format |
| Silence.MaskKeepsLowBits | common.c:2117-2160 | the mask keeps exactly the bits below the width of the format |
| Silence.Chained | common.c:2096-2267 | calls that pass the random number on write what one call would |
| Silence.StoredReads | common.c:2181-2252 | a stored sample is read back in every layout it fits |
| Silence.StoredByFormat | common.c:2181-2252 | the bytes of every sample in every format |
| Silence.SilentSample | common.c:2155-2252 | a sample reads as -1 if and only if dither is on and its masked random number is below the one before, and as 0 otherwise |
| Silence.SilentThroughout | common.c:2096-2267 | so does every sample of the output, at its place |
| Silence.SizeOfLayout | common.c:139-155 | the bytes stored are those of the table of sample sizes |
| Silence.PutSample | common.c:2174-2252 | one sample, by the shifts of its format |
| Silence.GenerateZeroFrames | common.c:2096-2267 | the bytes, their number, the rest of the buffer kept, and the random number to pass on; or the end of the process |

## Left out

- Sockets, thread creation and cancellation, D-Bus, MPRIS, MQTT, mDNS, DACP and the audio back-end calls: input and output, or foreign libraries.
- Deciphering, FFmpeg decoding, the player's buffers, anchor times and lead times: inputs of a turn of the AirPlay 2 loop.
- The AirPlay 2 loop's calls that clear the player's buffer and the convolver state, its diagnostics, and the wrap-around of its 64-bit counters.
- Floating point: the loudness filter, volume curves, drift and latency figures; the activity timeout is only compared with zero.
- ALAC prediction types other than 0, sample sizes 20 and 32, and what the decoder does with streams no encoder makes.
- Output.FrameLossless: states nothing for 16-bit samples with split low bytes, because the decoder drops them; SplitSixteen.SixteenBitSplitLossy gives the exact condition.
- FirExact.SampleExact: is about sums that fit in 32 bits after rounding; FirExact.SumCongruent says what becomes of the others.
- FirExact.TableExact: is about samples of at most 26 bits, for which the remaining error does not wrap around; a 24-bit stream has 25.
- Output.UnmixExact: is about differences whose weighted value fits in 32 bits.
- Search requests with rate 0, for which the doubling loop of the source does not end, and the build without FFmpeg.
- FirAdaptation.TowardsTheSample: is about samples whose differences fit in 32 bits and coefficients not at the ends of 16 bits, where the update does not wrap.
- Search.FormatOrderComplete: states nothing for the automatic format, which a request may not name here.
- AudioBackends.PulseAudioOutput.StreamWriteCallback: says nothing of a server that offers nothing for ever without an error, for which the loop of the source does not end, nor of one that offers more than asked for; corking is not modelled.
- What the back ends tell the sound server when they flush, stop and restart a stream.
- SharedMemory.GetNqptpData: the two copies of an attempt are parameters, and the pause between attempts is not modelled; what copies can hold is the subject of the step model.
- ActivityMonitor: the order in which hooks finish outside the mutex, liveness (a short activity can pass before the thread wakes), and the stopping of the monitor, which writes the state without the mutex.
- Memory running out, in the filename parser and elsewhere; the growth of the array of files is a counter.
- Silence.GenerateZeroFrames: the end of the process on an unknown format is a result, and the format's own message is not modelled.
