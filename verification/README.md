# A verified model of the DVB-T2 receiver chain

The receiver undoes, in place and in chunks of any size, what a DVB-T2 transmitter (EN 302 755) did. This
project models the parts of it whose correctness is a matter of indices, registers and protocol, and proves
that they undo it. Transmitter stages are relations or functions on sequences, written from the standard; receiver
stages are classes and methods with the arrays, counters and loops of the program, each proved against a
specification. Nothing is claimed about floating point: amplitudes are exact reals, and estimates are parameters.

The modules, from antenna to transport stream:

- `Samples`: complex samples and cells.
- `Resampler`, `FilterDecimator`: fractional resampling and decimating filter as functions of the whole input stream.
- `FrameMachine`: acquisition and frame following.
- `L1Signalling`, `L1Post`, `L1Bits`, `BitFields`, `Crc32`: the L1 signalling parsers.
- `DataSymbol`, `ChannelEstimate`, `FreqDeinterleaver`, `SymbolPath`, with `Toggled`, `Period`, `Registers`, `Lfsr`, `Gf2`, `Primes`, `Permutations`, `Bits`:
  data carriers, the channel between two pilots, and the frequency deinterleaver. That its addresses are permutations rests on the period 2^n - 1 of each
  feedback register, which is proved by repeated squaring in GF(2)[x] modulo its polynomial and the prime factors of
  2^n - 1 (`Registers` holds the certificates).
- `CellInterleaver`, `TimeInterleaver`, `TimeDeinterleaver`, `TiCounters`: cell and time deinterleaving with removal of the cyclic Q
  delay, and the counters of its loop when a TI block is empty.
- `GrayMapping`, `Mapper`, `SoftBits`, `BitInterleaver`, `LlrDemapper`, `LdpcDecoder`, `BchDecoder`, `BitPath`, `Batches`: the bit path from cells to
  baseband frames.
- `Crc8`, `PacketStream`, `BbDeHeader`, `BbFrames`: the baseband de-framer in high-efficiency mode, and the frames it is for.

Where the program does not do what the standard asks, the exact condition under which it does is proved:

- The cell interleaver's shifts are the standard's for the first ceil(cells / 2) FEC blocks of a TI block and repeat after them
  (`CellInterleaver.ShiftIsStandard`, `TimeDeinterleaver.PositionIsStandard`), so a TI block comes out as it was sent exactly when
  it has no more FEC blocks than that (`TimeDeinterleaver.TiBlockRestoredExactly`). For every larger number, up to the cells of a block, there is one the
  standard sends and the loop loses (`TimeDeinterleaver.SomeBlockIsLost`), 1014 FEC blocks of 2025 cells among them
  (`TimeDeinterleaver.BlockOf1014IsLost`).
- A started frame hands on its first TI block exactly when it has at least as many FEC blocks as TI blocks: with fewer, that
  block is empty, the loop's step is past its size from the first cell on and no block is ever closed
  (`TiCounters.FrameSendsExactly`, `TiCounters.EmptyBlockNeverCloses`). Its cells use only entries inside the table exactly when the
  last and largest TI block has no more FEC blocks than the table (`TiCounters.FrameFitsExactly`).
- Soft values are cast to 8 bits unclamped. Without noise all signs survive exactly when every positive level's scaled value rounds
  into the positive half of a turn of 256, without its 0 (`SoftBits.LevelsKeptExactly`). With the program's precision the ratio of
  signal to error power alone decides that (`SoftBits.RatiosKeepSigns`). While the outermost level is scaled below 255.5, which is
  below ratios of about 106.5 in 16-QAM, 191.6 in 64-QAM and 362.0 in 256-QAM, signs survive exactly between 0.625 and 53.125, between 2.625
  and 95.625 and between 10.625 and 180.625; above, they are lost and come back as the levels wrap, in 16-QAM for example at 321.25
  (`SoftBits.SignsReturn`).
- Between pilots the angle is stepped towards the next pilot's exactly when that shows at most half a turn further, or a whole one:
  beyond, the wrapped difference has the wrong sign (`ChannelEstimate.GapCloses`). On a channel that turns evenly, by less than half
  a turn from pilot to pilot, every carrier between data carriers gets the channel's own angle exactly when the next pilot's shows at
  most half a turn further or the channel does not turn (`ChannelEstimate.LinearChannelExactly`, `DataSymbol.ChannelUndoneExactly`;
  `ChannelEstimate.UpwardWrapFails` shows one that fails).
- The parsing of an L1-post record ends exactly when it has no auxiliary streams and, if its dynamic part is repeated, no PLPs: the
  lists of the others are written through null pointers (`L1Post.PostRoundTrip`).
- FEF_LENGTH_MSB and RESERVED_2 of L1-post are read as written exactly when both are 0, RESERVED_3 when it is below 2, and an FEF
  part when it is all 0 and so is the bit after it (`L1Post.ReadAs` in `L1Post.PostRoundTrip`).
- The bits allocated for L1-post hold its decisions exactly when its modulation is not BPSK (`L1Bits.DecisionsFit`).
- A de-framer that has not started locks on to a data field exactly when a whole packet's worth of bytes follows the first
  packet boundary in it (`BbDeHeader.FirstField`).
- The 64-QAM slicer takes a nearest level exactly from -6 n up: its outer negative comparison has the wrong sign
  (`GrayMapping.Slice64Exact`).
- Demapped blocks of short FEC frames end on a group of four cells only in 64-QAM (`LlrDemapper.GroupsMeetBlockEnd`).
- The pilot map index of a data symbol is in range exactly when there is one P2 symbol (`FrameMachine.IndicesExact`), and a
  frame signalled with no room for a data symbol never ends (`FrameMachine.ShortFrameNeverEnds`).

## Model

| member | source | states |
|---|---|---|
| FilterDecimator.Filter.Execute | src/DSP/filter_decimator.h:86-146 | over any sequence of calls the outputs together are every second sample of the 64-tap convolution of all the input |
| FilterDecimator.Filter.Shift | src/DSP/filter_decimator.h:98-107 | between read and write position the buffer holds the last 63 samples, also across the move back to the front |
| FilterDecimator.SumLanes | src/DSP/filter_decimator.h:110-140 | the eight lanes, four rows at a time, regrouped are the real and the imaginary sum |
| FilterDecimator.LanesMakeDot | src/DSP/filter_decimator.h:134-136 | the even lanes make the convolution of the real parts, the odd lanes that of the imaginary parts |
| FilterDecimator.ImpulseResponse | src/DSP/filter_decimator.h:110-140 | an impulse comes out as the 64 taps from the last to the first, the real and the imaginary part each times its own |
| FilterDecimator.Superposition | src/DSP/filter_decimator.h:110-140 | the sum of two streams comes out as the sum of what they give, so that impulse responses make up every output |
| FilterDecimator.DecimatedIs | src/DSP/filter_decimator.h:107-142 | output m is the filter's at sample 2 m + 1 |
| FilterDecimator.DecimatedGrows | src/DSP/filter_decimator.h:107-142 | one more sample adds an output exactly at every second one and changes no earlier output |
| Resampler.Interpolator.Execute | src/DSP/interpolator_farrow.hh:41-68 | a chunk gives the stream at every position of the accumulator up to the chunk's end, from where the last chunk stopped |
| Resampler.OutputCount | src/DSP/interpolator_farrow.hh:56-62 | N samples from the start give ceil(N / step) outputs |
| Resampler.ResampledIsUnique | src/DSP/interpolator_farrow.hh:41-68 | number and values of the outputs are determined by stream, start and step |
| Resampler.ResampledAppend | src/DSP/interpolator_farrow.hh:41-68 | the outputs of two chunks in turn are those of both at once |
| Resampler.Interpolator.Inner | src/DSP/interpolator_farrow.hh:56-62 | between two samples the loop gives an output for every position there, each evaluated at an offset in [-1/2, 1/2) from their middle |
| Resampler.CubicMeetsSamples | src/DSP/interpolator_farrow.hh:48-59 | the cubic meets the two middle samples with the slopes of their neighbours' chords |
| Resampler.SlopeOfCubic | src/DSP/interpolator_farrow.hh:52-59 | the slope used there is the cubic's derivative |
| Resampler.ExactOnQuadratics | src/DSP/interpolator_farrow.hh:48-59 | samples of a quadratic are interpolated exactly |
| Resampler.AtOnQuadratics | src/DSP/interpolator_farrow.hh:48-59 | where the real and imaginary parts of the four samples around a position lie on quadratics, the stream there is on them, two samples late |
| Resampler.AtIsLinear | src/DSP/interpolator_farrow.hh:48-59 | reading a stream between its samples is linear over the complex numbers |
| Resampler.PiecesJoin | src/DSP/interpolator_farrow.hh:48-65 | successive pieces have the same value and the same slope where they meet, in both parts |
| Resampler.AtWhole | src/DSP/interpolator_farrow.hh:48-65 | at whole positions the output is the input, two samples late |
| FrameMachine.RunsAreSafe | src/DVB_T2/dvbt2_demodulator.cpp:193-374 | in every run data and closing symbols come only after the data demodulator is initialised, which happens at most once, and every completed frame is whole |
| FrameMachine.AlwaysSafe | src/DVB_T2/dvbt2_demodulator.cpp:193-374 | the invariant, also through the shortcut by p1_reset after a loss of signal, is kept by every event |
| FrameMachine.ShapeIsFixed | src/DVB_T2/dvbt2_demodulator.cpp:335-352 | once initialised the numbers that shape a frame never change |
| FrameMachine.P1Decides | src/DVB_T2/dvbt2_demodulator.cpp:209-236 | once P2 is set up a P1 symbol leads to P2 if and only if its offset is at most 100; before, P2 is set up if and only if it is decoded, the tuner settled and its offset below 10 |
| FrameMachine.Acquires | src/DVB_T2/dvbt2_demodulator.cpp:193-374 | from the start a settled and a near P1 symbol, a good P2 symbol, another near P1 symbol and a good P2 symbol lead into the data of a frame of the signalled shape |
| FrameMachine.KeepsSearching | src/DVB_T2/dvbt2_demodulator.cpp:354-360 | before that a P2 symbol with bad L1-pre leaves everything as it was for the next try |
| FrameMachine.FrameFollows | src/DVB_T2/dvbt2_demodulator.cpp:193-374 | after that each near P1 symbol and good P2 symbol with the symbols of a frame adds exactly one whole frame |
| FrameMachine.FramesFollow | src/DVB_T2/dvbt2_demodulator.cpp:193-374 | so does any number of them |
| FrameMachine.BegunFrameEnds | src/DVB_T2/dvbt2_demodulator.cpp:279-310 | a frame begun in any run is completed by its symbols |
| FrameMachine.Recovers | src/DVB_T2/dvbt2_demodulator.cpp:205-374 | after a P2 symbol with bad L1-pre, a settled and a near P1 symbol and a good P2 symbol lead into the data of a frame of the shape it had |
| FrameMachine.DataLasts | src/DVB_T2/dvbt2_demodulator.cpp:279-310 | exactly end_data_symbol - 1 data symbols follow the P2 symbol, then the closing symbol if there is one, then P1 |
| FrameMachine.ShortFrameNeverEnds | src/DVB_T2/dvbt2_demodulator.cpp:292-296 | with end_data_symbol at most 1 the count passes its end unseen |
| FrameMachine.IndicesExact | src/DVB_T2/data_symbol.cpp:128-133 | the index idx_symbol - n_p2 of every data symbol is in [0, n_data - l_fc) if and only if n_p2 is 1 |
| FrameMachine.Demodulator.P1Symbol | src/DVB_T2/dvbt2_demodulator.cpp:205-239 | takes the machine's step for a P1 symbol |
| FrameMachine.Demodulator.Symbol | src/DVB_T2/dvbt2_demodulator.cpp:279-374 | takes the machine's step for a data, closing or P2 symbol |
| FrameMachine.Demodulator.NextGuard | src/DVB_T2/dvbt2_demodulator.cpp:431-495 | guard intervals are tried seven times each, in turn, for ever |
| L1Signalling.PreFields | src/DVB_T2/p2_symbol.cpp:375-524 | the switch over bit positions cuts out the 28 fields of L1-pre |
| L1Signalling.SwitchCutsFields | src/DVB_T2/p2_symbol.cpp:383-523 | it has a case exactly at each field's last bit, with the next field's shift |
| L1Signalling.PreInfo | src/DVB_T2/p2_symbol.cpp:336-524 | returns the fields exactly when the check matches |
| L1Signalling.PreRoundTrip | src/DVB_T2/p2_symbol.cpp:336-524 | every L1-pre record with fields in range is parsed as written |
| L1Signalling.PrePlaces | src/DVB_T2/p2_symbol.cpp:375-524 | the bits each of the 28 fields is read from |
| L1Post.PostInfo | src/DVB_T2/p2_symbol.cpp:682-1122 | the parsers, at offsets computed by shifts, end in the record laid out part after part, with FEF, or at a write through a null pointer, exactly when the check matches |
| L1Post.Lengths | src/DVB_T2/p2_symbol.cpp:712-728 | the parts' lengths are 35, 35 per RF channel, 34 for FEF, 89 per PLP, 32, 32 per auxiliary stream, 71 and 48 per PLP |
| L1Post.ShortPlaces | src/DVB_T2/p2_symbol.cpp:879-956 | the bits the fields of header, RF channel and auxiliary stream are read from |
| L1Post.PlpPlaces | src/DVB_T2/p2_symbol.cpp:766-835 | those of the 21 fields of a PLP |
| L1Post.DynPlaces | src/DVB_T2/p2_symbol.cpp:959-992 | those of the dynamic part |
| L1Post.DynPlpPlaces | src/DVB_T2/p2_symbol.cpp:994-1013 | PLP_START in bits 8 to 30 and PLP_NUM_BLOCKS in bits 30 to 40 of each dynamic PLP record |
| L1Post.PostRoundTrip | src/DVB_T2/p2_symbol.cpp:682-1122 | every L1-post record is found and read; header, RF, PLP, auxiliary and dynamic parts always as written, FEF, FEF_LENGTH_MSB, RESERVED_2 and RESERVED_3 exactly when it says; and parsing ends in a record if and only if it has no auxiliary streams and no PLPs with a repeated dynamic part |
| L1Post.TailReadLate | src/DVB_T2/p2_symbol.cpp:916-924 | FEF_LENGTH_MSB and RESERVED_2 are read ten bits late |
| L1Post.FefReadWide | src/DVB_T2/p2_symbol.cpp:901-915 | with five bits read for FEF_TYPE, a part of 34 bits is right only if it is 0 |
| L1Post.LastShifted | src/DVB_T2/p2_symbol.cpp:1025-1031 | the loop over RESERVED_3 keeps its last bit |
| L1Bits.DecisionsFit | src/DVB_T2/p2_symbol.cpp:437-444 | the buffers hold the decisions if and only if the modulation is not BPSK or there are no cells |
| L1Bits.MappedIsDecided | src/DVB_T2/p2_symbol.cpp:627-657 | every word mapped to the cells is decided bit by bit as it was mapped |
| L1Bits.PostBits | src/DVB_T2/p2_symbol.cpp:627-679 | every hard decision, descrambled, ends at its address |
| L1Bits.Demultiplex | src/DVB_T2/p2_symbol.cpp:627-667 | the decision counter, cell pointer and mux cursor put every decision at its demultiplexed place |
| L1Bits.Deinterleave | src/DVB_T2/p2_symbol.cpp:668-679 | the row and column counters read the matrix by columns, also in the case without a matrix |
| L1Bits.PostBitsRestored | src/DVB_T2/p2_symbol.cpp:584-679 | scrambling, interleaving and demultiplexing are undone for every L1-post codeword |
| L1Bits.PostSignallingRestored | src/DVB_T2/p2_symbol.cpp:569-753 | from cells decided right to the end of parsing, every L1-post record is received exactly as `L1Post.PostRoundTrip` says |
| Crc32.Compute | src/DVB_T2/p2_symbol.cpp:682-687 | computes the check of the bits |
| Crc32.BurstsAreDetected | src/DVB_T2/p2_symbol.cpp:343-372 | messages that differ only within 32 consecutive bits have different checks |
| Crc32.RunIsLinear | src/DVB_T2/p2_symbol.cpp:682-687 | the register is linear over GF(2) |
| Crc32.ZerosAreChecked | src/DVB_T2/p2_symbol.cpp:338-372 | a string of zeros of any length has a check that is not zero |
| Crc32.LeadingZeros | src/DVB_T2/p2_symbol.cpp:338-372 | zeros before a string change its check if and only if they change the loaded register, and a single one does |
| Crc32.CheckCloses | src/DVB_T2/p2_symbol.cpp:682-692 | a string with its check after it empties the register |
| GrayMapping.L1BitIsLabel | src/DVB_T2/p2_symbol.cpp:630-653 | the L1 demapper's bit is the soft demapper's sign exactly where the soft value is not zero |
| GrayMapping.BothDemappersAgree | src/DVB_T2/p2_symbol.cpp:630-653 | off the boundaries both give the bits of the nearest level's label |
| DataSymbol.Demodulator.Execute | src/DVB_T2/data_symbol.cpp:108-349 | the d-th data carrier released, turned back and scaled by its step of angle and amplitude between the pilots around it, goes to h[d] in the buffer not handed out last, which alone is written |
| DataSymbol.Demodulator.Carriers | src/DVB_T2/data_symbol.cpp:166-228 | carriers wait in the gap buffer and are released in order at the next pilot |
| DataSymbol.Demodulator.Release | src/DVB_T2/data_symbol.cpp:192-214 | the accumulated angle and amplitude are the equal steps from pilot to pilot |
| ChannelEstimate.GapCloses | src/DVB_T2/data_symbol.cpp:192-208 | one step after the last carrier amplitude and angle are the next pilot's, the angle if and only if it is at most half a turn further or a whole one |
| ChannelEstimate.TurnOfGap | src/DVB_T2/data_symbol.cpp:192-194 | of a change of less than half a turn the wrapped difference is that change, or its negative exactly when the angles show more than half a turn apart upwards |
| ChannelEstimate.LinearChannelExactly | src/DVB_T2/data_symbol.cpp:192-208 | on a channel linear in the carriers, its angles seen up to whole turns, a carrier's angle is right if and only if the channel does not turn, or its share of the steps is even and the pilots are at most half a turn apart upwards; its amplitude if and only if it does not change or the share is even |
| ChannelEstimate.UpwardWrapFails | src/DVB_T2/data_symbol.cpp:192-194 | pilots for which the angle is wrong |
| DataSymbol.EvenGapExactly | src/DVB_T2/data_symbol.cpp:166-228 | in a gap of data carriers only every share is even |
| DataSymbol.ChannelUndoneExactly | src/DVB_T2/data_symbol.cpp:166-228 | so there a linear channel is undone at every carrier if and only if it does not turn or the pilots are at most half a turn apart upwards |
| DataSymbol.Demodulator.Middle | src/DVB_T2/data_symbol.cpp:229-262 | a pilot on the middle carrier releases nothing |
| DataSymbol.ReleasedInOrder | src/DVB_T2/data_symbol.cpp:166-327 | released and waiting carriers are all the data carriers, in order |
| DataSymbol.AllReleased | src/DVB_T2/data_symbol.cpp:264-327 | with a pilot on the upper edge every data carrier is released |
| DataSymbol.PilotsAreNearest | src/DVB_T2/data_symbol.cpp:191-222 | a carrier's correction is made from the nearest pilots used on either side |
| DataSymbol.CellsInOrder | src/DVB_T2/data_symbol.cpp:150-327 | with h inverse to the transmitter's carrier assignment the cells come out in the order sent, every place filled |
| SymbolPath.SymbolRestoredExactly | src/DVB_T2/data_symbol.cpp:150-327 | for every FFT size, a symbol comes out in order if and only if it was interleaved by the odd order (even index), or by the even order, in 32K the odd order the other way round (odd index) |
| Period.PeriodFromFactors | src/DVB_T2/address_freq_deinterleaver.cpp:109-121 | a register that returns after 2^n - 1 steps but after no maximal proper divisor of it has exactly that period |
| Lfsr.StepInjective | src/DVB_T2/address_freq_deinterleaver.cpp:113-121 | with tap 0 present the register's step is injective |
| Lfsr.CharacteristicPolynomial | src/DVB_T2/address_freq_deinterleaver.cpp:113-121 | every state satisfies the recurrence of the tap polynomial |
| Registers.RegisterIsMaximal | src/DVB_T2/address_freq_deinterleaver.cpp:28-107 | the register of every degree from 9 to 14 has the maximal period |
| Toggled.WordsOfOneParityDiffer | src/DVB_T2/address_freq_deinterleaver.cpp:109-133 | because the period is odd, words at places of one parity are different |
| Toggled.ToggledPermutation | src/DVB_T2/address_freq_deinterleaver.cpp:109-133 | any bijection of the words, with the toggled top bit, lists every address once |
| Toggled.Generate | src/DVB_T2/address_freq_deinterleaver.cpp:109-121 | start-up values and feedback loop produce the register's words |
| Toggled.WordBits | src/DVB_T2/address_freq_deinterleaver.cpp:109-121 | each word's bits are the last one's moved down below the exclusive or of its tapped bits |
| Registers.FeedbackBits | src/DVB_T2/address_freq_deinterleaver.cpp:28-107 | which bits are tapped, for each degree |
| FreqDeinterleaver.WiredInjective | src/DVB_T2/address_freq_deinterleaver.cpp:122-131 | moving bits along a permutation of wires loses nothing |
| FreqDeinterleaver.AddressesArePermutation | src/DVB_T2/address_freq_deinterleaver.cpp:109-133 | for every FFT mode the generated addresses are a permutation of [0, max_states) |
| FreqDeinterleaver.AddressBits | src/DVB_T2/address_freq_deinterleaver.cpp:122-133 | bit k of the word is the address bit at the end of wire k, and the index's parity the top bit |
| SymbolPath.OrdersKept | src/DVB_T2/address_freq_deinterleaver.cpp:141-148 | the lists keep the order in which the addresses are generated |
| FreqDeinterleaver.AddressFreqDeinterleaver.Init | src/DVB_T2/address_freq_deinterleaver.cpp:28-134 | fills max_even and max_odd with those permutations |
| FreqDeinterleaver.AddressPair.Fill | src/DVB_T2/address_freq_deinterleaver.cpp:136-161 | for any number of carriers the filtered lists are permutations and h inverts them; in 32K h_even and h_odd invert each other |
| FreqDeinterleaver.DoubleInverse | src/DVB_T2/address_freq_deinterleaver.cpp:141-161 | the second inversion in 32K makes even and odd mutually inverse |
| FreqDeinterleaver.AddressFreqDeinterleaver.P2Addresses | src/DVB_T2/address_freq_deinterleaver.cpp:136-161 | the addresses of P2 symbols |
| FreqDeinterleaver.AddressFreqDeinterleaver.DataAddresses | src/DVB_T2/address_freq_deinterleaver.cpp:164-208 | the addresses of data and frame closing symbols |
| Permutations.FilterPermutation | src/DVB_T2/address_freq_deinterleaver.cpp:141-148 | the entries below c of a permutation of [0, n) are a permutation of [0, min(c, n)) |
| Permutations.FilterKeepsOrder | src/DVB_T2/address_freq_deinterleaver.cpp:141-148 | the entries kept stay in their order |
| CellInterleaver.FirstPermutation | src/DVB_T2/time_deinterleaver.cpp:226-246 | lists the base order of a FEC block's cells, which `CellInterleaver.BaseOrderPermutes` and `CellInterleaver.BaseOrderKeepsOrder` fix |
| CellInterleaver.BaseOrderPermutes | src/DVB_T2/time_deinterleaver.cpp:226-246 | it lists every cell of the block exactly once |
| CellInterleaver.BaseOrderKeepsOrder | src/DVB_T2/time_deinterleaver.cpp:226-246 | of two words of the register below the number of cells, the one met first is listed first |
| TimeDeinterleaver.StandardOrders | src/DVB_T2/time_deinterleaver.cpp:259-262 | the standard's L_0 is that list, and L_r is it moved on by the shift of block r |
| CellInterleaver.StandardShiftsKeepOrder | src/DVB_T2/time_deinterleaver.cpp:247-258 | the standard's shifts come in the order of its counter |
| CellInterleaver.RevBits | src/DVB_T2/time_deinterleaver.cpp:250-257 | bit reversal exchanges the bits end for end |
| CellInterleaver.DoubledMeetsStandard | src/DVB_T2/time_deinterleaver.cpp:249-258 | the doubled bit reversal of an even counter is the standard's reversal of its half, and an odd counter is always rejected |
| CellInterleaver.NextShift | src/DVB_T2/time_deinterleaver.cpp:248-258 | the rejection loop ends and finds the next block's shift |
| CellInterleaver.ShiftIsStandard | src/DVB_T2/time_deinterleaver.cpp:247-263 | the shift of block r is the standard's if and only if r < ceil(cells / 2) |
| CellInterleaver.ShiftsDistinct | src/DVB_T2/time_deinterleaver.cpp:247-263 | the shifts of those blocks are all different |
| CellInterleaver.AddressCellDeinterleaving | src/DVB_T2/time_deinterleaver.cpp:173-265 | every segment of the table is the inverse of its block's cell permutation |
| CellInterleaver.FillBlock | src/DVB_T2/time_deinterleaver.cpp:259-262 | fills one segment and leaves the others |
| TimeDeinterleaver.BlocksConserved | src/DVB_T2/time_deinterleaver.cpp:271-282 | the FEC blocks of the TI blocks sum to num_blocks, grow by at most one, and none is empty exactly if there are enough |
| TimeDeinterleaver.TableStartsAtZero | src/DVB_T2/time_deinterleaver.cpp:259-262 | the table's first entry is 0 |
| TimeDeinterleaver.TablePermutes | src/DVB_T2/time_deinterleaver.cpp:247-263 | the entries of the first blocks are a permutation of their cells |
| TimeDeinterleaver.PositionIsStandard | src/DVB_T2/time_deinterleaver.cpp:247-263 | the table undoes the standard's permutation of block r if and only if r < ceil(cells / 2) |
| TimeDeinterleaver.TableUndoesInterleaver | src/DVB_T2/time_deinterleaver.cpp:311-324 | reading through the table undoes the cell interleaver of a TI block |
| TimeDeinterleaver.EveryBlockCanBeSent | src/DVB_T2/time_deinterleaver.cpp:311-378 | the standard's transmitter is defined for every TI block of up to as many FEC blocks as a block has cells |
| TimeDeinterleaver.SomeBlockIsLost | src/DVB_T2/time_deinterleaver.cpp:173-378 | for every number of FEC blocks above ceil(cells / 2) there is a TI block sent by the standard that the loop does not hand on |
| TimeDeinterleaver.BlockOf1014IsLost | src/DVB_T2/time_deinterleaver.cpp:173-378 | 1014 FEC blocks of 2025 cells, a number the 10-bit field carries, are one |
| TimeDeinterleaver.TiBlockRestoredExactly | src/DVB_T2/time_deinterleaver.cpp:173-378 | a TI block of any number of FEC blocks, all its cells different, comes out as it went in if and only if that number is at most ceil(cells / 2) |
| TimeDeinterleaver.TiBlockLost | src/DVB_T2/time_deinterleaver.cpp:173-378 | beyond that number the loop hands on another block |
| TimeDeinterleaver.TiBlockRestored | src/DVB_T2/time_deinterleaver.cpp:311-378 | a TI block through Q delay, cell interleaver and time interleaver comes out of the loop as it went in |
| TimeDeinterleaver.InterleavingFrameRestored | src/DVB_T2/time_deinterleaver.cpp:287-383 | all TI blocks of a frame come out in order, whatever the buffers held |
| TimeInterleaver.BlockRestored | src/DVB_T2/time_deinterleaver.cpp:311-378 | the same for any table of which the block's part is a permutation that starts with 0: no pending Q part of the last block enters this one |
| TimeInterleaver.FrameRestored | src/DVB_T2/time_deinterleaver.cpp:287-383 | the same for a list of TI blocks |
| TimeInterleaver.RunChunks | src/DVB_T2/time_deinterleaver.cpp:311-378 | state and emitted blocks depend only on the cells, not on how they are cut into calls |
| TimeInterleaver.SentBufferIsKept | src/DVB_T2/time_deinterleaver.cpp:342-355 | an emitted buffer is not written until the next TI block is emitted |
| TimeInterleaver.SentWaitsAlways | src/DVB_T2/time_deinterleaver.cpp:342-355 | the buffer not being filled always holds the TI block emitted last |
| TimeDeinterleaver.Deinterleaver.Execute | src/DVB_T2/time_deinterleaver.cpp:311-383 | runs the machine over the cells of one call |
| TimeDeinterleaver.Deinterleaver.StoreCell | src/DVB_T2/time_deinterleaver.cpp:312-324 | stores one cell with its Q part one cell earlier |
| TimeDeinterleaver.Deinterleaver.Advance | src/DVB_T2/time_deinterleaver.cpp:325-378 | moves to the next column, row or TI block, writing the pending Q part at the end of a row |
| TimeDeinterleaver.Deinterleaver.SendBlock | src/DVB_T2/time_deinterleaver.cpp:342-376 | hands a TI block on, swaps buffers and sizes the next |
| TimeDeinterleaver.Deinterleaver.SizeBlocks | src/DVB_T2/time_deinterleaver.cpp:271-282 | sizes the TI blocks of a frame for any number of FEC blocks and TI blocks; the loop's conditions hold if and only if there are TI blocks, none is empty and the last and largest fits the table |
| TimeDeinterleaver.FirstBlockEmpty | src/DVB_T2/time_deinterleaver.cpp:271-282 | the first TI block is empty if and only if there are fewer FEC blocks than TI blocks |
| TiCounters.TicksAreRun | src/DVB_T2/time_deinterleaver.cpp:325-378 | the program's step, row and size move as the machine's columns and rows do, for any cells, when no TI block is empty |
| TiCounters.EmptyBlockNeverCloses | src/DVB_T2/time_deinterleaver.cpp:304-332 | with an empty first TI block, after n cells the step is n rows, the row 0 and nothing sent |
| TiCounters.EmptyBlockLeavesTable | src/DVB_T2/time_deinterleaver.cpp:311-313 | the entry read next is then outside the table if and only if n times the rows reach its length |
| TiCounters.BlocksInTurn | src/DVB_T2/time_deinterleaver.cpp:325-378 | when no TI block is empty each is handed on with its last cell and the next begins |
| TiCounters.FrameInsideTable | src/DVB_T2/time_deinterleaver.cpp:311-378 | the cells of such a frame use only entries inside the table if and only if every TI block fits it |
| TiCounters.FrameFitsExactly | src/DVB_T2/time_deinterleaver.cpp:267-378 | that is if and only if the last and largest TI block has no more FEC blocks than the table |
| TiCounters.WalkBlock | src/DVB_T2/time_deinterleaver.cpp:325-332 | in any TI block that is not empty the counters walk its rows and columns |
| TiCounters.FrameSendsExactly | src/DVB_T2/time_deinterleaver.cpp:267-378 | the first TI block of a started frame is ever handed on if and only if there are at least as many FEC blocks as TI blocks |
| TimeDeinterleaver.Deinterleaver.L1DynExecute | src/DVB_T2/time_deinterleaver.cpp:267-310 | starts a frame on the cells after the signalling |
| GrayMapping.FoldsDecideNearest | src/DVB_T2/llr_demapper.cpp:699-724 | for every amplitude the signs of the folded values are the label of a nearest level |
| GrayMapping.LabelOfNearest | src/DVB_T2/llr_demapper.cpp:699-724 | off the boundaries the label depends only on the nearest level |
| GrayMapping.LabelsDiffer | src/DVB_T2/llr_demapper.cpp:699-724 | different levels have different labels, for any number of bits |
| GrayMapping.EveryLabelHasLevel | src/DVB_T2/llr_demapper.cpp:699-724 | every word is the label of a level |
| GrayMapping.NeighboursDifferInOneBit | src/DVB_T2/llr_demapper.cpp:699-724 | neighbouring levels' labels differ in exactly one bit |
| GrayMapping.FoldIsDistance | src/DVB_T2/llr_demapper.cpp:699-724 | the size of a soft value is the distance to the nearest amplitude at which its bit changes |
| GrayMapping.SlicersSelectNearest | src/DVB_T2/llr_demapper.cpp:573-667 | the nested comparisons of 16-QAM (lines 260-279) and 256-QAM select a nearest level for every amplitude |
| GrayMapping.Slice64Exact | src/DVB_T2/llr_demapper.cpp:400-439 | those of 64-QAM do if and only if the amplitude is at least -6 n |
| SoftBits.RoundNearest | src/DVB_T2/llr_demapper.cpp:314-321 | a scaled value is rounded to a nearest integer, the even one of two |
| SoftBits.QuantizeNear | src/DVB_T2/llr_demapper.cpp:314-338 | within 8 bits a stored value is the scaled soft value to within one half |
| SoftBits.ToInt8Is | src/DVB_T2/llr_demapper.cpp:331-338 | the cast leaves values of 8 bits alone and takes whole turns from the others |
| SoftBits.KeptExactly | src/DVB_T2/llr_demapper.cpp:314-338 | rounding and unclamped cast keep the sign if and only if the rounded value lies in the half of its turn of 256 the sign asks for; within one turn, if and only if the scaled value is in [0, 127.5) or [-128.5, -0.5) |
| SoftBits.FoldOfLevel | src/DVB_T2/llr_demapper.cpp:699-724 | the soft values of a level are odd multiples of the unit, levels of the constellations left after each fold |
| SoftBits.LevelsKeptExactly | src/DVB_T2/llr_demapper.cpp:699-751 | without noise all signs are kept if and only if every positive level rounds into the positive half of its turn; below the first turn's end, if and only if the innermost level is scaled above 1/2 and the outermost below 127.5 |
| SoftBits.RatiosKeepSigns | src/DVB_T2/llr_demapper.cpp:682-751 | for every ratio of signal to error power, whether the program's precision keeps them; for 16 (line 295), 64 (line 458) and 256-QAM |
| SoftBits.SignsReturn | src/DVB_T2/llr_demapper.cpp:295-338 | a ratio at which 16-QAM loses signs and a higher one at which it does not |
| BitInterleaver.AddressesPermute | src/DVB_T2/llr_demapper.cpp:108-128 | the address table is a permutation for any twist and any demultiplexer permutation |
| BitInterleaver.ScatterRestores | src/DVB_T2/llr_demapper.cpp:325-342 | scattering through it undoes column twist and demultiplexing |
| BitInterleaver.EveryCodewordCanBeSent | src/DVB_T2/llr_demapper.cpp:108-128 | column twist and demultiplexing are defined for every codeword |
| BitInterleaver.EveryParityCanBeSent | src/DVB_T2/ldpc_decoder.cpp:237-249 | and so is parity interleaving |
| BitInterleaver.ParityRestores | src/DVB_T2/ldpc_decoder.cpp:237-249 | the decoder's layout undoes parity interleaving |
| LlrDemapper.AddressGenerator | src/DVB_T2/llr_demapper.cpp:108-128 | the two loops make that table |
| LlrDemapper.TwistTable | src/DVB_T2/llr_demapper.cpp:111-116 | the intermediate table |
| LlrDemapper.TablesAreOk | src/DVB_T2/llr_demapper.h:60-74 | every constellation's tables fit: twists within the columns, demultiplexers permutations with the inverses given, a whole FEC block |
| LlrDemapper.GroupsMeetBlockEnd | src/DVB_T2/llr_demapper.cpp:310-345 | a block's values are whole groups of four cells if and only if the FEC size is normal or the constellation 64-QAM |
| LlrDemapper.Demapper.Execute | src/DVB_T2/llr_demapper.cpp:699-777 | every FEC block is finished in turn with each soft value at its address, across calls, batches and buffer swaps |
| LlrDemapper.Demapper.PutCell | src/DVB_T2/llr_demapper.cpp:699-751 | writes one cell's soft values, scaled, rounded and cast to 8 bits, at their addresses and changes no value before them |
| LlrDemapper.Demapper.FinishBlock | src/DVB_T2/llr_demapper.cpp:753-777 | counts a block, and at the 32nd emits the batch and swaps buffers |
| LdpcDecoder.CodesFillBlocks | src/DVB_T2/ldpc_decoder.cpp:166-235 | information and parity of every code fill the FEC block |
| LdpcDecoder.DeparityLayout | src/DVB_T2/ldpc_decoder.cpp:242-247 | a lane's parity is at K + Q s + t where the block's is at K + 360 t + s |
| LdpcDecoder.Decoder.FillLane | src/DVB_T2/ldpc_decoder.cpp:238-249 | transposes one block into its lane and leaves the others |
| LdpcDecoder.Decoder.HardOut | src/DVB_T2/ldpc_decoder.cpp:263-270 | hard decisions of the lanes, block after block |
| LdpcDecoder.Decoder.Execute | src/DVB_T2/ldpc_decoder.cpp:154-288 | sends on the decisions of the core's lanes, or nothing if it fails |
| BchDecoder.Decoder.InitDescrambler | src/DVB_T2/bch_decoder.cpp:46-57 | tabulates the sequence of 1 + X^14 + X^15 from its loaded register |
| BchDecoder.Decoder.Execute | src/DVB_T2/bch_decoder.cpp:126-150 | descrambles the first k_bch bits of each block, a frame at a time |
| BchDecoder.ScrambledTwice | src/DVB_T2/bch_decoder.cpp:128-132 | descrambling undoes scrambling |
| BchDecoder.PrbsStarts | src/DVB_T2/bch_decoder.cpp:46-57 | the sequence starts with 00000011 11110110 |
| BchDecoder.BchFits | src/DVB_T2/bch_decoder.cpp:68-124 | every code's k_bch fits its block, the table and the buffers |
| BitPath.EveryWordCanArrive | src/DVB_T2/llr_demapper.cpp:699-751 | every demultiplexed codeword can be mapped to cells that arrive as sent, for every precision that keeps the levels' signs |
| BitPath.MappedWordArrives | src/DVB_T2/llr_demapper.cpp:699-751 | every word received in the cells it was mapped to arrives as sent |
| BitPath.SignIsBit | src/DVB_T2/llr_demapper.cpp:699-751 | a stored value's sign is the bit that was mapped when the rounded soft value lies as `SoftBits.KeptExactly` asks |
| BitPath.BlockSigns | src/DVB_T2/llr_demapper.cpp:699-749 | a demapped block has the signs of the parity-interleaved codeword |
| BitPath.LaneSigns | src/DVB_T2/ldpc_decoder.cpp:237-249 | its lane has the signs of the codeword |
| BitPath.FramesInOrder | src/DVB_T2/bch_decoder.cpp:126-150 | frame k of batch j is that of block 32 j + k |
| BitPath.FrameDelivered | src/DVB_T2/bch_decoder.cpp:126-150 | a block whose cells arrive as sent is delivered as the baseband frame that was sent |
| Crc8.RightMirrorsLeft | src/DVB_T2/bb_de_header.cpp:67-79 | the LSB-first register is the bit reversal of the MSB-first one for any bits |
| Crc8.ByteStep | src/DVB_T2/bb_de_header.cpp:53-65 | eight register steps on a byte are one look-up of its difference with the register |
| Crc8.FoldIsCrc | src/DVB_T2/bb_de_header.cpp:53-65 | the fold of the table is the register over all bits |
| Crc8.ModeDetection | src/DVB_T2/bb_de_header.cpp:92-98 | over ten header bytes the result is 0 if and only if the last is the CRC of the others, and the polynomial if and only if it is that CRC with its last bit flipped |
| BbDeHeader.HeadersAccepted | src/DVB_T2/bb_de_header.cpp:92-160 | of headers of nine bytes and a check byte exactly those are de-framed in high-efficiency mode whose check byte is the CRC with its last bit flipped, for the wanted PLP and with a packet start; any check byte but that and the CRC is an error |
| Crc8.CheckMode | src/DVB_T2/bb_de_header.cpp:67-79 | computes the LSB-first register |
| Crc8.InitTable | src/DVB_T2/bb_de_header.cpp:53-65 | fills the table |
| PacketStream.InsertRestores | src/DVB_T2/bb_de_header.cpp:396-434 | putting sync bytes in from a packet boundary restores the packets |
| PacketStream.InsertLength | src/DVB_T2/bb_de_header.cpp:396-434 | how many sync bytes go in |
| PacketStream.RestoreStripped | src/DVB_T2/bb_de_header.cpp:396-434 | stripped packets restored are the packets |
| BbDeHeader.OutputFits | src/DVB_T2/bb_de_header.cpp:31-32 | no frame puts out more than the buffer holds, whatever was pending |
| BbDeHeader.DeframeAligned | src/DVB_T2/bb_de_header.cpp:336-434 | under any SYNCD a frame keeps sync bytes at multiples of 188 and the position in step with all that is sent |
| BbDeHeader.AlwaysAligned | src/DVB_T2/bb_de_header.cpp:336-434 | so do whole runs |
| BbDeHeader.FieldInStep | src/DVB_T2/bb_de_header.cpp:335-437 | a synchronised receiver stays synchronised over any correct field |
| BbDeHeader.FieldResynchronises | src/DVB_T2/bb_de_header.cpp:335-437 | from any packet in progress and whatever SYNCD says of it, one correct field puts the receiver in step from its first boundary on |
| BbDeHeader.HeadCompletesPacket | src/DVB_T2/bb_de_header.cpp:336-393 | the bytes that complete a pending packet are the field's up to SYNCD and 0xF0 from there, and where reading goes on |
| BbDeHeader.StreamResumed | src/DVB_T2/bb_de_header.cpp:335-437 | and correct fields after that give the stream from that boundary on |
| BbDeHeader.FirstField | src/DVB_T2/bb_de_header.cpp:335-437 | a new receiver locks on exactly when a whole packet's worth of bytes follows the first boundary |
| BbDeHeader.StreamRestored | src/DVB_T2/bb_de_header.cpp:335-437 | outputs and pending bytes are the stream from the first boundary on with its sync bytes |
| BbDeHeader.PacketsRestored | src/DVB_T2/bb_de_header.cpp:335-437 | a list of packets cut into fields of any lengths comes out from its first boundary on |
| BbFrames.HeaderRoundTrip | src/DVB_T2/bb_de_header.cpp:92-160 | whatever a header's fields, DFL and SYNCD are read as written, and the frame is de-framed if and only if it is of the wanted PLP and a packet starts in it |
| BbFrames.BytesReadBack | src/DVB_T2/bb_de_header.cpp:396-433 | bytes written most significant bit first are read back |
| BbFrames.CutIsWritten | src/DVB_T2/bb_de_header.cpp:335-437 | part of a stream written into a data field with the SYNCD that belongs to it is a correct field |
| BbFrames.RunIsDeframed | src/DVB_T2/bb_de_header.cpp:81-437 | in a run of frames those of other PLPs and those no packet starts in leave no trace |
| BbFrames.FramesRestored | src/DVB_T2/bb_de_header.cpp:81-437 | frames whose data fields cut a list of packets give the packets from the first boundary on, whatever frames come between |
| BbDeHeader.DeFramer.Execute | src/DVB_T2/bb_de_header.cpp:81-437 | a frame is de-framed by its own DFL and SYNCD, changes nothing, or is in normal mode, as `BbFrames.HeaderRoundTrip` says of its header |
| BbDeHeader.DeFramer.HighEfficiency | src/DVB_T2/bb_de_header.cpp:335-437 | the branch's output and state are the specification's, never past the buffer |
| BbDeHeader.DeFramer.FinishPacket | src/DVB_T2/bb_de_header.cpp:336-393 | completes the pending packet, skipping to SYNCD or filling up to it |
| BbDeHeader.DeFramer.DirectOut | src/DVB_T2/bb_de_header.cpp:416-433 | bytes and sync bytes straight to the output |
| BbDeHeader.DeFramer.KeepRest | src/DVB_T2/bb_de_header.cpp:397-415 | keeps the rest for the next frame within the packet buffer |

## Left out

- Normal mode of the de-framer: its byte accounting does not subtract the per-packet CRC byte, and README.md of the program says only high-efficiency mode was used.
- BbDeHeader.DeFramer.Execute: promises nothing of the state after a normal-mode frame; requires frames of the lengths the BCH stage sends, and a data field that lies in its frame, which the program does not check; frames with SYNCD 65535 are dropped as the program drops them.
- TimeDeinterleaver.Deinterleaver.L1DynExecute: requires at least one FEC block for every TI block and no more in the last than the table has, for otherwise the loop reads outside its table (`TiCounters.EmptyBlockLeavesTable`, `TiCounters.FrameFitsExactly`); the counters of such frames are modelled without the cells. It also requires TI blocks: with TIME_IL_LENGTH 0 the program reads the size of the first from a list of none. The quotient is taken exactly, not in single precision.
- TimeDeinterleaver.TiBlockRestored: up to ceil(cells / 2) FEC blocks in a TI block, the exact condition of `TiBlockRestoredExactly`; `TimeInterleaver.BlockRestored` has no bound.
- TimeDeinterleaver.InterleavingFrameRestored: the same bound for every TI block, and none of them empty, without which nothing comes out (`TiCounters.FrameSendsExactly`).
- TimeDeinterleaver.TiBlockRestoredExactly: up to as many FEC blocks as a block has cells, for which the standard's shifts are defined here.
- Several PLPs in a frame, slice ends and TI blocks over more than one frame (time_il_type 1, frame_interval above 1): slice_end uses the block size of PLP 1 for every PLP.
- LlrDemapper.Demapper.Execute: 16/64/256-QAM with whole FEC blocks in every call. QPSK, whose cast alone is clamped, restarts its output in every call and is not modelled; short frames of 16-QAM and 256-QAM never complete a block (`LlrDemapper.GroupsMeetBlockEnd`). The precision, an estimate, is a parameter. A cast of a value outside 8 bits is taken to keep its low 8 bits, as the instructions compiled for it do; the language leaves it undefined.
- BitPath.FrameDelivered: noise is bounded by the condition that every amplitude is off the decision boundaries of the level sent and that every soft value, scaled and rounded, is where the cast keeps its sign; what the LDPC core corrects is a parameter. PLP numbers of the lanes (idx_plp_simd) are not modelled.
- The LDPC core, belief propagation over the code's graph; BCH decoding, which the program does not do.
- LdpcDecoder.Decoder.Execute: 32 lanes; the 16-lane build is the same with another constant.
- FrameMachine.Demodulator.Symbol: the buffering of samples up to a whole symbol, which an event stands for, and the resets of loop filters and oscillators are not modelled.
- L1Post.PostInfo: what is read of the repeated dynamic part is kept only where it changes the record (START_RF_IDX). Records kept from earlier frames, and sizes allocated for them, are not modelled. A 32-bit frequency is a natural number, where the program's is signed. The reading of a field past the end of a string with a right check but wrong counts is excluded.
- L1Bits.PostBits: not for BPSK, for which the program allocates no bits (`L1Bits.DecisionsFit`), and with cells for whole rows of the matrix; a scrambled L1-post no longer than the program's table of 7032 bits; the LDPC-coded part of it is not decoded by the program.
- SymbolPath.SymbolRestoredExactly: says which interleaving the program undoes in symbols of even and of odd index; which of the two orders the standard gives to which is not part of this model.
- BbFrames.FramesRestored: own frames in which no packet starts would interrupt the cuts and are not among them, as the program drops them.
- ChannelEstimate.LinearChannelExactly: channels that turn by less than half a turn from pilot to pilot, beyond which pilots do not tell which way a channel turns.
- DataSymbol.Demodulator.Execute: the angle and amplitude each pilot shows, and the rotation by a given angle and amplitude, are parameters (atan2f, sqrtf, cosf, sinf), as are pilot patterns; the offsets estimated for the synchronisation loops are not modelled.
- Resampler.Interpolator.Execute: exact reals, where the program accumulates the position in single precision. The six-point interpolator, which the program does not use, is not modelled.
- FilterDecimator.Filter.Execute: exact reals; the filter's taps are a parameter.
- FreqDeinterleaver.AddressFreqDeinterleaver.Init: degrees 9 to 14 as the FFT sizes need; the default branch for other degrees of the cell interleaver's register is not modelled.
- FFT, P1 correlation, pilot generation, synchronisation loops, IQ correction and signal quality: floating-point estimation.
- Tuner drivers, threads, locks, files, sockets and the user interface: input and output. Blocking signals between stages are calls.
