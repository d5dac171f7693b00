# Verified model of the receiver's coding, framing and streaming layers

This project models, in Dafny, the bit-exact and integer parts of a software-defined radio receiver: FT8 error
correction, the transforms and rings around it, the HDLC/AX.25 packet link with its AIS sibling, Mode S and
ADS-B position decoding, radioteletype framing, the streaming filters and resamplers, and the planning of
decimation rates. Code that works step by step is modelled as methods and classes with loops, arrays and fields,
each proved equal to a specification function or relation; what the code is for is then proved about the
specification. `dafny verify dfyconfig.toml` checks everything.

## Layout

| files | what they model |
|---|---|
| `Gf2`, `Bytes`, `Octets`, `Arith`, `History`, `CrcTheory`, `Complex`, `Options` | linear algebra over two elements, packed bytes, octets and bit order, zero-prefixed streams, checksums as linear maps, exact complex numbers |
| `PackedRow`, `Ft8Code`, `Ft8Basis`, `Ft8Osd`, `Ft8Crc`, `Ft8Decode` | the (174,91) code, the ordered-statistics decoder in place on packed rows, CRC-14, and the decision that gates a message |
| `Fft`, `Fft2560` | the in-place radix-2 transform and the 5 by 512 one |
| `Waterfall`, `Candidates`, `Ft8Sync`, `SpectrumTap` | the ring of symbol spectra, its sync score and the search over it, what the best cells of any score are, the display ring |
| `Crc16`, `Hdlc`, `HdlcLink`, `Ax25`, `AprsLink` | packet radio from text to tones and back |
| `Ais`, `AisLink` | the second deframer and a whole burst through it |
| `Crc24`, `ModeS`, `ModeSDemod`, `ModeSLink` | the Mode S checksum, the bit schedule, the streaming scanner, and a clean transmission through it |
| `Cpr`, `CprLon`, `Planes` | compact position reporting and an aircraft's fixes and trail |
| `Rtty`, `RttyLink` | the radioteletype framer, its run gate and its typist |
| `Fir`, `Rates`, `Resampler` | block-wise filters, decimation plans, the 8000 to 3200 Hz resampler |

## How the model is set up

- Tables that are data stay parameters: the FT8 generator and check tables (only their shape is assumed, and where
  parity matters that H times G transposed is zero) and the magnitude table of Mode S. The ITA2, bit-slice, Costas
  and latitude-zone tables are written out.
- Machine words are vectors of their bits (checksums), bit-vector words (packed rows, FT8 bytes) or numbers below
  256 (octets). Where a word could overflow in the source the model has the overflow: `1 << order` past 62, 16- and
  24-bit registers, 32-bit correlators.
- Real arithmetic is exact. Over it the transforms are proved for any root of unity of the right order, so the
  sine and cosine tables appear as exact powers. Position reports are 17-bit integers, as they are on the air.
- Sorting by reliability is a stable insertion sort in place of the library's stable sort.
- Time, the ground speed between two places, the waterfall's spectrum of a frame, the text of a 77-bit payload and the
  hard decisions of each belief-propagation iteration are parameters.
- The `fed`, `heard`, `history` and `log` fields are ghosts: what has gone into an object or come out of it so far.

## Where code and comments part

The model follows the code.

- `internal/adsb/decode.go:16-32` speaks of counts from 59 down to 2, but its table has 61 entries, so the count can
  reach 0 and -1 near the poles; `CprLon.CountIff` says exactly where, `CprLon.CountsRunOut` has a latitude for each, and
  `CprLon.OneZone` shows that a count below one decodes as one zone.
- The signed remainders at `internal/adsb/decode.go:224-225` turn away any pair whose even and odd zone numbers
  differ (but for one case at the equator); `Cpr.RangeCheckIff` is the exact condition and `Cpr.TurnedAway` an
  example.
- `internal/aprs/ax25.go:123-124` marks the destination as the last address when there are no digipeaters;
  `Ax25.RoundTripIff` is the exact condition.
- `internal/dsp/rtty.go:247-253` speaks of runs of three and two hidden characters; the code wants four in step, so
  it holds up to three back, and the fourth lets all four go.
- `internal/dsp/rtty.go:243-246` says that a constant carrier or a keyer never opens the gate on the tones; that gate
  never closes, since a frame's start bit is space and its stop vote mark (`RttyLink.ToneGateIsOpen`). The run gate and
  the votes do the work.
- `internal/dsp/ft8_osd.go:63` and `:208` describe exits that cannot happen with the code's own tables, given that
  they are orthogonal.
- `internal/dsp/ft8_wf.go:247` looks as if it raised the threshold once the list is full; taking the minimum leaves
  it where it was.
- `internal/dsp/fft.go:106-110` asks for destinations no longer than the ring. A longer one is not left alone past
  the ring's length, because the copies stop at its own end; `SpectrumTap.Tap.SnapshotN` says what lands there.
- `internal/ais/gmsk.go:166-203` reads the message type and station number in on-air order, while octets go out low
  bit first, so the early abort looks at other numbers than the ones it names. `AisLink.EmittedIff` is the exact
  condition on a payload, and `AisLink.SecondOctetRefused` a family of sound reports that are dropped.
- `internal/deepcw/deepcw.go:194-197` and `internal/adsb/decode.go:281-283` guard against cases that never arise.

## Model

| member | source | states |
|---|---|---|
| Ft8Osd.Decode | internal/dsp/ft8_osd.go:64-211 | The ordered-statistics decoder as a whole, for every LLR vector and every order. It fails only if the tables are not orthogonal, so neither its singularity exits nor its final parity net can fire with the real ones. Otherwise the result satisfies all checks, and over the basis the greedy pivoting rule selects from the reliability order it is a codeword at least Hamming distance from the hard decisions among all codewords agreeing with them on the first 91 - order basis positions (all 91 of them from order 63 on, where the mask bound overflows). A codeword whose every bit the signs of the LLRs show comes back itself |
| Ft8Osd.SentComesBack | internal/dsp/ft8_osd.go:147-200 | A sent codeword comes back if the signs of the LLRs (positive is one) are wrong in e bits at most, none of them among the reliable basis positions, and no other codeword lies within 2 e bits of it |
| Ft8Osd.CleanComesBack | internal/dsp/ft8_osd.go:147-200 | With every sign right the decoder returns the codeword sent, at every order |
| Ft8Basis.NeverStuck | internal/dsp/ft8_osd.go:114-138 | Whatever has been swapped and eliminated, the rows still to be reduced have a one in some column at or past the pivot, because they stay independent |
| Ft8Basis.UsableIffPivot | internal/dsp/ft8_osd.go:108-125 | The row search for a pivot is the code-theoretic question: a remaining row has a one in a column exactly if some codeword is zero on the basis so far and one there |
| Ft8Basis.GaussJordan | internal/dsp/ft8_osd.go:106-145 | In place, with swaps of rows and columns: always succeeds, keeps the rows a basis of the code under the permutation, leaves an identity in the first 91 columns, and orders the columns by the greedy rule |
| Ft8Basis.ChoosePivot | internal/dsp/ft8_osd.go:107-138 | A pivot row is found, and the column order changes by at most the one swap that brings in the first usable column past the basis |
| Ft8Basis.Eliminate | internal/dsp/ft8_osd.go:140-144 | Clears one column from every other row and keeps the columns already reduced and the span |
| Ft8Basis.SwapCol | internal/dsp/ft8_osd.go:95-105 | Two columns of all packed rows and of the index change places and nothing else |
| Ft8Basis.FindPivot | internal/dsp/ft8_osd.go:107-113 | Minus one exactly if no remaining row has a one in the column, else such a row |
| Ft8Basis.FindReplacement | internal/dsp/ft8_osd.go:115-128 | The first column past the basis with a one in a remaining row |
| Ft8Basis.BuildRows | internal/dsp/ft8_osd.go:76-88 | The packed rows are the unit codewords with their columns permuted |
| Ft8Basis.SortIsOrder | internal/dsp/ft8_osd.go:68-74 | The stable sort gives a permutation by falling reliability, equals in index order |
| Ft8Basis.SortedBySquares | internal/dsp/ft8_osd.go:68-74 | In terms of the squares of the LLRs: stronger first, and of two as strong the earlier |
| Ft8Basis.GeneratorIsBasis | internal/dsp/ft8_osd.go:76-88 | The generator's rows are codewords, span the code and are independent |
| Ft8Osd.Sweep | internal/dsp/ft8_osd.go:155-200 | Over all masks the pair kept is a candidate and its weight, and no candidate is lighter |
| Ft8Osd.FlipWeakest | internal/dsp/ft8_osd.go:185-195 | Flips exactly the masked ones of the least reliable basis positions |
| Ft8Osd.EncodeSel | internal/dsp/ft8_osd.go:157-165 | The sum of the selected rows |
| Ft8Osd.FlipsReachAll | internal/dsp/ft8_osd.go:184-195 | Every word that agrees outside the weakest positions is reached by a mask below 2 to the order |
| Ft8Osd.CodewordIsSystematic | internal/dsp/ft8_osd.go:155-165 | On the reduced rows every codeword is the combination its own first 91 permuted bits select |
| Ft8Osd.AgreeingIsCandidate | internal/dsp/ft8_osd.go:172-200 | Every codeword that agrees with the hard decisions on the reliable part is one of the candidates |
| Ft8Osd.SweepFindsClosest | internal/dsp/ft8_osd.go:172-200 | The lightest candidate is a closest codeword of the whole search set |
| PackedRow.RowWeight | internal/dsp/ft8_osd.go:42-54 | The popcount of the three XORed words is the Hamming distance of the bit vectors |
| PackedRow.PopCount | internal/dsp/ft8_osd.go:47-54 | Clearing the lowest set bit until none is left counts the ones |
| PackedRow.XorRowBits | internal/dsp/ft8_osd.go:38-40 | Word-wise XOR is the sum of the bit vectors |
| PackedRow.SetBitBits | internal/dsp/ft8_osd.go:34-36 | Setting a bit sets that position and no other |
| PackedRow.FlipBits | internal/dsp/ft8_osd.go:220-222 | Flipping a bit flips that position and no other |
| Ft8Code.LdpcCheck | internal/dsp/ft8_ldpc.go:15-27 | The number of violated checks; zero exactly if all are satisfied |
| Ft8Code.CodewordSatisfies | internal/dsp/ft8_ldpc.go:13-27 | With H times G transposed zero, every codeword satisfies every check |
| Ft8Code.PackBits | internal/dsp/ft8_ldpc.go:125-141 | Bit p of the bytes is entry p, and zero past the count |
| Ft8Code.Encode174 | internal/dsp/ft8_ldpc.go:175-200 | Bit by bit: the message copied, parity i ored in at 91 + i |
| Bytes.FoldIsParity | internal/dsp/ft8_ldpc.go:166-171 | Three folds of a byte leave the parity of its bits |
| Ft8Code.PackedEncoderAgrees | internal/dsp/ft8_ldpc.go:175-200 | On a clear tail the packed encoder is the systematic code's encoder |
| Ft8Code.EncodeIsComb | internal/dsp/ft8_ldpc.go:175-200 | Encoding is the combination of unit codewords that the message selects |
| Ft8Code.CodewordXor | internal/dsp/ft8_ldpc.go:173-200 | The code is closed under addition |
| Ft8Crc.ComputeCrc14 | internal/dsp/ft8_ldpc.go:106-122 | The byte-loaded register after any number of bits is the remainder of that prefix together with the bits loaded ahead of it |
| Ft8Crc.PolyValue14 | internal/dsp/ft8_ldpc.go:104-116 | The polynomial is the low 14 bits of 0x2757 |
| Ft8Crc.VerifyCrc | internal/dsp/ft8_ldpc.go:146-154 | True exactly if bits 77 to 90 are the 14-bit remainder of the payload extended to 82 bits |
| Ft8Crc.CrcWords | internal/dsp/ft8_ldpc.go:146-162 | The extracted and recomputed checksums as the diagnostics report them |
| Ft8Crc.AddCrc | internal/dsp/ft8_ldpc.go:203-213 | The first 91 bits become payload and checksum, the tail clear, bytes past 12 untouched |
| Ft8Crc.CrcMatchesIffFramed | internal/dsp/ft8_ldpc.go:146-154 | The check holds exactly if the packed bits are what AddCrc makes of the payload |
| Ft8Crc.BurstFailsCheck | internal/dsp/ft8_ldpc.go:104-122 | No nonzero error within 14 consecutive bits of the payload, or of the checksum, or within 11 consecutive bits across the two, passes the check |
| Ft8Crc.TwelveBitsPass | internal/dsp/ft8_ldpc.go:104-154 | Twelve bits across the two can: one such error passes on top of every framed message |
| Ft8Crc.ErrorPassesIff | internal/dsp/ft8_ldpc.go:104-154 | On top of a framed message an error goes unnoticed if and only if it would pass the check by itself |
| Ft8Crc.CrcMatchesIffAppended | internal/dsp/ft8_ldpc.go:146-213 | The check accepts exactly the packed messages that appending the checksum writes |
| Ft8Decode.BPDecode | internal/dsp/ft8_ldpc.go:32-83 | The loop around the soft arithmetic: the fewest violated checks over the iterations looked at, zero exactly if one converges, whose bits are returned; an all-zero iteration ends the search |
| Ft8Decode.DecodeCodeword | internal/dsp/ft8_msg.go:292-329 | Every outcome is explained: which route the bits came by, what the parity checks and the checksum said of them, and for a checksum failure that the fallback gave nothing better |
| Ft8Decode.MessageIsSound | internal/dsp/ft8_msg.go:292-329 | On either route a message is the non-empty text of the 77-bit payload of 174 bits that satisfy all checks and whose checksum matches; with orthogonal tables the fallback always gives bits |
| Ft8Decode.CleanSignalIsRead | internal/dsp/ft8_msg.go:292-329 | A framed codeword whose bits the LLRs all have right becomes its message by the fallback even when belief propagation never converges |
| Ft8Decode.EncoderReproduces | internal/dsp/ft8_ldpc.go:175-200 | The decoder's codeword is the encoder's output for its own first 91 bits |
| Fft.FFT | internal/dsp/fft.go:13-44 | In place, for every power-of-two length: the result is the discrete Fourier sum, for any w whose power n/2 is minus one |
| Fft.ButterfliesAreDft | internal/dsp/fft.go:30-43 | All passes over bit-reversed input give the value of the input polynomial at the powers of w |
| Fft.BitReverse | internal/dsp/fft.go:18-29 | The swaps permute both arrays into bit-reversed order |
| Fft.NextIndex | internal/dsp/fft.go:19-24 | The carry loop steps from one reversed index to the next |
| Fft.NextIsRev | internal/dsp/fft.go:20-24 | Adding one from the top bit down is reversing the successor |
| Fft.RevRev | internal/dsp/fft.go:25-28 | Bit reversal is its own inverse, so each pair is swapped once |
| Fft.ButterflyBlock | internal/dsp/fft.go:33-41 | One block's butterflies, the two halves of the array updated together |
| Fft.Pass | internal/dsp/fft.go:30-43 | One length doubles the blocks that are transformed |
| Fft2560.Plan.Transform | internal/dsp/ft8_wf.go:35-87 | Five strands, cached twiddles and the five-point combination give the 2560-point Fourier sum in place, and leave anything past 2560 alone |
| Fft2560.Plan.SubTransform | internal/dsp/ft8_wf.go:39-57 | A strand's 512-point transform, by the radix-2 routine |
| Fft2560.Plan.CombineOutput | internal/dsp/ft8_wf.go:76-81 | One output's sum of strand values, twiddles and fifth roots |
| Fft2560.CombinedIsDft | internal/dsp/ft8_wf.go:58-83 | The combination at k1 + 512 k2 is that output of the whole transform |
| Fft2560.TwiddleIsPower | internal/dsp/ft8_wf.go:58-79 | The two cached factors multiply to the power the sum needs, the second index reduced modulo five |
| Waterfall.Waterfall.ProcessBlock | internal/dsp/ft8_wf.go:148-181 | The frame stays the last 2560 samples of the stream, and the ring stays the spectra of its last 93 symbols, each in the row of its number modulo 93 |
| Waterfall.Waterfall.Feed | internal/dsp/ft8_wf.go:125-130 | Consumes the whole symbols and no more |
| Waterfall.Waterfall.Reset | internal/dsp/ft8_wf.go:115-120 | Starts over as if nothing had been heard |
| Waterfall.Waterfall.BlockBase | internal/dsp/ft8_wf.go:136-142 | The base of logical block b is where the b-th oldest stored block lies, before and after the ring has filled |
| Waterfall.Waterfall.SyncScore | internal/dsp/ft8_wf.go:193-227 | Read through the ring, the score is the mean neighbour difference over the logical blocks; every index is in range |
| Waterfall.RingAdvances | internal/dsp/ft8_wf.go:177-180 | Writing the head's row over replaces just the oldest block of a full ring |
| Waterfall.StoredLevel | internal/dsp/ft8_wf.go:148-181 | A stored level in one formula: both halves of a symbol are the spectrum of the 2560 samples up to where that half ends |
| Waterfall.HeldCount | internal/dsp/ft8_wf.go:176-181 | Ninety-three symbols are held, or all there were |
| Ft8Sync.SyncedScores | internal/dsp/ft8_wf.go:193-227 | A cell whose blocks carry the pattern 3 1 4 0 6 5 2 from symbols 0, 36 and 72 on, hi on those tones and lo on its others, takes part in 75 comparisons and scores exactly hi - lo |
| Ft8Sync.ScoreAtMost | internal/dsp/ft8_wf.go:193-227 | No cell scores more when every level lies between lo and hi |
| Ft8Sync.SyncIsFound | internal/dsp/ft8_wf.go:193-274 | So the search, asked for such a score, returns a cell of it in front, and the synced one itself unless others that score as much fill the list |
| Waterfall.Waterfall.FindCandidates | internal/dsp/ft8_wf.go:193-274 | Over the whole search grid of the stored blocks, scored through the ring: no cell twice, only cells that reach the minimum, in falling order, and no cell left out beats one kept unless there was room |
| Candidates.ExactCount | internal/dsp/ft8_wf.go:231-274 | The result has as many entries as were asked for or as qualify, whichever is less |
| Candidates.Offer | internal/dsp/ft8_wf.go:244-260 | One cell into the running best; the threshold never moves off the minimum |
| Candidates.OfferKeepsBest | internal/dsp/ft8_wf.go:244-260 | What appending, replacing the weakest or skipping leaves is the best of the cells seen |
| Candidates.Sort | internal/dsp/ft8_wf.go:265-273 | Insertion sort: falling scores, the same candidates |
| Candidates.MinScoreOf | internal/dsp/ft8_wf.go:276-284 | The least score present |
| SpectrumTap.Tap.Push | internal/dsp/fft.go:86-104 | Any block, longer or shorter than the ring or empty, extends the history the ring stands for; the generation counts the non-empty ones |
| SpectrumTap.Tap.SnapshotN | internal/dsp/fft.go:111-142 | The newest samples in order, as many as fit the ring and the destination, zeros before the first ever pushed; behind them, in a destination longer than the ring, the oldest of them again as far as the cells between head and ring's end reach; the rest untouched |
| SpectrumTap.OverlongSnapshot | internal/dsp/fft.go:111-142 | The witness: a ring of four after six samples, read into room for six, shows the last four and then the older two of them once more |
| SpectrumTap.HoldsShort | internal/dsp/fft.go:97-101 | A wrapping write from the head keeps the newest samples behind the head |
| Crc16.ComputeCrc16 | internal/aprs/ax25.go:27-40 | The reflected byte-wise loop is the bit-serial remainder of the octets as they go on the air |
| Crc16.DivideIsNat | internal/aprs/ax25.go:31-37 | The register as bits is the 16-bit word that shifts right and takes 0x8408 |
| Crc16.ResidueValue | internal/aprs/ax25.go:42-44 | A complemented checksum always leaves 0xF0B8 |
| Crc16.OwnFcsPasses | internal/aprs/ax25.go:133-150 | A body with its own check octets passes |
| Crc16.ValidIffFcs | internal/aprs/ax25.go:143-150 | The residue rule accepts exactly the sequences whose last two octets are the check octets of the rest |
| Crc16.BurstRejected | internal/aprs/ax25.go:143-150 | No nonzero error within 16 consecutive bits on the air is accepted |
| Hdlc.Assemble | internal/aprs/afsk.go:32-62 | Flags unstuffed, body and check octets stuffed after five ones, a closing flag |
| Hdlc.FlagIs7E | internal/aprs/afsk.go:36-60 | The flag is the octet 0x7E, low bit first |
| Hdlc.Deframer.StepBit | internal/aprs/afsk.go:210-258 | One bit takes the receiver from its state to the specification's next one |
| Hdlc.Deframer.Close | internal/aprs/afsk.go:262-273 | A complete frame is queued without its check octets, the oldest dropped past the queue's bound; the collector starts over |
| Hdlc.Deframer.TakeFrames | internal/aprs/afsk.go:276-282 | Hands the queue over and empties it |
| HdlcLink.FlagOpens | internal/aprs/afsk.go:217-221 | From any valid state one flag starts a clean frame |
| HdlcLink.FollowStuffing | internal/aprs/afsk.go:222-257 | Through stuffed data the receiver holds exactly the bits before stuffing, without closing or aborting |
| HdlcLink.BytesDelivered | internal/aprs/afsk.go:210-273 | Flag, stuffed octets, flag from any state: those octets and no others reach the frame check |
| HdlcLink.BodyQueued | internal/aprs/afsk.go:210-273 | From any state a transmission's body is queued, behind the frames that were there after its flags, if and only if it has 15 to 328 octets; nothing else is, and of more than 17 the newest stay |
| HdlcLink.BodiesQueued | internal/aprs/afsk.go:210-273 | Transmissions one after the other queue all their admissible bodies in order, the newest 17 |
| HdlcLink.AllReceivedOverTones | internal/aprs/afsk.go:29-77 | The same over the tones, whatever the receiver's state, last tone and first bit, with two flags or more in front of the first |
| HdlcLink.AbortSilences | internal/aprs/afsk.go:230-240 | After seven ones or more nothing up to the next flag is taken for a frame |
| HdlcLink.ToneChanges | internal/aprs/afsk.go:70-77 | The tone changes exactly at the zeros |
| HdlcLink.QuietInside | internal/aprs/afsk.go:210-257 | Nothing is emitted inside the data, and there is no abort unless the frame is too long |
| HdlcLink.TonesRoundTrip | internal/aprs/afsk.go:70-77 | Decoding tone changes undoes the tone coding |
| HdlcLink.FirstBitOnly | internal/aprs/afsk.go:197-205 | Not knowing the tone before the first bit spoils that bit alone |
| HdlcLink.ReceivedOverTones | internal/aprs/afsk.go:29-77 | Over the tones, whatever the receiver's state, last tone and first bit, a body of 15 to 328 octets after two flags or more ends up last in the queue |
| Ax25.DecodeFrame | internal/aprs/ax25.go:48-94 | The counting loop and the field closure compute the address-by-address decoding, with each way to fail |
| Ax25.EncodeUI | internal/aprs/ax25.go:121-131 | The appending loop computes the concatenated encoding |
| Ax25.FieldRoundTrip | internal/aprs/ax25.go:66-117 | A station's seven octets give back its name and SSID, and the extension bit is set just on the last |
| Ax25.WireOctets | internal/aprs/ax25.go:98-131 | Every address octet on the wire: destination, source and digipeaters in this order, characters shifted, blanks after them, SSID and end mark |
| Ax25.RoundTripOneToSix | internal/aprs/ax25.go:48-131 | With one to six digipeaters a UI frame comes back field for field |
| Ax25.NoDigipeaters | internal/aprs/ax25.go:121-124 | Without one the frame never comes back: the destination carries the extension bit too |
| Ax25.TooManyDigipeaters | internal/aprs/ax25.go:55-64 | With more than six the decoder finds no frame |
| Ax25.RoundTripIff | internal/aprs/ax25.go:48-131 | The round trip holds if and only if there are one to six digipeaters |
| AprsLink.BeaconReceived | internal/aprs/afsk.go:29-77 | A beacon from text to tones and back: the last frame queued decodes to the fields sent |
| AprsLink.BeaconsReceived | internal/aprs/afsk.go:29-77 | Of any number of beacons sent one after the other the last 17 are there in order and each decodes to the fields sent |
| Ais.FrameDecoder.Receive | internal/ais/gmsk.go:97-163 | One level takes the decoder from its state to the specification's next one |
| Ais.FrameDecoder.Process | internal/ais/gmsk.go:212-252 | What a frame's bits emit, each way out included |
| AisLink.SurvivesIff | internal/ais/gmsk.go:157-194 | The early abort and the length bound leave a frame of 62 bits or more alone if and only if it has fewer than 1087 bits, a type from 1 to 28, a station number of nine digits, and fewer bits than its type is cut off at |
| Ais.FrameDecoder.ReadField | internal/ais/gmsk.go:197-203 | A field read high bit first, cut off at the end of the bits |
| Ais.FrameDecoder.ComputeRegister | internal/ais/gmsk.go:216-223 | The bit-serial register is the specification's remainder |
| Ais.FrameDecoder.PackPayload | internal/ais/gmsk.go:239-244 | Octets packed low bit first are the octets sent |
| AisLink.TrainingFromReset | internal/ais/gmsk.go:106-120 | Seven alternating bits of either phase train the decoder, whatever came before |
| AisLink.TrainingNeedsFive | internal/ais/gmsk.go:106-120 | Five alternations train the decoder, four do not |
| AisLink.FlagStarts | internal/ais/gmsk.go:109-131 | After training one flag starts the data |
| AisLink.CollectStuffed | internal/ais/gmsk.go:139-160 | Stuffed bits collect to the bits before stuffing; once the decoder has given up on them nothing is emitted before the closing flag |
| AisLink.ProcessedPayload | internal/ais/gmsk.go:212-252 | A payload with its check octets is emitted exactly if it has 21 octets or more |
| AisLink.BurstDecoded | internal/ais/gmsk.go:97-252 | Training, flag, stuffed payload and check octets, flag, over NRZI levels from either level: of any payload at all exactly this comes out, the payload once if it has 21 octets or more and the abort stays quiet, and nothing otherwise |
| AisLink.EmittedIff | internal/ais/gmsk.go:157-252 | Exactly when: a payload of 21 to 133 octets whose first bits, in the order they go on the air, admit its length |
| AisLink.SecondOctetRefused | internal/ais/gmsk.go:166-203 | A payload whose second octet is 0x6F never comes out, whatever its type, since read in on-air order its station number is too high |
| Crc24.BuildTable | internal/adsb/modes.go:23-35 | Entry i is what eight divisions make of byte i |
| Crc24.ComputeCrc24 | internal/adsb/modes.go:39-46 | The table-driven checksum is the bit-by-bit remainder of the message |
| Crc24.PolyValue | internal/adsb/modes.go:20-33 | The polynomial is 0xFFF409 |
| Crc24.TableStep | internal/adsb/modes.go:42-43 | One look-up feeds eight bits |
| Crc24.AppendCrc24 | internal/adsb/modes.go:78-85 | The data followed by the three bytes of its remainder |
| Crc24.AppendedIsZero | internal/adsb/modes.go:78-85 | A message with its checksum appended divides to zero |
| Crc24.ZeroIffAppended | internal/adsb/modes.go:295-298 | A message divides to zero exactly if it ends in the checksum of the rest |
| Crc24.BurstCaught | internal/adsb/modes.go:295-298 | No nonzero error within 24 consecutive bits passes |
| ModeS.TablesAreFifths | internal/adsb/modes.go:152-158 | Each table entry is the phase and the sample that 12/5 samples a bit give |
| ModeS.CorrelateFits | internal/adsb/modes.go:330-344 | On 16-bit magnitudes no correlator leaves 32 bits |
| ModeS.SliceByte | internal/adsb/modes.go:308-325 | A byte of eight correlator signs, and the pointer and phase 19.2 samples on |
| ModeSLink.CorrelatorDecides | internal/adsb/modes.go:330-344 | On the waveform of a clean bit among any neighbours, in all five phases and up to two fifths of a sample early or late, the correlator is positive exactly for a one |
| ModeSLink.BitIsRead | internal/adsb/modes.go:268-344 | At any amplitude every bit of a clean transmission is read as sent, at try-phases up to two fifths off its place |
| ModeSLink.MessageIsRead | internal/adsb/modes.go:268-304 | So such a try-phase gives the message sent |
| ModeSLink.PreambleIsSeen | internal/adsb/modes.go:211-235 | The samples of a clean preamble that starts in fifths 3 to 9 of a window pass the shape check and call for every try-phase up to two fifths off |
| ModeSLink.CleanIsHeard | internal/adsb/modes.go:204-264 | A quiet stream with one clean transmission hands on exactly one message: the one sent when it starts on a sample, and otherwise too unless a try-phase three fifths or more too early passes all checks by chance |
| ModeS.EightBitsAreScheduled | internal/adsb/modes.go:268-325 | The running pointer and phase of every byte land on the closed form: bit n of try-phase T uses correlator (T + 12 n) mod 5 at sample 19 + (T + 12 n) / 5 |
| ModeS.MessageBits | internal/adsb/modes.go:268-294 | The packed bytes carry the scheduled bits in order, for every byte count |
| ModeS.Attempt | internal/adsb/modes.go:268-304 | A candidate's message has a legal downlink format, that format's length and a checksum that divides to zero |
| ModeS.GoodIff | internal/adsb/modes.go:277-304 | A good message has 7 octets and format 0, 4, 5 or 11, or 14 octets and format 16, 17, 18, 20 or 21, and divides to zero |
| ModeS.ExamineLocal | internal/adsb/modes.go:211-252 | What becomes of a scan position depends on fewer than 320 samples from it |
| ModeS.ScanResumes | internal/adsb/modes.go:204-264 | Stopping at the end of what has arrived and going on later is scanning in one go |
| ModeS.ScanStaysInside | internal/adsb/modes.go:210-251 | Skipping a whole message never leaves the buffer |
| ModeS.LogIsGood | internal/adsb/modes.go:266-304 | Every message handed on is legal and checks, one for each count |
| ModeSDemod.Demod.Push | internal/adsb/modes.go:181-198 | One source sample extends the grid by just the samples it determines; the ring has every sample that is read |
| ModeSDemod.Demod.FeedIQ | internal/adsb/modes.go:173-200 | The buffer, positions, counters and messages stay those of one scan of the whole stream |
| ModeSDemod.Demod.Scan24 | internal/adsb/modes.go:204-264 | Resumes the whole-stream scan; dropping the scanned part keeps absolute positions |
| ModeSDemod.Demod.DecodePhase | internal/adsb/modes.go:268-304 | A candidate succeeds exactly if the specification's attempt does, and counts and hands on accordingly |
| ModeSDemod.ResampledUnique | internal/adsb/modes.go:160-164 | A stream determines its grid samples |
| ModeSDemod.NativeRate | internal/adsb/modes.go:162-172 | At 2.4 million samples a second the grid is the source without its newest sample |
| ModeSDemod.SameStreamSameOutcome | internal/adsb/modes.go:173-264 | Position, counters and messages depend on the stream alone |
| ModeSDemod.NativeOutcome | internal/adsb/modes.go:173-264 | At 2.4 million samples a second they are the scan of the magnitudes themselves, and every message is good |
| ModeSLink.CleanIsDelivered | internal/adsb/modes.go:173-264 | The receiver fed the magnitudes of a clean transmission at 2.4 million samples a second delivers it, once |
| ModeSDemod.LineIsFollowed | internal/adsb/modes.go:188-197 | On a straight line of magnitudes every grid sample is within one of the line |
| ModeSDemod.FeedBothWays | internal/adsb/modes.go:173-264 | However one stream is cut into blocks of whole pairs, everything reported comes out the same |
| Cpr.FieldOfCell | internal/adsb/adsb_test.go:15-36 | The standard's 17-bit field is the low 17 bits of the position's cell, for any zone width |
| Cpr.IndexOfZones | internal/adsb/decode.go:223 | For latitudes up to 0.05 degrees apart the index is 60 odd zones less 59 even ones |
| Cpr.ZonesRecovered | internal/adsb/decode.go:224-228 | Within range the signed remainders are the true zones |
| Cpr.LatitudeSound | internal/adsb/decode.go:220-235 | For latitudes up to 0.05 degrees apart, whatever passes the range check is within half a 17-bit cell of the true latitude on either grid |
| Cpr.RangeCheckIff | internal/adsb/decode.go:223-228 | The check passes if and only if both latitudes have the same zone number, or lie astride the equator with the even one north |
| Cpr.TurnedAway | internal/adsb/decode.go:223-228 | A single position at 36.3 degrees is turned away |
| CprLon.ComputeNl | internal/adsb/decode.go:49-57 | The loop finds the first boundary above the latitude; the count stays between -1 and 59 |
| CprLon.CountIff | internal/adsb/decode.go:16-57 | Exactly where the count is at least two, below 87.2307885 degrees, and where it runs out, the table being two entries too long: 0 from 88.1244215 and -1 from 89.0135132 up to 89.8982529 degrees |
| CprLon.NlAtLeast | internal/adsb/decode.go:16-57 | For every n from 2 to 59 the latitudes with n zones or more are just those below the table's boundary for n, so the count falls step by step towards the poles |
| CprLon.CountsRunOut | internal/adsb/decode.go:16-57 | Witnesses: the count is 0 at 89 degrees and -1 at 89.5 |
| CprLon.IndexOfLonZones | internal/adsb/decode.go:241 | For every count the longitude index recovers the zones of both parities if and only if the two cells, weighed by the other's count, differ by less than half a zone |
| CprLon.ZonesTold | internal/adsb/decode.go:241 | For an aircraft that moves between its frames: with n zones the index is right whenever the longitudes differ, whole turns aside, by less than half of 360 / (n (n - 1)) degrees, and wrong whenever by more, but for the rounding of the two cells |
| CprLon.OneZone | internal/adsb/decode.go:237-242 | For every count below two, the runaway ones too, the newer frame's field alone gives its longitude to half a cell |
| CprLon.LongitudeSound | internal/adsb/decode.go:236-242 | Two frames from longitudes that near each other, across the antimeridian too, give the newer one to half a cell of its grid, whole turns aside, for every shared count |
| CprLon.TwentiethIsNear | internal/adsb/decode.go:216-242 | A twentieth of a degree is near enough for every count |
| CprLon.WrapLon | internal/adsb/decode.go:243-248 | Both loops end, in half a turn either way, whole turns off the start |
| Planes.GlobalFix | internal/adsb/decode.go:220-248 | A fix exactly if the pair is in range with one zone count, and which |
| Planes.PositionSound | internal/adsb/decode.go:209-248 | A fix from the frames of two positions, up to 0.05 degrees of latitude apart and near enough in longitude for their count, is the newer position, to half a cell of its frame in latitude and in longitude |
| Planes.MovedLittle | internal/adsb/decode.go:209-248 | So an aircraft that moved a twentieth of a degree each way at most is where its newer frame says, at every latitude |
| Planes.ReportRoundTrip | internal/adsb/decode.go:184-197 | Altitude, parity and both fields come out of the seven bytes they were packed into |
| Planes.FieldsOfNumber | internal/adsb/decode.go:184-197 | Read as one 56-bit number, the message has its longitude in the low 17 bits, then latitude, parity and altitude |
| Planes.AltitudeRoundTrip | internal/adsb/decode.go:186-190 | Every multiple of 25 feet from -1000 up can be said |
| Planes.Plane.GlobalDecode | internal/adsb/decode.go:209-284 | Which pairs wait, fail, are dropped as too fast or are accepted, and the whole new state in each case: an accepted fix keeps just the dots younger than five minutes and adds its own when there was none or the last is five seconds old |
| Planes.Plane.DecodeAirbornePos | internal/adsb/decode.go:184-204 | A report sets its altitude and its parity's slot, any fix is one of the pair then held, and the trail grows only with a fix |
| Planes.TrailKept | internal/adsb/decode.go:265-283 | The trail keeps five seconds between dots, none older than five minutes, so at most 60: the cut to 70 never takes anything |
| Planes.DotsKeptAndLaid | internal/adsb/decode.go:265-283 | Cutting the stale front off a spaced trail leaves exactly its young dots, and a due dot is laid behind them |
| Rtty.NextKeepsValid | internal/dsp/rtty.go:172-277 | Every quarter keeps the framer's state legal: the frames held back are those of the run so far, fewer than four, and none passed on is taken back |
| Rtty.Decoder.Quarter | internal/dsp/rtty.go:157-179 | One decision takes the framer to the specification's next state, and just the newly passed codes are typed |
| Rtty.Decoder.StopBit | internal/dsp/rtty.go:243-276 | The stop vote and both gates |
| Rtty.Decoder.Release | internal/dsp/rtty.go:264-271 | The held frames are typed in order and let go |
| Rtty.Decoder.Decode | internal/dsp/rtty.go:281-313 | One code through shift, unshift on space, line end and print |
| Rtty.Decoder.TakeLines | internal/dsp/rtty.go:316-322 | Hands the finished lines over and empties them, touching neither the line being typed nor the framer |
| Rtty.LettersAreIta2 | internal/dsp/rtty.go:20-60 | A to M by their ITA2 codes |
| Rtty.MoreLettersAreIta2 | internal/dsp/rtty.go:20-60 | N to Z by their ITA2 codes |
| Rtty.DigitsAreIta2 | internal/dsp/rtty.go:20-60 | The digits by their ITA2 codes in the figures shift |
| RttyLink.NearlyCleanReads | internal/dsp/rtty.go:183-223 | One flipped look in each vote window, and anything in the quarters nobody looks at, leave a character readable |
| RttyLink.CharacterCounted | internal/dsp/rtty.go:192-277 | From idle a readable character goes through the gate with its own code, 28 quarters after its edge |
| RttyLink.BurstCounted | internal/dsp/rtty.go:243-276 | From a cold start a burst is held back below four codes and passed on exactly from four on |
| RttyLink.IdleSettles | internal/dsp/rtty.go:192-277 | From any state 33 quarters of mark leave the framer idle, with the next frame out of step |
| RttyLink.BurstReceived | internal/dsp/rtty.go:192-277 | After such idle any back-to-back run of at least four codes is passed on as exactly that sequence, with up to one flip in each vote window |
| RttyLink.TextRoundTrip | internal/dsp/rtty.go:279-313 | The codes of any text that has keys type that text |
| RttyLink.LineRoundTrip | internal/dsp/rtty.go:279-313 | A keyed text and a line end become the last finished line, behind the lines there were, the newest 200 in all |
| RttyLink.ToneGateIsOpen | internal/dsp/rtty.go:243-250 | Whatever is received from the start on, a mark stop vote always finds both tones heard in the last 300 quarters |
| Fir.Filter | internal/dsp/fir.go:60-97 | A block's outputs are the convolution sums of the whole stream, and what is left behind is its last samples |
| Fir.Shift | internal/dsp/fir.go:88-96 | Whether the block is longer or shorter than the filter, the history ends as the last samples of the zero-prefixed stream |
| Fir.BlockContinues | internal/dsp/fir.go:68-86 | After whole groups a block's outputs continue the decimated stream |
| Fir.ImpulseResponse | internal/dsp/fir.go:68-86 | A unit impulse shows the taps in order and then nothing |
| Fir.Stage.Process | internal/dsp/fir.go:60-97 | The filter with its history, fed one block |
| Fir.ProcessAll | internal/dsp/fir.go:60-136 | However a stream is cut into whole groups, the outputs together are the decimated convolution of the stream |
| Fir.PartsApart | internal/dsp/fir.go:99-136 | The complex filter with real taps is the real filter on both parts |
| Fir.RealAxisTaps | internal/dsp/fir.go:160-187 | The filter with complex taps on the real axis is the one with real taps |
| Rates.Plan.SetIQRate | internal/dsp/dsp.go:40-79 | Which capture rates are accepted; for those the intermediate rate divides the capture rate, is a multiple of 8 kHz and at least 32 kHz, and no such divisor is nearer the preferred one |
| Rates.EighthOrQuarter | internal/dsp/dsp.go:49-74 | The intermediate rate is an eighth of the capture rate, a quarter up to 640000, whenever that is usable |
| Rates.NearestFound | internal/dsp/dsp.go:55-74 | The search always finds a rate, so its fallback is never used |
| Rates.PickChDecim | internal/dsp/dsp.go:331-346 | Of the factors that leave an exact multiple of the output rate, the closest to the preferred (within a miss of 2^30); 1 if there is none |
| Rates.ChannelPlan | internal/dsp/dsp.go:416-430 | The voice modes' factors: the exact channel factor closest to the mode's own, which is first lowered until it leaves the audio rate, and an audio factor of at least one |
| Rates.ClosestOutright | internal/dsp/dsp.go:331-346 | Below 2^30 no exact factor at all is closer than the one picked, and of two as close it is the larger |
| Rates.PlanIsExact | internal/dsp/dsp.go:409-448 | The three decimations multiply out to the capture rate over 8 kHz exactly |
| Resampler.Engine.Push | internal/deepcw/deepcw.go:157-161 | Queued samples extend the stream and change nothing written |
| Resampler.Engine.Flush | internal/deepcw/deepcw.go:163-203 | All that has been written is a prefix of the ideal sequence at positions 2.5 k; a flush on four samples or more brings it to (N - 1) / 2.5 rounded down and keeps at most three |
| Resampler.Engine.Interpolate | internal/deepcw/deepcw.go:175-189 | Every read is in range, and each output is the rounded and clipped line through its neighbours |
| Resampler.StraightLine | internal/deepcw/deepcw.go:175-189 | On a straight line output k is the line's value at 2.5 k, rounded and clipped |
| Resampler.RoundIsNearest | internal/deepcw/deepcw.go:175-189 | Rounding is to the nearest whole number, halves away from zero |
| Resampler.BytesRoundTrip | internal/deepcw/deepcw.go:188 | The two bytes are the output's 16-bit two's complement, low byte first |

## Left out

- Ft8Decode.BPDecode: the sums, tanh and atanh of belief propagation are not modelled; the hard decisions of each iteration are given, and nothing is claimed about when they converge.
- Ft8Decode.DecodeCodeword: the scaling of the LLRs is not modelled (a positive factor, which changes neither signs nor order), and the unpacking of text is a parameter.
- Ft8Osd.Decode: LLRs are real numbers; the order of NaNs is not modelled.
- Fft.FFT: the rounding of the sines and cosines is not modelled, nor is the panic on other lengths.
- Waterfall.Waterfall.ProcessBlock: window, transform, logarithm and quantisation of a frame are one function; only the sliding and the storing are modelled.
- Hdlc.Assemble: the audio itself (phase, fade, tail) and the receiver's timing recovery are not modelled; the link is from bits to tones and tones to bits.
- Ax25.RoundTripIff: stations are upper-case letters and digits, one to six of them, with an SSID up to 15; other text is encoded and decoded by the model but no round trip is claimed. White space is ASCII.
- Ais.FrameDecoder.Receive: signal levels and the debug record of failed frames are not modelled.
- ModeSDemod.Demod.FeedIQ: positions are exact reals, so at rates that are not multiples of 2.4 million the drift of a float64 accumulator is not modelled; counters do not wrap.
- ModeSLink.CleanIsHeard: the transmission stands in silence; nothing is claimed about noise or overlapping transmissions.
- Ft8Sync.SyncedScores: the pattern's levels are exact; nothing is claimed about noise.
- Planes.PositionSound: the encoder uses the decoder's own zone count; that the table is the standard's is not claimed (it is not). Frames farther apart than that are not claimed to give the newer position.
- Planes.Plane.GlobalDecode: the clock is read once a call and does not go back; the store of aircraft, its pruning and its lock are not modelled.
- Rtty.Decoder.Quarter: mixing, filtering and the discriminator, the tone levels and the retuning of tones are not modelled; a quarter's sign is given. The `rttyNoVote` experiment switch is off.
- Rates.PickChDecim: closeness is claimed below a miss of 2^30, the bound the code starts its search with; `Rates.ClosestOutright` drops that for rates below 2^30.
- Resampler.Engine.Flush: the write to the child process is an append to what has been written.
- Fir.Filter: a history left over from a filter of another length is not modelled; the first call starts from zeros.
- Single-sideband rate planning: `IF2Rate / outRate` need not be exact there.
- Text and callsign unpacking of FT8, Beast framing, surface positions, velocities, callsigns and the DF17 dispatch: table and field look-ups beside what is modelled.
- The network server, the radio's setters, files, child processes, the display, menus and country tables: input, output and wiring.
- Squelch, gain control, the FM and AM discriminators, SSTV, weather fax and Morse thresholds: floating-point signal quality with no exact statement.
