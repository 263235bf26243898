# Verified model of the FEC stack, the HTTP/3 frame parser and the block pools

The repository sends QUIC packets protected by a forward-error-correcting code.
This project models the parts that carry the logic and proves what they promise:

- **The code.** A sliding window of k source packets, repair packets whose
  coefficients are the inverses 1/(i xor (k + index)) in GF(2^8), and a decoder
  that collects k rows in a sparse matrix and solves them. The field is built
  from the shift-and-fold step up and its laws are proved, not assumed; the
  Cauchy theorem, elimination and the sparse layout are then put together into
  the statements about whole runs: any k different packets decode, k repair
  packets of a window give back its blocks, exactly which packet mixes give back
  the data, and exactly when a decoder can still succeed.
- **The block inverse.** Recursive inversion by Schur complements: its result is
  a two-sided inverse, and it succeeds exactly on the matrices all of whose
  leading blocks are nonsingular.
- **Frames.** The variable-length integers of section 16 of RFC 9000 and the
  incremental parser for the frame layout of section 7.1 of RFC 9114. A caller
  that keeps calling it gets the frames that were sent, for every way the bytes
  arrive and every way the reads cut them.
- **Pools.** The sharded buffer pool as a machine of interleaved atomic steps,
  and the per-node memory pool with its counters.
- **Packets and control.** Packet framing with its two parsers and the ownership
  of pool blocks, the loss estimator, the mode manager, and the adaptive stack
  that feeds encoders and decoders and fades from one pair to the next.

Bytes are integers from 0 to 255 and exclusive-or is defined on their binary
digits. Objects that the code updates in place are classes; each method is
proved equal to a function of the old state, and the theorems are about those
functions. Panics are preconditions or error values; where a proof needed to
know when a panic can happen, the condition is proved (`Encoding.InvertibleIff`,
`Adaptive.EncodableModes`, `MatrixInverse.InvertsExactly`,
`LongRuns.CrashIff`).

| files | contents |
|---|---|
| Field, GfTables | GF(2^8), the shift-and-add product, the log and exp tables |
| Basics, Options | shared facts about numbers and sets, optional values |
| LinearAlgebra, Cauchy | vectors and kernels; every k rows of the code are independent |
| Elimination, Gauss | row operations, what they preserve, and elimination with pivoting |
| Csr, CsrMatrix | the compressed sparse rows and the class that edits them in place |
| Decoder, DecoderRuns, Recovery, DataRecovery | the decoder, its runs, when it decodes and what it recovers |
| LongRuns | runs over packets of any window size, and when they panic |
| Encoder, Wire | the window, the repair packets, the round trip, and the round trip over the wire |
| MatrixAlgebra, MatrixInverse | block matrices and the recursive inverse |
| Varint, Frames, FrameParser, FrameRuns | varints, the reference parser, the incremental one, and callers that drive it |
| BufferPool, MemoryPool, Packet | the two pools, framing and block ownership |
| Adaptive, Controller, AdaptiveFec | loss estimate, modes and windows, and the adaptive stack with its cross-fade |

## Where the code falls short of what it promises

Each of these is a proved statement about the code as it is.

- k distinct packets always make the decoder report success, but the data come
  back for every source only if the packets are all repair packets or all
  systematic: a systematic row enters the matrix without its payload
  (`DataRecovery.RecoveryExactly`). The repository's own test expects the data
  after such a mix (src/fec/adaptive.rs:660-691).
- Except in Zero and Extreme mode a window has fewer repair packets than sources, so k
  packets of one window that include a repair packet are always such a mix: a
  loss is never repaired for every source (`AdaptiveStack.LossNotRepaired`).
- The encoder emits the same few indices at every position of its sliding
  window. Repair packets of one index from two positions have the same row and
  different data, and a receiver that has kept both never decodes
  (`AdaptiveStack.AdjacentWindowsStop`, `AdaptiveStack.SameIndexStops`).
- A repair packet of a larger window than the decoder's is stored with all its
  coefficients. The decoder panics exactly when it has collected its k rows, at
  least two, and one of them is such a row (`LongRuns.CrashIff`); in a
  cross-fade to a smaller window every repair packet of the old encoder is one
  (`AdaptiveStack.TakeableIff`, `AdaptiveStack.NormalIntoLight`).
- Packets received in place keep old bytes of the frame behind their payload,
  and the decoder eliminates whole blocks: only the first bytes of each source,
  up to the payload length, come back for certain, and the rebuilt length covers
  the rest (`Wire.WireRecovery`, with the exact condition for whole blocks in
  `Wire.BlockTailZeroIff`).
- Packets rebuilt from repair packets have the slot number as id and the whole
  block as length; they are the packets of the window exactly when those were
  numbered by slot and filled their blocks (`Encoding.WindowComesBack`).
- A repair packet kept twice stops the decoder for good
  (`Recovery.CanStillDecodeIff`, smallest case `Recovery.TwiceTheSame`).
- Medium windows above 196 and all Strong windows ask for the inverse of zero
  (`Adaptive.EncodableModes`).
- The encoder numbers sources by window position and the decoder by id modulo k;
  the two agree only for windows that start at a multiple of k
  (`Encoding.SlotsAligned`).
- The documentation of the frame parser promises an interruption when the stream
  ends inside a frame. It is returned exactly when the end comes alone, or with
  bytes that do not end at the first byte or at the end of a varint
  (`FrameParsing.FrameParser.TryParseFrame`); after an end that was missed no
  later call returns it (`FrameRuns.EndInsideFrame`, on the single byte 0x40).
- The controller's error is threshold minus loss, so against its comments a
  higher loss never leads to a stronger mode, for all nonnegative gains
  (`Controllers.HigherLossNeverRaises`); with the default gains a fresh
  controller answers heavy loss by switching repair off
  (`Controllers.DefaultStepsDown`).
- Every loss report puts an empty encoder and a decoder without rows into
  service, even when mode and window stay (`AdaptiveStack.AdaptiveFec.Install`).
- `recursive_inverse` has no pivoting and refuses invertible matrices
  (`MatrixInverse.SwapMatrixRefused`).
- After a free on a node the pool does not know, shrinking may never end
  (`MemoryPools.ShrinkHaltsIff`, reached in `MemoryPools.SpinAfterUnknownNode`).
- A copying parse whose payload is larger than a block abandons its blocks
  (`Packets.FromRaw`).

## Model

| member | source | states |
|---|---|---|
| `Field.XTimeAdd` | src/fec/gf_tables.rs:66-70 | the shift with carry fold is linear over exclusive-or |
| `Field.MulComm` | src/fec/gf_tables.rs:60-74 | the product of the shift-and-add loop is commutative |
| `Field.MulAssoc` | src/fec/gf_tables.rs:60-74 | that product is associative |
| `Field.MulAddLeft` | src/fec/gf_tables.rs:60-74 | it distributes over exclusive-or on the left |
| `Field.MulAddRight` | src/fec/gf_tables.rs:60-74 | it distributes over exclusive-or on the right |
| `Field.MulHorner` | src/fec/gf_tables.rs:60-74 | taking the high bits first gives the same product |
| `Field.NoZeroDivisors` | src/fec/gf_tables.rs:47-57 | a product is zero exactly when a factor is, the case the table lookup singles out |
| `Field.ExpAt255` | src/fec/gf_tables.rs:385-408 | the 255th power of the generator is one, so the table walk closes |
| `Field.Primitive` | src/fec/gf_tables.rs:385-408 | no smaller power of the generator is one under the polynomial 0x11D |
| `Field.ExpInjective` | src/fec/gf_tables.rs:392-408 | the walk writes 255 different bytes |
| `Field.DiscreteLog` | src/fec/gf_tables.rs:392-408 | every nonzero byte is met by the walk, so every log entry is set |
| `Field.MulInv` | src/fec/gf_tables.rs:304-309 | every nonzero byte has an inverse on both sides |
| `Field.InvUnique` | src/fec/gf_tables.rs:304-309 | whatever multiplies to one is the inverse |
| `GfTables.GfMulShift` | src/fec/gf_tables.rs:60-74 | the loop on shifting bits returns the field product |
| `GfTables.CarryReduction` | src/fec/gf_tables.rs:392-408 | reducing the nine-bit value by 0x11D in the table walk is the byte-wide fold of the loop |
| `GfTables.InitGfTables` | src/fec/gf_tables.rs:392-408 | the loop fills both tables with powers and logarithms and leaves the unused cells alone |
| `GfTables.ExpTableValue` | src/fec/gf_tables.rs:47-57 | the doubled exp table absorbs the exponent's wrap-around |
| `GfTables.TableMul` | src/fec/gf_tables.rs:47-57 | lookup multiplication equals the shift-and-add product on all bytes |
| `GfTables.TableInv` | src/fec/gf_tables.rs:304-309 | lookup inversion returns the inverse of every nonzero byte |
| `Cauchy.CauchyNonsingular` | src/fec/decoder.rs:280-298 | a square Cauchy system over distinct parameters has only the zero solution |
| `Cauchy.MixedSystem` | src/fec/decoder.rs:280-298 | a vector that vanishes on m slots and satisfies k - m repair equations is zero |
| `Cauchy.CoefficientIsInverse` | src/fec/decoder.rs:280-298 | each coefficient times (source index xor parameter) is one |
| `Cauchy.AnyKRowsIndependent` | src/fec/decoder.rs:280-298 | any k distinct rows, systematic and repair in any mix and order, have only the trivial kernel |
| `LinearAlgebra.CombineStep` | src/fec/decoder.rs:228-260 | one round of the accumulation adds coefficient times source |
| `Elimination.KernelPreserved` | src/fec/decoder.rs:389-517 | row operations neither create nor destroy kernel vectors |
| `Elimination.SolutionsPreserved` | src/fec/decoder.rs:389-517 | with all payloads present, row operations keep the solution set |
| `Elimination.PayloadsStayInSpan` | src/fec/decoder.rs:457-517 | every payload elimination leaves is a combination of the payloads it started from |
| `Elimination.QuietStep` | src/fec/decoder.rs:457-517 | a row operation neither silences nor excites the payloads and keeps their number |
| `Elimination.SomeSlotSpoiled` | src/fec/decoder.rs:475-478 | when rows without payload take part, nonzero payloads cannot all end in the right slots |
| `Gauss.FindPivot` | src/fec/decoder.rs:728-731 | the first row from the diagonal down with a nonzero entry, or none |
| `Gauss.ElimOutcome` | src/fec/decoder.rs:727-758 | full rank is reached exactly on a trivial kernel and leaves the identity |
| `Gauss.EliminationDecides` | src/fec/decoder.rs:720-758 | elimination succeeds if and only if the kernel is trivial, success leaves the identity, and only row operations were used |
| `Gauss.EliminationSolves` | src/fec/decoder.rs:720-783 | with explained payloads in every row, row i ends with exactly block i |
| `Csr.SparseRoundTrip` | src/fec/decoder.rs:329-338 | the stored entries of a row are ordered and nonzero, give the row back as far as there are columns, and reach beyond exactly if a coefficient does |
| `Csr.WithoutRowEntries` | src/fec/decoder.rs:363-375 | clearing a row empties it and leaves the entries of all others |
| `Csr.WithEntriesEntries` | src/fec/decoder.rs:377-387 | inserting puts the entries in front of one row and leaves all others |
| `Csr.ReplacedDense` | src/fec/decoder.rs:466-473 | clear then insert replaces one dense row and keeps the layout invariant |
| `Csr.ExchangedDense` | src/fec/decoder.rs:389-405 | the four edits of a swap exchange two dense rows |
| `CsrMatrices.CsrMatrix.constructor` | src/fec/decoder.rs:314-322 | a new matrix stands for the system without rows |
| `CsrMatrices.CsrMatrix.GetVal` | src/fec/decoder.rs:340-349 | the lookup is the dense entry |
| `CsrMatrices.CsrMatrix.RowEntries` | src/fec/decoder.rs:355-361 | the stored entries of a row, in order |
| `CsrMatrices.CsrMatrix.AppendRow` | src/fec/decoder.rs:329-338 | the dense system gains the row, cut or padded to the columns, and its payload; a row that is too long is marked as such |
| `CsrMatrices.CsrMatrix.ClearRow` | src/fec/decoder.rs:363-375 | entries drained, later pointers pulled back, payloads untouched |
| `CsrMatrices.CsrMatrix.InsertRow` | src/fec/decoder.rs:377-387 | entries inserted one by one from the last, later pointers pushed on |
| `CsrMatrices.CsrMatrix.SwapRows` | src/fec/decoder.rs:389-405 | the dense system with two rows, payloads and marks exchanged, invariant kept |
| `CsrMatrices.CsrMatrix.ScaleRow` | src/fec/decoder.rs:407-455 | one dense row and its payload multiplied, invariant kept |
| `CsrMatrices.CsrMatrix.ScatterRow` | src/fec/decoder.rs:459-462 | the dense row, out of bounds exactly if an entry lies beyond the columns |
| `CsrMatrices.CsrMatrix.MergedRow` | src/fec/decoder.rs:459-465 | the dense target row plus factor times the source row, out of bounds exactly if one of them is too long |
| `CsrMatrices.CsrMatrix.AddScaledRow` | src/fec/decoder.rs:457-517 | the dense elementary operation, payload included only if both sides have one; out of bounds exactly if a row is too long |
| `CsrMatrices.AddScaledBytes` | src/fec/decoder.rs:491-514 | the loop unrolled by four equals the bytewise sum over the shorter block |
| `CsrMatrices.NonZeroEntries` | src/fec/decoder.rs:467-472 | collects exactly the nonzero entries in column order |
| `Decoding.EliminateFits` | src/fec/decoder.rs:720-783 | payload lengths never grow past a block, so the copy into pool blocks is in bounds |
| `Decoding.Decoder.constructor` | src/fec/decoder.rs:659-675 | a fresh decoder: no rows, k empty slots, not decoded |
| `Decoding.Decoder.FindPivotRow` | src/fec/decoder.rs:728-731 | the search over the sparse matrix finds the dense pivot |
| `Decoding.Decoder.ClearColumn` | src/fec/decoder.rs:739-748 | every other row cleared as on the dense system, or out of bounds exactly when a long row would be added to or from |
| `Decoding.Decoder.Pivot` | src/fec/decoder.rs:733-748 | swap, normalise and clear as on the dense system |
| `Decoding.Decoder.GaussianElimination` | src/fec/decoder.rs:720-783 | the in-place run, early exit included, equals functional elimination and slot filling, or runs out of bounds exactly when that does |
| `Decoding.Decoder.RecoverSlots` | src/fec/decoder.rs:763-780 | fills exactly the empty slots that have a payload |
| `Decoding.Decoder.TryDecodeNow` | src/fec/decoder.rs:704-717 | decodes only with k rows, and only once |
| `Decoding.Decoder.AddPacket` | src/fec/decoder.rs:678-701 | all branches: closed decoder, duplicate slot, identity row, repair row of any length, missing coefficients, and the panic of the elimination |
| `Decoding.Decoder.AddRow` | src/fec/decoder.rs:329-338 | appends a row of any length and decodes once there are k rows |
| `Decoding.Decoder.GetDecodedPackets` | src/fec/decoder.rs:785-791 | hands out every packet held in a slot exactly once, in slot order, and nothing else, and empties the slots |
| `Decoding.PresentInOrder` | src/fec/decoder.rs:785-791 | the output is the slots at a strictly increasing list of places that is all the filled ones |
| `Decoding.PresentAll` | src/fec/decoder.rs:785-791 | with every slot filled, the output is slot by slot |
| `DecoderRuns.ClosedForGood` | src/fec/decoder.rs:678-681 | once decoded, or once k rows are in, later packets change nothing |
| `DecoderRuns.KeptSlotsDistinct` | src/fec/decoder.rs:683-693 | each systematic slot contributes at most one row |
| `DecoderRuns.ReceiveIsBatch` | src/fec/decoder.rs:678-717 | every incremental run ends where one elimination over the kept rows ends |
| `DecoderRuns.DecodedIff` | src/fec/decoder.rs:678-758 | a run decodes exactly when it kept k linearly independent rows |
| `DecoderRuns.ReceivedKeepsSlot` | src/fec/decoder.rs:683-693 | every systematic packet that contributed a row is in its slot, unchanged, in every run, also after decoding |
| `DecoderRuns.MissingSlotHolds` | src/fec/decoder.rs:763-780 | a slot without a received packet is empty until success, and then holds the payload of its row, numbered by the slot and padded, or nothing |
| `DecoderRuns.RebuiltFromRepairs` | src/fec/decoder.rs:720-783 | what is rebuilt is a combination of the repair payloads alone; received source data never enter |
| `Recovery.DuplicateRowsSingular` | src/fec/decoder.rs:695-698 | a repeated row makes the matrix singular |
| `Recovery.IndependentIffDistinct` | src/fec/decoder.rs:280-298 | rows of the code are independent exactly when no two have the same origin |
| `Recovery.DecodesIffDistinct` | src/fec/decoder.rs:678-717 | a run over packets of the code decodes exactly when k rows were kept and no repair row twice |
| `Recovery.RepeatedRowStops` | src/fec/decoder.rs:678-717 | a row kept twice spoils the decoder whatever packets still come |
| `Recovery.SameRowStops` | src/fec/decoder.rs:678-717 | the same for any two kept packets with equal rows, of the code or not |
| `Recovery.SourcesFinish` | src/fec/decoder.rs:683-693 | with no row kept twice, the k source packets finish the decoding |
| `Recovery.CanStillDecodeIff` | src/fec/decoder.rs:678-717 | some packets still to come lead to success if and only if no row was kept twice |
| `Recovery.TwiceTheSame` | src/fec/decoder.rs:695-698 | k = 2 and the same repair packet twice: never decoded, whatever follows |
| `Recovery.AnyKPacketsSuffice` | src/fec/decoder.rs:678-717 | without repeated repair packets, decoded if and only if at least k different packets arrived |
| `DataRecovery.Outcome` | src/fec/decoder.rs:678-783 | k distinct packets: success is reported, and the slots are the received packets plus the eliminated payloads |
| `DataRecovery.RepairsRecover` | src/fec/decoder.rs:678-783 | k distinct repair packets give a source back if and only if each was combined from it, as packets with the slot as id and the block as length |
| `DataRecovery.RepairsSolved` | src/fec/decoder.rs:720-783 | whatever k repair packets carry, the decoder rebuilds the source that explains them |
| `DataRecovery.SameRepairsSameSource` | src/fec/decoder.rs:280-298 | two sources with the same k repair packets are equal |
| `DataRecovery.PrefixRecovers` | src/fec/decoder.rs:720-783 | data that are right on their first bytes only give back the first bytes of every block |
| `DataRecovery.SystematicRecover` | src/fec/decoder.rs:683-693 | k systematic packets give back every source block |
| `DataRecovery.MixedFails` | src/fec/decoder.rs:692-698 | a mix of both kinds reports success on a source it does not give back |
| `DataRecovery.RecoveryExactly` | src/fec/decoder.rs:678-783 | all sources come back if and only if the packets are all repair or all systematic |
| `DataRecovery.TwoSourcesExactly` | src/fec/decoder.rs:720-783 | repair packets of two sources decode, to the first one exactly when each packet of the second fits it |
| `DataRecovery.TwoSourcesNeither` | src/fec/decoder.rs:720-783 | repair packets of two sources, at least one from each, may decode to neither |
| `LongRuns.ClearRunsOutIff` | src/fec/decoder.rs:739-748 | clearing a column is out of bounds exactly if a row with an entry there, or the pivot row then, is too long |
| `LongRuns.RunsOutIff` | src/fec/decoder.rs:727-758 | elimination of unit rows and encoder rows runs out of bounds exactly if there are two rows and one is too long |
| `LongRuns.AliveIsReceive` | src/fec/decoder.rs:678-717 | until it panics, a run is the run over the packets cut to the columns |
| `LongRuns.CrashIsRunOut` | src/fec/decoder.rs:678-758 | for any packets a run panics exactly when k rows were kept and their elimination runs out of bounds |
| `LongRuns.CrashIff` | src/fec/decoder.rs:459-465 | for sources and repair packets of any windows: exactly when k >= 2 rows were kept and one is longer than k |
| `Encoding.WindowIsLastK` | src/fec/decoder.rs:164-169 | the window is always the last k packets |
| `Encoding.SlotsAligned` | src/fec/decoder.rs:684-684 | window positions and id modulo k agree exactly for windows starting at a multiple of k |
| `Encoding.InvertibleIff` | src/fec/decoder.rs:280-298 | a row can be generated exactly when its byte parameter is at least k |
| `Encoding.DistinctParams` | src/fec/decoder.rs:281-281 | two repair indices share a row exactly when they agree modulo 256 |
| `Encoding.Encoder.AddSourcePacket` | src/fec/decoder.rs:164-169 | the oldest packet leaves a full window, the new one is last |
| `Encoding.Encoder.GenerateCauchyCoefficients` | src/fec/decoder.rs:280-298 | the loop produces the Cauchy row of the index |
| `Encoding.Encoder.CombineWindow` | src/fec/decoder.rs:228-260 | the accumulated block is the linear combination of the zero-padded sources |
| `Encoding.Encoder.GenerateRepairPacket` | src/fec/decoder.rs:172-275 | nothing before the window is full, then the repair packet of the index |
| `Encoding.EncodeDecode` | src/fec/decoder.rs:172-783 | any k repair packets of one window decode to its zero-padded blocks, as packets with id i and the length of a block |
| `Encoding.WindowComesBack` | src/fec/decoder.rs:763-780 | the window's own packets come back exactly when their ids are the slots and their lengths the block size; the bytes always do |
| `Wire.ArrivedRepair` | src/fec/encoder.rs:72-121 | a printed repair packet parsed in place: same parts, old frame bytes behind the payload |
| `Wire.WireRecovery` | src/fec/encoder.rs:72-152 | k repair packets over the wire decode to every source's payload at the front of its block; to the whole blocks exactly when the receive blocks were zero from the payload length on |
| `Wire.BlockTailZeroIff` | src/fec/encoder.rs:107-110 | that is: the payload ends in as many zeros as the header has bytes, and nothing lies behind the frame |
| `MatrixAlgebra.ProductAssoc` | src/fec/decoder.rs:978-994 | the matrix product is associative |
| `MatrixInverse.MatMul` | src/fec/decoder.rs:978-994 | the loops with the zero skip compute the matrix product |
| `MatrixInverse.SchurKernel` | src/fec/decoder.rs:1029-1037 | over an invertible leading block, a matrix is nonsingular exactly when its Schur complement is |
| `MatrixInverse.AssembledInverse` | src/fec/decoder.rs:1038-1076 | the four assembled blocks are a two-sided inverse |
| `MatrixInverse.InvertedIsInverse` | src/fec/decoder.rs:997-1077 | whatever the recursion returns is a left and a right inverse |
| `MatrixInverse.InvertsExactly` | src/fec/decoder.rs:997-1077 | it returns a matrix if and only if every leading block has a trivial kernel |
| `MatrixInverse.SwapMatrixRefused` | src/fec/decoder.rs:1002-1005 | an invertible matrix on which it meets a zero pivot |
| `MatrixInverse.CopyBlock` | src/fec/decoder.rs:1007-1026 | the copy loops cut out the block |
| `MatrixInverse.SchurComplement` | src/fec/decoder.rs:1029-1036 | d + c a^-1 b |
| `MatrixInverse.AssembleInverse` | src/fec/decoder.rs:1038-1076 | the products and copy loops assemble the block inverse |
| `MatrixInverse.RecursiveInverse` | src/fec/decoder.rs:997-1077 | terminates on every size and refines the functional recursion |
| `Varints.VarintLen` | libs/vanilla_quiche/octets/src/lib.rs:681-693 | the shortest permitted length that holds the value |
| `Varints.VarintParseLen` | libs/vanilla_quiche/octets/src/lib.rs:696-704 | the length named by the two top bits |
| `Varints.BigEndianDigit` | libs/vanilla_quiche/octets/src/lib.rs:95-119 | byte i of n is the digit of weight 256^(n-1-i) |
| `Varints.VarintRoundTrip` | libs/vanilla_quiche/octets/src/lib.rs:184-206 | for every permitted length that fits, reading back gives value and length, whatever follows |
| `Varints.DecodedIsEncoded` | libs/vanilla_quiche/octets/src/lib.rs:184-206 | only encodings are decoded: the bytes read are the encoding of the value returned, in that length |
| `Varints.SampleVarints` | libs/vanilla_quiche/octets/src/lib.rs:184-206 | the one-, two- and four-byte sample values of appendix A.1 of RFC 9000 |
| `Varints.DecodedPrefix` | libs/vanilla_quiche/octets/src/lib.rs:184-206 | decoding looks at no byte after the varint |
| `Varints.OctetsMut.PutU` | libs/vanilla_quiche/octets/src/lib.rs:95-119 | big-endian write, nothing outside it changes, a short buffer changes nothing |
| `Varints.OctetsMut.GetU` | libs/vanilla_quiche/octets/src/lib.rs:63-93 | big-endian read, advances only on success |
| `Varints.OctetsMut.PutVarintWithLen` | libs/vanilla_quiche/octets/src/lib.rs:447-480 | writes the tagged varint and advances, or changes nothing |
| `Varints.OctetsMut.PutVarint` | libs/vanilla_quiche/octets/src/lib.rs:441-443 | writes the shortest form |
| `Varints.OctetsMut.GetVarint` | libs/vanilla_quiche/octets/src/lib.rs:416-438 | returns the decoded value and advances by its length, or stays |
| `Varints.WriteThenRead` | libs/vanilla_quiche/octets/src/lib.rs:416-480 | at every offset, reading what was written returns it and leaves all other bytes |
| `Frames.ParseAllAppend` | libs/vanilla_quiche/h3i/src/frame_parser.rs:119-203 | the reference parse can be resumed with the unparsed rest |
| `Frames.FramesRoundTrip` | libs/vanilla_quiche/h3i/src/frame_parser.rs:119-203 | parsing the bytes of a list of frames, whatever permitted varint lengths they use, gives back the list |
| `Frames.WholeIsFrame` | libs/vanilla_quiche/h3i/src/frame_parser.rs:119-203 | only frames are parsed: the bytes taken are an encoding of the frame returned |
| `Frames.OversizeIs` | libs/vanilla_quiche/h3i/src/frame_parser.rs:244-260 | a frame is refused for its length exactly when the bytes begin with a type and a length beyond the limit |
| `Frames.TypeStep` | libs/vanilla_quiche/h3i/src/frame_parser.rs:143-152 | a round on the type keeps the state in step with the bytes |
| `Frames.LenStep` | libs/vanilla_quiche/h3i/src/frame_parser.rs:153-165 | a round on the length; too large exactly when the reference parse says so |
| `Frames.ValStep` | libs/vanilla_quiche/h3i/src/frame_parser.rs:166-200 | a round on the payload reports exactly the frame of the bytes |
| `FrameParsing.RoundGood` | libs/vanilla_quiche/h3i/src/frame_parser.rs:119-203 | every round keeps finished bytes, current bytes and frames in step |
| `FrameParsing.BytesConserved` | libs/vanilla_quiche/h3i/src/frame_parser.rs:119-260 | no byte is lost, duplicated or reordered in any run |
| `FrameParsing.GoodIsParse` | libs/vanilla_quiche/h3i/src/frame_parser.rs:119-274 | any reachable account is the parse of all bytes consumed |
| `FrameParsing.RunIsParse` | libs/vanilla_quiche/h3i/src/frame_parser.rs:119-274 | frames emitted do not depend on how the bytes were cut |
| `FrameParsing.FramesComeThrough` | libs/vanilla_quiche/h3i/src/frame_parser.rs:119-274 | every list of frames, in any permitted varint lengths and cut into rounds in any way, is emitted exactly and in order, empty payloads included |
| `FrameParsing.FinUnnoticedIff` | libs/vanilla_quiche/h3i/src/frame_parser.rs:138-140 | bytes that leave a frame unfinished complete the buffer, so that the guard misses the end, exactly when they end at a cut |
| `FrameParsing.StoppedAgain` | libs/vanilla_quiche/h3i/src/frame_parser.rs:244-260 | after a refusal the state still holds the refused frame, so the answer repeats |
| `FrameParsing.FrameParser.ReactAndBook` | libs/vanilla_quiche/h3i/src/frame_parser.rs:142-201 | a reaction keeps the account of bytes and frames and reports a frame exactly when one was emitted |
| `FrameParsing.FrameParser.TryFillBuffer` | libs/vanilla_quiche/h3i/src/frame_parser.rs:209-224 | reads at most the missing bytes into their place; a complete buffer reads nothing |
| `FrameParsing.FrameParser.TryConsumeVarint` | libs/vanilla_quiche/h3i/src/frame_parser.rs:226-238 | sizes the buffer after the first byte and decodes exactly when complete |
| `FrameParsing.FrameParser.StateTransition` | libs/vanilla_quiche/h3i/src/frame_parser.rs:244-260 | moves on, or refuses a length above the limit and changes nothing |
| `FrameParsing.FrameParser.ReactNow` | libs/vanilla_quiche/h3i/src/frame_parser.rs:142-201 | the in-place reaction equals the functional one, outcome by outcome |
| `FrameParsing.FrameParser.TryParseFrame` | libs/vanilla_quiche/h3i/src/frame_parser.rs:119-203 | at most three rounds; all bytes accounted for; a live stream with unread bytes makes progress; the interruption by the end of the stream is returned if and only if it is told alone or not at a cut |
| `FrameParsing.FrameParser.OneRound` | libs/vanilla_quiche/h3i/src/frame_parser.rs:122-201 | the same for one round of the loop, and a closed stream never interrupts |
| `FrameParsing.Stream.Recv` | libs/vanilla_quiche/quiche/src/lib.rs:5257-5315 | delivers part of the unread bytes, tells the end once with the last of them, and refuses with Done or an unknown stream afterwards |
| `FrameRuns.Drain` | libs/vanilla_quiche/h3i/src/frame_parser.rs:119-203 | calling until the stream is empty computes the reference parse of all bytes, refused frames included |
| `FrameRuns.DrainArrivals` | libs/vanilla_quiche/h3i/src/frame_parser.rs:119-203 | the same for bytes that arrive in any pieces, the end of the stream with the last |
| `FrameRuns.DeliverFrames` | libs/vanilla_quiche/h3i/src/frame_parser.rs:119-274 | repeated calls emit exactly the frames that were sent, in order, with nothing left over, however the varints are written and the bytes arrive and are read |
| `FrameRuns.EndInsideFrame` | libs/vanilla_quiche/h3i/src/frame_parser.rs:138-140 | the single byte 0x40 with the end of the stream: no call ever reports the interruption |
| `BufferPool.StepKeepsInv` | libs/vanilla_quiche/buffer-pool/src/lib.rs:87-175 | every atomic step keeps counter, bound and cleanliness in every shard |
| `BufferPool.DecrementKeepsInv` | libs/vanilla_quiche/buffer-pool/src/lib.rs:139-143 | the counter is positive when a get decrements it, and the popped buffer is empty |
| `BufferPool.RollbackKeepsInv` | libs/vanilla_quiche/buffer-pool/src/lib.rs:103-105 | the counter is positive when a drop gives its reservation back |
| `BufferPool.PoolSafety` | libs/vanilla_quiche/buffer-pool/src/lib.rs:87-148 | in every interleaving queued plus reserved stays within the shard's bound and the counter equals the queue when quiet |
| `BufferPool.PoolLimit` | libs/vanilla_quiche/buffer-pool/src/lib.rs:117-123 | the pool as a whole never keeps more than its limit |
| `BufferPool.StepKeepsUnique` | libs/vanilla_quiche/buffer-pool/src/lib.rs:87-175 | no step puts a buffer in two places |
| `BufferPool.BuffersUnique` | libs/vanilla_quiche/buffer-pool/src/lib.rs:87-175 | in every interleaving each buffer is queued once or held once |
| `BufferPool.PopTakesFront` | libs/vanilla_quiche/buffer-pool/src/lib.rs:139-145 | a get takes exactly the front of its shard's queue, and makes a new buffer exactly if the queue is empty |
| `BufferPool.GetReturnsFront` | libs/vanilla_quiche/buffer-pool/src/lib.rs:136-148 | a get ends with the buffer that was at the front when it popped, whatever other threads do before its counter step |
| `BufferPool.GetIsOldest` | libs/vanilla_quiche/buffer-pool/src/lib.rs:136-148 | without interference a get returns the oldest buffer of its shard and lowers the counter by one |
| `BufferPool.DropKeepsBuffer` | libs/vanilla_quiche/buffer-pool/src/lib.rs:87-108 | a drop with capacity left and room queues that buffer, emptied and trimmed, last |
| `BufferPool.DropWithoutRoom` | libs/vanilla_quiche/buffer-pool/src/lib.rs:87-108 | a drop into a full shard leaves queue and counter as they were |
| `BufferPool.ReusedIs` | libs/vanilla_quiche/buffer-pool/src/lib.rs:208-214 | what is kept of a buffer: the same one, emptied, its capacity cut to the trim |
| `BufferPool.DropThenGet` | libs/vanilla_quiche/buffer-pool/src/lib.rs:87-148 | a buffer dropped into an empty shard is what the next get on that shard returns |
| `BufferPool.GetsGoRound` | libs/vanilla_quiche/buffer-pool/src/lib.rs:136-138 | successive gets go round the shards in turn |
| `BufferPool.NewHandles` | libs/vanilla_quiche/buffer-pool/src/lib.rs:153-175 | empty and owned handles leave queues and counters alone |
| `BufferPool.NotReturned` | libs/vanilla_quiche/buffer-pool/src/lib.rs:82-108 | a buffer taken out of its handle, or without capacity left, does not come back |
| `MemoryPools.SharesComplete` | src/optimize.rs:443-444 | the nodes' shares add up to the capacity |
| `MemoryPools.MemoryPool.constructor` | src/optimize.rs:440-466 | zero blocks on every node, counters at the capacity |
| `MemoryPools.MemoryPool.GrowPass` | src/optimize.rs:470-477 | one pass deals one zero block to each node in order, as many as are wanted |
| `MemoryPools.ShareOfRounds` | src/optimize.rs:468-481 | dealing in rounds gives every node the share that the constructor computes |
| `MemoryPools.MemoryPool.Grow` | src/optimize.rs:468-481 | capacity becomes exactly the larger of both, and every node gains its even share of the new blocks |
| `MemoryPools.MemoryPool.Fragmentation` | src/optimize.rs:483-497 | the reported fragmentation is always zero |
| `MemoryPools.MemoryPool.Alloc` | src/optimize.rs:501-519 | a zero block, from the node's queue, or new with the capacity doubled and dealt out evenly |
| `MemoryPools.MemoryPool.Free` | src/optimize.rs:523-535 | the block is zeroed and queued while there is room; the counter moves even on an unknown node |
| `MemoryPools.MemoryPool.ShrinkPass` | src/optimize.rs:546-555 | one pass over the queues drops what the functional pass drops |
| `MemoryPools.PassTakes` | src/optimize.rs:546-555 | a pass takes the oldest block of each stocked node in order, as long as there is something to drop |
| `MemoryPools.MemoryPool.SetCapacity` | src/optimize.rs:538-564 | exactly n when growing, the larger of n and capacity minus queued when shrinking |
| `MemoryPools.ShrinkHaltsIff` | src/optimize.rs:544-559 | the shrink loop ends if and only if the queues hold the excess or the counter is right |
| `MemoryPools.SpinAfterUnknownNode` | src/optimize.rs:523-535 | a pool of one block on which, after a free on an unknown node, shrinking to zero never ends |
| `Packets.FramingRoundTrip` | src/fec/encoder.rs:18-152 | parsing a printed packet gives its parts back if and only if the packet is well formed |
| `Packets.RawLayout` | src/fec/encoder.rs:124-152 | the frame byte by byte: kind, big-endian coefficient count, coefficients, payload |
| `Packets.ParseRefusals` | src/fec/encoder.rs:18-68 | exactly which frames are refused, and with which error |
| `Packets.ToRaw` | src/fec/encoder.rs:124-152 | prints the frame and leaves the rest of the buffer, or changes nothing |
| `Packets.FromRaw` | src/fec/encoder.rs:18-68 | every exit of the copying parser, with its effect on the blocks in use |
| `Packets.MoveToFront` | src/fec/encoder.rs:107-110 | the in-place move brings the payload to the front |
| `Packets.FromBlock` | src/fec/encoder.rs:72-121 | every exit of the in-place parser: each error returns the block exactly once, and the packet's block is the payload followed by what the block held there |
| `Packets.FitsBlock` | src/fec/encoder.rs:18-121 | inputs that fit a block never reach the copying parser's extra errors |
| `Packets.BothParsers` | src/fec/encoder.rs:18-121 | both parsers agree on success, error and every part |
| `Packets.CloneForEncoder` | src/fec/encoder.rs:156-174 | an equal packet in blocks of its own |
| `Packets.ClonedParts` | src/fec/encoder.rs:156-174 | the copy has the id, lengths and parts of the original, in whole zero-padded blocks |
| `Packets.DropPacket` | src/fec/encoder.rs:177-186 | each block goes back once |
| `Packets.BlockOwners.ParseBlock` | src/fec/encoder.rs:72-121 | blocks in use stay equal to those of callers and live packets |
| `Packets.BlockOwners.ParseCopy` | src/fec/encoder.rs:18-68 | the same, and blocks are abandoned exactly on the late exit |
| `Packets.BlockOwners.Clone` | src/fec/encoder.rs:156-174 | the same, with one more live packet of equal parts |
| `Packets.BlockOwners.Drop` | src/fec/encoder.rs:177-186 | the same, with one live packet fewer |
| `Adaptive.RepairsDefinedIff` | src/fec/decoder.rs:280-298 | all repair rows of a window exist if and only if n is at most 256 |
| `Adaptive.EncodableModes` | src/fec/adaptive.rs:124-153 | which modes and windows can be encoded at all |
| `Adaptive.ModesAreOrdered` | src/fec/adaptive.rs:124-147 | a stronger mode has a higher threshold, more overhead and larger windows |
| `Adaptive.ParamsExact` | src/fec/adaptive.rs:149-153 | k is the window and n the least number not below window times overhead |
| `Adaptive.InitialWindowInRange` | src/fec/adaptive.rs:117-133 | the configured window if there is one, else the default, in the mode's range |
| `Adaptive.KalmanFilter.Update` | src/fec/mod.rs:72-78 | the distance to the measurement shrinks by r / (p + r) for the predicted error p, and the error becomes r p / (p + r) |
| `Adaptive.LossEstimator.PushFlags` | src/fec/adaptive.rs:75-86 | the burst window is the last flags up to its capacity |
| `Adaptive.LossEstimator.ReportLoss` | src/fec/adaptive.rs:63-88 | the distance of the average to the (filtered) rate shrinks by 1 - lambda; the window records losses before arrivals |
| `Adaptive.SmoothedMoves` | src/fec/adaptive.rs:72-73 | the distance to the rate after a step is 1 - lambda times the distance before |
| `Adaptive.SteadyRate` | src/fec/adaptive.rs:72-73 | after m reports of one rate r the average is r - (1 - lambda)^m (r - a) |
| `Adaptive.RateOfLoss` | src/fec/adaptive.rs:64-68 | rate times total is lost |
| `Adaptive.CountIsNumber` | src/fec/adaptive.rs:92-96 | the burst count is the number of losses in the window |
| `Adaptive.BurstOfReport` | src/fec/adaptive.rs:75-96 | one report into an empty window counts exactly the lost packets |
| `Adaptive.TailIsEnd` | src/fec/adaptive.rs:75-86 | the burst window keeps the end of what was pushed |
| `Adaptive.LossEstimator.GetEstimatedLoss` | src/fec/adaptive.rs:90-98 | the larger of average and burst rate, in [0, 1] |
| `Controllers.WindowFollowsLoss` | src/fec/adaptive.rs:229-235 | within a mode the window grows above the threshold, shrinks below it, and stays in range |
| `Controllers.WindowTracks` | src/fec/adaptive.rs:229-235 | the new window is window (1 + (loss - threshold) / 2), rounded to the nearest, clamped to the mode's range |
| `Controllers.OutputIsLinear` | src/fec/adaptive.rs:308-324 | the PID output falls linearly with the loss, from what the controller remembers |
| `Controllers.HigherLossNeverRaises` | src/fec/adaptive.rs:204-218 | for all nonnegative gains a higher loss gives no higher output and no stronger mode |
| `Controllers.StepExactly` | src/fec/adaptive.rs:204-218 | exactly how far from the threshold the loss steps the mode down or up, for all gains |
| `Controllers.DefaultStepsDown` | src/fec/adaptive.rs:439-443 | with the default gains half the packets lost in Light mode switches repair off |
| `Controllers.ModeManager.Update` | src/fec/adaptive.rs:190-260 | window in range, one step as the PID output says or the jump to Extreme, and when a cross-fade starts |
| `Controllers.OldEncoderServes` | src/fec/adaptive.rs:519-544 | the old encoder is asked on exactly the first 16 sends after a switch |
| `AdaptiveStack.EmitsDefined` | src/fec/adaptive.rs:546-564 | every repair row of an old or new encoder in Light or Normal mode is defined |
| `AdaptiveStack.EmitRepairs` | src/fec/adaptive.rs:546-564 | the loop emits the repair packets of all indices of a full window, in order |
| `AdaptiveStack.EmittedRows` | src/fec/adaptive.rs:546-564 | one send emits the rows of the parameters k to n - 1, each once, combined from the window and numbered behind its last packet |
| `AdaptiveStack.AnyKOfOneSend` | src/fec/adaptive.rs:519-564 | any k of an aligned window's sources and one send's repair packets make a fresh decoder succeed, with every received source in its slot |
| `AdaptiveStack.TakeFollows` | src/fec/adaptive.rs:574-582 | a decoder in service follows its run: it panics exactly when the run does, and hands out the packets of the run at its first success |
| `AdaptiveStack.TakeKeeps` | src/fec/decoder.rs:133-152 | taking a packet keeps a decoder's identity and its success |
| `AdaptiveStack.RefusalMeansNoRow` | src/fec/decoder.rs:683-700 | a decoder errs only on a packet without a row and first succeeds only on a packet with one |
| `AdaptiveStack.NothingDiscarded` | src/fec/adaptive.rs:584-596 | the old decoder never errs on the copy of a packet on which the current one first succeeds |
| `AdaptiveStack.TakePanicsIff` | src/fec/adaptive.rs:574-582 | a decoder in service panics exactly on the packet that completes its rows when one of them stems from a larger window |
| `AdaptiveStack.TakeableIff` | src/fec/decoder.rs:695-698 | a repair packet of a window of k fits a decoder exactly if k is at most its size |
| `AdaptiveStack.LargerWindowCrashes` | src/fec/decoder.rs:459-465 | all sources but one and a repair packet of a larger window lead to the panic |
| `AdaptiveStack.NormalIntoLight` | src/fec/adaptive.rs:566-599 | a repair packet of a Normal window of 32 and a Light decoder for 16 |
| `AdaptiveStack.SameIndexStops` | src/fec/adaptive.rs:546-564 | two kept repair packets of one index from different windows prevent success, whatever follows |
| `AdaptiveStack.AdjacentWindowsStop` | src/fec/adaptive.rs:546-564 | the stack's own emissions of one index at adjacent positions do so |
| `AdaptiveStack.AdaptiveFec.constructor` | src/fec/adaptive.rs:473-506 | a validated configuration starts in a consistent state |
| `AdaptiveStack.AdaptiveFec.OnSend` | src/fec/adaptive.rs:519-544 | both encoders get a copy; the packet, the old encoder's repairs and the new one's go out in this order; windows stay the last k packets; the cross-fade moves on |
| `AdaptiveStack.AdaptiveFec.CountDown` | src/fec/adaptive.rs:537-543 | the old pair leaves halfway through the cross-fade |
| `AdaptiveStack.AdaptiveFec.OnReceive` | src/fec/adaptive.rs:566-599 | both decoders take the packet and follow their runs, panics included; each hands out its packets exactly once, at its first success; no error discards what was handed out |
| `AdaptiveStack.TakeRepair` | src/fec/adaptive.rs:574-582 | the i-th of k repair packets of a window hands out nothing, and the last one the k blocks in order |
| `AdaptiveStack.ReceiveWindow` | src/fec/adaptive.rs:566-599 | a stack that receives k repair packets of a window hands out exactly its k blocks, in order, with the last |
| `AdaptiveStack.AdaptiveFec.ReportLoss` | src/fec/adaptive.rs:602-630 | estimate in [0, 1], window in range, a change of mode or window always starts a cross-fade, a fresh pair in any case |
| `AdaptiveStack.AdaptiveFec.Install` | src/fec/adaptive.rs:611-629 | the pair that takes over has an empty window and no rows; only a switch keeps the old pair |
| `AdaptiveStack.FewRepairs` | src/fec/adaptive.rs:135-153 | except in Zero and Extreme mode a window has fewer repair packets than sources |
| `AdaptiveStack.SomeSource` | src/fec/adaptive.rs:546-564 | so k different packets of one window always include a source packet |
| `AdaptiveStack.LossNotRepaired` | src/fec/adaptive.rs:546-564 | k packets of one window with a repair packet among them report success on a source that does not come back |

## Left out

- The SIMD kernels, the slice variants, the rayon path of the encoder and all prefetching: only the scalar path is modelled.
- GF(2^16), `Encoder16` and `Decoder16`: a different field whose overflow test cannot fire; so Extreme mode is modelled in the controller only.
- Wiedemann, block Lanczos and `berlekamp_massey`.
- Decoding.Decoder.constructor: takes k up to 256 only, since larger windows select the Wiedemann strategy.
- Decoding.Decoder.AddPacket: a packet whose coefficient count exceeds its coefficient block, or whose data block is larger than a pool block, is excluded; the parsers produce neither. What is left of the decoder after a panic is not described. The code's literal for a recovered packet does not set `coeff_len`; the model sets it to zero.
- DecoderRuns.ReceiveIsBatch: k = 0 is left out of the run results, because the row-count guard is then true from the start.
- Encoding.Encoder.GenerateRepairPacket: k = 0, a source packet shorter than the first one, and a block smaller than k are panics or degenerate and are excluded.
- Encoding.EncodeDecode: packet ids are unbounded; the wrap-around of 64-bit ids is not modelled.
- CsrMatrices.CsrMatrix.ScaleRow: factor zero is excluded; the code only scales by inverses, and a zero factor would store zeros.
- CsrMatrices.CsrMatrix.AddScaledRow: target and source differ, as at its only call.
- MatrixInverse.RecursiveInverse: the panic on a zero pivot is the value `ZeroPivot`; the pass that multiplies each entry by one is dropped.
- Varints.OctetsMut.PutVarintWithLen: a length other than 1, 2, 4 or 8 panics and is excluded; the other accessors of the octets library are left out.
- FrameParsing.FrameParser.ReactNow: the frame decoder with its header decompression is a function parameter; the stream is a class that delivers any nonempty part of its unread bytes.
- BufferPool.PoolSafety: counters are unbounded, memory orderings are not modelled beyond atomicity of each step, and shrinking a buffer gives exactly the smaller capacity.
- MemoryPools.MemoryPool.Free: one call at a time; blocks are values, so the model says how many blocks there are and what they hold, not which address they have. NUMA calls and telemetry are left out, the node is a parameter.
- Packets.FromBlock: the packet's block is the contents of the parsed block at the end of the call, not the same object.
- Packets.FromRaw: coefficients longer than a block are a panic and are excluded.
- Packets.ToRaw: a packet always has its data block; only a dropped packet has none.
- Adaptive.LossEstimator.ReportLoss: arithmetic is over reals, not 32-bit floats, and lost is at most total.
- Controllers.ModeManager.Update: clocks are parameters (whether the minimum dwell time is still running, and the time since the last control step), and telemetry is left out.
- AdaptiveStack.AdaptiveFec.OnSend: the pool blocks of the copies are not counted here (`Packets.BlockOwners` does that); what a 16-bit encoder emits is a parameter, and conditions under which the code panics are excluded.
- AdaptiveStack.AdaptiveFec.OnReceive: encoders and decoders are the states their classes step through, not objects; a decoder of the 16-bit code or for more than 256 rows answers by a parameter, bound by its code: it errs only on a packet without a row, first succeeds only on one with a row, and does not take its success back.
- LongRuns.CrashIff: what happens after the panic is not modelled.
- DataRecovery.TwoSourcesNeither: a fact about the decoder only; the encoder of the stack never emits k distinct repair rows (`AdaptiveStack.SomeSource`).
- Configuration parsing, sockets, TLS, obfuscation, command line, logging and the example clients: input and output or thin wrappers.
