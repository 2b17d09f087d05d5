# TensorRT sample helpers in Dafny

A model of the self-contained, deterministic helpers of the TensorRT samples, with
proofs of what they compute:

- **String utilities** (`samples/common/sampleUtils.cpp`): `splitToStringVec` with and
  without a split limit, and `matchStringWithOneWildcard` (module `StringUtils`).
- **Shapes and index arithmetic** (`samples/common/sampleUtils.cpp`): `toDims`,
  `broadcastIOFormats`, the strided and vectorised `volume`, the mixed-radix
  `dataOffsetFromDims` (module `TensorDims`), and the INT4 nibble decode of
  `dumpInt4Buffer` (module `Int4`).
- **Weight rewrites** (`samples/common/sampleUtils.cpp`): the 2:4 structured-sparsity
  `sparsify<T>` and `transpose2DWeights` (module `WeightTransforms`).
- **Char-RNN weight preparation** (`samples/sampleCharRNN/sampleCharRNN.cpp`):
  `transposeSubBuffers`, `convertRNNWeights`, `convertRNNBias` and the `extractWeights`
  slice (module `CharRnn`); the `charToID`/`idToChar` vocabulary (module
  `CharRnnVocab`); the shape parsing and requested-name bookkeeping of `loadWeights`
  (module `WeightFile`).
- **Batch streams** (`samples/common/BatchStream.h`): the MNIST batch counter (module
  `MnistBatchStream`) and the file-backed `BatchStream` state machine with
  `reset`/`next`/`skip` (module `BatchStream`).

Weight and sample values are of a generic element type; zero is a distinguished value
passed in. `Wrappers` holds `Option`/`Result`; `Arith` holds C++ truncating division,
row-major indexing and small arithmetic facts.

Modelling choices:

- **`splitToStringVec`.** `StringUtils.SplitRest` is the loop of `splitToStringVec`
  written as a recursion over the rest of the string. The loop pushes an explicit `""`
  when the separator is the last character. In the recursion this is the step whose
  rest is empty: that step emits the empty rest as the last piece. The step runs even
  when that piece reaches the split limit. Both forms give the same pieces for every
  input.
- **`BatchStream`.** One sample stands for an image together with its label, because
  the source copies the two in lockstep.
  - Batch file `i` is `files[i]`.
  - `update` fails exactly when the numbered file does not exist.
  - `Flat(files)` is the concatenated sample stream.
  - `Consumed` is the cursor's position in it.
  - The two paths of `skip` disagree about `maxBatches`. The fast path (whole files
    per batch, buffer exhausted) jumps `skipCount` batches regardless of the bound. The
    slow path calls `next`, which refuses once the count reaches `maxBatches`, so it
    stops there. `BatchStream.SkipAdvances` and `BatchStream.ResetPosition` state both
    outcomes. Which one the authors meant is not evident, so neither is treated as a bug.
- **`loadWeights`.** The byte stream is a list of records, each already split into
  name, type, the header text after the type, and payload.

## Model

| member | source | states |
|---|---|---|
| StringUtils.IndexOf | samples/common/sampleUtils.cpp:152-156 | the position of the first separator at or after the start, or the length when there is none: the character there is the separator and none comes before it |
| StringUtils.Split | samples/common/sampleUtils.cpp:138-169 | the empty string, and only the empty string, splits into no pieces |
| StringUtils.SplitJoin | samples/common/sampleUtils.cpp:138-169 | joining the pieces with the separator gives back the input, with or without a split limit |
| StringUtils.SplitUnlimited | samples/common/sampleUtils.cpp:138-169 | with no limit, a non-empty string splits into one more piece than it has separators; no piece holds a separator; the last piece is `""` exactly when the string ends with the separator |
| StringUtils.JoinSplit | samples/common/sampleUtils.cpp:138-169 | splitting with no limit undoes joining for separator-free pieces (other than the single empty piece) |
| StringUtils.SplitLimited | samples/common/sampleUtils.cpp:146-150 | with `maxSplit >= 0` the result is the unlimited split cut after `maxSplit` pieces, with the unsplit remainder (separators included) as the last piece; at most `maxSplit + 1` pieces |
| StringUtils.FindFrom | samples/common/sampleUtils.cpp:647 | `find`: the first occurrence at or after the start, with no occurrence before it; `None` (npos) when there is none |
| StringUtils.RFindFrom | samples/common/sampleUtils.cpp:648 | `rfind`: the last occurrence at or before the start, with no occurrence after it; `None` when there is none |
| StringUtils.FindAtStart | samples/common/sampleUtils.cpp:647 | `find(p) == 0` exactly when the target starts with `p` |
| StringUtils.RFindAtEnd | samples/common/sampleUtils.cpp:648 | `rfind(p)` is the target length minus the length of `p` exactly when the target ends with `p` |
| StringUtils.MatchAsWritten | samples/common/sampleUtils.cpp:637-650 | the matcher as written is undefined exactly for the empty pattern, whose split has no piece to index |
| StringUtils.Match | samples/common/sampleUtils.cpp:637-650 | the corrected matcher: the empty pattern matches only the empty target |
| StringUtils.MatchAgreesWhereDefined | samples/common/sampleUtils.cpp:637-650 | for every non-empty pattern the corrected matcher gives the written one's answer |
| StringUtils.SplitAtWildcard | samples/common/sampleUtils.cpp:639 | the limit-1 split of a pattern is the pattern itself without `*`, else the text before and after the first `*` |
| StringUtils.MatchCharacterized | samples/common/sampleUtils.cpp:637-650 | a pattern with no `*` matches exactly itself; otherwise a target matches iff it starts with the text before the first `*`, ends with the text after it, and is at least as long as both together |
| StringUtils.StarMatchesAll | samples/common/sampleUtils.cpp:637-650 | `"*"` matches every string |
| TensorDims.ToDims | samples/common/sampleUtils.cpp:55-66 | the result fits in 8 dimensions and is a prefix of the vector: all of it when it fits, its first 8 entries otherwise |
| TensorDims.ToDimsRoundTrip | samples/common/sampleUtils.cpp:55-66 | every valid shape is reproduced from its entries |
| TensorDims.BroadcastIOFormats | samples/common/sampleUtils.cpp:171-187 | succeeds iff there are no formats, one format, or one per binding; the result is whether the single format is broadcast; the error names the input or output direction |
| TensorDims.DivUp | samples/common/sampleUtils.cpp:46-49 | the vectorised axis length is the ceiling of the length over the vector width |
| TensorDims.MaxExtent | samples/common/sampleUtils.cpp:36-51 | the running maximum of `volume` is at least 1, bounds the span of every axis seen, and is 1 or one of those spans |
| TensorDims.Volume | samples/common/sampleUtils.cpp:34-53 | 0 when some dimension is 0; otherwise the largest axis span (at least 1) times the batch, times the vector width when an axis is vectorised |
| TensorDims.PackedMaxExtent | samples/common/sampleUtils.cpp:34-53 | with dense row-major strides and no vectorisation, the volume's maximum span is the product of the dimensions |
| TensorDims.Coords | samples/common/sampleUtils.cpp:452-465 | the digits `v % d` peeled off by the loop, one per axis, each below its dimension |
| TensorDims.ComposeCoords | samples/common/sampleUtils.cpp:452-465 | an index below the element count is recovered from its digits |
| TensorDims.CoordsCompose | samples/common/sampleUtils.cpp:452-465 | every digit tuple below the dimensions is the decomposition of exactly one index below the element count |
| TensorDims.DataOffsetFromDims | samples/common/sampleUtils.cpp:449-468 | the loop computes the sum over axes of digit times stride (times `spv` when vectorised), and `(c / spv) * stride * spv + c % spv` on the vector axis |
| TensorDims.DataOffsetOfZero | samples/common/sampleUtils.cpp:449-468 | element 0 sits at offset 0 in every layout |
| TensorDims.PackedOffsetIsIndex | samples/common/sampleUtils.cpp:449-468 | with dense row-major strides and no vectorisation, element `v` sits at offset `v` |
| Int4.ToInt8 | samples/common/sampleUtils.cpp:505-509 | `static_cast<int8_t>` gives the value in [-128, 128) congruent modulo 256 |
| Int4.SignExtend4 | samples/common/sampleUtils.cpp:500-510 | a 4-bit field read as two's complement lies in [-8, 7] and is congruent to the field modulo 16 |
| Int4.NibbleDecode | samples/common/sampleUtils.cpp:500-510 | shifting the low nibble up to the sign bit and back sign-extends the low nibble; shifting the byte down sign-extends the high nibble |
| Int4.Int4At | samples/common/sampleUtils.cpp:500-510 | the value for an offset is the sign-extended low nibble of byte `offset / 2` for an even offset and the high nibble for an odd one, always in [-8, 7] |
| Int4.PackInt4 | samples/common/sampleUtils.cpp:500-510 | the packing the decoder expects takes two values per byte |
| Int4.Int4RoundTrip | samples/common/sampleUtils.cpp:500-510 | decoding a packed buffer returns every packed value |
| Int4.DumpInt4Values | samples/common/sampleUtils.cpp:487-512 | the buffer dump prints one value in [-8, 7] per element, in element order |
| Int4.DumpPackedRoundTrip | samples/common/sampleUtils.cpp:487-512 | dumping a packed dense tensor prints exactly the packed values |
| WeightTransforms.Transpose2D | samples/common/sampleUtils.cpp:584-598 | the reference transpose: row `ni`, column `mi` of the result is row `mi`, column `ni` of the source |
| WeightTransforms.TransposeInvolution | samples/common/sampleUtils.cpp:584-598 | transposing `m` x `n` and then `n` x `m` gives the original |
| WeightTransforms.Transpose2DWeights | samples/common/sampleUtils.cpp:584-598 | the loop writes `dst[ni*m+mi] = src[mi*n+ni]` for all `mi < m`, `ni < n` and leaves the rest of `dst` alone |
| WeightTransforms.MaskFromPattern | samples/common/sampleUtils.cpp:553-571 | the `w`/`nz` counters keep channel `ci` exactly when `ci % 4 < 2` |
| WeightTransforms.MaskAt | samples/common/sampleUtils.cpp:553-571 | decision `i` of the counters from window position `w` is that of position `(w + i) % 4` |
| WeightTransforms.Channels | samples/common/sampleUtils.cpp:539 | `c = count / (k * trs)` channels fit in the buffer: `k * c * trs <= count` |
| WeightTransforms.Sparsify | samples/common/sampleUtils.cpp:537-575 | length is preserved and every element is either the input value or zero |
| WeightTransforms.SparsifyAt | samples/common/sampleUtils.cpp:549-574 | for each output map, kernel position and channel `ci`, the weight is kept iff `ci % 4 < 2`, and zeroed otherwise |
| WeightTransforms.SparsifyTail | samples/common/sampleUtils.cpp:540 | elements past the last whole output map are zero |
| WeightTransforms.SparsifyWindow | samples/common/sampleUtils.cpp:549-574 | every aligned window of four channels keeps at most two non-zero weights |
| CharRnn.TransposeSubBuffers | samples/sampleCharRNN/sampleCharRNN.cpp:274-303 | for positive height and width the length is unchanged, the leading `height*width` block satisfies `new[j*height+i] = old[i*width+j]`, and the rest is kept |
| CharRnn.ConvertRNNWeights | samples/sampleCharRNN/sampleCharRNN.cpp:472-485 | `(dataSize + H) * 4H` elements: the input block and the recurrent block that follows it are each transposed on their own |
| CharRnn.ConvertRoundTrip | samples/sampleCharRNN/sampleCharRNN.cpp:472-485 | transposing both blocks back recovers the TensorFlow weights, so no element crosses between the blocks |
| CharRnn.ConvertedInputWeight | samples/sampleCharRNN/sampleCharRNN.cpp:452-485 | gate `g`, unit `u`, input `i` of the converted weights is input row `i`, column `g*H+u` of the original |
| CharRnn.ConvertedRecurrentWeight | samples/sampleCharRNN/sampleCharRNN.cpp:452-485 | gate `g`, unit `u`, recurrent input `j` follows the input block and is recurrent row `j`, column `g*H+u` of the original |
| CharRnn.ConvertRNNBias | samples/sampleCharRNN/sampleCharRNN.cpp:502-514 | with `4H` input biases: twice the length, the first half is the input, the second half all zero |
| CharRnn.ExtractWeights | samples/sampleCharRNN/sampleCharRNN.cpp:641-648 | with `shift + count` within the weights, exactly the sub-slice `[shift, shift + count)` |
| CharRnn.ExtractLayerWeights | samples/sampleCharRNN/sampleCharRNN.cpp:656-657 | the two slices the layer takes are the transposed input block and the transposed recurrent block |
| CharRnn.ExtractLayerBias | samples/sampleCharRNN/sampleCharRNN.cpp:658-659 | the two bias slices are the TensorFlow bias and an all-zero recurrent bias |
| CharRnnVocab.Row0Agrees | samples/sampleCharRNN/sampleCharRNN.cpp:103-115 | ids 0-12: each character of the row of `idToChar` maps to its id and back; the characters precede `A` |
| CharRnnVocab.Row1Agrees | samples/sampleCharRNN/sampleCharRNN.cpp:103-115 | ids 13-25 agree between the two tables; the characters lie in `A`-`M` |
| CharRnnVocab.Row2Agrees | samples/sampleCharRNN/sampleCharRNN.cpp:103-115 | ids 26-38 agree between the two tables; the characters lie in `N`-`Z` |
| CharRnnVocab.Row3Agrees | samples/sampleCharRNN/sampleCharRNN.cpp:103-115 | ids 39-51 agree between the two tables; the characters lie in `a`-`m` |
| CharRnnVocab.Row4Agrees | samples/sampleCharRNN/sampleCharRNN.cpp:103-115 | ids 52-64 agree between the two tables; the characters lie in `n`-`z` |
| CharRnnVocab.RowsForward | samples/sampleCharRNN/sampleCharRNN.cpp:103-115 | tables made of agreeing, pairwise disjoint rows map each id's character back to the id |
| CharRnnVocab.RowsBackward | samples/sampleCharRNN/sampleCharRNN.cpp:103-115 | tables made of agreeing rows map each character's id back to the character |
| CharRnnVocab.RowMapsDisjoint | samples/sampleCharRNN/sampleCharRNN.cpp:103-109 | no character appears in two rows of `charToID` |
| CharRnnVocab.IdToCharToId | samples/sampleCharRNN/sampleCharRNN.cpp:103-115 | `idToChar` has 65 entries and `charToID[idToChar[i]] == i` for each |
| CharRnnVocab.CharToIdToChar | samples/sampleCharRNN/sampleCharRNN.cpp:103-115 | every id of `charToID` is below 65 and `idToChar[charToID[c]] == c` |
| CharRnnVocab.TablesInverse | samples/sampleCharRNN/sampleCharRNN.cpp:935 | the two tables are mutually inverse and cover exactly `vocabSize = 65` symbols |
| CharRnnVocab.LookupId | samples/sampleCharRNN/sampleCharRNN.cpp:856 | `charToID.at(c)` succeeds exactly for characters in the table |
| CharRnnVocab.LookupChar | samples/sampleCharRNN/sampleCharRNN.cpp:824 | `idToChar.at(id)` succeeds exactly for ids below the table size |
| CharRnnVocab.CharIdOf | samples/sampleCharRNN/sampleCharRNN.cpp:856 | a character has an id iff it is in the vocabulary, and that id maps back to it |
| CharRnnVocab.CharOfId | samples/sampleCharRNN/sampleCharRNN.cpp:824 | an id has a character iff it is below 65, and that character's id is the id |
| CharRnnVocab.Encode | samples/sampleCharRNN/sampleCharRNN.cpp:856 | the ids of a sentence, defined iff every character is known, position by position |
| CharRnnVocab.Decode | samples/sampleCharRNN/sampleCharRNN.cpp:838 | the characters of predicted ids, defined iff every id is in range, position by position |
| CharRnnVocab.DecodeEncode | samples/sampleCharRNN/sampleCharRNN.cpp:824-856 | with inverse tables, decoding the ids of a sentence gives the sentence |
| CharRnnVocab.EncodeDecode | samples/sampleCharRNN/sampleCharRNN.cpp:824-856 | with inverse tables, encoding decoded characters gives the ids |
| CharRnnVocab.EncodableOver | samples/sampleCharRNN/sampleCharRNN.cpp:856 | with inverse tables, every sentence over the vocabulary can be encoded |
| WeightFile.ParseUnsigned | samples/sampleCharRNN/sampleCharRNN.cpp:419 | `stoul` never yields more than the largest `unsigned long`; the rows below state its result for every form of field |
| WeightFile.ParseUnsignedDigits | samples/sampleCharRNN/sampleCharRNN.cpp:419 | after white space and an optional sign, `stoul` reads the digit run and ignores what follows it; above `ULONG_MAX` is `out_of_range`, and `-` negates modulo 2^64 |
| WeightFile.ParseUnsignedNoDigit | samples/sampleCharRNN/sampleCharRNN.cpp:419 | a field with no digit after the white space and the optional sign is `invalid_argument` |
| WeightFile.ParseDecimalTooLarge | samples/sampleCharRNN/sampleCharRNN.cpp:419 | the decimal text of any value above `ULONG_MAX` is rejected |
| WeightFile.ParseNegatedDecimal | samples/sampleCharRNN/sampleCharRNN.cpp:419 | `-n` reads as `2^64 - n` modulo 2^64 |
| WeightFile.ParseDecimal | samples/sampleCharRNN/sampleCharRNN.cpp:419 | `stoul` reads back the decimal text of every representable value |
| WeightFile.ShapeText | samples/sampleCharRNN/sampleCharRNN.cpp:412-413 | the shape text never holds `)` |
| WeightFile.ShapeTextOf | samples/sampleCharRNN/sampleCharRNN.cpp:412-413 | a header `prefix(shape)suffix` yields `shape` |
| WeightFile.ShapeFields | samples/sampleCharRNN/sampleCharRNN.cpp:417-418 | the comma-separated fields of the shape text; none holds a comma |
| WeightFile.ProductOfParsed | samples/sampleCharRNN/sampleCharRNN.cpp:416-419 | the product is defined exactly when every field parses |
| WeightFile.ShapeFieldsFormat | samples/sampleCharRNN/sampleCharRNN.cpp:417-418 | the fields of a formatted shape are the decimals of its dimensions |
| WeightFile.ShapeCountFormat | samples/sampleCharRNN/sampleCharRNN.cpp:415-419 | the element count of a formatted shape is the product of its dimensions |
| WeightFile.LoadFrom | samples/sampleCharRNN/sampleCharRNN.cpp:396-444 | the loop reads at most `count` records, only shrinks the requested set, and fails only at a record within the count |
| WeightFile.LoadFromStops | samples/sampleCharRNN/sampleCharRNN.cpp:396-401 | the loop stops after `count` records, once the requested set is empty, or at the last record; it fails at the first record whose shape does not parse |
| WeightFile.LoadFromNames | samples/sampleCharRNN/sampleCharRNN.cpp:423-443 | the names found leave the requested set and enter the map; earlier entries are kept |
| WeightFile.LoadFromMissing | samples/sampleCharRNN/sampleCharRNN.cpp:423-431 | no record the loop read carries a name still requested |
| WeightFile.LoadFromFirst | samples/sampleCharRNN/sampleCharRNN.cpp:423-443 | each name found is loaded from the first record that carries it, so no name is loaded twice |
| WeightFile.LoadWeights | samples/sampleCharRNN/sampleCharRNN.cpp:392-444 | a non-positive count is an error; otherwise at most `count` records are read |
| WeightFile.LoadWeightsSpec | samples/sampleCharRNN/sampleCharRNN.cpp:392-444 | every requested name is loaded from its first record or still missing, never both; reading stopped at the count, an empty set, or the end; an error names the first unparsable record |
| MnistBatchStream.ImageVolumeIsProduct | samples/common/BatchStream.h:46 | an MNIST image `{1, 28, 28}` has 784 elements |
| MnistBatchStream.Reset | samples/common/BatchStream.h:52-55 | `reset(f)` sets the count to `f` and keeps the rest |
| MnistBatchStream.Next | samples/common/BatchStream.h:57-65 | fails, leaving the count unchanged, iff `count >= maxBatches`; otherwise adds exactly one |
| MnistBatchStream.Skip | samples/common/BatchStream.h:67-70 | `skip(k)` adds `k` to the count |
| MnistBatchStream.RunReadsUpToBound | samples/common/BatchStream.h:57-65 | `n` calls of `next` read `min(n, maxBatches - count)` batches and never pass `maxBatches` |
| MnistBatchStream.RunStalled | samples/common/BatchStream.h:57-65 | at or past `maxBatches`, every `next` fails and leaves the cursor alone |
| MnistBatchStream.SkipThenRun | samples/common/BatchStream.h:57-70 | after the unchecked `skip(k)`, `n` calls of `next` read `min(n, maxBatches - count - k)` batches, and none once the skip reached the bound |
| MnistBatchStream.ResetThenRun | samples/common/BatchStream.h:52-65 | after `reset(f)`, `n` calls of `next` read `min(n, maxBatches - f)` batches, and none when `f` is past the bound |
| MnistBatchStream.GetDims | samples/common/BatchStream.h:92-95 | `{batchSize, 1, 28, 28}`, with `batchSize * 784` elements |
| MnistBatchStream.OffsetsAdvance | samples/common/BatchStream.h:72-80 | the batch offset is the label offset times 784; each successful `next` moves the labels by a batch and the images by the batch's element count |
| BatchStream.Update | samples/common/BatchStream.h:291-300 | the file number is always advanced; success iff the file exists, and then the buffer is that file with the position rewound |
| BatchStream.Refill | samples/common/BatchStream.h:223-226 | only an exhausted buffer is refilled; the batch and the counters other than the file's are kept |
| BatchStream.CopyChunk | samples/common/BatchStream.h:229-232 | a chunk of `min(batchSize - batchPos, d0 - filePos) > 0` samples moves and the position advances by as many |
| BatchStream.Fill | samples/common/BatchStream.h:220-233 | the copy loop keeps the shape, the position check `0 < filePos <= d0` and the batch count |
| BatchStream.Next | samples/common/BatchStream.h:213-236 | fails with nothing changed when `batchCount == maxBatches`; the count grows by one exactly on success |
| BatchStream.RefillStep | samples/common/BatchStream.h:223-226 | a refill fails iff the buffer is exhausted and the next file is missing; on success the stream position is kept and the buffer holds the position's file |
| BatchStream.CopyStep | samples/common/BatchStream.h:229-232 | a chunk copy takes the next `ChunkSize` samples of the concatenated stream |
| BatchStream.FillSucceeds | samples/common/BatchStream.h:220-233 | the copy loop succeeds iff the stream still holds the samples the batch lacks |
| BatchStream.FillWindow | samples/common/BatchStream.h:220-233 | a successful copy loop fills the rest of the batch with the next samples of the stream and advances the position by as many |
| BatchStream.FillCoherent | samples/common/BatchStream.h:220-233 | the copy loop leaves the position invariant and the buffer/file agreement intact, whether or not it succeeds |
| BatchStream.NextWindow | samples/common/BatchStream.h:213-236 | `next` succeeds iff below `maxBatches` and the stream holds a whole batch; successive batches are consecutive `batchSize` windows of the concatenated files |
| BatchStream.Skip | samples/common/BatchStream.h:239-253 | the batch count never changes; on the fast path the file number advances by `skipCount * batchSize / d0` |
| BatchStream.SkipReadsStalled | samples/common/BatchStream.h:215-218 | once the count equals `maxBatches`, any number of `next` calls leave the cursor unchanged |
| BatchStream.SkipReadsCapped | samples/common/BatchStream.h:213-252 | `k` calls of `next` move the stream position by one batch per call that reads, and the reads stop once the count reaches `maxBatches` |
| BatchStream.SkipReadsAdvance | samples/common/BatchStream.h:247-252 | `k` reads below `maxBatches` that the stream holds move the position by `k * batchSize` |
| BatchStream.SkipAdvances | samples/common/BatchStream.h:239-253 | the fast path moves the stream `skipCount` batches ahead whatever `maxBatches` is; the slow path moves it by the batches `next` reads, which stop at `maxBatches`, provided the stream holds them |
| BatchStream.Reset | samples/common/BatchStream.h:204-210 | no batch is counted and the position satisfies `0 < filePos <= d0`, so `next` may follow |
| BatchStream.ResetPosition | samples/common/BatchStream.h:204-210 | after `reset(f)` the next batch starts `f` batches into the stream when the batch is a whole number of files, and otherwise `min(f, maxBatches)` batches in (for a non-negative bound), provided the stream holds those batches |
| Arith.TruncDiv | samples/common/BatchStream.h:243 | C++ division truncates toward zero: the quotient times the divisor lies between 0 and the dividend, within one divisor of it |

## Left out

- File and stream I/O are not modelled: `loadFromFile`, `canWriteFile`, the
  `ifstream` reads of `loadWeights` and `BatchStream`, the big-endian MNIST readers,
  and `print`/`dumpBuffer` output formatting.
- Floating point is not modelled: the `float`/`half` element types, the `fillBuffer`
  random fill, and the PPM normalisation of `BatchStream::update`. Elements are generic.
- Walking an `INetworkDefinition` is not modelled: `sparsify(network, …)`,
  `sparsifyMatMulKernelWeights` and `setSparseWeights`. The same goes for network
  construction, engine building and CUDA calls in the char-RNN sample.
- The PPM list-file branch of `BatchStream::update` (BatchStream.h:302-358) is not
  modelled. Only the numbered batch files are.
- `BatchStream` constructors and `getBatch`/`getLabels`/`getDims` are not modelled.
  The dimension checks of the constructor and of `update` are the `Shaped` predicate.
  The batch buffer is the cursor's `batch`.
- `samplesCommon::volume(Dims)`, `divUp` and `getNbBytes` live in `common.h`, which is
  not part of this model.
  - `volume` is taken to be the product of the dimensions (`TensorDims.Product`).
  - `divUp` is taken to be `(x + n - 1) / n` with C++ division.
  - Byte offsets (`getNbBytes`) are element offsets.
- TensorDims.Volume: the `int64_t` products are unbounded integers; overflow is not modelled.
- TensorDims.DataOffsetFromDims: the `int32_t` offset accumulator is unbounded; wrap-around is not modelled.
- WeightTransforms.Transpose2DWeights: source and destination are separate values. The aliasing check `dst != src` has nothing to exclude. `int32_t` index overflow is not modelled.
- WeightTransforms.Sparsify: `int32_t` index overflow in `getIndex` is not modelled.
- CharRnn.TransposeSubBuffers: the `false` return for a failed temporary allocation is not modelled.
- WeightFile.ShapeCount: the `int64_t` product `wt.count` is unbounded; wrap-around is not modelled.
- WeightFile.LoadWeights: the name and type are taken from each record as given.
  - A stream that ends before `count` records ends the loop with the last record.
  - The source would go on reading a failed stream instead.
  - Payload sizes and `seekg` offsets are not modelled.
- BatchStream.Skip: `int` overflow of `skipCount * batchSize` and of the file counter is not modelled.
- BatchStream.SkipAdvances: on the slow path, the position is stated only when the stream holds every batch `next` reads. Once the files run out, each failing `next` still advances the file counter through `update`; that position is not stated.
- BatchStream.ResetPosition: the same condition as `SkipAdvances` on the slow path.
- MnistBatchStream.OffsetsAdvance: offsets are unbounded integers, with no `int` overflow. Pointers into the MNIST data are offsets.
- MnistBatchStream.Run: reading past the MNIST data is not modelled. `next` bounds only the count.

## Findings

| source | as written | input that shows it | evidently intended | confidence | as-written member | corrected member |
|---|---|---|---|---|---|---|
| samples/common/sampleUtils.cpp:637-650 | `splitToStringVec("", '*', 1)` returns no pieces, so the size test fails and `splitPattern[0]` and `splitPattern[1]` are read out of bounds | pattern `""`, any target | an empty pattern has no wildcard and matches only the empty target | not executed | StringUtils.MatchAsWritten | StringUtils.Match |
