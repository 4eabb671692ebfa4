# Encoder and decoder pairs of a lossless archiver, modelled and proved

The archiver keeps its data in streams made by pairs of programs: an encoder that searches,
guesses and adapts, and a decoder that keeps the same adaptive state and undoes it. What every
pair is for is one claim: the decoder gives back what the encoder was given, whatever the search
chose. This project models the pairs below and proves that claim for all inputs, together with the
invariants and the combinatorics it rests on.

Where the program changes things in place, so does the model: the coders, the bit streams, the
param14 parser, the literal coder, the frequency tables, the checksum are classes with those
fields, and the transforms work on arrays. A format is a function from a value to the decisions,
bits and bytes that stand for it. A writer is proved to have written that, and a reader, given
anything that goes on with it, to return the value and to stop right behind it. Readers and writers
that call each other compose by these contracts alone.

| area | files |
|---|---|
| words, counting, number facts, bytes that agree | `Words`, `Arith`, `Permutations`, `StableSort`, `LastFour`, `Matching` |
| the carry-less binary coder, how long its codes are, and the byte coder over it | `RangeCoder`, `CodeLength`, `ContextMixing`, `IntCoding` |
| the block-sorting transform: forward by doubling or by sorted suffixes, inverse by one walk or by 128 chains | `BwtInverse`, `BwtTable`, `BwtUntransform`, `RotationSort`, `Periods`, `SuffixRoute` |
| the bucket coder: symbol set, tables, rank machine, raw bits, run-length pre-pass, framing, splitting | `BitStream`, `SymbolSet`, `RankMachine`, `RankWalk`, `RankCoding`, `BucketTables`, `RankEncoder`, `RankDecoder`, `BucketCoder`, `RlePrepass`, `BucketFrame`, `BwtBlock`, `BwtCodec`, `BlockPays` |
| the long-match filter of the blocks: its search and gate, its stream, both ways | `Param14Search`, `Param14` |
| the 64-symbol range coder of the audio codec | `AudioBitcount` |
| the LZ coder: parse with untrusted hash tables, tokens, replay into the reader's ring, chunks over many laps of the window, tokens as columns of bytes | `LzTokens`, `LzReplay`, `LzSearch`, `LzSteps`, `LzParser`, `LzChunks`, `LzColumns` |
| the literal coder: contexts, predictor, runs, the numbers of the runs, and the choice of periods behind them | `LiteralContexts`, `LiteralPredictor`, `LiteralLearning`, `LiteralStream`, `LiteralEncoder`, `LiteralControl`, `LiteralRates`, `LiteralPeriods`, `LiteralDecoder`, `LiteralChosen`, `LiteralOverrun` |
| the self-check: CRC-64, the polynomial division it is, joining, runs of pieces | `Crc64`, `Crc64Standard`, `SelfCheckRuns` |

A round trip alone would hold of an encoder that never finds, never learns and never accepts. So what
an encoder does is stated too: which match a search gives and when it becomes a token
(`LzSearch`, `LzSteps`, `Param14Search`), how long the code of a decision may be (`CodeLength`), which
way cells, weights and rows move (`CodeLength.NudgeIsFair`, `LiteralLearning`, `LiteralRows.OftenIsFirst`),
and exactly when a result is given out (`BwtBlock.EncodeInput`, `BucketFrame.PackBucket`,
`Param14Encoder.Encode`, `LzTokenBytes.CodeColumn`).

Six results say where a promise ends.

- The numbers of a literal chunk's runs go into a buffer of 255 bytes and are dropped beyond it.
  `LiteralRates.RateWriter.Flush` says exactly when: they arrive if and only if they take at most
  2040 bits. In chunks of up to 19 543 literals they always do (`LiteralControl.FewLiteralsFit`).
  Above that, the choice of periods does not keep them there: `LiteralOverrun.TurnsOverrun` gives
  30 006 literals in a chunk of 30 306 bytes, which is not stored raw, on which the program's own
  choice, with its costs, its pace of seven literals and its budget, makes numbers that do not fit.
  The split into literals and matches and the codes of the literals (any from 2 up) are given there.
  That the match finder and the contexts lead to such a chunk is not shown, and so it is not claimed
  that the program ever loses one.
- The pre-pass collapses runs of any length, and its reader refuses a class above 30. A bucket
  comes back exactly when no run needs one (`RlePrepass.ExpandRuns`); a row of 2^31 + 2 equal bytes
  does (`RlePrepass.LongRunIsRefused`), and nothing shorter (`RlePrepass.NoLongRunIsShort`). This is
  about the format and its reader: the block encoder is not modelled on buckets of that length.
- A chunk of the LZ coder may begin with what the last match of the chunk before went on with; where
  that is, a hint says. Chunks that are not parsed only add to the hint
  (src/nz_lzhd_encoder.cpp:185), and a chunk that one match at an old distance covers passes it on
  as if a new match had left it (lines 387-388): exactly when this happens,
  `LzParser.LzEncoder.EncodeChunk` says. The comparison stays in the window if and only if the hint is
  at most twice its size (`LzParser.HintInWindow`); `LzParser.HintStays` says when one that is passed
  on is usable again. `LzChunks.SendAll` stops exactly before the first chunk that would be parsed
  with another. Nothing stops it when no parsed chunk is one byte repeated and no more bytes than the window has
  go unparsed in front of one (`LzChunks.TameIsSent`); the first parsed chunk is sent if and
  only if at most twice as many came before it (`LzChunks.FirstParsed`). `LzChunks.LongWaitStops` and
  `LzChunks.FlatChunkStops` are inputs that stop it, one by waiting and one by a covered chunk. Most
  covered chunks are made shorter before they are parsed, but those of 256 to 511 bytes inside an
  announced stretch of audio are not (lines 694-698).
- The sizes in front of a chunk's tokens are written with fixed limits and read with limits that
  depend on the chunk's length. `LzVarint.ShortLimit` and `LzVarint.LongLimit` say exactly which
  numbers come back. For the tokens of a chunk all do (`LzTokenBytes.ChunkAgrees`), unless the chunk
  has 256 or 257 bytes and more than 125 tokens.
- The LZ parse takes the longest match of a bucket and only then asks whether it is long enough for its
  distance. So a match of four or five bytes that would be worth a token is lost to a longer one that is
  too far away (`LzSteps.NearMayBeLost`); from six bytes on nothing is lost (`LzSteps.SixIsWorth`).
- The transform adds positions in 32 bits. Its rule for the byte before a rotation is right at every
  position exactly for blocks of up to 2^31 bytes (`RotationSort.OneBeforeWraps`).

The comment at src/nz_audio.cpp:456 says that a context decays towards 16 times the symbol; the code
takes it towards 256 times the symbol (`AudioModel.ContextSettles`).

The comment at src/nz_bwt.cpp:1398-1407 expects bucket shapes on which the positions in C do not
rise along P, and a descent to the fixed point. The code never meets one: C always rises
(`RankMachine.InsertKeepsOk`, `RankMachine.DeathKeepsOk`), the fixed point is unique
(`RankMachine.RankIsFixedPoint`), and the only correction ever made is from rank 254 up to 255
(`RankMachine.LastRankIsReached`).

## Model

| member | source | states |
|---|---|---|
| `RangeCoder.CodeInBounds` | src/nz_bwt.cpp:1139-1154 | whatever follows, the bytes of a coder whose interval is lo..hi read as a number in lo..hi, zeros read past the end, one flush byte included |
| `RangeCoder.CoderRoundTrip` | src/nz_bwt.cpp:34-60 | for both split formulas, every adaptive model and every bit string, decoding the zero-extended bytes gives the bits |
| `RangeCoder.Encoder.Flush` | src/nz_bwt.cpp:1143-1153 | the bytes put out are the code of all decisions made, cut at the capacity; overflow is reported exactly when something was cut |
| `RangeCoder.Decoder.Read` | src/nz_bwt.cpp:49-59 | a decision that was coded with the same probability is read back, and the decoder then stands before the next one |
| `CodeLength.ShareIsFair` | src/nz_bwt.cpp:1143-1147 | a one keeps p/4096 of the interval, short of it by less than 4096 (4095 and less for the fine split), and a zero the rest |
| `CodeLength.CodeIsNoLonger` | src/nz_bwt.cpp:1139-1154 | the code has at most as many bits as the decisions cost, each by the share of the interval it keeps, and one byte |
| `CodeLength.CodeIsNoShorter` | src/nz_bwt.cpp:1139-1154 | and at most 24 bits fewer |
| `CodeLength.LikelyRunIsShort` | src/nz_bwt.cpp:1139-1154 | decisions that all go the likely way make at most a byte for eight of them and one more |
| `CodeLength.NudgeIsFair` | src/nz_bwt.cpp:1471-1474 | a cell moves by 1/div of the way to the bit that came, rounded |
| `CodeLength.RatedIsFair` | src/nz_bwt.cpp:1440-1445 | a counting cell by a share that halves with its count, which stops at its limit |
| `CodeLength.CellLearns` | src/nz_bwt.cpp:1471-1474 | a bit that comes n times in a row through one fresh cell costs at most n + 16 bits in all |
| `ContextMixing.Decode` | src/nz_cm.cpp:1151-1182 | for any predictor with probabilities up to 4095: as many bytes of the text as the budget of 8 bits a byte reaches, and with the whole budget the text and the encoder's final state |
| `CodeLength.CodeIsShort` | src/nz_cm.cpp:1218-1230 | decisions coded from the whole interval make at most four bytes each and one more |
| `ContextMixing.RoundTrip` | src/nz_cm.cpp:1151-1230 | encoding and decoding from equal states gives the text and equal states |
| `AudioModel.EvictedCounted` | src/nz_audio.cpp:447-452 | where frequencies are 1 + 8 times the occurrences in the window, as every operation keeps them, the symbol that leaves it still has a frequency of 9 or more |
| `AudioModel.SymbolInterval` | src/nz_audio.cpp:427-445 | in every such state the context selected is one of the 32 (the mask changes nothing) and every symbol has a non-empty share of the 16384 |
| `AudioModel.ContextFollows` | src/nz_audio.cpp:456-457 | the context moves a sixteenth of the way towards 256 times the symbol, rounded, and comes nearer while it is more than 8 away |
| `AudioModel.ContextSettles` | src/nz_audio.cpp:427-457 | a symbol that keeps coming ends up in one context of the 32, the same for two neighbouring symbols |
| `AudioInterval.CodeInInterval` | src/nz_audio.cpp:887-907 | the bytes of the rest of a message read as a number inside the interval, squeezes and the final up to four bytes included |
| `AudioBitcount.BitcountCoder.Encode` | src/nz_audio.cpp:861-914 | succeeds exactly for a non-empty list of classes below 64 whose body fits 16 bits (the exits for range 0 are never taken), and then gives that packet and the state after it |
| `AudioBitcount.BitcountCoder.Decode` | src/nz_audio.cpp:402-485 | consumes exactly the stated length of any packet that is there; a packet of the encoder, whatever follows it, gives the classes back and leaves the encoder's state |
| `StableSort.PlacedIsStable` | src/nz_bwt.cpp:797-801 | the counting sort of the bytes is stable, and entry k's place is its count of smaller and earlier equal ones |
| `BwtTable.SymOf` | src/nz_bwt.cpp:633-637 | the search in the 257 counts finds the byte of the row, so it need not be kept in the table |
| `BwtWalk.WalkReads` | src/nz_bwt.cpp:805-821 | from any row, the walk reads the block cyclically from that row's rotation on |
| `BwtWalk.WalkInverts` | src/nz_bwt.cpp:805-821 | for every order of the rotations, equal ones in any order: n steps from the block's row read the block and end where they began |
| `BwtUntransform.NoMeeting` | src/nz_bwt.cpp:715-719 | two chains that have not run into a start never stand on the same row |
| `BwtUntransform.WalkChains` | src/nz_bwt.cpp:681-733 | under any interleaving of the chains' steps each runs to the next start, and all of them together take at most n steps |
| `BwtUntransform.Stitch` | src/nz_bwt.cpp:739-768 | the chains put together from the primary one give what the plain walk gives, and its verdict |
| `BwtUntransform.Untransform` | src/nz_bwt.cpp:775-822 | for any bytes and start row, one cycle or several, either way of walking: true exactly when n steps return to the start, and then the bytes walked over |
| `BwtUntransform.UntransformSorted` | src/nz_bwt.cpp:775-822 | on the column of any order of the rotations, from the block's row, true and the block |
| `RotationSort.RoundDoubles` | src/nz_bwt.cpp:1016-1095 | ranks by k bytes, sorted by (rank, rank k further on) and numbered anew, are ranks by 2k bytes |
| `RotationSort.SortAll` | src/nz_bwt.cpp:1037-1045 | shifting the order back by k and scattering it by rank sorts by both keys |
| `RotationSort.SortGroups` | src/nz_bwt.cpp:1057-1094 | sorting inside the groups left, each rank its group's first position, sorts the whole by both keys and numbers it |
| `RotationSort.SortRotations` | src/nz_bwt.cpp:994-1095 | the rounds end in an order of the rotations of the block |
| `RotationSort.OneBeforeWraps` | src/nz_bwt.cpp:1097-1101 | the 32-bit rule for the position before is right everywhere if and only if the block has at most 2^31 bytes |
| `RotationSort.TransformRoundTrip` | src/nz_bwt.cpp:775-1104 | the transform and its inverse give the block, periodic blocks included |
| `Periods.SmallestDivides` | src/nz_bwt.cpp:934-938 | two periods that fit into the block together: the smallest divides the other |
| `Periods.AllRotationsDistinct` | src/nz_bwt.cpp:939-950 | true exactly when no two rotations are equal, by the failure function and one division |
| `SuffixRoute.SuffixesAreRotations` | src/nz_bwt.cpp:841-847 | suffixes of the block written twice that begin in the first copy are in the order of the rotations |
| `SuffixRoute.Renumber` | src/nz_bwt.cpp:964-983 | the numbers of the bytes that occur rise with them, stay above the sentinel and below the alphabet size, and never wrap in their byte |
| `SuffixRoute.OrderIsUnique` | src/nz_bwt.cpp:841-847 | there is only one order of the rotations if and only if no two of them are equal |
| `SuffixRoute.TransformEither` | src/nz_bwt.cpp:952-1104 | with the second route over any correct suffix sort, the result is again an order of the rotations, its column and the block's row |
| `SuffixRoute.RoutesAgree` | src/nz_bwt.cpp:841-847 | both routes give the same column, and the same row unless two rotations are equal |
| `BitStream.BitWriter.Flush` | src/nz_bwt.cpp:1158-1181 | there is an overflow if and only if more bits were put than the capacity has; without one the bytes are the bits put, first bit on top, and zeros up to a byte |
| `BitStream.BitReader.GetBits` | src/nz_bwt.cpp:71-105 | a number written with that many bits is read back, across word boundaries and past a partial last word |
| `RankCoding.ReadRank` | src/nz_bwt.cpp:413-485 | reads back any rank delta that does not exceed the bucket, with cells and raw bits in step; refuses the others |
| `SymbolSet.ReadSet` | src/nz_bwt.cpp:345-356 | on any input, different symbols, at least one and no more than bytes; on a written list, that list |
| `RankMachine.RunIsOneSymbol` | src/nz_bwt.cpp:399-409 | the bytes up to the second symbol's next occurrence are the first symbol, and it changes there |
| `RankMachine.InsertKeepsOk` | src/nz_bwt.cpp:1408-1429 | after a symbol is put back, C again rises along P and holds every live symbol's next occurrence |
| `RankMachine.DeathKeepsOk` | src/nz_bwt.cpp:320-325 | so it does after a symbol that does not occur again is retired |
| `RankMachine.DeltaIsNatural` | src/nz_bwt.cpp:1352-1354 | a coded delta never underflows |
| `RankMachine.StepsPass` | src/nz_bwt.cpp:1387-1393 | skipping eight entries is eight single steps |
| `RankMachine.RankIsFixedPoint` | src/nz_bwt.cpp:1395-1429 | a guess k is what the decoder's walk at next - k returns if and only if k is the rank of the next occurrence |
| `RankMachine.LastRankIsReached` | src/nz_bwt.cpp:1414-1424 | the encoder's first guess stops at 254; a symbol that belongs at 255 is still put there |
| `RankEncoder.Reinsert` | src/nz_bwt.cpp:1408-1429 | returns the rank of the next occurrence, whatever its guesses, and puts the symbol there |
| `RankEncoder.Walk` | src/nz_bwt.cpp:1297-1356 | the walk over the occurrence index records exactly the steps and ends of the run machine |
| `RankDecoder.MoveBack` | src/nz_bwt.cpp:487-521 | from a delta, the decoder arrives at the encoder's next state |
| `RankDecoder.DecodeRuns` | src/nz_bwt.cpp:393-528 | on the coded ranks and ends of a bucket, the bucket |
| `BucketTables.FillUp` | src/nz_bwt.cpp:307-318 | the absent symbols follow in rising order at keys beyond the bucket, which makes P a permutation |
| `BucketTables.ReadFirsts` | src/nz_bwt.cpp:361-369 | reads back where each symbol first occurs, and touches no other entry |
| `BucketTables.ReadEnds` | src/nz_bwt.cpp:371-377 | reads back the run counts at which symbols end; never one outside the bucket |
| `BucketCoder.DecodeBucket` | src/nz_bwt.cpp:327-529 | from the arithmetic bytes and the raw bits of any coding of a bucket, the bucket |
| `RlePrepass.ExpandRuns` | src/nz_bwt.cpp:137-203 | succeeds on a collapsed bucket if and only if no run's class is above 30, and then gives the bucket |
| `RlePrepass.LongRunIsRefused` | src/nz_bwt.cpp:137-203 | a bucket of 2^31 + 2 zeros is collapsed and then refused |
| `RlePrepass.NoLongRunIsShort` | src/nz_bwt.cpp:1509-1536 | without so many equal bytes in a row no class is refused |
| `BucketFrame.BackwardsStream.ReadVarint` | src/nz_bwt.cpp:112-126 | takes the number that stands last, leaving what is in front of it |
| `BucketFrame.UnpackBucket` | src/nz_bwt.cpp:534-587 | from any stream of a bucket the bucket or a refusal, and a refusal only for a run that is too long |
| `BwtBlock.SplitBuckets` | src/nz_bwt.cpp:1597-1640 | for every thread count the buckets make up the block: one bucket for one thread; for several, any two that follow each other, empty ones aside, have at least one thread's share together (0x40000 bytes at least), and half of that follows from the second one's beginning on |
| `BucketFrame.PackBucket` | src/nz_bwt.cpp:1541-1586 | in a bucket of more than 8 bytes the pre-pass is kept if and only if it pays, and so is the rank coder behind it; there is no stream if and only if the bucket has at most 8 bytes or neither is kept |
| `BwtBlock.Rooms` | src/nz_bwt.cpp:1644-1653 | what is left of the room beside five times the block is shared out evenly among the buckets that are not empty, each with five times its length, in multiples of eight |
| `BwtBlock.EncodeInput` | src/nz_bwt.cpp:1593-1689 | there is a payload if and only if the block has 8 bytes or more, the room is at least 5n + 0x41000 in 32 bits, and streams and table together are shorter than the block; then that is the payload, and it codes the block |
| `BlockPays.RawIsShort` | src/nz_bwt.cpp:1297-1356 | the ranks of a bucket take at most 31 raw bits for each of its bytes, so the buffer for them never overflows |
| `BlockPays.EqualBlockIsPaid` | src/nz_bwt.cpp:1541-1689 | streams and table of any block of 400 equal bytes or more, for any number of threads and any room, are shorter than the block |
| `BwtBlock.DecodeInput` | src/nz_bwt.cpp:1701-1834 | any payload that codes a block gives it back; whatever the payload, nothing but the size asked for |
| `BwtBlock.BlockRoundTrip` | src/nz_bwt.cpp:1541-1834 | for every block, capacity and thread count: when there is a payload, it decodes to the block |
| `BwtCodec.CodecRoundTrip` | src/nz_bwt.cpp:775-1834 | the transform by doubling and the bucket coder, and both undone: the block, periodic ones included |
| `BwtCodec.EitherRoundTrip` | src/nz_bwt.cpp:775-1834 | the same where long blocks without equal rotations go over sorted suffixes |
| `Param14Format.LogGrows` | src/nz_bwt.cpp:1920-2015 | an operation put behind a run that the reader follows makes a longer such run, models and last distances in step |
| `Param14Encoder.MatchCopies` | src/nz_bwt.cpp:2006-2008 | the byte-by-byte copy of a match that the block repeats, overlapping or not, continues the block |
| `Param14Search.WalkIsLongest` | src/nz_bwt.cpp:2305-2346 | the walk along a chain gives the longest of the matches at the entries it looks at, all of them live, though it compares only those whose word at the end of the longest so far agrees; it looks at as many as it has probes unless the chain ends, the first word differs, or a match exceeds 0x40 bytes |
| `Param14Search.LatestIsFound` | src/nz_bwt.cpp:2159-2165 | with all places so far entered, the match found is at least as long as the one at the last place of the same hash, if that has the same word |
| `Param14Search.StepEnters` | src/nz_bwt.cpp:2389-2392 | every step, match or literals, enters all the places it passes, in their order |
| `Param14Search.LongRepeatIsMatched` | src/nz_bwt.cpp:2263-2427 | where 0x100 bytes go on like those at the last place of the same hash, the parse makes a match of at least 0xff bytes, in blocks of less than 2^30 bytes |
| `Param14Encoder.Encoder14.Search` | src/nz_bwt.cpp:2263-2346 | whatever the hash and chain tables hold, it gives what Param14Search.Searched says, and a distance that is returned is one at which the block repeats |
| `Param14Encoder.Encoder14.Choose` | src/nz_bwt.cpp:2349-2440 | the gate: which match, whether it is taken, how many literals instead, and what becomes of the budget |
| `Param14Encoder.Encode` | src/nz_bwt.cpp:2234-2454 | whatever the arena, the bytes behind the block and the statistics: operations, bytes and side stream are those of the parse by Param14Search.Whole; the result is accepted if and only if the block has 0x80 bytes, the side stream stays within its room and both together are 16 bytes shorter than the block; an accepted one codes the block |
| `Param14Decoder.Decode` | src/nz_bwt.cpp:1906-2016 | any coding of a block decodes to it, tags that occur as literals included; never more than the room |
| `Param14Encoder.RoundTrip` | src/nz_bwt.cpp:1906-2456 | encoding, then decoding, gives the block |
| `LiteralRows.CodeIsOneToOne` | src/nz_lzhds_encoder.cpp:589-596 | in a context no two symbols share a code |
| `LiteralRows.CodeIsOnto` | src/nz_lzhds.cpp:188-223 | every symbol has a code, and every byte is the code of one |
| `LiteralRows.WalkIsShort` | src/nz_lzhds.cpp:199-219 | the re-checking search is over after at most 32 looks |
| `LiteralRows.OftenIsFirst` | src/nz_lzhds.cpp:159-197 | whatever the row, a symbol that has come ten times in a row in a context is sent as 0 there |
| `LiteralTable.TableIsItsRows` | src/nz_lzhds.cpp:141-157 | a table in order is determined by its 256 rows: the bitmaps are exactly their sets |
| `LiteralTable.RenewedOk` | src/nz_lzhds.cpp:165-174 | evicting the last symbol and inserting an absent one keeps a record in order |
| `LiteralContexts.DecodeCoded` | src/nz_lzhds.cpp:188-223 | gives the symbol whose code it was given, and the row after it |
| `LiteralContexts.DecodePredicted` | src/nz_lzhds.cpp:228-246 | the same row for a symbol that came from the predictor |
| `LiteralContexts.CodeOf` | src/nz_lzhds_encoder.cpp:589-596 | the code found is the symbol's |
| `LiteralContexts.Update` | src/nz_lzhds_encoder.cpp:657-670 | the encoder's move or insertion leads to the same row |
| `LiteralPredictor.ResidualIsOneToOne` | src/nz_lzhds_encoder.cpp:631-652 | in one state of the predictor no two bytes have the same residual |
| `LiteralPredictor.Predictor.Encode` | src/nz_lzhds_encoder.cpp:631-652 | the residual and the next state of the four rotating phases |
| `LiteralPredictor.Predictor.Decode` | src/nz_lzhds.cpp:469-490 | the byte with that residual, and the encoder's next state |
| `LiteralLearning.TapRounds` | src/nz_lzhds_encoder.cpp:637-646 | the prediction is the weighted sum of the last four differences of its phase over 1024, rounded |
| `LiteralLearning.ResidualIsMissing` | src/nz_lzhds_encoder.cpp:631-652 | the residual sent is what the difference that came misses of the predicted one, as a signed byte |
| `LiteralLearning.AdaptedLearns` | src/nz_lzhds_encoder.cpp:640-644 | after a residual the weights give, of the same four differences, a sum larger by the sum of their squares if it was positive, smaller by that if it was negative, the same for 0 |
| `LiteralLearning.AnswerFollows` | src/nz_lzhds_encoder.cpp:637-644 | so the prediction they would have given is on the residual's side of the one they gave |
| `LiteralLearning.NextIsAdapted` | src/nz_lzhds_encoder.cpp:631-652 | the next state adapts the phase in turn, by that residual, and turns the phases on |
| `LiteralLearning.SteadyFromRest` | src/nz_lzhds_encoder.cpp:637-646 | from rest, a steady difference of up to 64 either way is predicted exactly after 260 bytes of a phase, and ever after |
| `LiteralPredictor.SeenAfterSkip` | src/nz_lzhds.cpp:568-583 | after a match the phase by the match length, modulo the period, is the one in turn |
| `LiteralStream.TapsFit` | src/nz_lzhds_encoder.cpp:637-646 | in a chunk of up to 0x8000 bytes no weight, product or partial sum of the predictor leaves 32 bits |
| `LiteralStream.ByteTellsSymbol` | src/nz_lzhds.cpp:384-506 | with state and kind known, the byte sent determines the literal |
| `LiteralStream.TallyIsAhead` | src/nz_lzhds_encoder.cpp:607-624 | the numbers put on record when runs end announce every run to a reader that starts at the beginning |
| `LiteralEncoder.LiteralEncoder.PutLiteral` | src/nz_lzhds_encoder.cpp:587-671 | one more literal, whatever the choice of periods says: the stream, a run to be taken back included, still stands for all literals |
| `LiteralEncoder.LiteralEncoder.Settle` | src/nz_lzhds_encoder.cpp:607-625 | a run below 200 is written over by codes from the ring of 256, a longer one recorded, and either way the stream stands for the same literals |
| `LiteralTurns.ClockTellsKind` | src/nz_lzhds.cpp:387-428 | the reader's countdown says of each literal whether it was predicted |
| `LiteralDecoder.LiteralDecoder.TakeLiteral` | src/nz_lzhds.cpp:384-511 | one literal of its kind, with context, predictor and countdown as the encoder had them |
| `LiteralRates.RateWriter.Put` | src/nz_lzhds_encoder.cpp:148-164 | although the register keeps stale high bits, the bits taken are those put |
| `LiteralRates.RateWriter.Flush` | src/nz_lzhds_encoder.cpp:165-175 | all bits arrive if and only if there are at most 2040 of them |
| `LiteralRates.ReadNumber` | src/nz_lzhds.cpp:92-117 | undoes the two-level code of every 32-bit number |
| `LiteralControl.FewLiteralsFit` | src/nz_lzhds_encoder.cpp:607-624 | with periods up to 16, in chunks of up to 19543 literals, the numbers fit the buffer wherever runs begin and end |
| `LiteralPeriods.PeriodChoice` | src/nz_lzhds_encoder.cpp:702-727 | one pass over the sixteen costs finds the two cheapest, the longer of equal ones first, and chooses between them and codes |
| `LiteralPeriods.ChosenIsCheap` | src/nz_lzhds_encoder.cpp:707-725 | no period costs less than three quarters of the one chosen, and a period is on only where codes cost little enough for it to pay |
| `LiteralPeriods.Chooser.Pass` | src/nz_lzhds_encoder.cpp:672-727 | rings and running sums give, literal by literal, the choice by the rows and codes of all literals so far |
| `LiteralDrive.ChoiceIsPaced` | src/nz_lzhds_encoder.cpp:672-727 | between two choices the period stays and prediction can only go off |
| `LiteralTurning.ChosenInside` | src/nz_lzhds_encoder.cpp:702-727 | on the bytes of the cycle, for any codes that cost, the choice turns to period 2 at literal 14 of the cycle and back to 1 at literal 231 |
| `LiteralOverrun.TurnsOverrun` | src/nz_lzhds_encoder.cpp:587-751 | for every history, ring and codes from 2 up: the choice on these 30006 literals makes numbers of more than 2040 bits, in a chunk short enough and not stored raw |
| `LiteralChosen.CodesAreDetermined` | src/nz_lzhds_encoder.cpp:587-597 | contexts and parse determine all codes, and with them every choice |
| `LiteralChosen.EncodePieces` | src/nz_lzhds_encoder.cpp:363-751 | a chunk with its own choice of periods: bytes and numbers stand for its literals and matches, with the events that the choice drives |
| `LiteralChosen.ChosenRoundTrip` | src/nz_lzhds_encoder.cpp:363-751 | the program's own choice, whatever codes went before: text, contexts and table come back if the numbers fit, and without a condition for up to 19543 literals |
| `LiteralRoundTrip.RoundTrip` | src/nz_lzhds_encoder.cpp:587-751 | any literals and matches under any choice of periods: text, contexts and table come back if the numbers fit their buffer |
| `LzTokens.CopyAgrees` | src/nz_cd_tokens.cpp:742-770 | copying forwards from bytes the reader has, or from behind the chunk, goes on as the window does, overlaps included |
| `LzReplay.CopyMatch` | src/nz_cd_tokens.cpp:752-770 | the three ways of copying, one of them all at once, do what copying byte by byte does, and nothing outside the match |
| `LzReplay.ReconstructRing` | src/nz_cd_tokens.cpp:697-778 | tokens of a chunk leave exactly the chunk in the ring; no tokens touch the ring outside it |
| `LzParser.MatchLen` | src/nz_lzhd_encoder.cpp:53-77 | the length of the longest match up to the limit, found by words and halves of words |
| `LzSearch.WalkIsLongest` | src/nz_lzhd_encoder.cpp:327-353 | of the entries of a bucket up to the first that is not live, the longest match is found, or, when one of more than 0x3f bytes or up to the chunk's end comes, the first such |
| `LzSearch.SearchedIsEntered` | src/nz_lzhd_encoder.cpp:354-359 | a search that finds fewer than four bytes leaves its place in front of the bucket |
| `LzSearch.FrontIsFound` | src/nz_lzhd_encoder.cpp:310-353 | a place in front of its bucket is found from a place with the same four bytes: the match is as long as the bytes agree there, or at least eight bytes long |
| `LzSteps.SixIsWorth` | src/nz_lzhd_encoder.cpp:361-363 | a match of six bytes is worth its token at any distance, one of fewer than four at none |
| `LzSteps.NearMayBeLost` | src/nz_lzhd_encoder.cpp:361-363 | with four bytes 8 back and five bytes 0x7000 back no token is made, though the first would be worth one |
| `LzSteps.RepeatIsFound` | src/nz_lzhd_encoder.cpp:275-385 | a place searched in vain is found from a later one that goes on like it for six bytes: where no other place has gone into its bucket, no last distance agrees and the run is below sixteen literals, a token of at least six bytes is made |
| `LzParser.LzEncoder.FindRep` | src/nz_lzhd_encoder.cpp:287-292 | the first of the four distances at which two bytes agree, and none only if there is none |
| `LzParser.LzEncoder.RepLength` | src/nz_lzhd_encoder.cpp:293-297 | how many bytes agree at that distance, or 0 if that runs past the window or one byte is left; a match that is used lies in what the reader has, at the offset the reader keeps for it |
| `LzParser.LzEncoder.SearchBucket` | src/nz_lzhd_encoder.cpp:316-353 | whatever the bucket's four entries hold: match, place and the new order of the entries are those of LzSearch.Walk, and no other bucket changes |
| `LzParser.LzEncoder.Search` | src/nz_lzhd_encoder.cpp:308-363 | match and tables are those of LzSearch.Searched, second table included, and the match is there, not in the part still unparsed |
| `LzParser.LzEncoder.PutNew` | src/nz_lzhd_encoder.cpp:367-382 | a new match keeps the four signed distances in step with the reader's four offsets |
| `LzParser.LzEncoder.ParseOne` | src/nz_lzhd_encoder.cpp:275-385 | the literals passed over and the token or literal behind them are those of LzSteps.Stepped |
| `LzParser.LzEncoder.SparseAppend` | src/nz_lzhd_encoder.cpp:180-215 | a chunk that is not parsed is entered at eight places of each 0x493, as far as it goes, and nowhere else |
| `LzParser.LzEncoder.EncodeChunk` | src/nz_lzhd_encoder.cpp:218-400 | for any table contents that name places in the window and any usable hint: tokens, tables and next hint are those of LzSteps.Parsed; the tokens and literals, replayed on an equal ring, write the chunk; the next hint is the one passed on if and only if the chunk is all like the byte before it and goes on at the old hint's place for at most ten bytes, and otherwise it lies in the chunk |
| `LzParser.HintInWindow` | src/nz_lzhd_encoder.cpp:251-262 | the comparison with the hint's place reads inside the window if and only if the hint is at most twice its size |
| `LzParser.HintStays` | src/nz_lzhd_encoder.cpp:387-388 | when a hint that a covering match passes on is usable again: if and only if it is at most three more than the window and the chunk's end together (for hints 1 and 2, a bound on the end) |
| `LzChunks.SendChunk` | src/nz_lzhd_encoder.cpp:799-820 | window and ring equal before: one chunk, parsed, stored or only entered, comes back, and they are equal after |
| `LzChunks.SendAll` | src/nz_lzhd_encoder.cpp:660-822 | chunks of all kinds over any number of laps come back; it stops exactly before the first parsed chunk whose hint is unusable, the hints being those that follow from the chunks |
| `LzChunks.TameIsSent` | src/nz_lzhd_encoder.cpp:251-262 | if no parsed chunk is one byte repeated, and at most a window of bytes goes unparsed in front of each, all are sent |
| `LzChunks.FirstParsed` | src/nz_lzhd_encoder.cpp:185 | the first parsed chunk is sent if and only if at most two windows of bytes came before it |
| `LzChunks.LongWaitStops` | src/nz_lzhd_encoder.cpp:185 | a window of 0x10000, five unparsed chunks of 0x8000 bytes, then a parsed one: five are sent |
| `LzChunks.FlatChunkStops` | src/nz_lzhd_encoder.cpp:387-388 | five unparsed chunks of ones, 0x1ff01 bytes in all, then a parsed chunk of 256 ones, all one match, then any parsed one: six are sent |
| `LzVarint.VarintReaches` | src/nz_lzhd_encoder.cpp:82-91 | with one limit a number comes back, whatever follows, if and only if it is below the limit's reach |
| `LzVarint.LimitIsReached` | src/nz_lzhd_encoder.cpp:82-91 | of the numbers up to a limit of at most 0x8000 only the limits 0x100 and 0x8000 themselves are out of reach |
| `LzVarint.ShortLimit` | src/nz_cd_tokens.cpp:1033-1034 | written with a limit of 0x7fff or 0x8000 and read with a smaller one, a number comes back if and only if it is below 0x80 or the reader's limit is above 0x100 |
| `LzVarint.LongLimit` | src/nz_cd_tokens.cpp:1116 | the same for a limit of 0x20000 |
| `LzVarint.ReadVar` | src/nz_cd_tokens.cpp:433-447 | the number that stands there by the limit, how many bytes it takes, and whether some are missing |
| `LzRuns.ColumnRle` | src/nz_lzhd_encoder.cpp:406-446 | the bytes that stay and the run lengths beside them are those of the packed form, for every threshold |
| `LzRuns.RleExpand` | src/nz_cd_tokens.cpp:278-337 | of packed bytes and run lengths, with room for it, the column; of anything else never more than the room |
| `LzRuns.RunsRoundTrip` | src/nz_lzhd_encoder.cpp:720-734 | column or chunk, packed with any room for the run lengths: it comes back whenever they fit |
| `LzFields.PutField` | src/nz_lzhd_encoder.cpp:493-504 | the byte and the raw bits of a value |
| `LzFields.TakeField` | src/nz_cd_tokens.cpp:129-140 | the value, for every 32-bit value of each of the three fields |
| `LzTokenBytes.TokensAreNarrow` | src/nz_lzhd_encoder.cpp:485-511 | the tokens of a chunk have no more raw bits than its bytes have bits, so their buffer never overflows |
| `LzTokenBytes.CodeColumn` | src/nz_lzhd_encoder.cpp:451-480 | the column packed if that is shorter and its run lengths fit, and only then; otherwise as it is |
| `LzTokenBytes.TakeSection` | src/nz_cd_tokens.cpp:1033-1141 | of a section whose limits agree, the tokens, with what follows left alone |
| `LzTokenBytes.ChunkIsSpanned` | src/nz_cd_tokens.cpp:697-778 | tokens that write a chunk are about no more bytes than it has |
| `LzTokenBytes.SectionRoundTrip` | src/nz_lzhd_encoder.cpp:485-525 | the tokens of a chunk, written and read with the chunk's length, come back, but for more than 125 of them in 256 or 257 bytes |
| `Crc64Math.CrcJoins` | include/nz_selfcheck.h:66-86 | the checksum of a join is the first one fed as many zero bits as the second has, plus the second |
| `Crc64Standard.PolyIsGenerator` | include/nz_selfcheck.h:37 | the constant has exactly the coefficients of the generator polynomial of ECMA-182 below x^64, the highest in its lowest bit |
| `Crc64Standard.StepIsTimesX` | include/nz_selfcheck.h:37-46 | one bit fed is a multiplication by x modulo that polynomial |
| `Crc64Standard.ChecksumIsStandard` | include/nz_selfcheck.h:37-61 | the checksum, complemented, is the remainder of the message's bits, lowest of a byte first, followed by 64 zeros, with the first 64 bits complemented |
| `Crc64Math.SliceStep` | include/nz_selfcheck.h:90-105 | a register k + 8 bits on is its low byte k + 8 bits on plus its other bytes k bits on: what each of the eight tables looks up |
| `Crc64Check.Crc64.UpdateTable` | include/nz_selfcheck.h:47-61 | eight bytes at a time or one, the register is that of the bytes fed one bit at a time |
| `Crc64Check.Square` | include/nz_selfcheck.h:111-113 | the square of the matrix of n zero bits is that of 2n |
| `Crc64Check.Combine` | include/nz_selfcheck.h:67-86 | by repeated squaring, the first checksum behind 8 times the length zero bits, plus the second |
| `Crc64Check.Join` | include/nz_selfcheck.h:67-86 | of the checksums of two strings, that of both together |
| `SelfCheckRuns.Runs` | include/nz_selfcheck.h:155-184 | per name, the runs of the sorted items, in order |
| `SelfCheckRuns.PiecesJoin` | include/nz_selfcheck.h:165-177 | consecutive pieces of a file, in order, make one run with the checksum of the whole |
| `SelfCheckRuns.SortedIsRising` | include/nz_selfcheck.h:156-161 | sorting brings the pieces of a file into their order in the file |
| `SelfCheckRuns.FileIsOneRun` | include/nz_selfcheck.h:155-184 | from any shuffled split of a file into non-empty pieces, among other files' pieces: one run with the whole file's checksum |

## Left out

- BwtBlock.EncodeInput: blocks of 2^31 bytes and more, on which the 32-bit test whether the pre-pass pays can wrap.
- BwtBlock.DecodeInput: blocks of 2^32 - 256 bytes and more, beyond which the keys of absent symbols do not fit 32 bits.
- RotationSort.Transform: blocks above 2^31 bytes, on which it is wrong (`RotationSort.OneBeforeWraps`).
- SuffixRoute.TransformEither: the sorting of suffixes itself (`SaIs`) is a parameter with the contract its comment states.
- Param14Encoder.Encode: blocks above 2^31 bytes, whose negated distances do not fit a signed word; fewer than four readable bytes behind the block.
- Param14Search.LongRepeatIsMatched: blocks of 2^30 bytes and more, on which the scores of lengths may wrap in their 32 bits.
- LzSteps.RepeatIsFound: places in runs of sixteen literals and more, some of which the program passes over without a search.
- LiteralRoundTrip.RoundTrip: where the numbers of the runs take more than 2040 bits the program loses them, so nothing is promised.
- LiteralRates.ReadNumber: reading past the end gives zeros here and filler in the program; a prefix of 32 ones, which no writer makes, is refused.
- BucketFrame.UnpackBucket: the program unpacks in place, in a scratch area of three times the output's size in which input and staging overlap (src/nz_bwt.cpp:534-587, 1735-1760); the model has separate sequences.
- BwtUntransform.WalkChains: threads are an arbitrary interleaving of steps over tables that are values; the pages the workers fill and the atomics are not modelled.
- RotationSort.SortGroups: the program numbers a group while placing it; here it is placed first and numbered then.
- ContextMixing.Encode: the inside of the predictor (`CM_Input_Bit`) is a parameter.
- Crc64Check.Crc64.UpdateTable: folding by carry-less multiplication is not modelled.
- The audio codec around its range coder: the binary coder (variant A), octave classes, predictors, inter-channel stage, sample packing, chunk framing.
- LzParser.LzEncoder.EncodeChunk: windows of 2^30 bytes and more; the 256 bytes kept in front of the window, which no distance ever reaches.
- LzReplay.ReconstructRing: numbers of corrupt tokens are not wrapped at 32 bits.
- LzTokenBytes.CodeColumn: the arithmetic coder that may follow on the bytes of a column; columns and literals are raw here.
- LzTokenBytes.TakeSection: where columns come out too short the program reads on behind them; the model refuses.
- The x86 filter, param15, canonical Huffman codes, the LPC and LMS predictors.
- LiteralOverrun.TurnsOverrun: the match finder, and the contexts that give the codes, are not run on its bytes.
- The `-cD` match finder and its tokens.
- Corrupt input beyond what a refusal or a size promises; environment switches, traces, the command line and the container.
