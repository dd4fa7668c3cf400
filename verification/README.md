# Fingerprint driver: verified models

This project models the integer core of a fingerprint sensor driver and proves
properties of it with Dafny. `dafny verify dfyconfig.toml` checks everything.
The model has four parts.

**Framing and receiver session** (`Transport`, `Protocol`, `Stream`,
`SessionCore`, `Session`, `SessionRuns`, `CommandReplies`, `CommandProgress`). A byte stream is cut
into frames by a parser that finds its way back after noise. `Stream` is the
parser as a function on byte strings; `Session` is the object that works in
place on a fixed buffer, tied to those functions; `SessionRuns` is the system of
one receiver, any number of readers and commands, as steps in any order.

**Enrollment and template codec** (`Crc`, `LittleEndian`, `Template*`,
`Similarity`, `Enrollment`, `EnrollmentObject`). An enrollment gathers samples and
running aggregates; a template is its checksummed binary form.

**Matcher** (`Descriptor`, `RecordMode`, `TopK`, `Cordic`, `Matcher*`, `ScoreViews`,
`RigidCopies`, `PairingLaws`, `EnrollmentScore`, `EnrolledMatching`). Bounded seed lists,
greedy pairing under gates, fixed-point scores, and the consensus of the three
best samples, up to the recognition of a capture from its stored template.

**Extractor kernels** (`Arithmetic`, `SquareRoot`, `Hadamard`, `Projection`,
`ProjectionRecord`, `DescriptorCompression`, `SummedArea`, `QualityMap`,
`Orientation`, `OrientationLaws`, `GaussianLaws`, `Solve`, `ScaledDivision`,
`Filter`, `FilterSymmetry`, `Pyramid`, `PyramidChain`, `Components`,
`ComponentLabelling`, `LargestComponents`, `PatternFill`, `FillOrder`,
`FillTable`, `FillTopology`).

Conventions: integers are unbounded and every wrap-around the source relies on
is written out with the functions of `Words`; sizes that several parts agree on
are in `Sizes`. Lemmas about parsers, similarity measures, descriptor distances
and kernels are stated for every header rule, measure, distance and kernel where
the particular one does not matter, and then applied to the real one. Images are
two-dimensional arrays, or functions of column and row where the source only
reads them.

Where the code differs from what one would expect, the model follows the code:

- the 64-bit square root doubles its partial root in 32 bits, so it is exact
  only up to 2^62 (and at the very top): `SquareRoot.ExactDomain`;
- the rectangle sum of the quality map clamps the column and row before the
  rectangle to 0 and so loses column 0 and row 0: `SummedArea.BorderLost` says
  what is lost and `SummedArea.ClampingIsHarmless` when nothing is. The window
  scores, its only users, are taken from column 1 and row 1 on
  (src/gx_feature_quality_post.c:81-87);
- the flood fill labels a cell but does not visit its neighbours when its queue
  is full; this needs a component of more than 2451 cells, and without it the
  labels are exact: `ComponentLabelling.LabelComponents`;
- the writer of templates does not check sample metrics, so it can write what
  the reader refuses: `TemplateTheorems.WritableButUnreadable`;
- the factored projection is exact only while its partial sums fit 16 bits
  (`Projection.ExactProjection`), and there are descriptors that compress to
  entries beyond that: `DescriptorCompression.CompressionCanWrap`;
- the rounded mean of the local classification adds half the area and truncates
  toward zero, so negative means come out too high: `QualityMap.MeanRounds`;
- angles above 13940 would give the histogram a negative index:
  `Orientation.BinInRange`.

## Model

| member | source | states |
|---|---|---|
| `Transport.DecodeInvertsBuild` | src/gx_transport.c:76-107 | Decoding the wire image of any sendable frame gives that frame whatever bytes follow it, and decoding fails for every cut inside header or payload. |
| `Transport.HeaderByteErrorDetected` | src/gx_transport.c:17-22 | Of two header byte groups that both pass family, length and checksum, neither is a single-byte corruption of the other. |
| `Transport.AnnouncedChecksum` | src/gx_transport.c:76-107 | A header is accepted only when its fourth byte is the checksum of its type byte and the length it announces. |
| `Transport.WireBytes` | src/gx_transport.c:9-74 | The bytes of a sent frame: type, length with the low byte first, their sum modulo 256, the payload, zeros up to a whole number of 64-byte blocks. |
| `Transport.OuterBuild` | src/gx_transport.c:38-74 | The three outcomes (bad family or payload too long, buffer too small, success) with the exact bytes written; nothing is written on failure and nothing beyond the padded frame on success. |
| `Transport.WireSize` | src/gx_transport.c:24-36 | The padded size is the least multiple of the 64-byte block that holds header and payload, and zero exactly for payloads over the maximum. |
| `Protocol.DecodeInvertsEncode` | src/gx_protocol.c:77-120 | A built message decodes to what it was built from, whatever bytes follow it. |
| `Protocol.MessageBytes` | src/gx_protocol.c:20-75 | The bytes of a built message: command, little-endian length counting data and checksum, data, and a last byte that brings the sum of all bytes, acknowledgement bit left out, to 0xaa modulo 256. |
| `Protocol.DataByteErrorDetected` | src/gx_protocol.c:20-35 | A message with one changed data byte still passes exactly when it carries the bypass value 0x88 in place of a checksum. |
| `Protocol.ComputeChecksum` | src/gx_protocol.c:20-35 | The summing loop computes 0xaa minus the byte sum modulo 256, the acknowledgement bit of the command byte left out. |
| `Protocol.InnerBuild` | src/gx_protocol.c:37-75 | All error cases, the exact message written, and an untouched buffer on failure. |
| `Stream.ParseAppend` | src/gx_session.c:145-192 | For all byte strings a and b: parsing a, keeping its remainder and parsing on with b dispatches the frames of a + b and leaves the same remainder. |
| `Stream.ChunkingIndependent` | src/gx_session.c:194-214 | Any two ways of cutting one byte string, valid frames or not, dispatch the same frames and leave the same bytes. |
| `Stream.DroppedIsNoise` | src/gx_session.c:145-192 | Bytes dropped while no header was found never influence what is parsed when more bytes arrive. |
| `Stream.TakeIsFinal` | src/gx_session.c:145-192 | A complete frame at the front is the first frame no matter what is appended. |
| `Stream.RestIsStable` | src/gx_session.c:145-192 | Parsing a remainder again dispatches nothing and drops nothing. |
| `Stream.ReceiveInvertsSend` | src/gx_session.c:145-214 | Any list of sendable frames, padded, sent back to back and received in any chunks, comes out as exactly that list in order; only padding zeros remain. |
| `Stream.TransferAlwaysFits` | src/gx_session.c:194-214 | After every parse at most 27650 bytes remain, so a 4096-byte transfer always fits and the overflow reset cannot fire from the receive loop. |
| `SessionCore.DispatchKeepsValid` | src/gx_session.c:81-143 | Every dispatched frame keeps the queue within its capacity and the slot tables whole. |
| `SessionCore.StatusTellsErrors` | src/gx_session.c:81-143 | The status is success exactly when no error counter moved; otherwise exactly one did and neither queue nor slots changed. |
| `SessionCore.AckGoesToCommand` | src/gx_session.c:43-62 | An acknowledgement that carries the byte of a command, with or without its acknowledgement bit, is stored in the entry of that command. |
| `SessionCore.BuiltMessageGoes` | src/gx_session.c:64-79 | A message built for a command decodes to its data and is stored in that command's response entry, unless it was built for (0xb, 0) with data, which is an acknowledgement. |
| `SessionCore.SlotsApart` | src/gx_session.c:43-79 | No two commands share an entry. |
| `SessionCore.FrameCountedOnce` | src/gx_session.c:95-142 | A frame that is not TLS is counted once as a frame, as a notice exactly when it is one, and once by what became of its message: stored, undecodable or corrupt; no other counter moves. |
| `SessionCore.TlsCounted` | src/gx_session.c:96-117 | A TLS payload is queued whole and its bytes counted, or, exactly when it does not fit, counted as an overflow and dropped whole. |
| `Session.Session.DiscardPrefix` | src/gx_session.c:30-41 | The buffer afterwards holds the bytes after the discarded prefix; everything is discarded when the count exceeds what is there. |
| `Session.Session.DispatchOuter` | src/gx_session.c:81-143 | Queue, slots, counters and the status returned are the dispatch functions of those before; an undecodable frame only counts as a framing error and returns its code. Which slot an answer goes to is `SessionCore.AckGoesToCommand` and `SessionCore.BuiltMessageGoes`. |
| `Session.Session.StreamParse` | src/gx_session.c:145-192 | The in-place parser leaves the remainder, and dispatches the frames, that the parse function gives for the buffered bytes. |
| `Session.Session.StreamFeed` | src/gx_session.c:194-214 | A transfer is appended and parsed; one that does not fit first costs the buffered bytes and a framing error; one larger than the buffer is refused. |
| `Session.Session.Receive` | src/gx_session.c:226-256 | Over any list of transfers the object has dispatched, and keeps, what the whole byte stream yields; no transfer is lost to the overflow reset. |
| `Session.Session.TlsClear` | src/gx_session.c:503-515 | The queue is emptied, the bytes it held are wiped, and nothing else changes. |
| `Session.Session.TlsTake` | src/gx_session.c:517-578 | A reader gets the front of the queue up to its capacity and the rest moves up; with an empty queue it gets the receiver error or a timeout. |
| `SessionRuns.TlsBytesConserved` | src/gx_session.c:96-117 | Over every interleaving of receiver, readers, clears and commands: bytes handed out followed by bytes queued equal the accepted TLS payloads since the last clear, and the queue never overruns. |
| `CommandReplies.RunOk` | src/gx_session.c:43-79 | In every reachable state each slot counts its messages modulo 2^64 and holds the last one, and every command in progress has baselines no newer than the log. |
| `CommandReplies.CommandSeesFreshReply` | src/gx_session.c:402-500 | A command that ends in success with a response hands out the payload of a matching message stored after the command was started, never a stale one; likewise for acknowledgements. |
| `CommandReplies.ResponseIsFresh` | src/gx_session.c:356-400 | A response wait that succeeds has seen a message for its command stored at or after the start of the command. |
| `CommandReplies.AckIsFresh` | src/gx_session.c:313-354 | The same for acknowledgement waits. |
| `CommandProgress.AckSeen` | src/gx_session.c:313-345 | In every reachable state a woken command finds an acknowledgement if and only if the number stored for it since it began is not a multiple of 2^64. |
| `CommandProgress.AckIsTaken` | src/gx_session.c:313-345 | From every reachable state, a command waiting for its acknowledgement that wakes after one built for it was received has the flags sent in hand and goes on, whatever happened to the receiver. |
| `CommandProgress.ResponseIsTaken` | src/gx_session.c:356-391 | The same for its response: the command ends in success with the data sent. |
| `CommandProgress.AckMissed` | src/gx_session.c:340-353 | A wait that ends with nothing stored for the command reports the error of the receiver or, at its deadline, a timeout, and then looks for a late response if one was expected or tries again. |
| `CommandProgress.CommandSucceeds` | src/gx_session.c:402-500 | From every reachable state, a command whose send succeeds and whose acknowledgement and response arrive ends in success and hands out the flags and data that were sent to it. |
| `CommandProgress.FailingSends` | src/gx_session.c:447-457 | A command whose sends all fail tries exactly as often as it was told to and reports the last failure. |
| `Crc.BurstChangesCrc` | src/gx_enrollment.c:493-512 | Two byte strings of one length that differ only within 32 consecutive bits have different CRC-32 values (section 8 of RFC 1952). |
| `Crc.FeedAllIsXor` | src/gx_enrollment.c:493-512 | Feeding bits one by one equals exclusive-or into the register followed by that many shifts, the byte-wise loop being the case of eight. |
| `Crc.Crc32Injective` | src/gx_enrollment.c:493-512 | Equal checksums mean equal registers: the final complement loses nothing. |
| `Crc.PolynomialNumber` | src/gx_enrollment.c:493-512 | The bits combined in are those of 0xedb88320, the reflected polynomial of section 8 of RFC 1952. |
| `Crc.EmptyCrc` | src/gx_enrollment.c:493-512 | The checksum of no bytes is zero. |
| `TemplateBuffer.ComputeTemplateCrc` | src/gx_enrollment.c:493-512 | The loop that reads its own field as zero computes the CRC-32 of the template with that field blanked. |
| `TemplateBursts.BurstRejected` | src/gx_enrollment.c:646-661 | Every string that differs from an accepted template only within some 32 consecutive bits, its checksum field included, is rejected. |
| `TemplateTheorems.DecodeInvertsEncode` | src/gx_enrollment.c:623-780 | Reading a written template gives the enrollment back exactly when it is coherent; every other writable one is refused as malformed. |
| `TemplateTheorems.EncodeInvertsDecode` | src/gx_enrollment.c:623-780 | Every accepted byte string is, byte for byte, what writing the enrollment read from it produces. |
| `TemplateTheorems.WritableButUnreadable` | src/gx_enrollment.c:548-621 | An enrollment with a quality of 101 is written without complaint and refused on reading: the writer does not check metrics. |
| `TemplateTheorems.WrittenHeader` | src/gx_enrollment.c:571-618 | Each field of a written template at its byte offset, the checksum at 72 being the CRC-32 of the template with that field zero. |
| `TemplateTheorems.WrittenSample` | src/gx_enrollment.c:595-612 | Each field of a written sample at its byte offset, then its records and its map. |
| `Template.WritableFits` | src/gx_enrollment.c:514-546 | The size limit of the format is never what stops a writable enrollment. |
| `TemplateBuffer.Serialize` | src/gx_enrollment.c:548-621 | The state and capacity errors, the exact bytes written, and an untouched buffer on error and beyond the template. |
| `EnrollmentObject.EnrollmentState.Deserialize` | src/gx_enrollment.c:623-780 | The object built from a byte string, or the error returned, is what the decoding function gives. |
| `Similarity.SimilaritySymmetric` | src/gx_enrollment.c:241-253 | Capture similarity does not depend on the order of its captures, and is 65536 for captures with the same contents. |
| `Similarity.BitsetJaccard` | src/gx_enrollment.c:145-164 | The byte loop, counting the bits of each conjunction and disjunction with the byte counter, computes the Q16 ratio of common to combined bits of two maps. |
| `Similarity.CountsAreOnes` | src/gx_enrollment.c:135-164 | The common and combined bits of two numbers below 256 are the set bits of the bytes x & y and x | y. |
| `Similarity.GridJaccard` | src/gx_enrollment.c:211-239 | The loop over both grids computes the Q16 ratio of common to combined occupied cells. |
| `Similarity.BuildRecordGrid` | src/gx_enrollment.c:173-209 | A grid cell is marked exactly when some record, clamped into the image, falls into it. |
| `Similarity.BlendWeights` | src/gx_enrollment.c:241-253 | Captures that share every grid cell and no map bit are three quarters alike, the other way round one quarter. |
| `Similarity.CellOfPixel` | src/gx_enrollment.c:173-209 | A record at a pixel of the 80 x 64 image, its fraction ignored, falls into the cell of 8 x 8 pixels that holds it, ten cells to a row; column from bytes 2 and 3, row from bytes 4 and 5. |
| `Enrollment.SubmitKeepsInv` | src/gx_enrollment.c:307-402 | Every submission keeps: samples pairwise non-identical and each above the three thresholds; totals, minima and maxima equal to those recomputed from the samples; maximum similarity plus minimum novelty equal to 65536. |
| `Enrollment.RunMeasuresPairs` | src/gx_enrollment.c:307-402 | After every run of submissions the recorded maximum similarity bounds every pair of different accepted samples in either order and two different samples attain it; the minimum novelty is its complement. |
| `Enrollment.RunAcceptsFrom` | src/gx_enrollment.c:307-402 | Only captures that were submitted are ever in the enrollment, and the configuration never changes. |
| `Enrollment.AcceptedExactly` | src/gx_enrollment.c:327-358 | A capture is accepted if and only if there is room, it reaches all three thresholds and no accepted sample has the same contents. |
| `Enrollment.RefusedFor` | src/gx_enrollment.c:327-358 | The reason given is the first that applies in the order room, quality, coverage, records, duplicate. |
| `Enrollment.GoodCapturesComplete` | src/gx_enrollment.c:307-402 | Captures that reach the thresholds and differ pairwise are all accepted, in order, until the enrollment is complete. |
| `Enrollment.CompletedRunRoundTrips` | src/gx_enrollment.c:514-780 | A completed run can be written, and reads back as itself exactly when the metrics of its samples are in range. |
| `EnrollmentObject.EnrollmentState.SubmitView` | src/gx_enrollment.c:307-402 | The object after a submission is the submission function of the object before, and the report says what was decided and why. |
| `EnrollmentObject.EnrollmentState.Compare` | src/gx_enrollment.c:255-402 | The scan reports a duplicate if there is one and otherwise the highest similarity to any accepted sample. |
| `EnrollmentObject.EnrollmentState.Create` | src/gx_enrollment.c:83-103 | An invalid configuration gives no object; a valid one gives a new, empty enrollment. |
| `EnrollmentObject.EnrollmentState.Reset` | src/gx_enrollment.c:105-123 | The object is as newly created with its configuration. |
| `Descriptor.PopCount8` | src/gx_enrollment.c:135-143 | Clearing the lowest set bit until none is left counts the set bits of a byte. |
| `Descriptor.PopCount32IsOnes` | src/gx_matcher.c:57-66 | The word-parallel steps count the set bits of all four bytes. |
| `Descriptor.DescriptorHamming` | src/gx_matcher.c:68-80 | The word loop computes the number of differing bits of two 20-byte descriptors. |
| `Descriptor.HammingIsMetric` | src/gx_matcher.c:68-80 | The distance is symmetric, at most 8 bits a byte, and zero exactly for equal descriptors. |
| `RecordMode.BitReverseMirrors` | src/gx_feature_record.c:6-16 | Bit i of the reversed word is bit 31 - i of the word. |
| `RecordMode.BitReverseTwice` | src/gx_feature_record.c:6-16 | Reversing twice gives the word back. |
| `RecordMode.ModeKeepsDistance` | src/gx_feature_record.c:18-54 | The matched bytes of two records, each in enroll or identify mode, are as far apart as the raw descriptors. |
| `RecordMode.ModeLosesNothing` | src/gx_feature_record.c:18-54 | Records agree in the matched bytes after the pass, in whatever modes, if and only if they did before. |
| `RecordMode.SwappedByParity` | src/gx_feature_record.c:20-46 | Pair i goes to the halves swapped exactly when i has an odd number of set bits. |
| `RecordMode.ApplyMode` | src/gx_feature_record.c:18-66 | The in-place pass leaves the record that the mode function describes, bytes outside the descriptor areas untouched. |
| `TopK.KeptIsPrefix` | src/gx_matcher.c:126-157 | After any stream of bounded insertions the list is the first elements of the stable sort of the whole stream. |
| `TopK.SortedPermutes` | src/gx_matcher.c:126-157 | The reference sort keeps exactly the elements offered. |
| `TopK.SortedAscending` | src/gx_matcher.c:126-157 | The reference sort is in ascending order of its key. |
| `TopK.SortedStable` | src/gx_matcher.c:126-157 | Elements with equal keys stay in order of arrival. |
| `TopK.InsertInPlace` | src/gx_matcher.c:126-157 | Shifting insertion in a fixed array equals bounded sorted insertion, for a full list and a growing one. |
| `Matcher.GreedyIsOneToOne` | src/gx_matcher.c:201-271 | No template and no probe record is paired twice, and every pair meets the distance, angle, class and Hamming gates. |
| `Matcher.EvaluateWellScored` | src/gx_matcher.c:170-292 | For every seed: matched pairs at most either record count, all component scores and the score at most 65536, and a nonzero score only from the required number of pairs on. |
| `PairingLaws.ErrorsOfDisplaced` | src/gx_matcher.c:195-229 | Under a motion by quarter turns, a probe record off the image of a template record by (a, b) and turned too far by e has squared distance a^2 + b^2 and angle error the magnitude of e. |
| `PairingLaws.PassesWithin` | src/gx_matcher.c:236-250 | Such a record passes the gates if and only if it is within the radius, the angle tolerance and the Hamming limit, each inclusive, and the classes agree in their low bytes or one is zero. |
| `PairingLaws.SimilaritiesFall` | src/gx_matcher.c:251-257 | Each similarity falls linearly from 65536 to zero: with the Hamming distance over 160, the square of the displacement over that of the radius, and the angle error over its tolerance. |
| `PairingLaws.WeightsOfParts` | src/gx_matcher.c:258-291 | Descriptor, place and angle weigh 7 : 2 : 1 in a pair; descriptor, place, angle and support 65 : 15 : 10 : 10 in a hypothesis. |
| `PairingLaws.HypothesisOfEqual` | src/gx_matcher.c:278-292 | Pairs of equal similarities make a hypothesis with those similarities and a support counted against the smaller side. |
| `PairingLaws.ChosenIsFirstBest` | src/gx_matcher.c:213-275 | The probe record chosen is the first unused admissible one with the highest positive pair score; none is chosen exactly when there is none. |
| `Matcher.NormalizedTurns` | src/gx_matcher.c:82-91 | Normalising adds or removes whole turns and ends within half a turn. |
| `MatcherRanges.RatioDoesNotWrap` | src/gx_matcher.c:159-168 | For every pair of records and every rotation the squared distance times 65536 fits 64 bits, so the ratio is exact. |
| `MatcherRanges.ExpectedFits` | src/gx_matcher.c:201-214 | Expected positions fit 32 bits for all coordinates and rotations. |
| `MatcherRanges.EverySeedFits` | src/gx_matcher.c:159-214 | Both hold for the motion that the matcher itself derives from any pair of records. |
| `MatcherLoops.EvaluateHypothesis` | src/gx_matcher.c:170-292 | The nested loops over a table of used probe records compute the hypothesis of the greedy pairing; where records are expected is `RigidCopies.ExpectedUnderTurn`. |
| `MatcherLoops.ChooseProbe` | src/gx_matcher.c:216-270 | The inner loop finds the first unused admissible probe record with the highest pair score. |
| `MatcherLoops.CollectSeeds` | src/gx_matcher.c:364-383 | The seed list after the double loop is the bounded list of all pairs within the Hamming limit. |
| `MatcherLoops.ScoreRecords` | src/gx_matcher.c:324-417 | Seeding and evaluation together compute the score function of the two record lists. |
| `MatcherLoops.Normalize` | src/gx_matcher.c:82-91 | The two loops compute the normalised angle. |
| `ScoreViews.BestBeatsAll` | src/gx_matcher.c:384-397 | No evaluated seed has a higher score, or an equal score with more pairs, than the hypothesis reported. |
| `ScoreViews.BestWellScored` | src/gx_matcher.c:384-397 | The reported hypothesis keeps all the bounds of a single evaluation. |
| `PairingLaws.ReportedIsFirstBest` | src/gx_matcher.c:384-397 | The hypothesis reported is that of a seed better than every seed before it, or the empty one. |
| `PairingLaws.SeedsAreExactly` | src/gx_matcher.c:364-383 | The seeds offered are exactly the pairs within the Hamming limit, in order of template and then probe record. |
| `RigidCopies.TurnInvariance` | src/gx_matcher.c:324-417 | For any valid configuration and any sample with pairwise different descriptors and at least the required number of records, its copy turned by any number of quarter turns and then shifted scores exactly 65536 with all records matched. |
| `RigidCopies.ExpectedUnderTurn` | src/gx_matcher.c:201-214 | With the sine and cosine of q quarter turns a record is expected at the probe seed plus its offset from the template seed turned by q quarter turns, x toward y. |
| `RigidCopies.TranslationInvariance` | src/gx_matcher.c:324-417 | In particular for a copy that is only shifted. |
| `RigidCopies.QuarterSinCos` | src/gx_feature_primitives.c:111-201 | Sine and cosine are exact at the multiples of a quarter turn. |
| `Cordic.OddAndEven` | src/gx_feature_primitives.c:138-201 | Within half a turn the sine is odd and the cosine even. |
| `Cordic.WholeTurn` | src/gx_feature_primitives.c:132-154 | Sine and cosine repeat after a whole turn, for every angle. |
| `Cordic.HalfTurnNegates` | src/gx_feature_primitives.c:146-201 | Half a turn more changes both signs, whatever the values of the first quadrant between its exact ends. |
| `Cordic.StepsHalve` | src/gx_feature_primitives.c:114-116 | Each rotation angle is at least half the one before it, the first half a quarter turn, and the last is one unit. |
| `Cordic.RotationsReach` | src/gx_feature_primitives.c:163-174 | Rotations by such angles, each toward the angle wanted, end within one unit of every angle of the first quadrant. |
| `EnrollmentScore.ConsensusBetween` | src/gx_matcher.c:448-505 | The top three are ranked, the best score is the maximum over all samples, and the consensus lies between the worst and the best score it uses. |
| `EnrollmentScore.EnrollmentScoreIsBest` | src/gx_matcher.c:419-514 | Every enrolled sample scores at most the reported best, which is at most 65536 and at least the final score. |
| `EnrollmentScore.CopyTopsEnrollment` | src/gx_matcher.c:419-514 | An enrollment that holds a turned and shifted copy of the probe reports a best sample score of 65536. |
| `EnrollmentScore.FullBestAccepts` | src/gx_matcher.c:480-513 | With a best sample score of 65536 the final score is at least 65536, 40960 or 32768 for a consensus of one, two or three, and a valid decision with a threshold of at most that accepts. |
| `EnrollmentScore.EnrollmentDecision` | src/gx_matcher.c:487-513 | Best, second and third score descend; it is a match if and only if a threshold is set and reached, there are samples enough for the consensus, and the best sample has the required number of pairs. |
| `EnrollmentScore.RankWeights` | src/gx_matcher.c:496-505 | The ranks weigh 5 : 3 of two and 5 : 3 : 2 of three. |
| `EnrollmentScore.RecordLayout` | src/gx_matcher.c:98-124 | The fields of a record in its bytes, lowest byte first. |
| `EnrollmentScore.RecordsAre` | src/gx_matcher.c:110-122 | The records of a sample lie back to back, sixty bytes each. |
| `EnrolledMatching.EnrolledIsRecognised` | src/gx_matcher.c:419-514 | For every completed run of submissions, every sample it accepted whose descriptors differ and which has enough records, and every copy of it turned by quarter turns and shifted as probe: the template written and read back scores the probe with a full best score and every decision with a threshold of at most the guaranteed score accepts it. |
| `EnrollmentScore.ScoreAll` | src/gx_matcher.c:419-514 | The loop with its array of three computes the enrollment score, the first sample error included. |
| `SquareRoot.Isqrt32` | src/gx_feature_descriptor_sample.c:45-61 | The bitwise loop returns the one and only integer square root of every 32-bit value; no trial value wraps. |
| `SquareRoot.Isqrt64` | src/gx_feature_descriptor_sample.c:63-82 | Below 2^62 the integer square root; from there on 2^31 plus the capped root of the rest, because the doubled root loses its top bit. |
| `SquareRoot.ExactDomain` | src/gx_feature_descriptor_sample.c:63-82 | The 64-bit result is the integer square root if and only if the argument is at most 2^62 or at least (2^32 - 1)^2. |
| `Hadamard.BuildTable` | src/gx_feature_descriptor_sample.c:289-319 | The doubling loops fill the table so that every cell is the sign of its indices. |
| `Hadamard.TableRowsOrthogonal` | src/gx_feature_descriptor_sample.c:289-319 | Different rows are orthogonal and each row has squared length 128. |
| `Hadamard.SignSplits` | src/gx_feature_descriptor_sample.c:289-319 | The sign of two indices is the product of the signs of their high and low bits. |
| `Projection.ScoreIsDot` | src/gx_feature_descriptor_assembly.c:28-77 | When the four partial sums for a bit fit 16 bits, the 4 x 32 factored score is the scalar product with the whole table row. |
| `Projection.ExactProjection` | src/gx_feature_descriptor_assembly.c:28-77 | The factored scores for a bit equal the scalar products with all four of its rows if and only if no partial sum leaves 16 bits. |
| `Projection.BoundedFits` | src/gx_feature_descriptor_assembly.c:28-77 | Entries of at most 1023 in magnitude keep every partial sum in 16 bits. |
| `Projection.BoundIsTight` | src/gx_feature_descriptor_assembly.c:28-77 | With entries of 1024 a partial sum wraps and the bit comes out wrong. |
| `ProjectionRecord.ProjectionBits` | src/gx_feature_descriptor_assembly.c:28-77 | When the partial sums for a bit fit 16 bits, each stored bit is the sign of the scalar product with its row of the table. |
| `ProjectionRecord.Project` | src/gx_feature_descriptor_assembly.c:28-77 | The loops store the four words, little-endian, then eight zero bytes, and leave the rest of the record alone. |
| `DescriptorCompression.Compress` | src/gx_feature_descriptor_assembly.c:79-105 | Every entry is the integer square root of the value clipped at a fifth of the norm; entries beyond the values are zero. |
| `DescriptorCompression.ThresholdIsFifth` | src/gx_feature_descriptor_assembly.c:79-105 | The clip threshold is a fifth of the norm rounded down, to within one and a 2^16th of the norm in five times its value. |
| `DescriptorCompression.BoundedExactly` | src/gx_feature_descriptor_assembly.c:79-105 | Compressed entries are at most 1023 in magnitude if and only if every clipped value is below 2^20. |
| `DescriptorCompression.CompressionCanWrap` | src/gx_feature_descriptor_assembly.c:28-105 | Thirty-two values of 2^20 and zeros elsewhere compress to entries of 1024, and the first projected bit comes out wrong. |
| `DescriptorCompression.CompressedIsBounded` | src/gx_feature_descriptor_assembly.c:79-105 | Values with a sum of squares below 2^44 compress to entries of at most 1023. |
| `SummedArea.FourCorners` | src/gx_feature_quality_map.c:139-166 | The sum over every rectangle is the combination of four prefix sums. |
| `SummedArea.Fill` | src/gx_feature_quality_map.c:98-135 | Every table cell is, modulo 2^32, the sum over the rectangle that ends there. |
| `SummedArea.RectSum` | src/gx_feature_quality_map.c:139-166 | Zero when the corners are outside the image; otherwise four prefix sums combined modulo 2^32, which for an ordered rectangle is its sum with column 0 and row 0 left out. |
| `SummedArea.BorderLost` | src/gx_feature_quality_map.c:139-166 | For rectangles that touch the border, exactly the sums over column 0 and row 0 are missing. |
| `SummedArea.ClampingIsHarmless` | src/gx_feature_quality_map.c:139-166 | The clamped rectangle sum is right for every image if and only if the rectangle starts at column 1 and row 1 or later; an image with one pixel set is the failing input. |
| `SummedArea.NothingWraps` | src/gx_feature_quality_map.c:98-135 | For values up to 255 squared and at most 33025 pixels no rectangle sum is truncated. |
| `SummedArea.PixelBoundIsTight` | src/gx_feature_quality_map.c:98-135 | With 33026 pixels a sum can be truncated. |
| `QualityMap.Integrals` | src/gx_feature_quality_map.c:65-137 | Refused for an empty image, changing nothing; otherwise mask and gradients are set to zero in place exactly where a pixel does not count, and the one pass fills four tables with the prefix sums of the masked planes and their products. |
| `QualityMap.KeptFromFive` | src/gx_feature_quality_map.c:90-96 | A pixel under the mask counts exactly from a gradient length of 5 on; below it all its planes are zero. |
| `QualityMap.TablesAreExact` | src/gx_feature_quality_map.c:65-137 | For gradients of byte differences, byte masks and at most 33025 pixels every rectangle sum of the product tables and of the mask table is exact. |
| `QualityMap.ClassifyLocal` | src/gx_feature_quality_map.c:228-292 | Refused for an empty image or negative radius; otherwise every cell is classed by the rounded mean of its clipped window, the three counts add up to the pixel count and the percentages to 98 to 100. |
| `QualityMap.WindowIsNeighbourhood` | src/gx_feature_quality_map.c:246-267 | The sum over the clipped window is the sum over all cells of the image within the radius. |
| `QualityMap.ClassRanges` | src/gx_feature_quality_map.c:272-283 | A mean of 2 or more is positive, from -3 to 1 neutral, below negative. |
| `QualityMap.MeanRounds` | src/gx_feature_quality_map.c:270 | The mean is the nearest one, halves upward, while the sum is at least minus half the area; below that it is truncated upward. |
| `QualityMap.UniformClass` | src/gx_feature_quality_map.c:247-285 | A neighbourhood of one value is classed by that value, or by the next one when it is negative and there is more than one cell. |
| `QualityMap.WindowSumsAreExact` | src/gx_feature_quality_map.c:235-276 | Clipped window sums of signed bytes are exact for images below 2^24 cells. |
| `QualityMap.CountsAddUp` | src/gx_feature_quality_map.c:268-290 | The class counts of any number of rows add up to the cells of those rows. |
| `QualityMap.FillInterior` | src/gx_feature_root.c:149-167 | The kernel tables, started at row 1 and column 1, hold prefix sums of the interior modulo 2^32. |
| `QualityMap.InteriorRectangle` | src/gx_feature_root.c:49-62 | Four corners give the direct sum modulo 2^32 for every rectangle away from row 0 and column 0. |
| `Orientation.PolynomialInRange` | src/gx_feature_orientation.c:53-87 | Below the cutoff the divisor of the weight is at least 0x200 and nothing wraps. |
| `GaussianLaws.PolynomialIsTaylor` | src/gx_feature_orientation.c:66-80 | Below the cutoff the divisor is at most 512 times the fifth Taylor sum of the exponential at scaled / 2^16, and at least 502 times it. |
| `GaussianLaws.WeightIsGaussian` | src/gx_feature_orientation.c:66-83 | A weight is 512 over that Taylor sum, within one half and two per cent. |
| `GaussianLaws.CoefficientIs` | src/gx_feature_orientation.c:43-51 | The coefficient makes the squared radius, in Q16, half its ratio to the variance of a deviation of one and a half scales. |
| `Orientation.GaussianWeights` | src/gx_feature_orientation.c:53-87 | Filling the upper triangle and mirroring it sets every weight from its squared radius. |
| `Orientation.WeightedDoesNotWrap` | src/gx_feature_orientation.c:157-160 | With magnitudes below 2^23 the weighted product does not wrap and no sample counts more than twice. |
| `Orientation.BinInRange` | src/gx_feature_orientation.c:149-162 | The bin index is in range if and only if the angle is at most 13940, hence for all angles within half a turn. |
| `OrientationLaws.BinIsNearest` | src/gx_feature_orientation.c:149-162 | The bin is the one nearest to half a turn minus the angle, modulo a turn. |
| `OrientationLaws.BinTurns` | src/gx_feature_orientation.c:149-162 | Turning by a quarter moves the bin by exactly nine. |
| `Orientation.TallySymmetric` | src/gx_feature_orientation.c:163-166 | With opposite duplication bins half a turn apart receive the same total from any votes. |
| `OrientationLaws.VotesConserved` | src/gx_feature_orientation.c:163-166 | The bins add up to the weights cast, or to twice those with duplication. |
| `OrientationLaws.VotesAre` | src/gx_feature_orientation.c:139-167 | The votes are those of exactly the pixels within the radius and off the border, row by row, each once. |
| `OrientationLaws.RadiusIsRounded` | src/gx_feature_orientation.c:26-41 | For scales that do not wrap the radius is four and a half scales, rounded and cut off at 32. |
| `OrientationLaws.SmoothedImpulse` | src/gx_feature_orientation.c:170-179 | A single filled bin spreads as 1, 4, 6, 4, 1 sixteenths over the five bins around it. |
| `OrientationLaws.SmoothedConstant` | src/gx_feature_orientation.c:170-178 | Equal bins stay as they are, as long as sixteen times their value fits 32 bits. |
| `Orientation.FirstMaximumInFirstHalf` | src/gx_feature_orientation.c:181-193 | The first maximum of a histogram that repeats after half a turn lies in bins 0 to 17. |
| `Orientation.Histogram` | src/gx_feature_orientation.c:97-193 | Maps without an interior are refused; otherwise radius and weight table follow from the scale, raw bins are the vote totals modulo 2^32, the histogram their smoothing; when duplicating, both repeat after half a turn and the peak is the first maximum moved to bins 18 to 35. |
| `Solve.CramersRule` | src/gx_feature_candidate.c:150-178 | For all entries: matrix times numerators is minus determinant times gradient. |
| `Solve.RangesFit` | src/gx_feature_candidate.c:150-178 | Determinant and numerators stay within 3 * 2^47, far inside 64 bits. |
| `Solve.EveryMinorFits` | src/gx_feature_candidate.c:150-178 | Both products and the difference of each of the six minors fit 64 bits. |
| `Solve.EverySumFits` | src/gx_feature_candidate.c:150-178 | Every product, partial sum, total and negated total of determinant and numerators fits 64 bits. |
| `ScaledDivision.QuotientIsTotal` | src/gx_feature_candidate.c:180-199 | When not saturated the shifted determinant is not zero and the quotient is at most 2^21 in magnitude. |
| `ScaledDivision.QuotientFits` | src/gx_feature_candidate.c:180-199 | Every value stored lies between -2^21 and 0xffffff. |
| `ScaledDivision.OperandFits` | src/gx_feature_candidate.c:187-199 | The common shift leaves both operands in 32 bits, and the scaled numerator fits 64. |
| `ScaledDivision.SaturationIsLarge` | src/gx_feature_candidate.c:180-187 | Saturation means a numerator of at least 256 determinants; otherwise it is below 512. |
| `ScaledDivision.SmallQuotientIsExact` | src/gx_feature_candidate.c:187-199 | While both operands fit 31 bits the result is the exact truncated quotient times 4096. |
| `ScaledDivision.QuotientIsClose` | src/gx_feature_candidate.c:187-199 | However far both operands were shifted, an unsaturated quotient is within two units of its last place of the exact one. |
| `ScaledDivision.CountBits` | src/gx_feature_candidate.c:23-37 | The loop returns one more than the bit length of the magnitude. |
| `ScaledDivision.ShiftIsFloor` | src/gx_feature_candidate.c:39-50 | The complement-shift-complement form is division rounded down. |
| `ScaledDivision.SolveQ12` | src/gx_feature_candidate.c:135-202 | Zero offsets for a singular matrix, otherwise one Q12 quotient per coordinate. |
| `Filter.Reflect101` | src/gx_feature_filter.c:247-257 | The loop returns the mirrored index, which is always in range. |
| `Filter.ReflectIsPeriodic` | src/gx_feature_filter.c:247-257 | Mirroring repeats after 2 (n - 1) places. |
| `Filter.FilterImage` | src/gx_feature_filter.c:274-357 | Invalid taps, empty images and differing sizes are refused and change nothing; otherwise the destination is the separable convolution of the source, even when both are one image; where a kernel sits is `FilterSymmetry.IdentityKernel`. |
| `FilterSymmetry.IdentityKernel` | src/gx_feature_filter.c:310-347 | A kernel with 65536 in the middle and zeros elsewhere leaves every 16-bit picture as it is. |
| `FilterSymmetry.FilterMirrorsX` | src/gx_feature_filter.c:274-357 | For every symmetric kernel, the only ones accepted, filtering the picture mirrored left to right gives the mirrored result. |
| `FilterSymmetry.FilterMirrorsY` | src/gx_feature_filter.c:274-357 | The same from top to bottom. |
| `Filter.FilterCode6` | src/gx_feature_filter.c:358-417 | The fast path with one multiplication computes the generic convolution with three equal taps. |
| `Filter.ConvolvedBound` | src/gx_feature_filter.c:274-357 | From a bound on the source and the tap sum: no accumulator wraps, no stored pixel is truncated, and a bound on the result. |
| `Pyramid.KernelChecks` | src/gx_feature_filter.c:37-99 | All nine kernels are symmetric, rise strictly to the middle and sum to 65536, except 304 with 65537 and 307 with 65539. |
| `Pyramid.Profile24InRange` | src/gx_feature_pyramid.c:82-102 | For every 8-bit image of any size no accumulator of any level wraps, no pixel is truncated and none exceeds 65284. |
| `Pyramid.Prepare` | src/gx_feature_pyramid.c:77-102 | The calls in their order, level 1 before level 0 in place, leave every level as the chain of filters defines it. |
| `PyramidChain.LevelSeesKernel` | src/gx_feature_pyramid.c:77-102 | Every level from 1 on has gone through each kernel from 1 to its own exactly once: with all but one of them the identity it is that one applied to the base picture. |
| `PyramidChain.FirstKernelAlone` | src/gx_feature_pyramid.c:77-102 | Level 0 is its own kernel applied to the base picture, and no other level depends on that kernel. |
| `PyramidChain.LevelsMirror` | src/gx_feature_pyramid.c:77-102 | Every level of a mirrored picture is the mirrored level, either way. |
| `Components.ConnectedSameLabel` | src/gx_feature_aux_metadata.c:151-229 | When no cell is left open, cells connected to a labelled cell carry its label. |
| `Components.FourNeighbours` | src/gx_feature_aux_metadata.c:154-155 | The neighbours of a cell are the four above, below, left and right of it. |
| `ComponentLabelling.LabelsAreSound` | src/gx_feature_aux_metadata.c:151-229 | Equal positive labels always mean 4-connected cells, whether or not the queue overflowed. |
| `ComponentLabelling.LabellingIsExact` | src/gx_feature_aux_metadata.c:151-229 | On any grid, if no push found the queue full and every cell was reached: two foreground cells have the same label if and only if they are 4-connected. |
| `ComponentLabelling.LabelledIsWhole` | src/gx_feature_aux_metadata.c:151-229 | The same when the scan stopped at the maximum: each component is labelled as a whole or not at all. |
| `ComponentLabelling.SmallComponentsAreExact` | src/gx_feature_aux_metadata.c:151-229 | On a grid of at most 2451 cells, or when no label counts more than 2451, the labels are always exact. |
| `ComponentLabelling.OverflowShows` | src/gx_feature_aux_metadata.c:151-229 | When a cell was dropped, some label counts more than 2451 cells. |
| `ComponentLabelling.LabelComponents` | src/gx_feature_aux_metadata.c:151-229 | Refusals; labels are justified and sizes count the cells of each label, always; from the queue length that each push found: one push for every labelled foreground cell, exact labels when none found the queue full, and a label counting more than 2451 cells when one did. The first cell of each label, row by row, carries it, and labels are numbered in the order of those cells; below the maximum every cell is labelled, and at the maximum every cell before the first cell of the last label. |
| `ComponentLabelling.GrowDropped` | src/gx_feature_aux_metadata.c:210-219 | A push that finds the queue full means that the component has more cells than the queue and the current point together. |
| `ComponentLabelling.Ring.Push` | src/gx_feature_aux_metadata.c:210-219 | The circular queue appends, or leaves its contents as they were when full, and keeps account of the length it found. |
| `LargestComponents.SelectLargest` | src/gx_feature_aux_metadata.c:231-256 | For any threshold and any size table: slot by slot the largest size left above the threshold, the lowest label among equals; the table is restored. |
| `LargestComponents.SelectionIsLargest` | src/gx_feature_aux_metadata.c:231-256 | Selected components are distinct, sizes descend, no label left out is larger than any selected one, and the background, once selected, fills all further slots. |
| `PatternFill.Fill` | src/gx_feature_aux_metadata.c:359-404 | The loop terminates; both images end equal, as the input plus a legal sequence of fills, with no interior pixel that either scan would still fill. The fills are those of whole passes, rows top down and then columns left to right, each line scanned once with the pixel after a fill skipped, the last pass adding nothing; that determines them (`FillOrder.FillIsDetermined`). |
| `PatternFill.FillRow` | src/gx_feature_aux_metadata.c:369-384 | The fills of a row ascend with a gap of at least two, and every position neither filled nor directly behind a fill was not fillable in the image with the fills before it. |
| `PatternFill.FillColumn` | src/gx_feature_aux_metadata.c:385-401 | The same for a column. |
| `FillOrder.LineIsDetermined` | src/gx_feature_aux_metadata.c:369-401 | There is only one result that the scan of a line can have. |
| `FillOrder.FillIsDetermined` | src/gx_feature_aux_metadata.c:359-404 | Any two sequences of whole passes whose last pass adds nothing make the same fills: the filled image is determined. |
| `PatternFill.LegalFills` | src/gx_feature_aux_metadata.c:359-404 | Legal fills set only interior pixels that were zero, each once. |
| `PatternFill.PaintedKeeps` | src/gx_feature_aux_metadata.c:359-404 | The result keeps every nonzero pixel and the whole border of the input. |
| `PatternFill.ReadIndex` | src/gx_feature_aux_metadata.c:343-357 | The index read from the array is the number of the eight neighbours, bottom left lowest. |
| `FillTable.TableMeaning` | src/gx_feature_aux_metadata.c:14-31 | The table of 256 entries allows a fill exactly when the set sides of the pixel form one chain around it and at most six of its eight neighbours are set. |
| `FillTable.FillableMeans` | src/gx_feature_aux_metadata.c:373-398 | A scan along rows fills exactly the zero pixels with a set pixel beside them on their row whose neighbours fit; a scan along columns those with one above or below. |
| `FillTable.TransposedFillable` | src/gx_feature_aux_metadata.c:359-404 | Exchanging rows and columns of the image exchanges the two scans. |
| `FillTopology.OneFill` | src/gx_feature_aux_metadata.c:359-404 | Setting one pixel the table allows changes nothing about which other set pixels are 4-connected. |
| `FillTopology.FillingJoinsNothing` | src/gx_feature_aux_metadata.c:359-404 | After any run of fills two set pixels of the input are 4-connected if and only if they were before: no two components grow together. |
| `FillTopology.FillingAddsNothing` | src/gx_feature_aux_metadata.c:359-404 | After any run of fills every set pixel is 4-connected to a set pixel of the input: no component is new. |

## Left out

- USB transfers, device opening, TLS, key handling, PAM and desktop glue, scripts: input and output only.
- Locks, clocks and condition variables: a wait may end in any way the source allows, at any step; each step holds the lock.
- Null pointers and failed allocations: every buffer a caller passes exists.
- Floating-point preprocessing and quality scoring, and the sensor mean and deviation.
- Profiles other than 24, in the pyramid, the orientation stage and elsewhere; the kernels of the auxiliary filters.
- Accuracy of the sine and cosine between the quarter turns: their symmetries, their range and the angle the rotations end at are proved, and the matcher's results use the quarter turns and the range.
- CommandProgress.FailingSends: fewer than 2^32 - 1 attempts; with the largest count the 32-bit attempt counter of the source wraps and sending never ends.
- CommandProgress.CommandSucceeds: a command that waits for both answers, other than (0xb, 0), whose response would be taken for an acknowledgement.
- Quality window score, gradient images, class statistics beyond their sums, history slots and state decoding of the auxiliary metadata: each follows from one body.
- Status-code and message strings, default configurations, self tests, attempt counters of the enrollment.
- QualityMap.Integrals: the unsigned mask table is kept as signed words of the same bits, as its reader casts it; images are arrays of their stated size.
- QualityMap.ClassifyLocal: signed 32-bit overflow, undefined in C, is taken as wrap-around; it cannot happen below 2^24 cells.
- ProjectionRecord.Project: takes the table that `Hadamard.BuildTable` fills, the only one the source passes; setting a bit above all bits set so far is modelled as adding its power of two.
- Orientation.Histogram: only angles whose bin index is in range, the condition of `Orientation.BinInRange`; the interpolation of the peak and the record fields written after it are left out.
- ComponentLabelling.LabelComponents: whether some grid of at most 19600 cells fills the queue, and whether a dropped cell then gives a wrong label, is left open; proved is that neither happens while no component has more than 2451 cells.
- LargestComponents.SelectLargest: sizes are counts, so never negative.
- EnrollmentScore.ScoreAll: parsing and scoring of one sample is passed in as a function, `ScoreSample` in the lemmas.
- Filter.FilterImage: images are arrays of their stated size, so of the image checks only empty and differing sizes remain.
- Pyramid.Prepare: all nine levels have the size of the source and are distinct; the filter callback is the modelled filter.
- RecordMode.ApplyMode: descriptors are byte strings; the record fields outside the two descriptor areas are only shown to be untouched.
