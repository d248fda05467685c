# A verified model of the core of readsb

readsb receives Mode S and ADS-B messages from aircraft, decodes them and keeps the state and the track of
each aircraft.  This project models, in Dafny, the parts of it whose correctness is decided by code rather
than by radio conditions, and proves what they are for.  `dafny verify dfyconfig.toml` checks all of it.

The parts, and the main results:

* **Positions** (`Cpr`, `CprEncode`, `CprGlobal`, `CprAirborne`, `CprLocal`, `CprSurface`).  Compact position
  reporting sends 17 bits per axis.  The decoders are those of `cpr.c` over exact reals, the encoder is that of RTCA DO-260B,
  Appendix A, section A.1.7.  Global decoding recovers an even and an odd position within half a quantisation
  step even if the aircraft moved in between, under a bound on the motion (`AirborneFix`), and has a known outcome
  for any two frames (`AirborneOutcome`); decoding against a reference yields the nearest solution
  (`RelativeOutcome`, `SurfaceOutcome`).
* **Messages** (`Bits`, `Crc*`, `Error*`, `Corrector`, `ProbedTable`, `IcaoFilter`, `ModeS*`, `MessageScore`,
  `ScoreExamples`, `KnownAddresses`, `SenderAddress`).  From the table-driven checksum to the syndrome tables, how many wrong bits it
  tells apart (`FiveErrorsDetected`, `SingleBitsUnambiguous`), the correction of damaged messages
  (`CorrectionIsExact`, `DamagedSquitterRestored`), the two-generation filter of known addresses
  (`AddressLifetime`), and a safety property over all runs of the receiver: only addresses announced by messages
  received intact are ever known (`OnlyAnnouncedAreKnown`), and they vouch for the senders of accepted messages
  (`VouchedSender`, `SenderRecovered`).
* **Traces** (`TraceModel`, `TraceScratch`, `TraceStore`, `TraceAdd`, `TraceRun`, `TraceEdit`, `TraceRewrite`, `TraceExample`,
  `TraceHistory`).  The chunked, compressed store behind a track refines a plain sequence of points and a buffered
  one; every operation states what it does to that sequence; over any run of additions it holds exactly the
  positions saved, in order (`RunKeeps`); deletion states also what the shared scratch buffer does
  to it.
* **Trace JSON** (`TraceCache`).  The cache shifted in place agrees with printing from scratch.
* **Saved state** (`StateBlob`, `StateSave`, `StateLoad`, `SaveExample`).  What is saved is loaded again, and when saving
  succeeds (`SaveAndLoad`).
* **Shared arrays** (`CraftArray`, `CraftContents`).  A state machine of any number of threads: no reallocation
  under a reader, no deadlock, and the array holds exactly what was added and not removed (`ListIsPresent`).
* **Scheduling** (`TraceSweep`), **box search and replies** (`ApiSearch`, `ApiReply`), **demodulation** (`Slicer`,
  `Demodulator`, `CleanSignal`, `DemodExample`).

Code that changes state in place is modelled by classes and methods over arrays, each proved against a
specification function; the properties are then proved of the specification.  Hash functions, compression,
printing, struct layouts and the decisions of heuristics are parameters, with the laws they are assumed to
obey stated as predicates (`Homed`, `Lawful`, `NeverEmpty`, `Bounded`).

## Findings

* `decodeCPRrelative` (`cpr.c:365`) subtracts a full turn from longitudes above 180 without regard to the
  reference, so positions just across the antimeridian are rejected by the half-cell check that follows.
  `CprLocal.RelativeOutcome` gives the exact condition, `RelativeRejectsAcrossAntimeridian` an instance.
* `traceDelete` puts the trace together in the same scratch buffer through which `setTrace` compresses it
  (`globe_index.c:3738`), and in the first round source and destination start at the same place.  The guard that a
  caller can check is the length: up to a chunk and eight points (`KeptPoints`) nothing is compressed.  Everything
  proved above that length holds only for a library that reads its whole input before it writes, which zstd does
  not promise.  With such a library the source is overwritten before it is read if the compressed bytes of a chunk
  exceed the groups read so far, and lost if the buffer has to grow: `TraceRewrite.SetTrace` gives the exact
  condition on every source, `OneRound`, `FirstTooLarge` and `ShrinkingIsIntact` conditions on sizes, and
  `TraceExample.SourceOverwritten` instances with the program's settings.
* `setTrace` copies one slot more than there are points (`globe_index.c:2154`) and so reads past a buffer made for
  a whole trace of fewer than eight full groups (`TraceRewrite.CopyPastEnd`).
* `save_blob` enlarges its buffer for a large aircraft, but not the buffer for the compressed frame
  (`globe_index.c:2833-2852`), and gives up the whole file if a frame does not fit.  `StateSave.SaveBlob` gives
  the exact condition, `OneCraft` that for one aircraft, `SmallIsWritable` one on the sizes of aircraft, and
  `SaveExample.SaveFails` instances for every initial size from the program's own on.
* `traceDelete` removes a group of four points too many exactly if no group starts after the time span
  (`globe_index.c:3731`, `TraceHistory.ExtraGroup`, instance `ExtraGroupDeleted`).
* Growing the address filter forgets the previous epoch (`icao_filter.c:84-92`): an address heard in that epoch
  only becomes unknown before its time (`IcaoFilter.AddressLifetime`, instance `EpochForgotten`).
* Score and verdict of a message disagree for three families (`MessageScore.ScoreMatchesVerdict`, instances in
  `ScoreExamples`).
* Type repair takes messages of formats 16, 21 and 25 from one address each for squitters: those from the address
  that equals the syndrome of the bit that separates the format from 17 (`mode_s.c:276`,
  `SenderAddress.OverlaidMistaken`, `MistakenSender`).
* The comment at `mode_s.c:256-257` gives 450 and 350 as the scores of squitters with two corrected bits; the code
  divides by three, which gives 600 and 466 (`MessageScore.SquitterScores`).
* With type repair the demodulator cuts 14 bytes for format 1 but then skips as for a short message, because the
  length is taken from the format as received (`demod_2400.c:399`, `Demodulator.SkipMatches`).  It does so for every
  squitter whose first bit is damaged, with the score and verdict of the decoder
  (`DemodExample.FormatOneSkipsShort`; `ScoreExamples.Long(17)` is such a squitter).
* The filters in `apiReq` add up their sizes in variables that shadow the outer one (`api.c:539`), so that the
  buffer keeps the size of the first stage, which is an upper bound (`ApiReply.ApiReq`).

## Model

| member | source | states |
|---|---|---|
| `Cpr.CprModInt` | cpr.c:62-66 | the truncating C remainder plus its correction is the mathematical residue, for negative operands too |
| `Cpr.CprModDouble` | cpr.c:68-72 | the same for fmod over exact reals: a minus a whole number of b, in [0, b) |
| `Cpr.CprNL` | cpr.c:79-146 | whichever of the three jumps into the comparison chain is taken, the result is the number whose bracket in the table contains the latitude |
| `Cpr.NLAntitone` | cpr.c:79-146 | the number of longitude zones depends only on the distance from the equator and never grows with it |
| `CprEncode.EncodeByIndex` | cpr.c:164-189 | the encoder of DO-260B A.1.7.2 sends the residue of the nearest grid index, and the position a receiver recovers is that grid point |
| `CprGlobal.ZoneResidues` | cpr.c:183-186 | the index computed from two residues is congruent to the even zone modulo n and to the odd zone modulo n - 1 whenever the scaled grid indices differ by less than half a cell |
| `CprGlobal.PairDecodes` | cpr.c:183-212 | both frames of a close enough pair decode to their own grid points up to whole spans, for any zone count n >= 2 |
| `CprGlobal.RecoveredLatInRange` | cpr.c:191-193 | rounding to the grid never leaves [-90, 90], because the poles are grid points |
| `CprGlobal.AirborneLatitudes` | cpr.c:183-193 | both latitudes come out as the grid points of the two positions, southern ones brought back by the 270 degree test |
| `CprGlobal.LongitudeDecodes` | cpr.c:199-212 | the longitude is the grid point of the chosen frame's position up to whole turns, also for a single zone, airborne and surface |
| `CprGlobal.RenormalizedLongitude` | cpr.c:214-215 | renormalising keeps the meridian, within half a quantisation step |
| `CprGlobal.AirborneFix` | cpr.c:170-221 | motion bound: for an even and an odd frame from different positions that are close enough, decoding never reports bad data, reports a zone crossing exactly when the recovered latitudes have different zone counts, and otherwise gives the position of the chosen frame within half a step on both axes |
| `CprGlobal.AirborneFixStationary` | cpr.c:170-221 | two frames of any one position always satisfy the motion bound, so they decode to it or report a zone crossing |
| `CprGlobal.EncodeWholeSpans` | cpr.c:214-215 | longitudes a whole number of spans apart are encoded alike |
| `CprGlobal.AirborneFixAround` | cpr.c:170-221 | the motion bound with the distance taken around the circle: pairs on both sides of the antimeridian decode as well |
| `CprAirborne.ClosestIs` | cpr.c:186-188 | the rounded zone index stands for exactly those zones of the two frames in which their values are closest to each other around the circle |
| `CprAirborne.SolutionIs` | cpr.c:186-188 | all closest solutions of two frames are those in the zones of the zone index, up to whole spans |
| `CprAirborne.AirborneOutcome` | cpr.c:170-221 | the outcome for any two frames, also ones that do not belong together: of the two closest solutions in [-90, 270), bad data if and only if one lies beyond a pole, a zone crossing if and only if both are valid and their zone counts differ, and otherwise the latitude of the frame chosen, in [-90, 90], with its longitude in a closest solution, in [-180, 180) |
| `CprAirborne.LatitudesExist` | cpr.c:186-191 | every two frames have such closest latitudes |
| `CprAirborne.LongitudeUnique` | cpr.c:200-219 | and only one such longitude |
| `CprLocal.NearestZone` | cpr.c:344-347 | the candidate computed for a reference stands for the encoded fraction and lies within half a cell of the reference |
| `CprLocal.NearestUnique` | cpr.c:344-347 | no other candidate does, except at an exact half-cell tie |
| `CprLocal.RelativeOutcome` | cpr.c:331-374 | the outcome for every input: failure exactly if the nearest latitude is beyond a pole or the nearest longitude is folded away from the reference by the 180 degree test, and otherwise the nearest solution; the latitude half-cell check never fails |
| `CprLocal.RelativeRejectsAcrossAntimeridian` | cpr.c:364-369 | a concrete input for that failure: a position less than 0.0001 degrees east of a reference on the antimeridian is rejected |
| `CprLocal.RelativeFixRoundTrip` | cpr.c:331-374 | an encoded position within half a cell of the reference is recovered exactly to its grid point, and rejected exactly if its recovered longitude passes 180 |
| `CprSurface.QuadrantIsClosest` | cpr.c:241-280 | the latitude picked is a quadrant of the decoded one, valid, and none is closer to the reference, including 0 standing for both poles |
| `CprSurface.PickRecovers` | cpr.c:241-280 | a latitude less than 45 degrees from the reference is picked |
| `CprSurface.TowardsReferenceWindow` | cpr.c:305-311 | the longitude is moved by whole quadrants into the 90 degrees around the reference |
| `CprSurface.TowardsReferenceRecovers` | cpr.c:305-311 | a longitude less than 45 degrees from the reference is found |
| `CprSurface.SurfaceOutcome` | cpr.c:223-319 | for every pair of frames and every reference: never bad data, a zone crossing exactly if the latitudes picked differ in zone count, otherwise the valid solution closest to the reference in latitude and within 45 degrees around the circle in longitude, in [-180, 180) |
| `CprSurface.SurfaceFix` | cpr.c:223-319 | frames of a surface vehicle with a reference less than 45 degrees away decode to the position of the chosen frame within half a step |
| `CprSurface.SurfaceFixAround` | cpr.c:223-319 | the same around the circle, for the pair and for the reference |
| `Crc.ByteStepIsShift` | crc.c:75-78 | eight single-bit steps are eight multiplications by x followed by the byte |
| `Crc.RemainderLinear` | crc.c:67-82 | the remainder of a xor of two messages is the xor of their remainders |
| `Crc.LeadingZeros` | crc.c:67-82 | leading zero bytes do not change the remainder, so syndromes of 112-bit messages serve shorter ones |
| `Crc.RemainderTail` | crc.c:80 | the last three bytes enter the remainder unreduced, as the code adds them |
| `CrcDamage.SingleBitRemainder` | crc.c:59-64 | the remainder of a single bit is the power of x for the bits after it, for any message length |
| `CrcDamage.FlipAllRemainder` | crc.c:140 | the remainder of a damaged message is that of the message xor the syndromes of the flipped bits |
| `CrcDamage.FlipAllTwice` | crc.c:410-418 | applying an error pattern twice restores the message |
| `CrcOrder.PowerNonzero` | crc.c:59-64 | no single-bit syndrome is zero |
| `CrcOrder.PowersDistinct` | crc.c:59-64 | the single-bit syndromes of a message of up to 112 bits are pairwise different |
| `CrcTables.TableStep` | crc.c:75-78 | one table lookup advances the remainder by a byte |
| `CrcTables.SyndromeOfBit` | crc.c:59-64 | what is computed for each bit of a zero message is the power of x for the bits after it |
| `CrcTables.ChecksumTables.InitLookupTables` | crc.c:42-65 | the byte table holds the remainder of each byte followed by 24 zero bits, the syndrome table that of each bit |
| `CrcTables.ChecksumTables.ByteEntry` | crc.c:46-57 | the shifting loop, whose register overflows 24 bits until the final mask, computes the remainder of the byte |
| `CrcTables.ChecksumTables.FillSyndromes` | crc.c:59-64 | flipping, computing and flipping back leaves the syndrome of each bit |
| `CrcTables.ChecksumTables.ModesChecksum` | crc.c:67-82 | the table-driven loop computes the bitwise remainder of the message by the degree-24 generator, for every message of at least three bytes |
| `CrcTables.FlipBit` | crc.c:61-63 | a bit is flipped and no other |
| `ErrorPatterns.PatternsSound` | crc.c:130-149 | every pattern visited by the enumeration is a strictly increasing set of positions of admissible size |
| `ErrorPatterns.PatternsComplete` | crc.c:130-149 | every such set is visited |
| `ErrorPatterns.PatternsDistinct` | crc.c:130-149 | none is visited twice |
| `ErrorPatterns.PatternCount` | crc.c:195-211 | their number is the sum of binomials the table is allocated for |
| `ErrorPatterns.Absorption` | crc.c:98-113 | k C(n, k) = n C(n - 1, k - 1), the recurrence that makes each division exact |
| `ErrorPatterns.Combinations` | crc.c:98-113 | the multiply-then-divide loop computes the binomial coefficient, also for n < k and negative n |
| `ErrorTable.PrepareSubtable` | crc.c:130-149 | one entry per pattern, each with its bits and the xor of their syndromes; the capacity suffices and the entries before are kept |
| `ErrorTable.PrepareBranch` | crc.c:135-146 | one round of its loop: the pattern with one more position, then all that extend it |
| `ErrorTable.QSort` | crc.c:215 | contract of the C library's sort as callers see it, met by an insertion sort |
| `ErrorTable.BSearch` | crc.c:405 | contract of the C library's bsearch on a sorted table, met by a binary search: an entry with the key, or none has it |
| `ErrorTable.DropCollisions` | crc.c:243-263 | in-place compaction keeps, in order, exactly the entries whose syndrome no other entry has: runs of equal syndromes go as a whole |
| `ErrorTable.EndOfRun` | crc.c:244-250 | the inner loop stops behind the last entry of a run and inside the table |
| `ErrorTable.FlagEntry` | crc.c:161-168 | the entry with a syndrome is marked, and counted if it was not marked before |
| `ErrorTable.HitStep` | crc.c:151-175 | a syndrome is that of a larger pattern exactly if the first position is used or skipped accordingly |
| `ErrorTable.FlagCollisions` | crc.c:151-175 | marks exactly the entries that some pattern of first_error to last_error bits hits, and returns how many are new |
| `ErrorTable.FlagBranch` | crc.c:155-172 | one round of its loop |
| `ErrorTable.DropFlagged` | crc.c:278-287 | in-place compaction keeps exactly the unmarked entries, in order |
| `ErrorCorrection.EntriesDistinct` | crc.c:130-149 | entries are distinct exactly if their patterns are |
| `ErrorCorrection.EnumerationPermuted` | crc.c:215 | sorting permutes the patterns along with the entries |
| `ErrorCorrection.AloneIsUnambiguous` | crc.c:237-263 | an entry is alone with its syndrome exactly if its pattern is unambiguous among the correctable ones |
| `ErrorCorrection.CollisionsDropped` | crc.c:237-263 | after the first compaction the table holds exactly those, strictly sorted |
| `ErrorCorrection.FlaggedDropped` | crc.c:265-294 | after the second one it holds exactly the patterns unambiguous among all detectable ones |
| `ErrorCorrection.BuildTable` | crc.c:203-263 | enumeration, sort and collision removal yield the table for detection up to the correctable size |
| `ErrorCorrection.DropDetectable` | crc.c:265-294 | flagging and removal extend that to the detectable size |
| `ErrorCorrection.PrepareErrorTable` | crc.c:180-350 | the table's entries describe exactly the unambiguous patterns, in order of their syndromes; no table without correction |
| `Corrector.ErrorCorrector.ModesChecksumInit` | crc.c:353-378 | the tables for 56 and 112 bits, with the sizes of correctable and detectable errors each option stands for |
| `Corrector.ErrorCorrector.ModesChecksumDiagnose` | crc.c:383-406 | an entry for a nonzero syndrome exists if and only if exactly one detectable pattern has it and that is correctable, and then the entry describes it |
| `Corrector.LookupIsDiagnosis` | crc.c:401-405 | what a search in such a table finds is that diagnosis |
| `Corrector.ModesChecksumFix` | crc.c:410-418 | exactly the bits of the entry are flipped, nothing without one |
| `Corrector.SmallErrorsDetected` | crc.c:353-378 | one or two flipped bits of a message of up to 112 bits always change the checksum |
| `Corrector.CorrectionIsExact` | crc.c:383-418 | end to end: a message with checksum 0 damaged in 1 to max_correct bits is always noticed; the diagnosis is exactly the damage or absent, it is present if and only if the damage is unambiguous, and the fix restores the message |
| `CrcParity.OddSyndrome` | crc.c:59-64 | the generator has an even number of terms: a syndrome has the parity of the number of flipped bits |
| `CrcParity.OddDamageDetected` | crc.c:67-82 | every odd number of flipped bits is detected, in a message of any length |
| `CrcParity.SameParity` | crc.c:237-263 | only patterns of the same parity collide; a single bit never collides with an even pattern |
| `CrcDistance.PowersIndependent` | crc.c:363-366 | no four single-bit syndromes of positions after the format field of a 112-bit message add up to zero, nor do multiples of them |
| `CrcDistance.FiveErrorsDetected` | crc.c:363-366 | one to five wrong bits after the format field of a message of up to 112 bits always change the checksum |
| `CrcDistance.SingleBitsUnambiguous` | crc.c:363-366 | for every single wrong bit of a message of up to 112 bits, no other pattern of one to four wrong bits has its syndrome |
| `CrcDistance.SingleBitTable` | crc.c:362-367 | the table for single bits made without looking for collisions is exactly the one for detection of up to four wrong bits, so nothing is lost by not flagging them |
| `CrcDistance.DamageNotMistaken` | crc.c:363-366 | end to end: with single-bit correction, damage of two to four bits is always noticed and never diagnosed as a single bit |
| `ProbedTable.StoredOnce` | icao_filter.c:112-126 | an address is stored in at most one slot |
| `ProbedTable.ProbeDecides` | icao_filter.c:132-152 | where a probe ends decides membership, also in a full table |
| `ProbedTable.ProbedAfterInsert` | icao_filter.c:123-126 | storing at the free slot a probe ends at keeps every address findable |
| `ProbedTable.Occupancy` | icao_filter.c:119-122 | a table of distinct addresses holds as many as it has slots exactly if no slot is free |
| `ProbedTable.Probe` | icao_filter.c:113-122 | the probe loop terminates at the address, a free slot or back at the home slot |
| `ProbedTable.Insert` | icao_filter.c:112-126 | an address is added exactly if it is absent and a slot is free |
| `ProbedTable.Contains` | icao_filter.c:132-152 | a probe finds exactly the addresses stored |
| `IcaoFilter.AddSized` | icao_filter.c:127-129 | an addition keeps the load at most a third below the largest size, and after growing the addresses kept fit without growing again |
| `IcaoFilter.ExpireSized` | icao_filter.c:97-99 | so does an expiry: after shrinking the addresses moved fit without growing |
| `IcaoFilter.RunSized` | icao_filter.c:96-130 | hence over every run |
| `IcaoFilter.AdditionsKeep` | icao_filter.c:112-130 | additions keep the current epoch, and the previous one unless the tables grow, which forgets it |
| `IcaoFilter.OnlyAdded` | icao_filter.c:112-130 | only addresses added enter the current epoch |
| `IcaoFilter.AddressLifetime` | icao_filter.c:96-154 | an address of the current epoch is known until the next expiry, after it exactly as long as the tables do not grow, and never after the second one, unless added again |
| `IcaoFilter.EpochForgotten` | icao_filter.c:84-129 | a concrete run from start-up in which an address of the previous epoch becomes unknown before the next expiry |
| `IcaoFilter.Filter.IcaoFilterInit` | icao_filter.c:47-59 | both epochs empty, smallest size |
| `IcaoFilter.Filter.IcaoFilterResize` | icao_filter.c:65-93 | a resize keeps exactly the current epoch and triggers no other |
| `IcaoFilter.Filter.Rehash` | icao_filter.c:84-90 | re-adding the old table's addresses fills the new one with exactly them and `occupied` counts them |
| `IcaoFilter.Filter.IcaoFilterExpire` | icao_filter.c:96-110 | the current epoch becomes the previous one, whether or not the tables shrink |
| `IcaoFilter.Filter.Store` | icao_filter.c:112-126 | the active table gains the address unless it is full; `occupied` keeps counting the active table |
| `IcaoFilter.Filter.IcaoFilterAdd` | icao_filter.c:112-130 | the new state is the old pair of sets with the address added, grown if past a third |
| `IcaoFilter.Filter.IcaoFilterTest` | icao_filter.c:132-154 | true exactly if the address is in either epoch |
| `ModeS.DiagnosedIs` | mode_s.c:506-524 | a correctable pattern with a checksum is the diagnosis of that checksum |
| `ModeS.DiagnosisAgrees` | mode_s.c:510-522 | the corrector's answer is the unambiguous pattern, and its entry flips exactly those bits |
| `ModeS.UncorrectedIsIntact` | mode_s.c:766-779 | the condition for adding an address (accepted, nothing corrected, squitter or all-call reply without interrogator code) holds exactly for messages received with checksum 0 in format 11 or 17, which stay as received |
| `ModeS.DamageKeepsType` | mode_s.c:456-468 | damage outside the first five bits keeps the format, hence length and checksum rule |
| `ModeS.DamageChecksum` | mode_s.c:465-466 | the checksum of a damaged intact message is the syndrome of the damage |
| `ModeS.RestoredBy` | mode_s.c:506-523 | an unambiguous damage of an intact message is diagnosed exactly, and undone by flipping it again |
| `ModeS.DamagedSquitterRestored` | mode_s.c:539-569 | an extended squitter with an unambiguous damage is restored, and accepted unless the damage touched the address and the restored address is unknown; type repair does not interfere |
| `ModeS.DamagedAllCallRestored` | mode_s.c:497-537 | an all-call reply with one wrong bit is restored and accepted exactly if its address is known, unless the syndrome passes for an interrogator code, when it is accepted as received |
| `ModeS.DamagedAllCallRefused` | mode_s.c:517-529 | two wrong bits of an all-call reply are never repaired, whoever is known: it is refused, or taken as it is with the damage for an interrogator code |
| `ModeS.DamagedTypeRestored` | mode_s.c:276-301 | one wrong bit in the format field of a type 17 squitter is undone, whoever sent it |
| `MessageScore.FlipInAddress` | mode_s.c:238-241 | flipping a message bit flips the corresponding bit of the announced address, or none |
| `MessageScore.CorrectedAddress` | mode_s.c:230-245 | correcting the decoded address is decoding the corrected message |
| `MessageScore.ScoreMatchesVerdict` | mode_s.c:309-419 | for every filter, option and message, short ones with 56 bits included: it scores above 0 exactly if the decoder accepts it, but for three families named exactly |
| `MessageScore.KnowingRaises` | mode_s.c:309-414 | knowing more addresses never lowers a score |
| `MessageScore.SquitterScores` | mode_s.c:402-414 | of two squitters, fewer corrected bits, those of the type included, and a known sender score higher |
| `ScoreExamples.ForeignReply` | mode_s.c:394-398 | a concrete message of the first family: accepted, but not scored |
| `ScoreExamples.MovedSquitter` | mode_s.c:556-562 | one of the second: scored, but not accepted |
| `ScoreExamples.LongFormat` | mode_s.c:415-417 | one of the third: accepted, but not scored |
| `KnownAddresses.KnownWasAnnounced` | mode_s.c:766-779 | from any state, an address known after a run was known before or was announced in it by an intact squitter |
| `KnownAddresses.OnlyAnnouncedAreKnown` | readsb.c:307-310 | over every run from start-up, each known address is the configured one or was announced by a format 11 or 17 message received with checksum 0 and no corrected bit |
| `KnownAddresses.AcceptedMessages` | mode_s.c:471-596 | over every run, an accepted message comes from such an address, or has a checksum that holds by itself, or is a squitter whose correction left the address alone |
| `KnownAddresses.VerdictCodes` | mode_s.c:443-596 | the code -1 is for the messages that some known addresses would make acceptable, -2 for those that none would; knowing more addresses never turns a message away |
| `KnownAddresses.AnnouncedIsAccepted` | mode_s.c:485-495 | a message whose checksum is an announced address is accepted at least until the next expiry, if the filter had room |
| `ModeSDecoder.CorrectAaField` | mode_s.c:230-245 | applies to the address exactly the pattern's bits that lie in it |
| `ModeSDecoder.Receiver.constructor` | readsb.c:307-310 | at start-up the filter holds the one configured address and the corrector is the one the options ask for |
| `ModeSDecoder.Receiver.FixDF17msgtype` | mode_s.c:276-301 | the first byte is rewritten exactly if that gives a type 17 message with checksum 0, otherwise restored |
| `ModeSDecoder.Receiver.Diagnose` | mode_s.c:510-511 | the entry found for a message flips exactly the unambiguous pattern with its checksum |
| `ModeSDecoder.Receiver.JudgeAllCall` | mode_s.c:497-537 | code, repaired bytes, corrected bits and interrogator code of an all-call reply |
| `ModeSDecoder.Receiver.JudgeSquitter` | mode_s.c:539-569 | code, repaired bytes and corrected bits of an extended squitter |
| `ModeSDecoder.Receiver.Judge` | mode_s.c:471-596 | the same for every format |
| `ModeSDecoder.Receiver.CheckMessage` | mode_s.c:456-596 | type repair and judgement together leave the repaired message |
| `ModeSDecoder.Receiver.Check` | mode_s.c:449-596 | decoding stops exactly at a failure outside decode-all mode |
| `ModeSDecoder.Receiver.Conclude` | mode_s.c:470-606 | the sender's address, also of messages decoded without having been accepted, and its addition to the filter; what that address is worth is SenderAddress |
| `ModeSDecoder.Receiver.AcceptedSender` | mode_s.c:470-606 | the sender of an accepted message is a known address that equals the checksum for the formats with overlaid address, and the address the decoded message announces for the others |
| `ModeSDecoder.Receiver.Admit` | mode_s.c:766-779 | an address is added only for an accepted, uncorrected squitter |
| `ModeSDecoder.Receiver.DecodeModesMessage` | mode_s.c:443-803 | the whole method: result, repaired bytes, the sender of an accepted message, known or announced, and a filter that is exactly what the run of events so far makes of it |
| `SenderAddress.OverlaidMistaken` | mode_s.c:276-301 | an address laid over the checksum of an intact message comes back as its checksum; type repair takes such a message for a squitter if and only if the address is the syndrome of the bit that separates its format from 17 |
| `SenderAddress.SenderRecovered` | mode_s.c:473-592 | any other intact message with any address laid over it is accepted if and only if that address is known, left as it was, and its sender is that address; also if it is decoded without having been accepted, except for formats 20 and 21 |
| `SenderAddress.MistakenSender` | mode_s.c:276-301 | the messages taken for squitters are accepted whoever is known, under the address that stands where a squitter has its own |
| `SenderAddress.VouchedSender` | mode_s.c:443-606 | over every run, the sender of an accepted message is the start-up address, or announced by an intact squitter of the run or by the message itself, for an all-call reply only if its checksum holds |
| `ModeSDecoder.Receiver.Expire` | readsb.c:1229 | the periodic expiry is the other event of a run |
| `ModeSDecoder.Receiver.ScoreModesMessage` | mode_s.c:309-419 | the score, with the message left as it was |
| `ModeSDecoder.Receiver.ScoreByFormat` | mode_s.c:342-418 | the scores of the formats |
| `TraceModel.PointsJoin` | globe_index.c:1870-1881 | groups put behind full groups continue the points |
| `TraceModel.PointsSplit` | globe_index.c:1733-1736 | groups taken from the front take exactly their points |
| `TraceModel.UnpackedSplit` | globe_index.c:1831-1871 | decompressing the chunks in two runs gives the whole, and their sizes add up |
| `TraceStore.ExtendedChunkOk` | globe_index.c:1996-2011 | a chunk extended by a compressed block decompresses to its old groups followed by the new ones (concatenated frames, section 3.1 of RFC 8878), and its size, count and timestamps are right again |
| `TraceModel.ChunkBounds` | globe_index.c:2028-2030 | the timestamps kept with each chunk are those of its first and last point in the trace |
| `TraceStore.LastExtended` | globe_index.c:1996-2011 | extending the last chunk appends its groups to the trace and keeps all sizes right |
| `TraceStore.ChunkAdded` | globe_index.c:2019-2033 | so does a new chunk |
| `TraceStore.GroupsMoved` | globe_index.c:2212-2225 | moving groups to the front drops exactly the points before them and keeps the slot behind the last |
| `TraceStore.PointsMoved` | globe_index.c:2193-2226 | moving groups from the current points to the chunks keeps the trace and the slot behind it |
| `TraceStore.AircraftTrace.TraceLength` | globe_index.c:1744 | `trace_len` is the length of the trace |
| `TraceStore.AircraftTrace.TraceUsePosBuffered` | globe_index.c:1740-1752 | the buffered point, if any, becomes the last point of the trace |
| `TraceStore.AircraftTrace.ResizeTraceChunks` | globe_index.c:1619-1682 | chunks go from the front, or a zeroed one comes at the end |
| `TraceStore.AircraftTrace.ExtendLast` | globe_index.c:1964-1993 | how many points may extend the last chunk |
| `TraceStore.WithinDurationIs` | globe_index.c:1966-1993 | the groups that may extend a chunk are the longest run from the front that ends within the chunk duration |
| `TraceStore.ExtensionIs` | globe_index.c:1964-1993 | a chunk is extended by all groups that end within its duration, unless it is not zstd or too big already or too few points would be gained |
| `TraceStore.AircraftTrace.AppendToLast` | globe_index.c:1996-2011 | the last chunk grows by the groups given |
| `TraceStore.AircraftTrace.AppendChunk` | globe_index.c:2019-2033 | a new chunk holds the groups given |
| `TraceStore.AircraftTrace.CompressChunk` | globe_index.c:1948-2121 | the points offered that extend the last chunk, if enough do, otherwise all in a new chunk, are appended to the chunks as they were in memory; the compressed chunk goes to the front of the scratch buffer, over whatever is kept there, or the buffer is given back if it is too small |
| `TraceStore.AircraftTrace.Measure` | globe_index.c:1964-2065 | which chunk the points go to, how many, and how much buffer that takes |
| `TraceStore.AircraftTrace.Commit` | globe_index.c:1995-2107 | the chunks become those with the groups appended |
| `TraceScratch.Scratch.Grow` | util.c:852-863 | a buffer that is too small is replaced by one of nine eighths of the size needed, and what it held is gone; otherwise nothing changes |
| `TraceScratch.Scratch.Write` | globe_index.c:2067-2077 | bytes written to the front of the buffer change exactly the groups kept there that they reach |
| `TraceStore.AircraftTrace.ResizeTraceCurrent` | globe_index.c:2167-2191 | reallocation keeps the current points and the buffered one and leaves the reserve free |
| `TraceStore.AircraftTrace.CompressCurrent` | globe_index.c:2193-2226 | compaction leaves the trace and the buffered point unchanged, and moves at least a group out of the current points if there are twelve, never leaving fewer than eight; either fewer than twelve are left or a quarter of a chunk has gone |
| `TraceStore.AircraftTrace.DropCompressed` | globe_index.c:2209-2225 | its second half, also when only some points were compressed |
| `TraceAdd.PutKeepsOrder` | globe_index.c:2592-2649 | storing or buffering a position keeps timestamps in order and all committed points |
| `TraceAdd.AddKeepsOrder` | globe_index.c:2286-2649 | so does adding one with whatever decisions, including the use of the buffered point and the recursive call |
| `TraceAdd.StorePoint` | globe_index.c:2592-2649 | the position is appended, buffered or dropped; the slot written is inside the allocation |
| `TraceAdd.TraceAdd` | globe_index.c:2286-2649 | the method makes of trace and buffered point what the specification says, and calls itself at most once; what that specification means is TraceRun |
| `TraceRun.AddOutcome` | globe_index.c:2566-2649 | one addition: the trace keeps what it had, takes the buffered point if that is used, then the position, with its time and fields, if it is saved, after which nothing is buffered; a position taken but not saved is the buffered point; one not taken changes nothing else |
| `TraceRun.RunKeeps` | globe_index.c:2286-2649 | over any run of additions the trace is what it was followed by exactly the positions that were saved or buffered and later used, in the order they were offered; the buffered point is the last position that still waits |
| `TraceAdd.DropStaleBuffered` | globe_index.c:2363-2374 | a buffered point older than the last one is dropped |
| `TraceEdit.TraceCleanup` | globe_index.c:1763-1788 | no trace is left |
| `TraceRewrite.SetTrace` | globe_index.c:2123-2157 | for a source that lies in the scratch buffer, and a compression library that reads its whole input before it writes: the source's fate is that of the rounds computed beforehand, and if it stays intact the trace becomes its first len points; up to a chunk and eight points nothing is compressed and the library does not matter; a source elsewhere always stays intact; memory behind the source is read exactly if the copy of one slot more reaches it |
| `TraceRewrite.SetChunks` | globe_index.c:2136-2144 | the loop terminates with few points left; it does harm exactly if some round, in order, does, and otherwise the chunks hold the points before and the source still the ones after |
| `TraceRewrite.SetChunk` | globe_index.c:2138-2142 | with a library that reads its groups before it writes the chunk, a round does harm exactly if the buffer is too small for it, or if the chunk written to its front is larger than the groups read so far |
| `TraceRewrite.RoundsPrefix` | globe_index.c:2136-2144 | what happens only depends on the groups that hold the points |
| `TraceRewrite.OneRound` | globe_index.c:2136-2144 | with a library that reads its groups before it writes, the exact condition for up to two chunks of points: few enough points, or a first chunk that is no larger compressed than before and a buffer that holds the bound for it |
| `TraceRewrite.FirstTooLarge` | globe_index.c:2136-2144 | for any number of points from which a chunk is made, any codec and any memory: the source is overwritten if its first chunk is larger compressed than before and the buffer holds the bound for it |
| `TraceRewrite.ShrinkingIsIntact` | globe_index.c:2136-2144 | with a library that reads its groups before it writes, for any number of points, the source stays intact if no run of groups is larger when compressed and the buffer is roomy |
| `TraceRewrite.CopyPastEnd` | globe_index.c:2153-2154 | in a buffer just made for a whole trace of n full groups, the final copy reads past the end if and only if n < 8 |
| `TraceExample.PlainIsLawful` | globe_index.c:2073-2077 | the laws assumed of the compression library can be met: an encoding without separators decodes uniquely and frames may be concatenated |
| `TraceExample.SourceOverwritten` | globe_index.c:3701-3738 | chunks of 256 points, groups of 160 bytes, one point each four seconds, and the buffer as it is made for the whole trace: every such trace of more than 264 points is overwritten under a lawful codec whose first chunk takes one byte more for each of its groups, within the library's bound; the group read next is not what was there |
| `TraceEdit.CountOld` | globe_index.c:1719-1727 | the whole groups at the front of the current points that end before the cutoff, up to the first that does not |
| `TraceEdit.FrontDropped` | globe_index.c:1697-1717 | in an ordered trace, dropping chunks whose last ends before the cutoff drops no point at or after it |
| `TraceEdit.CurrentDropped` | globe_index.c:1719-1737 | the same for groups of current points |
| `TraceEdit.PruneChunks` | globe_index.c:1697-1717 | the loop over the chunks removes only a prefix older than the cutoff, keeping the sizes right |
| `TraceEdit.PruneCurrent` | globe_index.c:1719-1737 | so does the one over the current groups, and the buffered point moves along; less than a reserve of whole old groups stays |
| `TraceEdit.TracePrune` | globe_index.c:1684-1738 | together: only a prefix goes, no committed point at or after the cutoff; all of it goes if the last current point is old, otherwise the first chunk left ends at or after the cutoff and less than a reserve of old current groups stays, along with the buffered point |
| `TraceHistory.FirstChunkNeeded` | globe_index.c:1793-1820 | the first chunk to decompress leaves enough points, or only older ones before it |
| `TraceHistory.ReassembleTrace` | globe_index.c:1792-1883 | a suffix of the trace with at least the points asked for, or every point from a time on; it is put together in the scratch buffer, which is large enough |
| `TraceHistory.Assemble` | globe_index.c:1825-1881 | the groups in the buffer are those of the chunks and the current points |
| `TraceHistory.FindSpan` | globe_index.c:3708-3723 | the groups around a time span |
| `TraceHistory.ScannedOnce` | globe_index.c:3708-3723 | there is one pair of groups that a scan can find |
| `TraceHistory.GapOnce` | globe_index.c:3725-3735 | so the points deleted are determined by trace and time span |
| `TraceHistory.ExtraGroup` | globe_index.c:3729-3731 | the group before the first one that can hold a point of the span is deleted too if and only if no group starts after the span, and none of its points lies in the span |
| `TraceHistory.ExtraGroupDeleted` | globe_index.c:3729-3731 | a concrete trace of twelve points of which eight are deleted instead of four |
| `TraceHistory.SpanFound` | globe_index.c:3725-3735 | if a later point exists, deleting the groups between leaves no point of the span, and goes wrong by less than two groups at the start and one at the end |
| `TraceHistory.SpanToEnd` | globe_index.c:3730-3731 | with no later group the rest is deleted from the extra group on, which leaves no point of the span |
| `TraceHistory.CloseGap` | globe_index.c:3732-3735 | moving the later groups down joins the two parts |
| `TraceHistory.DeleteSpan` | globe_index.c:3708-3735 | exactly those points are gone from the buffer, and the groups left are the old ones without the gap |
| `TraceHistory.TraceDelete` | globe_index.c:3699-3738 | of the trace with its buffered point exactly the gap is gone, if the source stays intact in the scratch buffer or so few points are left that none are compressed; otherwise the number of points is right; whether it stays intact, and whether the copy reads past the buffer, is computed from the groups stored and the capacity |
| `TraceHistory.TraceMaintenance` | globe_index.c:2228-2283 | pruning, reallocation and compaction together remove exactly what pruning removes, a prefix older than the retention time, and compaction keeps the current points from piling up or spanning too much time; an active aircraft then has room for further points |
| `TraceCache.ConcatSplit` | json_out.c:1579-1582 | the text of the entries splits at any entry |
| `TraceCache.TextsSplit` | json_out.c:1579-1582 | the byte range moved is exactly the text of the entries kept |
| `TraceCache.EntriesShifted` | json_out.c:1601-1605 | the entries moved down, with offsets reduced, describe the text moved down |
| `TraceCache.Cache.FindTs` | json_out.c:1543-1553 | the entry with a timestamp if there is one |
| `TraceCache.Cache.DropFront` | json_out.c:1597-1605 | the first entries and their text are gone, the others intact |
| `TraceCache.Cache.Legal` | json_out.c:1591-1595 | between two neighbouring entries there is text, so that the move is legal |
| `TraceCache.Cache.Compact` | json_out.c:1569-1612 | making room never runs into either of the two sanity checks |
| `TraceCache.Cache.Align` | json_out.c:1537-1633 | after it the first recent point is at the cache position noted, with room behind it, or the cache is empty; times are relative to a point that is not behind it and at most eight hours older, unless that has timestamp 0 |
| `TraceCache.Cache.PrintEntry` | json_out.c:1662-1704 | the point is printed behind the entries before it unless the buffer would fill |
| `TraceCache.Cache.RefreshEntry` | json_out.c:1654-1704 | an entry is kept if timestamp and leg marker agree, printed anew otherwise |
| `TraceCache.Cache.Refresh` | json_out.c:1653-1716 | after the loop all recent points are cached with their present leg markers, or as many as fit |
| `TraceCache.Cache.CheckTraceCache` | json_out.c:1501-1725 | over any growth of the history, leg changes and pruning, the cache is up to date afterwards |
| `TraceCache.CachedRun` | json_out.c:1811-1816 | the cached texts of consecutive points are those points printed from scratch |
| `TraceCache.CopyCached` | json_out.c:1811-1816 | the bytes copied are that text, and if no point takes more than 300 bytes they fit into the room there is for the recent points |
| `TraceCache.RunFits` | json_out.c:1747 | so do the points printed one after the other |
| `TraceCache.GenerateRecent` | json_out.c:1727-1828 | with or without the cache, and for an empty trace, the recent trace is its points printed from scratch at the reference time returned; shorter only if the next point does not fit into the cache; that time is the timestamp of a point up to the first one printed, and at most eight hours before it |
| `StateBlob.WordValue` | globe_index.c:814-817 | a word read back is the word written |
| `StateBlob.SavedTrace` | globe_index.c:2748-2751 | what is saved of an aircraft is consistent and its trace is the old one followed by the buffered point |
| `StateBlob.SpareWord` | globe_index.c:2753-2765 | the size reserved for an aircraft exceeds what is written by at least a word, so the end mark always fits |
| `StateSave.PutEntry` | globe_index.c:2867-2893 | the entry of an aircraft is written without overrunning its size |
| `StateSave.FramesGrow` | globe_index.c:2768-2854 | frames that are done stay as they are when further aircraft follow |
| `StateSave.Flush` | globe_index.c:2768-2808 | the frame is ended inside the buffer and appended to the file if and only if it fits compressed into the output buffer |
| `StateSave.SaveCraft` | globe_index.c:2743-2893 | an aircraft goes into the present frame, a new one, or a larger buffer, as the packing says; it fails exactly if a frame has to be ended and cannot be written |
| `StateSave.SaveBlob` | globe_index.c:2656-2916 | a file is written if and only if every frame of the packing fits compressed into the output buffer, whose size is the bound for the initial buffer; then it holds these frames, otherwise there is none |
| `StateSave.FramesHold` | globe_index.c:2742-2895 | the frames of the packing together hold each aircraft exactly once, in order |
| `StateSave.SmallIsWritable` | globe_index.c:2730-2768 | every frame can be written if no aircraft is larger than the initial buffer |
| `StateSave.SecondSaveSucceeds` | globe_index.c:2833-2839 | once a save has got through, the size that later buffers start with covers every aircraft, so that saving them again succeeds |
| `StateSave.OneCraft` | globe_index.c:2768-2854 | an aircraft alone is saved if and only if its frame, compressed, is within the bound for the size the buffers have at first, however large its own buffer has become |
| `SaveExample.SaveFails` | globe_index.c:2789-2852 | for every initial size from 12 MB to 500 MB, every codec and every chunk: an aircraft whose chunks take twice that size, of data that does not compress, cannot be saved |
| `StateLoad.LoadChunks` | globe_index.c:946-968 | reading succeeds if and only if each chunk's struct and data are there, one after the other, and marks the trace for removal exactly if a chunk does not hold whole groups; chunks that were saved come back |
| `StateLoad.LoadTrace` | globe_index.c:928-1004 | whatever the input, the aircraft has the trace its record speaks of, in whole groups, or none; a trace that was saved comes back |
| `StateLoad.LoadAircraft` | globe_index.c:822-1007 | the entry saved is read back |
| `StateLoad.LoadAircrafts` | globe_index.c:2918-2937 | a frame is read back entry by entry up to its end mark |
| `StateLoad.LoadBlob` | globe_index.c:2994-3027 | a file of frames is read back completely |
| `StateLoad.SaveAndLoad` | globe_index.c:2656-3027 | round trip: it succeeds if and only if every frame can be written, in particular if no aircraft is larger than the initial buffer, and then each aircraft of the buckets comes back once, in order, with its trace followed by the buffered point, nothing buffered, and the recent trace marked for writing if there was such a point |
| `CraftArray.RemovedOnly` | globe_index.c:1555-1579 | removal by swapping in the last element takes out exactly the occurrences of one pointer |
| `CraftArray.StepKeepsInv` | globe_index.c:1478-1579 | every step of every thread keeps the invariant on the three mutexes, the counter and the room for appends |
| `CraftArray.ReachableInv` | globe_index.c:1478-1579 | so every state reachable by any number of threads has it |
| `CraftArray.ReaderUndisturbed` | globe_index.c:1523-1537 | no step of any thread reallocates or sorts the array while a thread is inside the read section |
| `CraftArray.StayUndisturbed` | interactive.c:152-157 | nor does any sequence of steps during its whole stay |
| `CraftArray.CounterIsReaders` | globe_index.c:1478-1502 | over every run `reader_count` is the number of threads counted as readers |
| `CraftArray.UnblockedMoves` | globe_index.c:1478-1579 | a thread that is not blocked gets further with its step |
| `CraftArray.NoDeadlock` | globe_index.c:1478-1579 | in every such state with a thread in the middle of an operation some such thread is not blocked |
| `CraftContents.StepHolds` | globe_index.c:1523-1579 | only the append of an addition takes a pointer in, and only its own; only a removal takes one out, and only its own; no step makes a duplicate |
| `CraftContents.ListIsPresent` | globe_index.c:1523-1579 | over every run the array holds exactly the pointers that were appended and have not been removed since, none twice |
| `CraftContents.AddAlone` | globe_index.c:1523-1553 | an addition that runs alone gets through and appends the pointer, unless it is there already |
| `CraftContents.AddToFull` | globe_index.c:1523-1553 | so does one to a full array, which it reallocates |
| `CraftContents.RemoveAlone` | globe_index.c:1555-1579 | a removal that runs alone gets through and takes the pointer out |
| `CraftContents.SortAlone` | interactive.c:152-157 | a sort that runs alone gets through and brings the array into its order |
| `CraftContents.ReadAlone` | globe_index.c:1478-1502 | a reader that runs alone gets in and out and changes nothing |
| `TraceSweep.LastStart` | readsb.c:1010-1014 | the parts start at 0 and end at the number of buckets |
| `TraceSweep.Locate` | readsb.c:1062-1063 | every bucket of consecutive parts lies in one of them |
| `TraceSweep.PartRange` | readsb.c:1062-1063 | the arithmetic used to deal part k gives its range, ending at or before the last bucket |
| `TraceSweep.TraceWriter.Apart` | readsb.c:1016-1087 | ranges of different tasks have no bucket in common |
| `TraceSweep.TraceWriter.FinishBucket` | readsb.c:943 | the bucket a task finishes has not been finished in this sweep |
| `TraceSweep.TraceWriter.TraceWriteTask` | readsb.c:934-964 | however early time runs out, a task resumes where it stopped |
| `TraceSweep.TraceWriter.Reset` | readsb.c:1025-1026 | at a reset every bucket has been completed |
| `TraceSweep.TraceWriter.Deal` | readsb.c:1016-1087 | the next parts are dealt to finished tasks only, and the checks on the distribution cannot fail |
| `TraceSweep.TraceWriter.RunTasks` | readsb.c:1090-1091 | every task gets as far in its range as its time allows, and nothing finished is lost |
| `TraceSweep.TraceWriter.WriteTraces` | readsb.c:1010-1104 | one call, for any pattern of interruptions: exactly when the last ranges are finished each task gets the next part, a sweep ends exactly if all parts have been dealt before, with all buckets completed, and every task gets as far as its time allows; with enough time all buckets of the parts dealt so far are completed |
| `TraceSweep.TraceWriter.Upkeep` | readsb.c:1141-1163 | called again and again with enough time, every call completes the next round of parts, and each time as many calls as a sweep has rounds complete all buckets |
| `ApiSearch.LowerBound` | api.c:69-88 | the first position from which longitudes reach the limit, before, inside and past the list |
| `ApiSearch.UpperBound` | api.c:90-109 | the first position from which longitudes exceed the limit |
| `ApiSearch.FindLonRange` | api.c:63-112 | exactly the interval of entries between two longitudes; empty for an empty list |
| `ApiSearch.Collect` | api.c:255-262 | the matches of a range are appended in order and their sizes added |
| `ApiSearch.TwoRanges` | api.c:250-254 | across the antimeridian the two ranges are disjoint and together hold each match once |
| `ApiSearch.FindInBox` | api.c:236-266 | the matches are those of the naive filter, each once, and the allocation is the sum of their sizes; entries without a position never match a box within the limits that requests are checked for |
| `ApiSearch.MatchesPositioned` | api.c:1133-1138 | the check of the limits keeps the marks of missing positions out of every box |
| `ApiReply.JsonSpan` | api.c:522-529 | for a whole range the span between two offsets covers the JSON of its entries |
| `ApiReply.FilterMatches` | api.c:114-230 | a filter keeps exactly the entries that satisfy it, in order |
| `ApiReply.FilterAllKeeps` | api.c:536-592 | an entry passes the chain exactly if it passes every filter |
| `ApiReply.FilterAllSizes` | api.c:536-592 | the chain never needs more space than the first stage reserved |
| `ApiReply.TextsFit` | api.c:494 | the texts of the first matches fit into what was reserved for them, distance and direction included |
| `ApiReply.ReplyIsList` | api.c:679-702 | if each text ends with a comma, the reply is a list: its objects are separated by commas and none is left at the end |
| `ApiReply.PutMatches` | api.c:682-696 | the copy loop never stops early and room for the closing text is left |
| `ApiReply.WriteReply` | api.c:672-716 | the reply is complete: no match left out or cut short |
| `ApiReply.ApiReq` | api.c:435-724 | for every first stage and chain of filters the reply holds exactly the entries that pass, because the filters' sizes shadow, and never shrink, the buffer's |
| `ApiReply.WriteBinary` | api.c:594-670 | the binary reply is complete: an element of details filled up with zeros and one for each match; the loop never stops early and room for one more is left |
| `Slicer.ByteBits` | demod_2400.c:133-213 | the byte at a phase consists of eight bits 12 fifths of a sample apart, most significant first |
| `Slicer.UnrolledIs0` | demod_2400.c:137-150 | the unrolled expression of phase 0 is the byte of the simple loop |
| `Slicer.UnrolledIs1` | demod_2400.c:152-165 | the same for phase 1 |
| `Slicer.UnrolledIs2` | demod_2400.c:167-180 | the same for phase 2 |
| `Slicer.UnrolledIs3` | demod_2400.c:182-195 | the same for phase 3 |
| `Slicer.UnrolledIs4` | demod_2400.c:197-210 | the same for phase 4 |
| `Slicer.SliceByte` | demod_2400.c:133-213 | a byte advances pointer and phase by exactly 96 fifths of a sample, reading inside the samples given |
| `Demodulator.DamagedSquitters` | demod_2400.c:98-128 | the recursive damage set of format 17 is format 17 and exactly the formats the decoder may rewrite to it |
| `Demodulator.SkipMatches` | demod_2400.c:220-243 | for every message cut out, two samples are skipped for each of its bits if and only if its format as received is not 1 |
| `Demodulator.BestIsBest` | demod_2400.c:246-257 | the candidate kept has the best score of all phases tried, and is the first with it |
| `Demodulator.Candidates.SliceMessage` | demod_2400.c:220-243 | the bytes cut out are those of the simple loop from the phase on, 7 or 14 or only the first, inside the trailing samples |
| `Demodulator.SliceRest` | demod_2400.c:241-243 | byte n starts 96 n fifths of a sample after the first |
| `Demodulator.Candidates.ScorePhase` | demod_2400.c:215-258 | the best message so far is never overwritten by the next one cut out |
| `Demodulator.Candidates.ScorePhases` | demod_2400.c:340-379 | after all phases whose preamble is strong enough the buffer holds the best message |
| `Demodulator.Candidates.TryAt` | demod_2400.c:327-472 | the verdict on a position and the samples to skip |
| `Demodulator.PreCheck` | demod_2400.c:308-320 | the ten unrolled tests find the first of ten positions with a preamble, or end at the tenth |
| `Demodulator.Demodulate` | demod_2400.c:264-476 | the unrolled scan finds what a scan of one position at a time finds, never decodes at or past the end, and reads only samples and trailing samples |
| `Demodulator.ScanSound` | demod_2400.c:264-476 | every message found starts before the end, in order, none in the skipped part of another |
| `Demodulator.ScanComplete` | demod_2400.c:264-476 | every position with an acceptable message is found unless it lies in the skipped part of one that was |
| `CleanSignal.BitClean` | demod_2400.c:74-94 | each bit of a clean message is cut out as it was sent, at every phase, whatever the bits before and after it |
| `CleanSignal.CleanPreamble` | demod_2400.c:294-381 | a clean preamble passes the pre-check at its place, and its phase is among those tried, if the noise floor is below the signal |
| `CleanSignal.CleanMessage` | demod_2400.c:215-381 | a clean message of a format that is looked for is cut out byte for byte at its phase, and what is found there scores no less than it |
| `DemodExample.AnyMessage` | demod_2400.c:133-213 | any fourteen bytes are cut out, at the only phase their preamble fits, of samples made for them, whatever the preamble threshold |
| `DemodExample.ScoredIsCutOut` | demod_2400.c:110-128 | every message that the decoder scores has a format that is looked for, and is cut out at its full length |
| `DemodExample.AnyFound` | demod_2400.c:340-399 | any long message that the decoder scores and accepts is found in its samples, with the decoder's own score and verdict |
| `DemodExample.FormatOneSkipsShort` | demod_2400.c:399-469 | every intact squitter whose first bit is damaged is found, whoever sent it and whatever addresses are known, and repaired by the decoder, but only as much as for a short message is skipped |

## Left out

Positions
- CprNL: the table of latitudes is taken as given; the trigonometric formula it comes from is not modelled.
- Rounding of floating point numbers: all positions are exact reals, so ties and range checks are exact.

Messages
- ErrorTable.QSort: a contract for the C library's sort; the C library's algorithm is not modelled, nor is that of `bsearch`.
- ErrorTable.DropCollisions: `crc.c:246` tests `i < usedsize` before it reads `table[i + 1]`; the model has the intended guard `i + 1 < usedsize`, so the read past the end of a last run is not modelled.
- IcaoFilter.Filter.IcaoFilterAdd: the address 0xFFFFFFFF, which marks free buckets, is excluded; checksums and announced addresses have 24 bits. The hash is any function into the buckets.
- ModeSDecoder.Receiver.DecodeModesMessage: of the fields of a message only those of the checksum, address and acceptance part are decoded; `net_verbatim`, sources and address types are left out.
- ModeSDecoder.Receiver.ScoreModesMessage: compiled without ENABLE_DF24, as is the default.
- Altitudes, squawks, Comm-B, Mode A/C: finite tables and heuristics.

Traces
- TraceStore.AircraftTrace.CompressChunk: zstd and the older format are functions with the law that decompressing what was compressed gives it back, also for concatenated zstd frames; failures of compression, decompression and allocation are left out.
- TraceAdd.TraceAdd: the thresholds that decide whether to save a point, and leg marking, are inputs.
- TraceRewrite.SetTrace: zstd makes no promise for output that overlaps its input, as it does in the first round; the model's frame is that of the bytes that are there when compression starts, so that above `KeptPoints` an intact source presumes a library that reads its whole input before it writes. Memory that has been given back or lies behind the buffer reads as an arbitrary function of the position. A source that is overwritten with the same values by chance counts as overwritten.
- TraceRewrite.SetChunk: the same; a frame that overlaps only the groups it is made from, and earlier ones, counts as harmless.
- TraceHistory.TraceDelete: if the source does not stay intact, only the number of points left is stated; the removal of trace files is left out.
- TraceHistory.TraceMaintenance: file writing schedules and the release of the trace cache are left out.
- TraceCache.GenerateRecent: the text of a point is any non-empty function of the point, whether its slow record is printed, leg marker and reference time; the surrounding JSON, removal of the last comma and traces that are not recent are left out. Timestamps of a trace are pairwise different. That a printed point takes at most 300 bytes is not derived from its format.

Saved state
- StateSave.SaveBlob: sizes must fit C ints and values their struct fields; frames below 2 GB compress to below 4 GB. Compression fails exactly if its result is larger than the output buffer; other errors, file creation and renaming are left out, and so are the formats not written any more.
- StateLoad.LoadAircraft: the repair of timestamps, active lists and the maintenance at the end are left out; what is loaded is as before them. After a change of struct sizes the bytes are cut or filled up, without a statement on what they mean. The code reads the size of a group of points without a length check; the model treats missing bytes as the end of the entry.
- Reading older formats (`lzo`, `gzip`, plain).

Threads, scheduling
- CraftArray.StepKeepsInv: each access to a mutex or to shared fields is one step; a thread is in one operation at a time. The contents of the array matter only for removal and appending.
- TraceSweep.TraceWriter.WriteTraces: an interruption is a bound on the buckets a task finishes in one call; the tasks run one after the other, their ranges being disjoint. Time statistics are left out, and so is what writing a trace does.

Replies
- ApiSearch.FindInBox: box limits are integers already converted from degrees.
- ApiReply.ApiReq: circle and list searches give any matches; the conditions of filters are any predicates; texts around and between the cached objects are any of bounded length, which the code's formats have. Compression of replies is left out.
- ApiReply.WriteBinary: the details of the first element and the struct of a match are any sequences of the element's size.

Demodulation
- CleanSignal.CleanMessage: a clean signal is a constant noise floor and one strength for as long as a pulse lasts; other noise is left out.
- Demodulator.Demodulate: scores and verdicts of the decoder are functions of position and bytes, which covers a decoder whose state changes from one position to the next. Signal power, statistics and timestamps are left out; the threshold is the one in force, raised or not after dropped samples.

Network and file input and output, device drivers, the user interface, option parsing, the geomagnetic model and the conversion of samples to magnitudes are not part of this model.
