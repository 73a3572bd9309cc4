# A verified model of d20 keeper

d20 serves verifiable randomness to smart contracts. A request binds a future round of a public beacon, a VRF proof over
the request and that round gives its randomness, and the randomness is mapped to dice, ranges, choices or shuffles;
anyone can replay the result. Epochs commit signed API records or beacon rounds, keepers send fulfillments in batches
and deploy the contracts. This project models the parts of that system where correctness is not obvious and proves what
they promise, for all inputs, all logs, all runs and all crash points. `dafny verify dfyconfig.toml` checks it.

## What is proved

- **Mapping** (`FisherYates`, `Sampling`, `Mapping`, `MappingWords`, `StreamCounts`). The swap loop is a bijection from
  choice vectors onto arrangements; every residue has the same number of accepted words; so every outcome of every
  operation comes from the same number of kept word vectors, and from the same number of whole streams of each length,
  rejected words included. The code, with its cursor and its pool swapped in place, computes exactly that, word by word.
- **Beacon schedule** (`Rounds`, `BeaconSchedule`, `ScheduleRules`, `ScheduleReading`, `ScheduleLogs`, `BeaconBook`,
  `BeaconBookLogs`). Which logs are accepted is stated from the logs alone. The fold over the logs agrees with a
  declarative reading of them, does not depend on the order of the logs, never changes the past, and agrees with the
  storage of the contract that emitted the logs, and with its answers for every round that fits 64 bits.
- **Request replay** (`RoundReplay`, `GenuineEvidence`, `WrongValues`). Evidence is valid exactly when every value is
  what the coordinator records, so every request it serves in time, with a round that fits 64 bits, replays at any later
  time. Two valid evidences of one request have one outcome, and for every check and every recorded value it is stated
  exactly when the check still passes with that value replaced, records in any of their parts.
- **Data templates** (`Templates`, `TemplateBytes`, `Matcher`, `GreedyMatch`, `BeaconCodec`). Encoding is prefix-free
  and inverted by decoding; the greedy matcher is sound for every template and exact for exactly the separated ones, and
  what it accepts is characterised for all; the round codec is a bijection.
- **Batch gas** (`BatchGas`). The floor lands every batch, whatever the callbacks burn, and the gas an adversary cannot
  beat is given exactly.
- **WebSocket framing** (`WebSocket`, `WebSocketBytes`, `WebSocketStream`). Parser and printer are inverse, incremental
  and stable, and read and write the octets of RFC 6455; no frame is lost however a stream is cut; the frames of a
  stream do not depend on its chunks exactly when no frame follows a close frame.
- **Deployment journal** (`DeployJournal`, `DeployRun`, `DeployScript`). Over every history of runs, crashes and resumes
  each step is broadcast at most once, in order, behind its durable record; the script's loops are such a history.
- **Epochs** (`Epoch`, `EpochTerms`, `EpochRegistry`, `RegistryTerms`, `EpochHistory`). Replay accepts exactly what some
  attempt produces; what the registry contract commits replays exactly when the replay's scheme takes it, at once and
  under any later recipes and catalogs.
- **Requests to gateways** (`Entries`, `Canonical`, `Passthrough`, `PassthroughText`, `PassthroughUrl`, `UrlText`).
  Canonicalization is a normal form for nested maps; the passthrough parser accepts exactly what the printer prints; a
  URL says exactly what is sent.

## Findings

Some promises do not hold for all inputs. The code is modelled as it is, and each has a witness and its exact condition.

- `roundAt` is said to answer as the contract's does. The contract cuts a round to 64 bits without a check, so at
  timestamps near 2^64 and a period of one second the two differ (`RoundAtAgrees`, `LastTimestampDisagrees`).
- A wrong value is said to fail the checks that read it. A wrong randomness or mapping can leave the mapped result as it
  was, a later deadline or an earlier request still covers the acceptance, another proof can be valid too, and a wrong
  round, beacon, configuration or acceptance time can pass a reader (`WrongValueFailsItsReaders`, `SameFlipPasses`,
  `LaterDeadlinePasses`, `EarlierRequestPasses`, `OtherNoncePasses`).
- A committed beacon epoch replays only if its verifier and the replay agree on the round. The contract asks whichever
  verifier the owner registered, the replay always checks drand's bls-bn254-unchained-on-g1 scheme with 128-byte keys
  (`CommittedReplaysIff`, `CommittedEpochsReplayIff`, `OtherVerifierCommits`). `D20BeaconVerifier` implements that
  scheme and is the one the agreement (`VerifiersAgree`, `AllTrusted`) is stated for; any other has to be shown to
  agree.
- Replay of a fallback needs the definition of the recipe first selected, though the fallback does not use it
  (`ReplayAcceptsIffProduced`, `MissingFirstRecipe`).
- The frames a connection handles depend on how the stream is cut when a frame follows a close frame: what is left of
  the chunk waits until another one arrives (`ChunksMatterOnlyBehindClose`, `TwoClosesDiffer`).
- The greedy matcher refuses data in the language of a template when a number is followed by something that can continue
  it; it is exact if and only if the template is separated (`ExactIffSeparated`, `UnseparatedMatchesNothing`).
- A beacon period below 200 s, which is all `check` demands, does not keep chosen rounds fresh: only periods up to 100 s
  do, and up to 90 s with 20 s to spare (`AlwaysFreshIff`, `AdmittedPeriodsCanGoStale`).
- A resumed deployment that continues behind a line whose newline a crash lost writes a journal that cannot be resumed
  again (`TornIff`, `LostNewlineSpoils`, `LostNewlineHappens`). It sends nothing twice.

Two observations. `cb + cb / 63` is what the budget promises, enough to forward `cb`; it is the least such amount except
for positive multiples of 63, where one less would do (`BudgetTermIsNearlyLeast`). Canonical forms of arbitrary JSON are
ambiguous, since an object and the array of its sorted entries share one; `DeterminedIff` says which values are
affected, and plain values, among them all array-free ones, are not.

## How things are modelled

keccak256, sha256, ABI encoding, signature schemes, JSON text and UTF-8 are parameters (`Crypto`, `Codec`, `utf8`, hash
streams as functions of an index); what is assumed of them, injectivity, uniqueness and decoding of what was encoded, is
a named predicate (`Sound`, `Injective`, `Streams`, `Productive`, `IsUtf8`) in the lemmas that need it. The number of
words of a hash stream is symbolic and at least 256. Addresses and hashes are numbers, texts that are compared are
UTF-16 code units, bytes are integers below 256. Exceptions are `Option` or `Result`. Clocks, blocks, chain state,
crashes and what the network does are parameters or actions; what the verifiers registered for beacons answer is part of
a block, and arbitrary. `contracts/libraries/DataTemplate.sol` is taken to decide as `src/templates.ts` does. A deployed
address never loses its code, and one process at a time works on a journal.

## Model

| member | source | states |
|---|---|---|
| FisherYates.ChoicesOfSelect | src/mapping.ts:76-85 | reading the choices back from the swap loop's output gives the choices that made it |
| FisherYates.SelectOfChoices | src/mapping.ts:76-85 | every sequence of distinct pool entries is output by valid choices, so the loop is onto |
| FisherYates.SelectIsArrangement | src/mapping.ts:79-83 | the output is a sequence of distinct pool entries |
| FisherYates.SelectIsFront | src/mapping.ts:79-83 | the output is the part of the swapped pool the loop has passed |
| FisherYates.PoolIsPermuted | src/mapping.ts:81 | swapping permutes the pool |
| FisherYates.FullArrangementsArePermutations | src/mapping.ts:76-85 | with count equal to population the outputs are exactly the permutations |
| FisherYates.SelectIsTraced | src/mapping.ts:79-83 | from each pool to the next the entry at the loop's index and the chosen one change places, all others stay, and the output is what then stands at the index |
| Sampling.ResidueClassSize | src/mapping.ts:63-68 | every residue has exactly (N - N mod bound) / bound accepted words |
| Sampling.FewerThanHalfRejected | src/mapping.ts:64-66 | fewer than half of all words are rejected |
| Sampling.WrappedThresholdAgrees | contracts/libraries/RandomnessMapping.sol:82-88 | the contract's wrapped threshold is the one of the TypeScript code |
| Sampling.ResiduesUniform | src/mapping.ts:63-68 | every vector of residues comes from the same number of accepted word vectors |
| Sampling.UpperHalfSuffices | src/mapping.ts:66 | a stream with words in the upper half ahead of every cursor lets every sample end |
| Sampling.Sample | src/mapping.ts:63-68 | the do-while loop returns the residue of the first accepted word at or after the cursor and stops behind it |
| Sampling.SampleNext | src/mapping.ts:61-68 | the n-th of a run of samples starts at the cursor the samples before it left |
| Sampling.PositionsAreConsecutive | src/mapping.ts:61-68 | successive samples use disjoint consecutive draws and skip only rejected words |
| Sampling.ConsecutiveDrawsUnique | src/mapping.ts:61-68 | there is only one such way to use a stream |
| Sampling.KeptWordsAccepted | src/mapping.ts:61-68 | the kept words are accepted and the samples lie below their bounds |
| Mapping.ValuesAreOutcomes | src/mapping.ts:69-86 | mapped values are a bijection from sample vectors onto an operation's outcomes |
| Mapping.OutcomesUniform | src/mapping.ts:58-87 | each outcome of an operation comes from the same positive number of accepted word vectors, nothing else from any |
| StreamCounts.StreamsUniform | src/mapping.ts:58-87 | of all streams of n words, for every n and rejected words included, each outcome of an operation is given by the same number, positive from as many words as samples on, and nothing else by any |
| StreamCounts.RunsSize | src/mapping.ts:63-68 | equally many streams of n words give each vector of samples below the bounds |
| StreamCounts.ServedIsSamples | src/mapping.ts:61-68 | the first n words of a stream give its samples exactly when they suffice for them |
| StreamCounts.GivingIsMapped | src/mapping.ts:58-87 | the beginning of a stream is counted for given values exactly when it suffices and they are the mapped values |
| StreamCounts.GivingBeginsStream | src/mapping.ts:58-87 | every sequence of words counted is the beginning of a stream that is mapped to the values |
| Mapping.MappedIsOutcome | src/mapping.ts:58-87 | the mapped values of a request are an outcome, given by the words its samples kept |
| Mapping.ShuffleOutcomesArePermutations | src/mapping.ts:76-85 | the outcomes of a shuffle are the permutations of the indices |
| Mapping.FullRangeIsTheGeneralRule | src/mapping.ts:73-74 | the full range drawn directly is the general rule at bound N |
| Mapping.SelectInPlace | src/mapping.ts:76-85 | the loop over the pool array, in place, outputs what its choices select |
| Mapping.RollDice | src/mapping.ts:71 | each die is one more than its sample |
| Mapping.MapSingle | src/mapping.ts:72-75 | coin, range and choice of one are the value of one sample, the full range its word itself |
| Mapping.MapRandomness | src/mapping.ts:58-87 | the result is the mapped values exactly for valid specifications and randomness, else the error thrown |
| MappingWords.DiceFromWords | src/mapping.ts:71 | each die is its word modulo the sides, plus one, its word the first one behind the last die's that is not below the number of words modulo the sides |
| MappingWords.CoinFromWords | src/mapping.ts:72 | a coin is the parity of the first word kept |
| MappingWords.RangeFromWords | src/mapping.ts:73-74 | a number of a range is its lower end plus the kept word modulo the range's size |
| MappingWords.ChoiceFromWords | src/mapping.ts:75 | a choice of one is the kept word modulo the population |
| MappingWords.SelectionFromWords | src/mapping.ts:76-85 | a selection starts from the indices in order, and its i-th kept word modulo what is left says which entry changes places with the i-th and is output |
| MappingWords.ValidAreNamed | src/mapping.ts:13-50 | the valid mappings are exactly those the builtins make, with arguments in their ranges |
| Rounds.LatestRoundIsLatest | src/beacon.ts:40-42 | a round is due by a time exactly when it is at most the latest round |
| Rounds.FirstRoundIsFirst | src/round.ts:52-57 | the bound round is the first one due at or after the time plus the lead |
| Rounds.BoundRoundIsFresh | src/round.ts:52-57 | a bound round is due at least the lead after the request, and less than a period later unless it is round 1 |
| Rounds.ChoiceIsFresh | keeper/src/beacon.rs:129-139 | the chosen round lies between start and latest round and is at most max(180, 2 period - 1) seconds old |
| Rounds.ChoiceIsSettled | keeper/src/beacon.rs:133-138 | the choice is the start round while that is young or has no second successor, else the newest round whose successor is due |
| Rounds.ChoiceIsMonotone | keeper/src/beacon.rs:129-139 | the choice never goes back as time passes |
| Rounds.ChoiceBeforeStart | keeper/src/beacon.rs:129-136 | there is a choice exactly when start and now are past genesis, and before the start it is the newest round at the start |
| Rounds.DiscardedIsReplaced | keeper/src/beacon.rs:31-36 | for periods up to 90 s a packet discarded past 200 s is replaced by a later round with at least 20 s left |
| Rounds.AlwaysFreshIff | keeper/src/beacon.rs:129-139 | choices always stay within an age exactly when it is at least 180 and at least 2 period - 1, for every positive period, genesis and age |
| Rounds.AdmittedPeriodsCanGoStale | keeper/src/beacon.rs:103-115 | a beacon `check` admits always keeps its choices within 200 s exactly when its period is at most 100 s, with 20 s to spare at most 90 s |
| BeaconSchedule.FoldKeepsInvariant | src/round.ts:130-162 | eras start at strictly increasing times at least 600 s apart, a pending change 600 s after the last, every named beacon is registered, identities are distinct |
| BeaconSchedule.RoundAtDefined | src/round.ts:167-174 | an accepted schedule answers for every uint64 timestamp and no other |
| BeaconSchedule.HistoryImmutable | src/round.ts:130-174 | an accepted extension gives the same beacon and round for every timestamp up to its first event's block time |
| BeaconSchedule.TimesAscend | src/round.ts:131-133 | accepted logs have ascending block times |
| ScheduleRules.AcceptedIffAllowed | src/round.ts:131-159 | logs replay exactly when every entry is allowed by what the log before it says: next number and new identity; beacon 0 first, from its own block; 600 s of notice; a cancellation names the change that waits, in time |
| ScheduleReading.TimelineIsEffects | src/round.ts:147-159 | eras and pending change are the effects read off the log |
| ScheduleReading.EffectsAreEffective | src/round.ts:147-159 | an event has effect exactly when no later schedule or cancel event precedes its start |
| ScheduleReading.ReplayAgreesWithReading | src/round.ts:118-174 | the beacon at a time is that of the one effective event with the greatest start at or before it, else of the first |
| ScheduleReading.BeaconIsRegistered | src/round.ts:137-145 | the beacon with a number is what the event of that number registered |
| ScheduleReading.RoundAgreesWithReading | src/round.ts:165-174 | the round at a time is the least one due at least the lead after it, of the beacon that the event in force names as the log registers it |
| ScheduleReading.EarliestIsInitialization | src/round.ts:148-151 | before all effective events, the initialization's beacon is in force |
| ScheduleReading.ConstantDuringNotice | src/round.ts:153-159 | after a schedule or cancel event at T the beacon in force is constant on [T, T + 600) |
| ScheduleLogs.OrderDoesNotMatter | src/round.ts:121-135 | logs with the same relevant entries, in any order and with any other logs, give the same schedule or are both refused |
| ScheduleLogs.PermutationsAgree | src/round.ts:121-135 | any permutation of the input gives the same schedule or is refused too |
| ScheduleLogs.RepeatedIsRefused | src/round.ts:132 | an accepted log has no repeated position |
| ScheduleLogs.LaterLogsKeepHistory | src/round.ts:118-174 | later logs leave the answers for earlier times as they were |
| ScheduleLogs.RoundScheduleFromEvents | src/round.ts:118-163 | collecting, sorting and the loop over the logs compute the fold, or its first refusal |
| ScheduleLogs.LogsDecide | src/round.ts:121-162 | logs are accepted exactly when every beacon log counts and the entries they say, by position and none twice, replay; the schedule is what those replay to |
| ScheduleLogs.FindBeacon | src/round.ts:167-171 | the scan with a decreasing index finds the beacon in force |
| BeaconBook.ExecuteReplays | contracts/robinhood/BeaconBook.sol:122-165 | replaying the event of a contract call gives the schedule of the contract's new storage |
| BeaconBook.ReplayIsStorage | src/round.ts:108-163 | the replay of all events a contract emitted is the schedule its storage holds |
| BeaconBook.AcceptedIsPerformed | contracts/robinhood/BeaconBook.sol:122-165 | conversely, every event the replay accepts is that of a call the contract performs |
| BeaconBook.RoundAtAgrees | contracts/robinhood/BeaconBook.sol:92-102 | contract and replay name the same beacon at every timestamp, and the same round exactly when it is a uint64: when the period is above 1 s or the timestamp at most 2^64 - 5 + genesis |
| BeaconBook.FitsIff | contracts/robinhood/BeaconBook.sol:199-202 | when the round of a uint64 timestamp fits 64 bits |
| BeaconBook.LastTimestampDisagrees | src/round.ts:165-174 | a run in which the contract answers the last timestamp with round 2 and the replay with 2^64 + 2 |
| BeaconBook.AssignedRoundReplays | contracts/robinhood/BeaconBook.sol:169-173 | the beacon assigned to a request when it is made is the one replayed for its timestamp ever after, and so is the round exactly when it is a uint64 |
| BeaconBookLogs.LogsGiveStorage | src/round.ts:108-163 | the logs of a run, in any order and with any others, give the schedule the contract's storage holds |
| BeaconBookLogs.AssignedRoundFromLogs | contracts/robinhood/BeaconBook.sol:169-173 | the same, replayed from logs fetched at any later time |
| RoundReplay.ReplayRoundRequest | src/round.ts:281-333 | the verdict is valid exactly when no check fails, and the failed checks come in order |
| RoundReplay.ValidMeansHolds | src/round.ts:330-331 | every check of valid evidence holds |
| RoundReplay.OneOutcomeARequest | src/round.ts:281-333 | two valid evidences of one request under one schedule agree on beacon, round, randomness, seed, VRF output and values |
| RoundReplay.OneOutcomeUnderBeaconZero | src/round.ts:300-304 | without a schedule the same holds under beacon 0, which the configuration binds |
| RoundReplay.ValidEvidenceIsTimely | src/round.ts:309-328 | the round of valid evidence is due at least 3 s after the request, past genesis less than a period later, and the request was accepted within 60 s |
| RoundReplay.AcceptedLogsAreUsable | src/round.ts:305-308 | the schedule of accepted logs can be asked at every timestamp |
| RoundReplay.ChecksInPlace | src/round.ts:298-328 | the checks are made in one fixed order of seventeen, none twice |
| RoundReplay.FailedInOrder | src/round.ts:330 | and the failed ones are listed in that order |
| GenuineEvidence.ValidIffGenuine | src/round.ts:292-328 | evidence is valid exactly when every value is what the coordinator records: first round due 3 s after the request, its signature, a proof over seed and fields, transcript, mapped values, deadline 60 s after the request, served by then |
| GenuineEvidence.ServedRequestReplays | contracts/robinhood/BeaconBook.sol:169-173 | completeness: a request the contract binds to a beacon and a round that fits 64 bits, and serves in time, leaves evidence that replays against the schedule of any later time |
| WrongValues.WrongValueFailsItsReaders | src/round.ts:263-264 | whichever recorded value is wrong, the verdict lists the checks it runs that read it and no other exactly when none of them accepts the new value: always for identifiers, hashes, signatures, packets and mapped values, else under a condition on the evidence and the value |
| WrongValues.WrongValueChecks | src/round.ts:298-328 | check by check: with any one recorded value replaced the verdict lists a check exactly when it is run, reads a part that is wrong and its stated condition for passing does not hold |
| WrongValues.LaterDeadlinePasses | src/round.ts:327-328 | every valid evidence has a wrong deadline that only its own check lists, though the check of the acceptance time reads it |
| WrongValues.EarlierRequestPasses | src/round.ts:327-328 | every valid evidence has a wrong request time that the check of the acceptance time, which reads it, lets pass |
| WrongValues.OtherNoncePasses | src/round.ts:313-320 | another valid proof of the recorded key and seed is listed by the proof hash and the packet alone, though the proof check reads it |
| WrongValues.SameFlipPasses | src/round.ts:325-326 | a wrong randomness whose coin falls alike passes the mapped-result check, which reads it |
| Templates.ParseOfEncoding | src/templates.ts:92-103 | decoding inverts encoding |
| Templates.DescribesUnique | src/templates.ts:92-103 | no template has two readings |
| Templates.WellFormedIffParses | src/templates.ts:56-84 | well-formed templates are those that parse within the rules |
| Templates.ReadingSplits | src/templates.ts:95-101 | segment encodings are prefix-free: a read front is a front of every reading |
| Templates.ReadSegment | src/templates.ts:60-79 | one segment is recognised with its size, shortest match and kind, or refused |
| Templates.TemplateProblem | src/templates.ts:56-84 | no problem exactly for encodings of segments within the rules, else a rule that is broken |
| Templates.EncodeDataTemplate | src/templates.ts:25-54 | the encoding of valid segments within the rules, else refused |
| Templates.DecodeDataTemplate | src/templates.ts:92-103 | the segments a well-formed template describes, else refused |
| TemplateBytes.SegmentBytes | src/templates.ts:31-47 | the bytes of each kind of segment: opcode, operands and, of a literal, its text |
| TemplateBytes.EncodingJoins | src/templates.ts:27-49 | the bytes of a template are those of its segments, one behind the other |
| TemplateBytes.TemplateRules | src/templates.ts:3-10 | a template is the bytes of segments within their limits, 1 to 256 bytes, not all literal, with data of at most 128 bytes in its language |
| TemplateBytes.SpellsIff | src/templates.ts:3-8 | what a segment stands for: its text, so many of 0-9 and a-f, a JSON number with the parts allowed, or a number of so many digits |
| TemplateBytes.SpelledIff | src/templates.ts:3-10 | a template's language is what its segments spell, one behind the other |
| Matcher.MatchesSound | src/templates.ts:119-147 | what the greedy matcher accepts is in the template's language, by the pieces it takes |
| Matcher.MatchesComplete | src/templates.ts:119-147 | for separated segments everything in the language is accepted, by the one parse there is |
| Matcher.ShortestRecordInLanguage | src/templates.ts:58-82 | the shortest match is attained by data in the language |
| Matcher.NothingShorter | src/templates.ts:58-82 | nothing shorter than the counted shortest match is in the language |
| Matcher.ShortestRecordDecides | src/templates.ts:123-146 | the shortest record is accepted exactly when the segments are separated |
| Matcher.ExactIffSeparated | src/templates.ts:9-10 | the matcher accepts exactly the language if and only if the template is separated |
| Matcher.PlainLiteralsSeparate | src/templates.ts:9-10 | numbers that are last or before a literal not starting with a digit, '.', 'e' or 'E' are separated |
| TemplateBytes.SeparatedIff | src/templates.ts:9 | a template is separated exactly when behind every number that is not last stands literal text whose first byte does not go on with it |
| Matcher.UnseparatedMatchesNothing | src/templates.ts:139-143 | a template with a language and no match: two one-digit integers in a row |
| Matcher.Digits | src/templates.ts:105 | the end of the run of digits |
| Matcher.DecimalEnd | src/templates.ts:107-117 | the end of the number taken greedily, or -1 |
| Matcher.MatchSegment | src/templates.ts:124-144 | where one segment ends in the data, or that it takes nothing, and where the next segment starts |
| Matcher.MatchAll | src/templates.ts:122-146 | the loop over the template computes the greedy match |
| Matcher.MatchesDataTemplate | src/templates.ts:119-147 | true exactly for 1 to 128 bytes matched by a well-formed template |
| TemplateBytes.AcceptedBySeparated | src/templates.ts:119-147 | a separated template accepts exactly the 1 to 128 bytes its segments spell |
| GreedyMatch.MatchesIffLongest | src/templates.ts:123-146 | the matcher accepts exactly what segments spell with longest pieces, pieces no next byte lengthens |
| GreedyMatch.AcceptsIffLongest | src/templates.ts:119-147 | so every template, separated or not, accepts exactly the 1 to 128 bytes so spelled |
| BeaconCodec.BeaconTemplateDescribed | src/beacon.ts:20 | the beacon template is the encoding of INTEGER(1, 19) and is separated |
| BeaconCodec.DecimalRoundTrip | src/beacon.ts:44-47 | decimal digits read back as the number, without a leading zero and of the right length |
| BeaconCodec.DecimalInverse | src/beacon.ts:49-52 | canonical decimal is the decimal of what it reads as |
| BeaconCodec.BeaconDataIsCanonical | src/beacon.ts:19-20 | the template accepts exactly canonical decimal of 1 to 19 digits |
| BeaconCodec.EncodeBeaconRound | src/beacon.ts:44-47 | exactly the rounds from 1 to 10^19 - 1 encode |
| BeaconCodec.DecodeBeaconRound | src/beacon.ts:49-52 | exactly the encodings decode, each to its round, which fits uint64 |
| BeaconCodec.EncodedIsCanonical | src/beacon.ts:44-52 | the encodings are exactly the accepted data, one round each |
| BeaconCodec.RoundInDigits | src/beacon.ts:44-47 | each byte of an encoded round is its decimal digit at that place, and there are as many as the round has |
| BatchGas.SizingIsLeast | scripts/batch-abort-drill.ts:49-54 | a limit is at least the sized one exactly when it is at least the floor, 50,000 above the estimate, and above it by a fifth of what it has beyond the guard's budget |
| BatchGas.FloorIsLeast | scripts/batch-abort-drill.ts:48 | the floor is the least limit of which 63 parts in 64 cover the guard's budget, 73,112 and 27,168 a member |
| BatchGas.BudgetByMembers | scripts/batch-abort-drill.ts:47 | the guard's budget is 140,000, and every further member adds its limit, a 63rd of it and 400,000 |
| BatchGas.DrillSizes | scripts/batch-abort-drill.ts:45-55 | budget, floor and sized limits of the drill's own three members |
| BatchGas.LeastForwardingIsLeast | keeper/README.md:15 | the least gas of which all but a 64th is at least cb |
| BatchGas.BudgetTermIsNearlyLeast | scripts/batch-abort-drill.ts:47 | cb + cb/63 forwards cb, is least exactly when cb is 0 or no multiple of 63, and is one too much otherwise |
| BatchGas.BudgetTermNotLeast | scripts/batch-abort-drill.ts:47 | 63 gas already forwards 63, where the budget asks for 64 |
| BatchGas.FloorReachesGuard | scripts/batch-abort-drill.ts:48 | with a limit of at least the floor, the gas at the guard behind the proxy is at least the guard's budget |
| BatchGas.SafeIffRequired | contracts/D20VRFCoordinator.sol:408-428 | no callbacks with these limits can revert the batch exactly when it starts with the required gas |
| BatchGas.SafeSingle | contracts/D20VRFCoordinator.sol:406-421 | a batch of one cannot be reverted exactly with its callback limit, a 63rd of it and 540,000 |
| BatchGas.GuardCoversRequired | contracts/D20VRFCoordinator.sol:412-421 | the guard's budget covers what is required, exactly so for one member |
| BatchGas.GuardSlack | contracts/D20VRFCoordinator.sol:412-421 | by how much the guard's budget exceeds what is required |
| BatchGas.FloorLandsBatch | scripts/batch-abort-drill.ts:45-54 | a batch sent with at least the floor serves every member, and can give each its whole callback limit, whatever earlier callbacks burned |
| BatchGas.CheckForwardsLimit | contracts/D20VRFCoordinator.sol:638-639 | a member that passes the per-member check can be given its full callback limit |
| WebSocket.ParseOfPrint | scripts/fleet-drill.ts:208-218 | a printed frame parses to its opcode, payload and size, in all three length forms, masked or not, whatever follows |
| WebSocket.ParseOfPrefix | scripts/fleet-drill.ts:209-214 | no proper prefix of a frame parses |
| WebSocket.PrintOfParse | scripts/fleet-drill.ts:208-218 | what parses is the print of a frame of that size |
| WebSocket.ParseStable | scripts/fleet-drill.ts:208-218 | bytes after a frame change nothing |
| WebSocket.WsFrameParses | scripts/fleet-drill.ts:202-207 | the frames the server writes parse to their payload and opcode |
| WebSocket.UnmaskInPlace | scripts/fleet-drill.ts:216 | the payload array is unmasked in place, byte by byte |
| WebSocket.WsParse | scripts/fleet-drill.ts:208-218 | the code computes the parse |
| WebSocketBytes.UnmaskedIff | scripts/fleet-drill.ts:216 | unmasking changes in octet i exactly the bits set in octet i mod 4 of the key |
| WebSocketBytes.ParsedFromBytes | scripts/fleet-drill.ts:208-218 | a frame is parsed exactly when the octets say it: opcode in the low half of the first, mask bit and length form in the second, length with its most significant octet first, key, payload |
| WebSocketBytes.WrittenBytes | scripts/fleet-drill.ts:202-207 | the octets the server writes, in the shortest of the three length forms, unmasked |
| WebSocketStream.FramesAppend | scripts/fleet-drill.ts:226-230 | the frames of two chunks are the frames of the first and those of its rest with the second |
| WebSocketStream.NothingLost | scripts/fleet-drill.ts:226-231 | however a stream is cut, the frames handled and those in the bytes kept are the stream's, and what is left behind them is what the stream leaves |
| WebSocketStream.FramesStandInLine | scripts/fleet-drill.ts:229-230 | the frames of a stream are the only ones that stand one behind the other with no whole frame behind them |
| WebSocketStream.DeliverAll | scripts/fleet-drill.ts:226-233 | without a frame behind a close frame, any chunks deliver the frames of the whole stream |
| WebSocketStream.CutBehindClose | scripts/fleet-drill.ts:231 | otherwise two ways of cutting the stream deliver different frames |
| WebSocketStream.TwoClosesDiffer | scripts/fleet-drill.ts:231 | two empty close frames: one is handled in one chunk, both when the stream is cut between them |
| WebSocketStream.ChunksMatterOnlyBehindClose | scripts/fleet-drill.ts:226-243 | the frames handled do not depend on the chunks exactly when no frame follows a close frame |
| WebSocketStream.Connection.constructor | scripts/fleet-drill.ts:226 | a connection starts with nothing pending |
| WebSocketStream.Connection.OnData | scripts/fleet-drill.ts:227-243 | a chunk is appended, complete frames are consumed in order up to a close frame, the rest is kept |
| WebSocketStream.Feed | scripts/fleet-drill.ts:226-243 | chunk after chunk, a connection handles what the model delivers |
| DeployJournal.NextKeeps | scripts/create2-deploy.ts:103-148 | every action of script, crash or chain keeps the invariant tying journal, chain and run together |
| DeployJournal.ReachableKeeps | scripts/create2-deploy.ts:103-148 | every state of every history keeps it |
| DeployJournal.SentOnceInOrder | scripts/create2-deploy.ts:129-147 | over every history each step is broadcast at most once and in order, behind a durable record, with at most one unconfirmed |
| DeployJournal.BroadcastIsSafe | scripts/create2-deploy.ts:130-141 | at a broadcast the step's record is durable, it was never sent, and every earlier step is confirmed or already present, with code |
| DeployJournal.FinishedIsDeployed | scripts/create2-deploy.ts:129-147 | a finished run leaves code at every step; only implementations are reused |
| DeployJournal.RefusedSendsNothing | scripts/create2-deploy.ts:104-123 | once no plan can resume the journal, nothing is ever sent again |
| DeployJournal.UnconfirmedSendsNothing | scripts/create2-deploy.ts:104-111 | in particular with an unconfirmed signed step or a line cut short |
| DeployJournal.ResumeAccepted | scripts/create2-deploy.ts:104-111 | after every history a plan can resume the journal exactly when no line was cut short, nothing was recorded behind a lost newline, the first line is the plan's and every signed step is confirmed |
| DeployJournal.TornIff | scripts/create2-deploy.ts:106-124 | over every history a line does not parse exactly when one did not before, a write was cut short, or something was recorded behind a lost newline |
| DeployJournal.LostNewlineSpoils | scripts/create2-deploy.ts:106-124 | in runs not interrupted inside a write, a journal that parsed is spoiled exactly when its last line had lost its newline and anything was recorded, and no plan resumes it then |
| DeployJournal.LostNewlineHappens | scripts/create2-deploy.ts:106-124 | a first run of any plan can lose the newline of its first line, be resumed, and leave a journal no plan resumes though nothing else goes wrong |
| DeployRun.RunRespectsCode | scripts/create2-deploy.ts:115-122 | over every run, what had code when it began is not deployed, exactly implementations are reused, and past the scan confirmed steps have code and no other proxy had any |
| DeployRun.FirstRun | scripts/create2-deploy.ts:103-147 | there is an uninterrupted first run, and it sends the missing steps in order and leaves a journal of plan, existing steps, and a signed and a confirmed line for each other |
| DeployScript.ReadJournal | scripts/create2-deploy.ts:106-110 | reading the journal back gives its confirmed steps exactly when it may be resumed |
| DeployScript.Deployment.ScanCode | scripts/create2-deploy.ts:115-122 | the scan passes exactly when confirmed steps have code and unconfirmed proxies have none, and finds the implementations present |
| DeployScript.Deployment.Record | scripts/create2-deploy.ts:124 | a line is written and synced, or the run ends before it, inside it, before its newline or after it |
| DeployScript.Deployment.RecordExisting | scripts/create2-deploy.ts:127 | a line is written for every step found present, in order |
| DeployScript.Deployment.Prepare | scripts/create2-deploy.ts:103-127 | a run that may not open its journal ends without a trace; otherwise it reaches the loop with what is confirmed and present |
| DeployScript.Deployment.Sign | scripts/create2-deploy.ts:130-139 | a missing step reaches its broadcast only with its signed line written |
| DeployScript.Deployment.AwaitReceipt | scripts/create2-deploy.ts:143-144 | the run goes on only with a good receipt and code at the address |
| DeployScript.Deployment.Send | scripts/create2-deploy.ts:141-145 | one broadcast, and on confirmation its line |
| DeployScript.Deployment.DeploySteps | scripts/create2-deploy.ts:129-147 | the loop sends the steps neither confirmed nor present, in order, or a front of them |
| DeployScript.Deployment.Deploy | scripts/create2-deploy.ts:103-148 | whatever the world does, a run is a history of the state machine; a refused run changes nothing; an undisturbed one sends exactly what is missing |
| Epoch.EpochHoldsItsBlocks | src/epoch.ts:168-171 | a block belongs to an epoch exactly when it lies between its start and the next one's |
| Epoch.WindowOpensInside | src/epoch.ts:173-176 | every attempt's window opens inside its own epoch, and an attempt is open when enough blocks have passed |
| Epoch.LadderVisitsOnce | src/epoch.ts:182 | the attempts visit every slot once, and the attempt recovered from a slot is the one that uses it |
| Epoch.PacketRoundTrip | src/epoch.ts:209-219 | a packet decodes exactly to what it is the canonical encoding of |
| Epoch.ReplayAcceptsIffProduced | src/epoch.ts:220-233 | replay accepts a record and packet exactly when some attempt with an open window and a verified attestation produces them and the recipe first selected resolves |
| EpochTerms.ProducedIffMade | src/epoch.ts:177-207 | what an attempt produces, value by value: the slot so many behind the selector's, data its template accepts or a beacon's timely round, at most 240 s old, the slot's signer, and the record of their hashes |
| Epoch.MissingFirstRecipe | src/epoch.ts:224 | every fallback that is produced is refused once the book lacks the recipe first selected, which the fallback does not use |
| Epoch.ProducedOnce | src/epoch.ts:223-224 | that attempt and attestation are unique |
| Epoch.EpochHashBinds | src/epoch.ts:204-207 | accepted replays with one epoch hash have one epoch, record, attestation and packet |
| Epoch.ReplayStays | src/epoch.ts:149-154 | recipes registered later change nothing for what replays already |
| Epoch.ReplaySame | src/epoch.ts:149-154 | with all the catalog's recipes in the book, more of them change no verdict |
| EpochRegistry.ViewsResolve | src/epoch.ts:162-167 | every catalog the registry gives resolves to one with its hash, recipes and signers |
| EpochRegistry.ViewIsValid | contracts/EpochEntropy.sol:272-294 | every catalog in force follows the rules replay demands and lists beacons under their own signer |
| RegistryTerms.VersionInForce | contracts/EpochEntropy.sol:310-313 | the catalog of an epoch is the last version that begins at or before it |
| EpochRegistry.AdmitsIffVerifies | src/epoch.ts:186-203 | the contract's checks on an attestation and verification accept the same, except that a beacon's signature is judged by its registered verifier in one and by the replay's scheme in the other |
| EpochRegistry.SelectionAgrees | contracts/EpochEntropy.sol:345-356 | contract and replay select the same slot, recipe, signer and query, unless the recipe is a beacon with a key replay cannot use |
| EpochRegistry.CommitsAreProduced | contracts/EpochEntropy.sol:363-391 | what the contract makes of an attempt is what replay says it produces, exactly where the verifier and the replay's scheme both take the attestation |
| EpochRegistry.CommittedReplaysIff | contracts/EpochEntropy.sol:363-391 | what the contract commits replays exactly when replay can use the key of the recipe first selected and its scheme takes the attestation, always a signed one |
| EpochRegistry.ReplayAcceptsIffCommitted | src/epoch.ts:220-233 | where the verifiers of the registered beacons agree with the replay's scheme, replay accepts exactly the records and packets the contract makes of some attempt and attestation |
| EpochRegistry.OtherVerifierCommits | contracts/EpochEntropy.sol:207-213 | a verifier that accepts a fresh round the replay's scheme refuses commits an epoch that does not replay |
| EpochHistory.CatalogIsFixed | contracts/EpochEntropy.sol:272-294 | no transaction changes the catalog of the current epoch, the next one or any past one |
| EpochHistory.TransactKeeps | contracts/EpochEntropy.sol:161-391 | every transaction keeps recipes and catalogs valid and every committed epoch settled: it replays exactly when the replay's scheme takes it |
| EpochHistory.HistoryIsFixed | contracts/EpochEntropy.sol:272-302 | over every history catalogs up to the next epoch and committed epochs never change |
| EpochHistory.CommittedEpochsReplayIff | src/epoch.ts:220-233 | over every history, with verifiers that answer anything, a committed epoch replays at any later time exactly when the replay's scheme takes what was committed |
| EpochHistory.CommittedEpochsReplay | src/epoch.ts:220-233 | over every history in which beacons have keys of the scheme and verifiers accept only what it accepts, every committed epoch replays |
| Entries.SortedIsDetermined | src/sources.ts:29 | sorted entries are equal exactly for equal objects |
| Entries.LessIff | src/sources.ts:29 | the order of names is that of the first code unit in which they differ, a name before those it begins |
| Canonical.SameMeaningSameCanonical | src/sources.ts:8-13 | values equal as nested maps have one canonical form, whatever the order of names at any depth |
| Canonical.CanonicalOfObject | src/sources.ts:10-11 | an object becomes one [name, value] pair for each entry, values in canonical form, in the order of first differing code units |
| Canonical.CanonicalIdempotent | src/sources.ts:8-13 | canonicalizing again changes nothing |
| Canonical.CanonicalIffSameMeaning | src/sources.ts:8-13 | plain values share a canonical form exactly when they are equal as nested maps |
| Canonical.ArrayFreeIsPlain | src/sources.ts:8-13 | array-free values are plain |
| Canonical.DeterminedIff | src/sources.ts:8-13 | among all values a canonical form stands for one alone exactly when it has no object and no array that reads like one |
| Canonical.CanonicalOfObjectify | src/sources.ts:6-7 | every value without objects is a canonical form |
| Canonical.ObjectAndItsEntries | src/sources.ts:6-7 | an object and the array of its entries share a canonical form |
| Canonical.TextIffSameRequest | src/sources.ts:14-18 | plain requests share a canonical text exactly when operation, parameters and projection are equal as nested maps |
| Passthrough.EntriesIffPairs | src/sources.ts:37-45 | the arrays read are exactly the pairs of strictly ascending entries with unreserved names |
| Passthrough.PathIffSegments | src/sources.ts:55-56 | a path is a slash and segments of unreserved characters, other than . and .., joined by slashes |
| Passthrough.EscapedIff | src/sources.ts:67 | the pointers taken are those in which every ~ is followed by 0 or 1 |
| Passthrough.PrintedParsesBack | src/sources.ts:30-36 | exactly the valid requests print, and their text parses back to them without an empty query or body |
| Passthrough.ParsedIsReproduced | src/sources.ts:49-72 | every text the parser accepts is reproduced exactly by printing the request |
| Passthrough.SortFields | src/sources.ts:29 | an object's fields, in any order, sort to its entries |
| Passthrough.ReadEntries | src/sources.ts:37-45 | the entries are read and checked one after the other |
| Passthrough.ReadParts | src/sources.ts:53-71 | the checks and the object built step by step give the parsed request |
| Passthrough.ParsePassthroughRequest | src/sources.ts:49-72 | the code computes the parse |
| Passthrough.CanonicalPassthroughRequest | src/sources.ts:30-36 | the code computes the printed text, or refuses |
| PassthroughText.PrintedText | src/sources.ts:30-33 | the text is that of the array of the word passthrough, method, path, query, body and, if there is one, projection, entries in the order of their names |
| PassthroughText.ValidInCharacters | src/sources.ts:50-71 | which requests have a text, character by character: GET without or POST with a JSON body, plain segments and names, no name that begins x-airnode- in either case, pointers without a loose ~ |
| PassthroughUrl.PercentEncodeInjective | src/sources.ts:73-74 | percent-encoding is injective on byte strings |
| UrlText.EncodedOctet | src/sources.ts:73-74 | plain characters stay, every other octet is a percent sign and its two upper-case hexadecimal digits |
| UrlText.DecodeOfEncode | src/sources.ts:73-77 | percent-decoding gives back what was encoded |
| UrlText.Stripped | src/sources.ts:81 | the gateway's part does not end in a slash and lacks only slashes |
| PassthroughUrl.TokensSay | src/sources.ts:79-80 | the parameters determine names, aliases and the bytes of values and pointers |
| PassthroughUrl.UrlIffSameOnWire | src/sources.ts:78-82 | for one gateway two requests have one URL exactly when path, and names and bytes of query and projection agree |
| UrlText.UrlParts | src/sources.ts:78-82 | a URL is the gateway without closing slashes, /api, the path, and one parameter for each query and then each projection entry, in the order of names, encoded |

## Left out

- Elliptic curves, pairings, hash-to-curve and VRF proof checking: uniqueness of signatures and VRF points is assumed by
  name.
- Hash and ABI layouts, hexadecimal text and its malformed forms, address checksums: library code, replaced by
  parameters.
- UTF-8, JSON text and Unicode: parameters; JavaScript numbers that are not integers and values that are not JSON are
  not modelled.
- The order in which checks throw, and error texts: only what is accepted, and where the source reports it the rule that
  is broken.
- Termination of the sampler on a bad stream: a request's stream is assumed to have an acceptable word ahead of every
  cursor.
- Asynchronous interleaving in the WebSocket handler, subscriptions and JSON-RPC forwarding: only parsing and consuming
  are modelled.
- In the deployment script: plan printing, balance, fee, nonce and gas checks, which only end a run; the post-deployment
  checks.
- Reorganizations that remove deployed code, and two deployments running on one journal at once.
- BatchGas.SafeIffRequired: takes the per-member overhead of at most 400,000 and the transaction's own cost as given
  bounds.
- `backoff`, and the parts of `check` that compare texts: easy beside the age bound.
- Ownership, committer authorization and upgrades of the contracts; overflow of uint64 sums of block numbers and times
  in the contracts, which reverts, and in the keeper, where it is out of reach. The cast that does not revert is
  modelled.
- Reading recipes over RPC, the built-in recipe texts, epoch request contexts and configuration hashes.
- The relay race, circuit breakers, the nonce lane, the audit log, spend caps, administration, load and messaging
  tooling.
