# VxSuite core algorithms, modelled and proved in Dafny

This project models the parts of VxSuite whose correctness is hardest to see by
reading: the bit-packed ballot format, smart card authentication, the card's
wire protocol and storage, Grout's tagged serialization, the asynchronous queue,
the strict mock, the dependency search, and the image algorithms. `dafny verify
dfyconfig.toml` checks everything.

Code that updates state in place is a class or a method here too, proved against
a specification function or predicate; what the code is for is then proved about
that specification, over every input or every run.

| component | specification and main theorems | the code's own form |
|---|---|---|
| ballot codec | `BallotFormat`, `BallotRoundTrip`, `BallotExactness`, `BallotLayout`, `BitFields`, `Bits`, `Election` | `BitStreams`, `BallotCodec` |
| authentication | `InsertedAuthRuns`, `DippedAuthRuns`, `LockoutRuns`, `CardSwaps` | `Auth`, `InsertedAuth`, `DippedAuth` |
| card protocol and storage | `Apdu`, `CardPeer` | `CardReading`, `JavaCard` |
| Grout | `GroutRoundTrip` | `Grout` |
| queue, mock, graph | `MockFunctionRuns` and the specification functions beside the classes | `DeferredQueues`, `MockFunctions`, `Dependencies` |
| images | `Images` and the specification functions beside the methods | `Otsu`, `Dither`, `Rotate`, `Regions`, `Outline` |

## What the proofs show, and where the code does less than it seems to

- **Ballots.** Nothing in the bit stream describes itself. The encoder sizes the
  write-in count by the choices in the vote, the decoder by the listed
  candidates it found. A vote is read back exactly when both arrive at the same
  width (`VoteReadsBack`), and they do for every vote that names each listed
  candidate at most once and marks as write-ins exactly the others
  (`ValidSelectionInLockStep`). The codec checks none of this.
  `BallotReadsBackExactly` says which of all encodable ballots come back. A
  candidate not on a one-seat contest shows how little it takes
  (`StrayTurnsOnAlignment`): if the last byte has padding the ballot comes back
  with an empty vote, and otherwise the bytes are refused, until a zero byte is
  appended. Beside a write-in on a two-seat contest the ballot is always refused
  (`OutOfStepRefused`). Write-ins beyond the last seat are dropped without an
  error (`WriteInsKept` says exactly when). A ballot id that starts with an
  underscore encodes but does not decode, and an empty one comes back absent
  (`BallotIdReadsBack`).
- **Layout.** A round trip alone would not notice an encoder and a decoder that
  changed together. `EncodedLaid` and `AcceptedLaid` say where each part of a
  ballot lies in the bits, for both.
- **Lockout.** On both machines, in every run with one card, the wrong PINs that
  were entered at the prompt and answered are spaced as promised. The card also
  counts a wrong PIN whose answer is lost and one entered past the prompt, and
  neither renews the lockout: `HeldBackExactly` says that these are the only
  exceptions, and `LostAnswerIsNotSpaced` and `AwayFromPromptIsNotSpaced` are
  runs in which the next wrong PIN follows at once. The prompt does not show it:
  after a lost answer, a log-out and a poll give a prompt without an error, locked
  half as long as is due (`StaleCountRelocks`).
- **Whose PIN.** A card swapped for another between two polls goes unnoticed: the
  machine keeps asking the first user and takes the second card's PIN for theirs
  (`SwappedCardLogsIn`). If every removal is noticed before the next card goes in,
  the PIN accepted is that of the user asked (`AcceptedPinIsOwn`).
- **Sessions.** On the inserted-card machine no poll, PIN or log-out leaves
  anyone logged in past the expiry. On the dipped-card machine a session can
  run out while the card is still in the reader; taking the card out then logs
  the user in until the next status update (`PastExpiryExactly`,
  `LoginPastExpiry`).
- **Grout.** A value comes back the same exactly when no plain object in it has
  something other than `undefined` under both tag keys (`RoundTripExactly`).
- **Mocks.** The correspondence that `assertComplete` recomputes is the recorded
  one exactly when no expectation was added after a repeated one had been used
  more than once (`AgreesExactly`). The arguments of an actual call are
  normalized, those of an expectation are not, so an expectation of a single
  `undefined` can never be met (`UndefinedNeverMatched`).
- **Dithering.** The last share of a pixel in the last column is not dropped: it
  lands at the start of the row after the next, if there is one
  (`Dropped` says which shares are lost, `LuminanceConserved` adds them up).
- The bit widths follow `libs/ballot-encoder/src/bits`. The conversion of numbers
  to masks shifts signed 32-bit integers, so a bound above 2^31 - 1 has no width.

Times, PIN answers, lost exchanges, the way the card cuts a reply into pieces and
the host's scalar conversions are parameters of the model. `CardPeer` stands for
the card's applet, which is not part of the repository; it follows sections
5.1.1.1 and 7.6.1 of ISO/IEC 7816-4:2005 as the comments in
`libs/auth/src/apdu.ts` and `libs/auth/src/card_reader.ts` describe them.

## Model

| member | source | states |
|---|---|---|
| `Bits.SizeofIsTight` | libs/ballot-encoder/src/bits/utils.ts:47-63 | the width of a bounded field is enough for the bound, and one bit less is not |
| `Bits.SizeofMonotone` | libs/ballot-encoder/src/bits/utils.ts:47-63 | a larger bound never has a narrower field |
| `Bits.BitAt` | libs/ballot-encoder/src/bits/utils.ts:13-21 | masking bit i of a number, most significant first, agrees with its bit string |
| `Bits.FromToBits` | libs/ballot-encoder/src/bits/bit_reader.ts:75-84 | a number is recovered from its bit string when it fits the width |
| `Bits.ToFromBits` | libs/ballot-encoder/src/bits/bit_reader.ts:75-84 | every bit string is that of the number it denotes, which fits the width |
| `Bits.UnpackSlice` | libs/ballot-encoder/src/bits/bit_reader.ts:68-72 | the byte-aligned fast path reads the same eight bits as the bitwise one |
| `BitStreams.AddBit` | libs/ballot-encoder/src/bits/bit_writer.ts:28-41 | setting the next masked bit of the byte being filled appends that bit and touches no other |
| `BitStreams.BitWriter.WriteBoolean` | libs/ballot-encoder/src/bits/bit_writer.ts:28-52 | appends exactly that bit to everything written |
| `BitStreams.BitWriter.WriteUint` | libs/ballot-encoder/src/bits/bit_writer.ts:98-111 | at widths of at most 31, fails exactly when the number does not fit; otherwise appends its bits at that width, on the byte path as on the bit path |
| `BitStreams.BitWriter.WriteBounded` | libs/ballot-encoder/src/bits/bit_writer.ts:86-92 | fails exactly when the number exceeds the bound or the bound has no width; otherwise appends the number at the bound's width |
| `BitStreams.BitWriter.WriteString` | libs/ballot-encoder/src/bits/bit_writer.ts:156-193 | fails exactly when the length-prefixed field does not exist; otherwise appends it |
| `BitStreams.BitWriter.WriteFixedString` | libs/ballot-encoder/src/bits/bit_writer.ts:181-193 | fails unless the string has the stated length and alphabet; otherwise appends its codes with no prefix |
| `BitStreams.BitWriter.ToUint8Array` | libs/ballot-encoder/src/bits/bit_writer.ts:213-234 | the bytes are the bits written followed by fewer than eight zero bits |
| `BitStreams.BitReader.ReadUint1` | libs/ballot-encoder/src/bits/bit_reader.ts:21-42 | reads the next bit and moves one on, or fails at the end |
| `BitStreams.BitReader.ReadSized` | libs/ballot-encoder/src/bits/bit_reader.ts:62-85 | at widths of at most 31, reads the number the next bits denote, on the byte path as on the bit path, or fails if they run out |
| `BitStreams.BitReader.ReadMax` | libs/ballot-encoder/src/bits/bit_reader.ts:62-85 | reads at the width of the bound |
| `BitStreams.BitReader.ReadChars` | libs/ballot-encoder/src/bits/bit_reader.ts:121-138 | reads a length and then that many characters of the alphabet, or fails |
| `BitStreams.BitReader.ReadFixedChars` | libs/ballot-encoder/src/bits/bit_reader.ts:121-138 | reads exactly that many characters of the alphabet, or fails |
| `BitStreams.BitReader.SkipUint8` | libs/ballot-encoder/src/bits/bit_reader.ts:149-172 | moves past the expected bytes if they come next, and otherwise does not move at all |
| `BitStreams.BitReader.CanRead` | libs/ballot-encoder/src/bits/bit_reader.ts:214-218 | tells whether that many bits are left |
| `BitFields.BoundedReadsBack` | libs/ballot-encoder/src/bits/bit_reader.ts:62-85 | a bounded number written is read back under the same bound, whatever follows |
| `BitFields.StringReadsBack` | libs/ballot-encoder/src/bits/encoding.ts:99-139 | a string written is read back with the same alphabet and maximum length, whatever follows |
| `BitFields.StringEncodable` | libs/ballot-encoder/src/bits/encoding.ts:99-124 | a string has an encoding exactly when it is short enough and within the alphabet |
| `BitFields.FixedStringReadsBack` | libs/ballot-encoder/src/bits/encoding.ts:99-139 | a fixed-length string written is read back, whatever follows |
| `BitFields.FixedStringEncodable` | libs/ballot-encoder/src/bits/encoding.ts:99-124 | a fixed-length string has an encoding exactly when the length is right and every character is in the alphabet |
| `BitFields.SizeLimit` | libs/ballot-encoder/src/bits/utils.ts:47-63 | a bound has a width exactly when that width is at most 31 |
| `BitFields.CharWidthLimit` | libs/ballot-encoder/src/bits/encoding.ts:68-91 | a character set of at most 256 takes at most eight bits a character |
| `BitFields.UintReadExactly` | libs/ballot-encoder/src/bits/bit_reader.ts:62-85 | a number is read from exactly one string of bits |
| `BitFields.CodesReadExactly` | libs/ballot-encoder/src/bits/bit_reader.ts:131-135 | a run of codes is read from exactly one string of bits |
| `BitFields.CharsExactly` | libs/ballot-encoder/src/bits/encoding.ts:99-139 | with no character twice in the set, decoding codes gives a string exactly when encoding the string gives those codes |
| `BitFields.BytesSkip` | libs/ballot-encoder/src/bits/bit_reader.ts:206-208 | bytes just written can be skipped and leave exactly what follows |
| `Election.ContestsAreOpen` | libs/types/src/election_utils.ts:38-44 | the contests of a ballot style are those in its districts that are yes-no contests, or have no party, an empty one, or the style's |
| `Election.GetContestsInOrder` | libs/types/src/election_utils.ts:31-45 | and they come as often and in the order in which the election lists them |
| `Election.GetContestsUnique` | libs/types/src/election_utils.ts:31-45 | unique contest ids stay unique on a ballot style |
| `Election.FindBallotStyle` | libs/types/src/election_utils.ts:76-84 | finds the first ballot style with the id, or none if there is none |
| `Election.FindPrecinct` | libs/types/src/election_utils.ts:50-58 | finds the first precinct with the id, or none if there is none |
| `BallotRoundTrip.SameCount` | libs/ballot-encoder/src/index.ts:244-249 | on a valid selection the decoder finds as many chosen candidates as the encoder counted choices other than write-ins |
| `BallotRoundTrip.ValidSelectionInLockStep` | libs/ballot-encoder/src/index.ts:244-249 | on a valid selection encoder and decoder compute the same maximum number of write-ins |
| `BallotRoundTrip.WriteInsReadExactly` | libs/ballot-encoder/src/index.ts:378-403 | write-ins are read as given names from exactly one string of bits, the count as wide as the seats the decoder found free |
| `BallotRoundTrip.WriteInsKept` | libs/ballot-encoder/src/index.ts:243-263 | write-ins are kept exactly when there are none, or they are allowed and the chosen candidates leave a seat free |
| `BallotRoundTrip.NothingLost` | libs/ballot-encoder/src/index.ts:215-271 | a valid selection without overvote comes back with as many choices as it had: chosen candidates, then all write-ins |
| `BallotRoundTrip.DecodedVoteListed` | libs/ballot-encoder/src/index.ts:366-404 | a valid selection without overvote comes back as the listed candidates it names, in contest order, and then its write-ins in ballot order, each with an id made of its name and nothing else |
| `BallotRoundTrip.VoteReadsBack` | libs/ballot-encoder/src/index.ts:366-404 | whatever follows it, a vote is read back in canonical form exactly when it was written in lock step |
| `BallotRoundTrip.VoteSizedExactly` | libs/ballot-encoder/src/index.ts:215-271 | the bits written for a vote are those the decoder takes for it exactly when the vote is in lock step |
| `BallotRoundTrip.SizedVoteReads` | libs/ballot-encoder/src/index.ts:366-404 | from the bits it takes for a vote the decoder reads that vote in canonical form, and leaves what follows |
| `BallotRoundTrip.SizedVotesRead` | libs/ballot-encoder/src/index.ts:354-408 | from the bits it takes for the votes the decoder reads the votes present, each in canonical form |
| `BallotRoundTrip.ConfigReadsBack` | libs/ballot-encoder/src/index.ts:147-196 | precinct, ballot style, test mode, ballot type and ballot id are read back, an empty id as none; with an id that starts with an underscore reading fails |
| `BallotRoundTrip.BallotIdReadsBack` | libs/ballot-encoder/src/index.ts:178-182 | a ballot id that was written is read back, and refused exactly when it starts with an underscore |
| `BallotLayout.EncodedLaid` | libs/ballot-encoder/src/index.ts:104-320 | in every encoded ballot the prelude, hash digits, counts, indices, mode, ballot id and roll call lie at the stated bits, and the votes follow |
| `BallotLayout.AcceptedLaid` | libs/ballot-encoder/src/index.ts:147-450 | and whatever bits the decoder accepts, the ballot it gives lies in them so |
| `BallotLayout.OtherElectionRefused` | libs/ballot-encoder/src/index.ts:147-174 | bytes made for one election are refused by any election with other counts of precincts, ballot styles or contests |
| `BallotLayout.VoteLaid` | libs/ballot-encoder/src/index.ts:198-271 | a yes-no vote is one bit; a candidate vote is a bit a candidate and, if seats are left for write-ins, their number and their names |
| `BallotLayout.NameLaid` | libs/ballot-encoder/src/index.ts:53-58 | a write-in is its length in six bits and five bits a character, in the order of the alphabet |
| `BallotRoundTrip.CanonicalVotesHold` | libs/ballot-encoder/src/index.ts:354-408 | the decoded votes are those of exactly the contests with a non-empty vote, each in its canonical form |
| `BallotRoundTrip.BallotReadAsVotes` | libs/ballot-encoder/src/index.ts:413-460 | whatever follows an encoded ballot, what becomes of it is decided by its ballot id and by what is read where its votes were written |
| `BallotRoundTrip.BallotReadsBack` | libs/ballot-encoder/src/index.ts:413-460 | whatever bits follow a ballot encoded in lock step, decoding gives that ballot in canonical form if they are padding and fails if they are not |
| `BallotRoundTrip.ValidBallotRoundTrip` | libs/ballot-encoder/src/index.ts:276-460 | a ballot whose votes are valid selections without overvote comes back whole: hash cut to 20 characters, empty votes dropped, chosen candidates in contest order and then the write-ins in ballot order |
| `BallotExactness.VoteReadExactly` | libs/ballot-encoder/src/index.ts:366-404 | in a contest with distinct candidates, none a write-in, a vote is read in canonical form from exactly one string of bits |
| `BallotExactness.VotesReadExactly` | libs/ballot-encoder/src/index.ts:354-408 | with distinct contests besides, so are the votes of a ballot |
| `BallotExactness.BallotReadsBackExactly` | libs/ballot-encoder/src/index.ts:276-460 | for every ballot that can be encoded and whatever follows it: it comes back in canonical form exactly when the bits written and those that follow are the bits the decoder takes for its votes, and padding |
| `BallotExactness.LockStepInStep` | libs/ballot-encoder/src/index.ts:244-249 | in lock step that is the case exactly when only padding follows |
| `BallotExactness.InStepAppended` | libs/ballot-encoder/src/index.ts:334-352 | what comes back is refused with any bytes appended |
| `BallotExactness.OnlyVoteDecides` | libs/ballot-encoder/src/index.ts:413-460 | what becomes of a ballot with one vote is what becomes of that vote, if only padding is left |
| `BallotExactness.StrayVoteReads` | libs/ballot-encoder/src/index.ts:244-263 | a vote for someone not on a one-seat contest is written without a count and read with one, from whatever follows |
| `BallotExactness.StrayTurnsOnAlignment` | libs/ballot-encoder/src/index.ts:325-460 | a ballot with only such a vote is encoded; it comes back with an empty vote if its last byte has padding, is refused if it has none, and then is accepted with a zero byte appended |
| `BallotExactness.SmallEncodable` | libs/ballot-encoder/src/index.ts:276-320 | there are such ballots |
| `BallotExactness.SmallLength` | libs/ballot-encoder/src/index.ts:276-320 | and they take 137 bits and one for each candidate, so every alignment occurs |
| `BallotExactness.OutOfStepUnreadable` | libs/ballot-encoder/src/index.ts:244-249 | a stray candidate beside a write-in on a two-seat contest: the encoder accepts the vote and the decoder rejects what it wrote |
| `BallotExactness.OutOfStepRefused` | libs/ballot-encoder/src/index.ts:325-460 | a ballot with only such a vote is encoded and never comes back |
| `BallotRoundTrip.EncodableExactly` | libs/ballot-encoder/src/index.ts:276-320 | encoding succeeds exactly on the ballots that meet the limits of the format |
| `BallotRoundTrip.VotesTakenExactly` | libs/ballot-encoder/src/index.ts:285-303 | a ballot may hold votes in the contests open to its style and in no others |
| `BallotRoundTrip.VoteDataEncodable` | libs/ballot-encoder/src/index.ts:215-271 | the votes can be written exactly when each present one can: no double answers, and write-ins that fit, are short and are spelled in the alphabet |
| `BallotCodec.EncodeBallotConfigInto` | libs/ballot-encoder/src/index.ts:104-142 | appends the configuration fields, or fails exactly when one of them does not exist |
| `BallotCodec.EncodeBallotVotesInto` | libs/ballot-encoder/src/index.ts:215-271 | appends the roll call and then the data of each vote present, or fails exactly when one cannot be written |
| `BallotCodec.EncodeBallotInto` | libs/ballot-encoder/src/index.ts:276-320 | appends the whole ballot, or fails exactly when it has no encoding |
| `BallotCodec.EncodeBallot` | libs/ballot-encoder/src/index.ts:325-332 | gives bytes exactly for the encodable ballots: the ballot's bits and fewer than eight zero bits |
| `BallotCodec.ReadPaddingToEnd` | libs/ballot-encoder/src/index.ts:334-352 | passes exactly when fewer than eight bits are left and all are zero |
| `BallotCodec.DecodeBallotConfigFromReader` | libs/ballot-encoder/src/index.ts:147-196 | reads the configuration the bits hold, or fails when counts, indices or ballot id are wrong |
| `BallotCodec.DecodeBallotVotes` | libs/ballot-encoder/src/index.ts:354-408 | reads the votes the bits hold, or fails |
| `BallotCodec.DecodeBallotFromReader` | libs/ballot-encoder/src/index.ts:413-450 | reads the ballot the bits hold and nothing else, or fails |
| `BallotCodec.DecodeBallot` | libs/ballot-encoder/src/index.ts:455-460 | the same, from bytes |
| `BallotCodec.EncodeThenDecode` | libs/ballot-encoder/src/index.ts:325-460 | decoding the encoded bytes gives the ballot in canonical form exactly when its bits and the padding are in step, as they are in lock step |
| `BallotCodec.AppendedBytesRejected` | libs/ballot-encoder/src/index.ts:334-352 | encoded bytes in step with their ballot are accepted, and with one or more bytes of any value appended they are rejected |
| `BallotCodec.RefusedBallot` | libs/ballot-encoder/src/index.ts:325-460 | encodes a ballot whose bytes are refused, and accepted with an empty vote once a zero byte is appended |
| `Auth.LockoutDoubles` | libs/auth/src/lockout.ts:37-65 | no lockout before the allowance is spent, the starting duration then, and twice as long with each further attempt |
| `Auth.Defaults` | libs/auth/src/lockout.ts:19-36 | the defaults: sessions of 12 hours, no lockout before attempts 1 to 5, 15 seconds before attempt 6, 30 before 7 and 7680 before 15 |
| `Auth.SettingsApply` | libs/auth/src/sessions.ts:17-28 | settings that are set take the place of the defaults: hours, attempts and seconds |
| `Auth.Card.CheckPin` | libs/auth/src/java_card.ts:205-253 | the right PIN clears the card's counter and a wrong one adds one to it, whether or not the answer arrives; an answer leaves the cached count equal to the card's and a failure leaves the status alone |
| `Auth.CountKnownExactly` | libs/auth/src/java_card.ts:205-253 | a cached count that was the card's stays so exactly when the PIN is answered, or was right and the count zero |
| `InsertedAuth.InsertedSmartCardAuth.GetAuthStatus` | libs/auth/src/inserted_smart_card_auth.ts:168-199 | one card poll, and a report that shows a cardless voter to the poll worker who is in, or once the reader is empty |
| `InsertedAuth.InsertedSmartCardAuth.CheckPin` | libs/auth/src/inserted_smart_card_auth.ts:201-226 | a poll; then, if locked out, nothing else, neither on the card nor in the status; otherwise the card's answer is applied |
| `InsertedAuth.InsertedSmartCardAuth.LogOut` | libs/auth/src/inserted_smart_card_auth.ts:228-230 | the log-out transition from whatever state |
| `InsertedAuth.InsertedSmartCardAuth.UpdateSessionExpiry` | libs/auth/src/inserted_smart_card_auth.ts:232-241 | a poll and then the expiry transition |
| `InsertedAuth.InsertedSmartCardAuth.StartCardlessVoterSession` | libs/auth/src/inserted_smart_card_auth.ts:243-262 | throws without effect where such sessions are not allowed; otherwise a poll, and a session only if a poll worker is in |
| `InsertedAuth.InsertedSmartCardAuth.EndCardlessVoterSession` | libs/auth/src/inserted_smart_card_auth.ts:264-273 | throws where such sessions are not allowed; otherwise there is none afterwards |
| `InsertedAuthRuns.LoginNeedsPin` | libs/auth/src/inserted_smart_card_auth.ts:350-521 | in every run whoever is logged in got in by an accepted PIN while their PIN was being checked, or as a poll worker where those have no PIN, and has been logged in as the same user since |
| `InsertedAuthRuns.PinGatedRoleNeedsPin` | libs/auth/src/inserted_smart_card_auth.ts:350-521 | a PIN-gated role is logged in only after an accepted PIN with no logged-out state since |
| `InsertedAuthRuns.SessionEndsAtExpiry` | libs/auth/src/inserted_smart_card_auth.ts:354-358 | no update but an expiry update leaves anyone logged in past the expiry, and an expired session survives none |
| `InsertedAuthRuns.PollNeedsEligibleCard` | libs/auth/src/inserted_smart_card_auth.ts:360-437 | a poll leaves someone in or being checked exactly when an eligible card is in the reader; it then changes nothing, or starts with that card's user |
| `InsertedAuthRuns.PollReason` | libs/auth/src/inserted_smart_card_auth.ts:523-573 | which reason and which card role a poll signs the user out with, case by case |
| `InsertedAuthRuns.PromptExplained` | libs/auth/src/inserted_smart_card_auth.ts:440-505 | in every run a PIN prompt shows the lockout and the time of the last wrong PIN, or the lockout the card was read with, and an error exactly when a check has failed since |
| `InsertedAuthRuns.SessionExplained` | libs/auth/src/inserted_smart_card_auth.ts:440-516 | in every run a session ends when the last expiry update since the login says, or else a session's length after the login |
| `InsertedAuthRuns.VoterSessionExactly` | libs/auth/src/inserted_smart_card_auth.ts:243-273 | in every run a cardless voter session exists exactly when a logged-in poll worker started it and it has been neither ended nor replaced |
| `InsertedAuthRuns.VoterReported` | libs/auth/src/inserted_smart_card_auth.ts:168-199 | a voter is reported only within such a session, and as logged in only while nobody else is |
| `InsertedAuthRuns.VoterReportedExactly` | libs/auth/src/inserted_smart_card_auth.ts:168-199 | asked for its status, the machine reports a voter logged in exactly when its poll finds the reader empty, or at fault, within a voter's session, and one with the poll worker exactly when one is logged in within a session |
| `InsertedAuthRuns.Onward` | libs/auth/src/inserted_smart_card_auth.ts:350-521 | from any state: a session lasts until a log-out, a poll without an eligible card, or its end; the right PIN logs in whoever was asked; a card read with nobody in logs in where no PIN is needed, and else prompts |
| `LockoutRuns.RunKeepsInv` | libs/auth/src/inserted_smart_card_auth.ts:201-226 | in every run of either machine with one card the lockout in force covers the last wrong PIN it was answered, through removals, re-insertions and lost answers |
| `LockoutRuns.WrongPinsAreSpaced` | libs/auth/src/inserted_smart_card_auth.ts:201-226 | in every such run the answered wrong PIN that spends the allowance and the k-th one are at least the starting duration times 2^(k - allowance) - 1 apart |
| `LockoutRuns.CountedPinsAreSpaced` | libs/auth/src/lockout.ts:37-65 | in every such run all wrong PINs the card has counted are spaced so, unless one was counted away from the prompt or its answer lost |
| `LockoutRuns.HeldBackExactly` | libs/auth/src/inserted_smart_card_auth.ts:575-581 | and PIN by PIN that is exact: once the allowance is spent, a counted wrong PIN holds the next back for the lockout due exactly when it was entered at the prompt and answered |
| `LockoutRuns.LostAnswerIsNotSpaced` | libs/auth/src/inserted_smart_card_auth.ts:208-220 | on either machine and at any starting duration, a run in which a lost answer lets the next wrong PIN follow at once |
| `LockoutRuns.StaleCountRelocks` | libs/auth/src/inserted_smart_card_auth.ts:376-381 | after a lost answer, a log-out and a poll show a prompt with no error, locked half as long as is due |
| `LockoutRuns.AwayFromPromptIsNotSpaced` | libs/auth/src/inserted_smart_card_auth.ts:201-226 | a run in which wrong PINs entered past the prompt are counted at the same instant |
| `LockoutRuns.PollPrompts` | libs/auth/src/dipped_smart_card_auth.ts:438-498 | a poll leaves a prompt as it is, or starts one locked by the attempts the card reports |
| `LockoutRuns.PinPrompts` | libs/auth/src/dipped_smart_card_auth.ts:540-571 | a PIN ends a prompt exactly when it is correct; a wrong one locks it by the attempts answered, and a failed check keeps its lockout |
| `LockoutRuns.PerformInserted` | libs/auth/src/inserted_smart_card_auth.ts:168-241 | calling the inserted-card object and moving its card around follow the steps those runs are made of |
| `LockoutRuns.PerformDipped` | libs/auth/src/dipped_smart_card_auth.ts:195-242 | and so do the dipped-card object and its card |
| `CardSwaps.AcceptedOwnExactly` | libs/auth/src/inserted_smart_card_auth.ts:201-226 | with several cards, the PIN accepted was that of the user asked exactly when the poll made for it saw that user's card |
| `CardSwaps.AcceptedPinIsOwn` | libs/auth/src/inserted_smart_card_auth.ts:201-226 | in every run of either machine in which no card is put in before a poll has noticed the last one gone, the PIN accepted is that of a card of the user asked |
| `CardSwaps.SwappedCardLogsIn` | libs/auth/src/inserted_smart_card_auth.ts:360-416 | swapped between two polls, another administrator's card and PIN log in the one who was asked |
| `DippedAuth.DippedSmartCardAuth.GetAuthStatus` | libs/auth/src/dipped_smart_card_auth.ts:195-200 | one card poll, and the status after it |
| `DippedAuth.DippedSmartCardAuth.CheckPin` | libs/auth/src/dipped_smart_card_auth.ts:202-227 | while locked out with a card in the reader, neither card nor status changes; otherwise a poll and the card's answer applied |
| `DippedAuth.DippedSmartCardAuth.LogOut` | libs/auth/src/dipped_smart_card_auth.ts:229-231 | the log-out transition from whatever state |
| `DippedAuth.DippedSmartCardAuth.UpdateSessionExpiry` | libs/auth/src/dipped_smart_card_auth.ts:233-242 | a poll and then the expiry transition |
| `DippedAuthRuns.CheckingNeedsCard` | libs/auth/src/dipped_smart_card_auth.ts:449-498 | in every run a PIN is being checked only since an eligible card of that user was read while signed out or expired |
| `DippedAuthRuns.RemovingNeedsPin` | libs/auth/src/dipped_smart_card_auth.ts:540-551 | in every run the card is to be removed only since the correct PIN was accepted in that stage |
| `DippedAuthRuns.LoginNeedsAllStages` | libs/auth/src/dipped_smart_card_auth.ts:426-595 | in every run whoever is logged in went through card, PIN and removal in that order as the same user, with no log-out between |
| `DippedAuthRuns.PastExpiryExactly` | libs/auth/src/dipped_smart_card_auth.ts:426-595 | the two ways, and the only ones, in which an update leaves someone logged in past the expiry |
| `DippedAuthRuns.LoginPastExpiry` | libs/auth/src/dipped_smart_card_auth.ts:500-516 | and such a login happens: card read, PIN accepted, card taken out after the session's end |
| `DippedAuthRuns.PollReason` | libs/auth/src/dipped_smart_card_auth.ts:597-630 | on a machine nobody is using a poll prompts for the PIN of an eligible card, and otherwise gives the reason, case by case |
| `DippedAuthRuns.PromptExplained` | libs/auth/src/dipped_smart_card_auth.ts:540-571 | in every run a PIN prompt shows the lockout and the time of the last wrong PIN, or the lockout the card was read with, and an error exactly when a check has failed since |
| `DippedAuthRuns.SessionExplained` | libs/auth/src/dipped_smart_card_auth.ts:540-588 | in every run a session ends when the last expiry update since it began says, or else a session's length after the PIN |
| `DippedAuthRuns.ProgrammableCardShown` | libs/auth/src/dipped_smart_card_auth.ts:48-83 | after a poll an administrator, and nobody else, is shown the card in the reader: its user if of the machine's jurisdiction and, for poll workers, with a PIN where those have one, and otherwise none |
| `DippedAuthRuns.Onward` | libs/auth/src/dipped_smart_card_auth.ts:426-595 | from any state: a session lasts until a log-out or its end, whatever the reader holds; the right PIN asks for the card to be removed, and its removal logs in; a prompt is given up when its card is gone |
| `DippedAuthRuns.LoginLasts` | libs/auth/src/dipped_smart_card_auth.ts:519-531 | within its session a login lasts exactly until a log-out, and stays the same user's |
| `Apdu.ParseInvertsConstruct` | libs/auth/src/apdu.ts:211-270 | parsing what was constructed gives tag, length field and value, for every tag and every value under 65536 bytes |
| `Apdu.BerReadsTlv` | libs/auth/src/apdu.ts:211-244 | a reader that checks lengths finds the same tag and value and stops at its end |
| `Apdu.ChainShape` | libs/auth/src/apdu.ts:175-200 | a command of n bytes takes max(ceil(n / 255), 1) APDUs of at most 260 bytes, all but the last chained, with the command's data in order |
| `Apdu.ChainAt` | libs/auth/src/apdu.ts:175-200 | the i-th APDU carries the i-th slice of 255 bytes |
| `Apdu.CountIsCeiling` | libs/auth/src/apdu.ts:177-182 | at least one APDU, as many as the data needs and no more |
| `Apdu.AsCommandApdus` | libs/auth/src/apdu.ts:175-200 | the loop builds exactly that chain |
| `CardReading.CardReader.TransmitHelper` | libs/auth/src/card_reader.ts:136-161 | one APDU sent and its status word read: success, more data, or an error |
| `CardReading.CardReader.SendChain` | libs/auth/src/card_reader.ts:110-119 | sending the chain makes the card execute the whole command once; only the last response carries data |
| `CardReading.CardReader.CollectRest` | libs/auth/src/card_reader.ts:121-133 | the pieces of the reply are put together in order with one GET RESPONSE each |
| `CardReading.CardReader.Transmit` | libs/auth/src/card_reader.ts:105-134 | however the card cuts its reply, one exchange is one execution of the whole command and the whole reply coming back, with exactly those APDUs sent; whatever the card was in the middle of it forgets, unless it takes the command for the rest of a chain |
| `CardPeer.SomeSplitter` | libs/auth/src/card_reader.ts:121-131 | there is a way of cutting replies into pieces of at most 258 bytes |
| `JavaCard.GetExecutes` | libs/auth/src/java_card.ts:680-691 | what the card does with the GET DATA command the host builds |
| `JavaCard.PutExecutes` | libs/auth/src/java_card.ts:693-705 | the card stores a value exactly when it is within the limit of a data object |
| `JavaCard.WireBytes` | libs/auth/src/java_card.ts:485-494 | the bytes sent to select the applet, to read each of the three storage objects, and to ask for more |
| `JavaCard.WireBytesToPut` | libs/auth/src/java_card.ts:693-705 | the bytes sent to store a short value |
| `JavaCard.ChunksHoldAll` | libs/auth/src/java_card.ts:370-386 | three chunks put together are the buffer, for every buffer within the capacity |
| `JavaCard.StorageIsWhatWasWritten` | libs/auth/src/java_card.ts:370-386 | after a write the storage is the new buffer, whatever it held, and no other object changes |
| `JavaCard.CertTrims` | libs/auth/src/java_card.ts:499-505 | dropping the last five bytes and parsing leaves exactly the certificate stored |
| `JavaCard.JavaCard.SelectApplet` | libs/auth/src/java_card.ts:485-494 | selects the applet, leaves the card idle and changes nothing else |
| `JavaCard.JavaCard.GetData` | libs/auth/src/java_card.ts:680-691 | the value of the object, or file-not-found when it is empty or missing; the card is unchanged |
| `JavaCard.JavaCard.PutDataObject` | libs/auth/src/java_card.ts:693-705 | stores the value within the object limit, and otherwise fails leaving the card as it was |
| `JavaCard.JavaCard.ReadData` | libs/auth/src/java_card.ts:341-368 | the three objects put together, a missing one counting as empty |
| `JavaCard.JavaCard.WriteData` | libs/auth/src/java_card.ts:370-386 | refuses more than 90000 bytes; otherwise every object holds its chunk and those left over are cleared |
| `JavaCard.JavaCard.ClearData` | libs/auth/src/java_card.ts:388-391 | leaves the storage empty and every other object as it was |
| `JavaCard.JavaCard.WriteThenRead` | libs/auth/src/java_card.ts:341-391 | what is read after a write is what was written, through TLV, chaining, GET RESPONSE and the split, whatever the card held or was in the middle of before |
| `JavaCard.JavaCard.StoreCert` | libs/auth/src/java_card.ts:511-527 | stores the certificate's TLV followed by the five metadata bytes |
| `JavaCard.JavaCard.RetrieveCert` | libs/auth/src/java_card.ts:499-505 | reads the object back, drops five bytes and parses; the card is unchanged |
| `JavaCard.JavaCard.StoreThenRetrieveCert` | libs/auth/src/java_card.ts:499-527 | the DER bytes stored are the DER bytes retrieved; a certificate too long for an object is refused |
| `GroutRoundTrip.RoundTripExactly` | libs/grout/src/serialization.ts:180-204 | what comes back reads the same at every key and index exactly when no plain object in the value has something under both tag keys |
| `GroutRoundTrip.SerializableExactly` | libs/grout/src/serialization.ts:158-197 | serializing succeeds exactly when every value reachable inside, results included, is a supported one |
| `GroutRoundTrip.ResultReads` | libs/grout/src/serialization.ts:102-115 | a tagged result comes back around whatever its value comes back as |
| `GroutRoundTrip.ErrorReads` | libs/grout/src/serialization.ts:93-100 | an error comes back with its message |
| `GroutRoundTrip.ForeignResult` | libs/grout/src/serialization.ts:112-114 | a tagged result whose `isOk` is not a boolean is ok exactly when that is truthy |
| `GroutRoundTrip.ResultTaggedAgain` | libs/grout/src/serialization.ts:112-114 | a result tagged as a result once more comes back ok, with the inner value if the inner one was ok |
| `GroutRoundTrip.OddResultPayload` | libs/grout/src/serialization.ts:112-114 | what is tagged as a result and has no `isOk` comes back a failure, and null is refused |
| `GroutRoundTrip.UnknownTagRefused` | libs/grout/src/serialization.ts:145-152 | a tag that no tagger knows is refused, whatever it tags |
| `GroutRoundTrip.LeafReads` | libs/grout/src/serialization.ts:65-132 | undefined, dates, date-times, buffers and JSON scalars come back as they were |
| `GroutRoundTrip.ObjectReads` | libs/grout/src/serialization.ts:145-152 | a plain object survives exactly when its properties do and it does not look tagged, undefined properties being deleted |
| `GroutRoundTrip.ArrayReads` | libs/grout/src/serialization.ts:145-152 | an array survives exactly when every item does |
| `DeferredQueues.DeferredQueue.GetNext` | libs/basics/src/deferred.ts:59-79 | hands out the k-th promise, settled as the history says or pending |
| `DeferredQueues.DeferredQueue.IsEmpty` | libs/basics/src/deferred.ts:49-51 | whether no settlement is waiting for a get |
| `DeferredQueues.DeferredQueue.Resolve` | libs/basics/src/deferred.ts:84-93 | settles the next get, made or to come, and fails exactly after a settle-all |
| `DeferredQueues.DeferredQueue.Reject` | libs/basics/src/deferred.ts:113-122 | the same with a rejection |
| `DeferredQueues.DeferredQueue.ResolveAll` | libs/basics/src/deferred.ts:99-108 | settles every pending and every later get, and fails exactly after another settle-all |
| `DeferredQueues.DeferredQueue.RejectAll` | libs/basics/src/deferred.ts:128-137 | the same with a rejection |
| `DeferredQueues.DeferredQueue.NeverBoth` | libs/basics/src/deferred.ts:41-44 | pending gets and stored settlements are never both there |
| `DeferredQueues.SettledOnce` | libs/basics/src/deferred.ts:84-137 | a settled get keeps its settlement whatever is called next |
| `DeferredQueues.Persists` | libs/basics/src/deferred.ts:139-146 | settlements are only added at the end, and after a settle-all not at all |
| `DeferredQueues.SettledForGood` | libs/basics/src/deferred.ts:139-146 | after a settle-all every get, made or to come, has an outcome that nothing changes |
| `DeferredQueues.SettlesItsGet` | libs/basics/src/deferred.ts:84-122 | a resolve or reject before any settle-all settles the get that has as many before it, with what it was called with |
| `DeferredQueues.SettlesTheRest` | libs/basics/src/deferred.ts:99-137 | the first settle-all settles every get beyond those |
| `DeferredQueues.PendingExactly` | libs/basics/src/deferred.ts:59-79 | and a get is pending exactly when neither has happened |
| `MockFunctions.MockFunction.FindExpectedCallForActualCallIndex` | libs/test-utils/src/mock_function.ts:140-170 | finds the expectation the specification names: the first, the next, a repeated last one, or none |
| `MockFunctions.MockFunction.Invoke` | libs/test-utils/src/mock_function.ts:172-213 | the state and the answer the specification gives for the call |
| `MockFunctions.MockFunction.AssertComplete` | libs/test-utils/src/mock_function.ts:257-315 | passes exactly when every call has its expectation and every expectation its call |
| `MockFunctions.MockFunction.ResetMock` | libs/test-utils/src/mock_function.ts:252-255 | back to the initial state |
| `MockFunctionRuns.RunsInOrder` | libs/test-utils/src/mock_function.ts:140-213 | in every run matched indices start at 0, never decrease, skip none and repeat only repeated expectations, and only the last call may be unmatched |
| `MockFunctionRuns.UndefinedNeverMatched` | libs/test-utils/src/mock_function.ts:172-177 | no run matches an expectation of a single undefined argument |
| `MockFunctionRuns.AgreesExactly` | libs/test-utils/src/mock_function.ts:257-272 | in every run the recomputed correspondence is the recorded one exactly when no expectation was added after a repeated one was used again |
| `MockFunctionRuns.CallsRecorded` | libs/test-utils/src/mock_function.ts:172-213 | with all expectations first, the calls that follow them are matched in their places; otherwise the last recorded call is unmatched |
| `MockFunctionRuns.AnswersAsExpected` | libs/test-utils/src/mock_function.ts:172-213 | with all expectations first, a call answers with the output of the expectation in its place exactly when every call so far was as expected, and otherwise throws |
| `MockFunctionRuns.AnswersWhatItMatched` | libs/test-utils/src/mock_function.ts:172-213 | in every run a call returns exactly when it is recorded as matching an expectation, and then that expectation's output; its arguments are the expected ones, one undefined counting as none |
| `MockFunctionRuns.CompleteExactly` | libs/test-utils/src/mock_function.ts:257-315 | with all expectations first, completion passes exactly when call i equals expectation i for each, and any further calls equal a repeated last one |
| `MockFunctionRuns.AfterCallsIsRun` | libs/test-utils/src/mock_function.ts:172-233 | registering everything and then calling is one of those runs |
| `Dependencies.GetAllDependencies` | libs/monorepo-utils/src/dependencies.ts:6-12 | exactly the names in any of the three sections |
| `Dependencies.DependenciesInOrder` | libs/monorepo-utils/src/dependencies.ts:6-12 | in the order in which the three sections first mention them |
| `Dependencies.FindAllMonorepoDependencies` | libs/monorepo-utils/src/dependencies.ts:17-35 | on any graph the search ends with every package reachable from the start other than the start, each once, in non-decreasing distance, and in the order of first mention |
| `Dependencies.ReachedIsFound` | libs/monorepo-utils/src/dependencies.ts:23-34 | a finished search has found whatever n steps reach within distance n |
| `Dependencies.DepthIsDistance` | libs/monorepo-utils/src/dependencies.ts:23-34 | the depth at which a package is found is its distance |
| `Dependencies.FindUnusedPackages` | libs/monorepo-utils/src/unused.ts:7-28 | exactly the packages reached from none that is outside `libs/`, without a package.json or with an executable |
| `Otsu.FindThreshold` | libs/image-utils/src/otsu.ts:29-74 | the largest threshold that maximises the variance between the classes of sampled pixels, or 0 if none separates them |
| `Otsu.SampledAt` | libs/image-utils/src/otsu.ts:33-39 | the i-th sample is the value at i times the step |
| `Otsu.VarianceIsSpreadSaved` | libs/image-utils/src/otsu.ts:62-66 | the variance between the classes is what separating them takes off the sum of squared deviations, times the number of pixels |
| `Otsu.BestIsTightest` | libs/image-utils/src/otsu.ts:67-70 | no threshold leaves the two classes with less deviation from their means than the one found |
| `Otsu.Histogram` | libs/image-utils/src/otsu.ts:33-39 | counts every sampled value |
| `Otsu.RunningVariance` | libs/image-utils/src/otsu.ts:55-66 | the running counts and sums give the variance as defined on the two classes |
| `Otsu.OneMoreBin` | libs/image-utils/src/otsu.ts:53-62 | one more bin moves exactly its pixels into the low class |
| `Otsu.SkipRest` | libs/image-utils/src/otsu.ts:59-60 | leaving the loop when the high class is empty skips no better threshold |
| `Otsu.Consider` | libs/image-utils/src/otsu.ts:67-70 | a separating threshold becomes the best so far exactly when it is at least as good |
| `Dither.DitherImage` | libs/image-utils/src/dither.ts:45-78 | the loops write, at each place, the pixel that gathering the errors defines |
| `Dither.FloydSteinberg` | libs/image-utils/src/dither.ts:59-76 | each pixel receives 7/16, 3/16, 5/16 and 1/16 of the errors to its left, above right, above and above left; in the first column the last comes from the end of an earlier row |
| `Dither.ScatterIsGather` | libs/image-utils/src/dither.ts:53-76 | pushing an error forward is what gathering expects, and changes no pixel already visited |
| `Dither.TotalScatter` | libs/image-utils/src/dither.ts:59-76 | the shares that stay in the image and those dropped add up to the error |
| `Dither.LuminanceConserved` | libs/image-utils/src/dither.ts:45-78 | every output pixel is 0 or 255, and the input's luminance is the output's plus the shares dropped |
| `Dither.PushError` | libs/image-utils/src/dither.ts:59-76 | adds to each neighbour its share and ignores writes outside the array |
| `Rotate.Rotate180` | libs/image-utils/src/rotate.ts:10-25 | in place, pixel p becomes the p-th from the end with its channels in order, for odd and even numbers of pixels |
| `Rotate.SwapPixels` | libs/image-utils/src/rotate.ts:19-23 | the inner loop exchanges two pixels channel by channel and touches no other |
| `Rotate.ReversedTwice` | libs/image-utils/src/rotate.ts:10-25 | rotating twice gives back the image |
| `Rotate.ReversedIsRotated` | libs/image-utils/src/rotate.ts:3-9 | reversing the pixels turns both coordinates round |
| `Regions.Crop` | libs/image-utils/src/crop.ts:8-29 | the row copies show exactly what the image shows inside the bounds |
| `Regions.CropIsUnique` | libs/image-utils/src/crop.ts:8-29 | there is only one such image |
| `Regions.CropOfCrop` | libs/image-utils/src/crop.ts:8-29 | a crop of a crop is the one crop with translated bounds, which lie inside the image |
| `Regions.CropToFull` | libs/image-utils/src/crop.ts:8-29 | cropping to the whole image changes nothing |
| `Regions.CountPixels` | libs/image-utils/src/count.ts:17-42 | the number of places inside the bounds whose first channel has the colour |
| `Regions.CountInCrop` | libs/image-utils/src/count.ts:17-42 | counting inside bounds is counting in the crop |
| `Regions.Diff` | libs/image-utils/src/diff.ts:35-124 | which error for which inputs, and otherwise at each place how much darker the second image is, with an opaque alpha channel |
| `Regions.DiffShows` | libs/image-utils/src/diff.ts:83-95 | each colour of the comparison is 255 less what the second image is darker by, and the fourth channel is 255 |
| `Regions.DiffOfCrops` | libs/image-utils/src/diff.ts:35-124 | an image is the comparison inside bounds exactly when it is the comparison of the two crops |
| `Regions.DiffIsUnique` | libs/image-utils/src/diff.ts:35-124 | there is only one such comparison |
| `Outline.OutlineImage` | libs/image-utils/src/outline.ts:9-43 | the scattering loop gives what gathering defines: each pixel takes the colour, opaque with four channels, exactly when a neighbour in the source has it, and else keeps its value |
| `Outline.TouchedByNeighbour` | libs/image-utils/src/outline.ts:26-37 | a pixel the loop paints is one with a neighbour of the colour inside the image, of four at most |
| `Outline.OutlineGrows` | libs/image-utils/src/outline.ts:6-8 | the places of the colour grow by exactly the neighbours of where it was |
| `Outline.OutlineIsUnique` | libs/image-utils/src/outline.ts:9-43 | there is only one such image |

## Left out

- PC/SC events, the reader callback, promises and a reader that fails in the middle of an exchange: hardware I/O; `ready` is fixed during an exchange.
- openssl, TPM, certificate parsing, signatures and private-key checks: foreign calls; certificates are opaque bytes, and a PIN is compared by the card.
- Programming and unprogramming cards, and the logging of authentication events: foreign calls or one-branch claims.
- Interleaving of asynchronous calls: each method of the two authentication objects runs to its end before the next, with its own clock readings in order.
- UTF-8, JSON text, ISO dates and base64: a ballot id is the bytes of its encoding (a byte order mark is not stripped), and the other conversions are parameters with an inverse.
- Negative zero in Grout, and subclasses and stacks of errors: `Number` is a real and an error is its message.
- Class instances other than the supported ones in Grout: one opaque kind of unsupported value.
- zod schemas: the uniqueness and ranges they enforce are preconditions where a theorem needs them.
- Rounding in 32-bit floats (`otsu`, `dither`) and 32-bit shifts of pixel offsets (`diff`): exact reals and unbounded integers.
- Conversion of colour images to gray before dithering, and the default threshold `otsu` supplies to it.
- `embolden`, `ratio`, canvas and PDF code: easy members or thin wrappers; the canvas library's refusal of an empty pixel buffer is not part of this model.
- Rectangles that reach outside the image, where the image functions read and write undefined values.
- `detectRawBytesBmdBallot`, `isVxBallot` and decoding the election hash alone: prefixes of the decoder.
- Chaining several bits or bytes in one writer call, `skipUint1` and debugging output of the bit streams: repeated single calls.
- Error messages and diffs of the mock, and deep equality of arguments: only whether it throws matters, and arguments are compared as values.
- Laziness of the dependency search, and packages told apart by identity: the search returns its whole result, and packages are told apart by value. Names that look like array indices, which JavaScript enumerates first, are kept in the order given.
- Otsu.FindThreshold: requires the step to divide the number of pixels; otherwise the sampling loop of the source counts down past zero and does not end.
- JavaCard.JavaCard.ReadData: assumes no stored object is 65536 bytes or longer, as the card's own limit of 32763 guarantees, and, as WriteData does, that the card is not in the middle of a chained SELECT, which the host never sends.
- LockoutRuns.WrongPinsAreSpaced: counts the wrong PINs entered at the prompt and answered; CountedPinsAreSpaced and HeldBackExactly say when the bound holds of all the card counts.
- BitStreams.BitWriter.WriteUint: requires a width of at most 31, as ReadSized does; the masks of the source wrap around beyond that, and the codec asks for no wider field.
- BallotCodec.EncodeThenDecode: requires distinct contests and candidates and no write-ins among the candidates, which the election's schema and its candidates' meaning give.
