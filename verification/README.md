# A verified model of the volunteer-computing platform's hard parts

A head hands out work units, pays credit for results and signs what it paid; volunteers register under a
proof of work and a daily cap, run a daemon under a desktop app, and read their history back page by page.
This project models the parts of that system whose correctness spans loops, state, arithmetic or
interleavings, and proves what the code and its comments promise about them.

Code that updates state in the source is a class or a method with loop invariants here, proved equal to a
specification function; the promises are lemmas about those functions. Protocols with several parties are
state machines whose invariants are proved over every run.

| files | what they model |
|---|---|
| `Reals`, `Vectors`, `NBody` | the n-body example: pairwise forces, kick-drift-kick, centring |
| `Json`, `Formats`, `Plain`, `Signer`, `TextForms`, `SignedFields` | the signed form of credit attestations, and which bytes mean what |
| `Digits`, `DidKey`, `ApiKey` | positional notation, base58 and did:key, base62 |
| `Sums`, `TreeSum`, `MonteCarlo` | tree reduction, and Welford's mean and variance |
| `Merge`, `MergeInPlace` | the deep merge, as a function and on objects held by reference |
| `Pow`, `Admission`, `Registration` | proof of work, gated registration alone, and under concurrency |
| `Revocation`, `Reconciliation`, `RevocationRace` | one emission, repeated bounded sweeps, racing emitters |
| `OrderedMap`, `TtlCache`, `RateLimiter` | the guards of the public visualization route |
| `Cursor`, `Keyset`, `Listings` | cursors, keyset paging, the two listings that use it |
| `History`, `HistoryList`, `HistoryRuns` | the daemon's history pages and the app's list of them |
| `Schedule` | hour ranges and grid cells |
| `Sidecar`, `Supervisor` | the daemon slot and its callers, interleaved |
| `Results`, `Sets` | shared option and result types, sizes of sets |

`dafny verify dfyconfig.toml` checks everything.

## What does not hold, and exactly when it does

Each of these is proved below, with a run or an input on which it fails.

- **History paging.** The daemon's cursor is a position in the newest-first list
  (`services/volunteer-cli/internal/management/daemon_bridge.go:912-975`), so a completion between two
  pages shifts it. The app's list stays gapless and free of repeats exactly when the daemon pages by entry
  or nothing completed since the cursor was issued (`HistoryRuns.LoadContinuesExactlyWhen`); with more than
  a page of history, one completion before a load shows a row twice (`HistoryRuns.IndexCursorRepeatsRow`).
- **Starting the list over.** The comment on `refresh` says it starts over after more than a page of new
  completions; the code does so from exactly a page on (`HistoryRuns.RefreshTracks`, and
  `HistoryRuns.PageOfCompletionsStartsOver` for fifty).
- **Merging in batches.** Deep merge is not associative in general (`Merge.MixedShapesDoNotRegroup`); it is
  exactly on `Regroupable` values (`Merge.AssociativeExactlyWhen`), and always on documents of one shape.
- **The daily cap after a sweep.** A slot's counter is the number of registrations under it exactly until a
  sweep takes its row (`Registration.AdmissionExact`); a reservation takes the right number exactly when the
  row has not been swept (`Registration.ReservedCountExactlyWhen`), and a full slot takes another exactly
  when it has (`Registration.FullSlotAdmitsExactlyWhenSwept`). A transaction left open until then passes
  the cap (`Registration.LateReservationOverfills`); while none reserves on a swept row the cap holds for
  ever (`Registration.CapHoldsForever`), which reserving within the seven-day window ensures
  (`Registration.TimelyCapHolds`).
- **Adjustments never reached.** An adjustment that could be revoked is passed over by every sweep exactly
  when a hundred older pending ones fail every time (`Reconciliation.StarvedExactlyWhen`,
  `Reconciliation.HundredFailuresStarve`). Reasons are checked before an adjustment is written, so only
  inserts that fail for ever can do this (`Reconciliation.CheckedReasonsFailOnlyByOutage`).
- **Confidence levels.** The comment on `lookupZScore` speaks of interpolation between known values; below
  90% the code returns the value of 80% except at 85% itself. A higher level gets a smaller z exactly from 85%
  to a level below 90% (`MonteCarlo.ZScoreMonotoneExactlyWhen`); from 90 to 99% it strictly increases
  (`MonteCarlo.ZScoreIncreases`).
- **Key prefixes.** The nine-character prefix of an API key exists exactly when the random value is at
  least 62^8 (`ApiKey.VisiblePrefixExists`); thirty-two zero bytes have none (`ApiKey.ZeroKeyHasNoPrefix`).

## What holds because of a check elsewhere

- **Escape-free payloads.** The comment on `CanonicalJSON` promises that every string of a version 2
  payload is charset-constrained. The signer does not check a grant's outcome, so by itself it keeps the
  promise exactly when that outcome is plain (`PlainPayload.PayloadIsPlainExactlyWhen`,
  `PlainPayload.UncheckedOutcome`); the table's constraint admits only plain ones, so every stored
  attestation keeps it (`PlainPayload.StoredBytesNeedNoEscape`).
- **Schedules.** Reading ranges back from the grid keeps every hour exactly when no range ends past 24
  (`Schedule.RangesRoundTripExactlyWhen`, `Schedule.PastMidnightIsLost`); the daemon accepts only hours 0 to
  23, so every accepted schedule is kept (`Schedule.ValidatedRangesRoundTrip`).

## Model

| member | source | states |
|---|---|---|
| `Vectors.AntisymmetricSumVanishes` | guides/examples/nbody-gravity/simulate.py:72-85 | a double sum over pairs that oppose each other is zero, for any number of bodies |
| `NBody.ForcesSumToZero` | guides/examples/nbody-gravity/simulate.py:72-85 | the mass-weighted accelerations of any configuration cancel |
| `NBody.AccelerationAlong` | guides/examples/nbody-gravity/simulate.py:72-85 | each coordinate of a computed acceleration is the sum over the other bodies of mass times the inverse cube of the softened distance times the difference in that coordinate |
| `NBody.TorquesSumToZero` | guides/examples/nbody-gravity/simulate.py:72-85 | so do their torques about the origin |
| `NBody.KickConserves` | guides/examples/nbody-gravity/simulate.py:117-124 | a kick by the accelerations of the current positions changes neither linear nor angular momentum |
| `NBody.StepConserves` | guides/examples/nbody-gravity/simulate.py:117-124 | one leapfrog step keeps both momenta, moves the weighted position by the momentum times dt, and keeps the carried accelerations those of the positions |
| `NBody.RunConserves` | guides/examples/nbody-gravity/simulate.py:157-159 | both momenta are unchanged after any number of steps, for any masses and any force law of the squared distance |
| `NBody.CenterOfMassFixed` | guides/examples/nbody-gravity/simulate.py:111-114 | with zero momentum the centre of mass never moves |
| `NBody.StepReverses` | guides/examples/nbody-gravity/simulate.py:117-124 | a step, a reversal of velocities and a step again give the start with velocities reversed |
| `NBody.RunReverses` | guides/examples/nbody-gravity/simulate.py:117-159 | the same for any number of steps |
| `NBody.CentringRemovesMomentum` | guides/examples/nbody-gravity/simulate.py:146-149 | the centring step leaves zero total momentum |
| `NBody.ComputeAccelerations` | guides/examples/nbody-gravity/simulate.py:72-85 | the loop fills the array with the specified accelerations |
| `NBody.LeapfrogStep` | guides/examples/nbody-gravity/simulate.py:117-124 | returns the specified step |
| `NBody.StepLaws` | guides/examples/nbody-gravity/simulate.py:117-124 | one step, coordinate by coordinate and from the pairwise pulls alone: x moves by dt v + (dt^2/2) a(x), and v by (dt/2)(a(x) + a(x')), with a(x') carried on |
| `NBody.UniformPullIsExact` | guides/examples/nbody-gravity/simulate.py:117-124 | when the pull is the same at both ends the step is exactly uniformly accelerated motion |
| `NBody.TurningAlong` | guides/examples/nbody-gravity/simulate.py:72-124 | the angular momentum proved constant is the sum of m (x v_y - y v_x) for each pair of axes |
| `NBody.CenterOfMassAlong` | guides/examples/nbody-gravity/simulate.py:111-114 | the reported centre of mass times the total mass is the sum of mass times position |
| `NBody.MomentOfOnePoint` | guides/examples/nbody-gravity/simulate.py:111-114 | bodies all at one coordinate have that moment times their total mass |
| `NBody.RunSimulation` | guides/examples/nbody-gravity/simulate.py:145-176 | after centring and any number of steps momentum is zero, angular momentum is as after centring, and the reported drift of the centre of mass is zero |
| `Json.MarshalSortedKV` | services/infrastructure/internal/attestation/signer.go:204-239 | the printing loop yields the specified text, or fails exactly for a value with no JSON form |
| `Json.TakeEscaped` | services/infrastructure/internal/attestation/signer.go:204-239 | reading one escaped character gives the character back and leaves the rest |
| `Json.TakeQuoted` | services/infrastructure/internal/attestation/signer.go:204-239 | reading an escaped string gives the string back, whatever it holds |
| `Json.ParseMarshal` | services/infrastructure/internal/attestation/signer.go:204-239 | a parser undoes the printer on every nested list |
| `Json.MarshalInjective` | services/infrastructure/internal/attestation/signer.go:204-239 | equal bytes mean equal lists |
| `TextForms.EscapedExactly` | services/infrastructure/internal/attestation/signer.go:204-239 | exactly which characters are not printed as they are, with the two-character escapes and the four lower-case hexadecimal digits of the others |
| `TextForms.PrintedObject` | services/infrastructure/internal/attestation/signer.go:204-239 | objects are printed without spaces, a colon after each key and a comma between members |
| `Formats.TimestampTextInjective` | services/infrastructure/internal/attestation/signer.go:56-59 | two instants share a signed timestamp exactly when they agree to the microsecond |
| `Formats.UuidTextInjective` | services/infrastructure/internal/attestation/signer.go:109-120 | an identifier's text determines it |
| `Formats.Base64TextInjective` | services/infrastructure/internal/attestation/signer.go:109-120 | unpadded base64url text (section 5 of RFC 4648) determines the bytes |
| `Formats.IntTextInjective` | services/infrastructure/internal/attestation/signer.go:189-200 | an integer's decimal text determines it |
| `TextForms.IntTextReads` | services/infrastructure/internal/attestation/signer.go:189-200 | an integer is a minus sign when negative and its magnitude in decimal with no leading zero |
| `TextForms.TimestampReads` | services/infrastructure/internal/attestation/signer.go:56-59 | each field of a signed timestamp at its own place between fixed separators, microseconds in six digits, for every year |
| `TextForms.UuidReads` | services/infrastructure/internal/attestation/signer.go:109-120 | the 36 characters of an identifier: four dashes, and each byte as two lower-case hexadecimal digits |
| `TextForms.Base64Reads` | services/infrastructure/internal/attestation/signer.go:109-120 | base64url text, read in base 64, is the bytes read in base 256 followed by the zero bits that fill the last character, and has no padding |
| `Plain.PlainIsPrintedAsIs` | services/infrastructure/internal/attestation/signer.go:88-92 | plain text is printed without any escape |
| `PlainPayload.PayloadIsPlainExactlyWhen` | services/infrastructure/internal/attestation/signer.go:88-92 | every string value of a version 2 payload is plain exactly when it is a revocation or the grant's outcome is plain |
| `PlainPayload.PlainBytesNeedNoEscape` | services/infrastructure/internal/attestation/signer.go:88-92 | the signed bytes of a plain payload are what an encoder that never escapes prints |
| `PlainPayload.StoredBytesNeedNoEscape` | services/infrastructure/migrations/00020_attestation_v2.up.sql:55-57 | and so for every version 2 attestation whose outcome the table admits |
| `PlainPayload.UncheckedOutcome` | services/infrastructure/internal/attestation/signer.go:124-153 | a grant the signer admits, and the table does not, whose outcome has to be escaped |
| `Signer.CanonicalJSON` | services/infrastructure/internal/attestation/signer.go:93-102 | returns the bytes, or the error, of the form the version and outcome select |
| `Signer.SignableExactlyWhenAdmitted` | services/infrastructure/internal/attestation/signer.go:109-184 | signing fails exactly for what the form's checks refuse, or a version 1 amount with no JSON form |
| `Signer.ContextSeparates` | services/infrastructure/internal/attestation/signer.go:80-102 | equal signed lists are of the same form |
| `Signer.BytesDetermineStatement` | services/infrastructure/internal/attestation/signer.go:109-200 | two signable attestations have equal bytes exactly when they agree in form and in every signed field |
| `Signer.FormsDisjoint` | services/infrastructure/internal/attestation/signer.go:80-102 | no bytes belong to two forms |
| `SignedFields.SignedBytesSay` | services/infrastructure/internal/attestation/signer.go:93-200 | parsing signed bytes gives exactly the form's keys in strictly ascending order, and under each key the text of that key's own field, the nested descriptor included |
| `SignedFields.RefusedExactlyWhen` | services/infrastructure/internal/attestation/signer.go:109-184 | which attestations each form refuses, and with which error, in terms of the fields and of texts that match the three patterns |
| `SignedFields.CreditCanonicalMeans` | services/infrastructure/internal/attestation/signer.go:72-77 | the amount check admits exactly an optional minus sign, decimal digits, a point and six more digits |
| `Digits.ConvertBack` | services/infrastructure/internal/atproto/didkey.go:64-115 | converting digits between two bases and back, leading zeros counted apart, gives the digits back |
| `Digits.ValueInjective` | services/infrastructure/internal/apikey/model.go:60-81 | digit strings of one length with one value are equal |
| `Alphabets.ReverseInPlace` | services/infrastructure/internal/atproto/didkey.go:82-86 | the swapping loop reverses the buffer |
| `Alphabets.LowDigitsFirst` | services/infrastructure/internal/apikey/model.go:66-76 | repeated division emits the minimal digits of the number, lowest first |
| `DidKey.Base58Encode` | services/infrastructure/internal/atproto/didkey.go:64-88 | zero count, division, padding and reversal yield the specified text |
| `DidKey.Base58Decode` | services/infrastructure/internal/atproto/didkey.go:92-115 | yields the specified bytes, or names the first character outside the alphabet |
| `DidKey.DecodeEncoded` | services/infrastructure/internal/atproto/didkey.go:64-115 | decoding undoes encoding on every byte string, leading zeros included |
| `DidKey.EncodeDecoded` | services/infrastructure/internal/atproto/didkey.go:64-115 | exactly the strings over the alphabet decode, and encoding gives each back |
| `DidKey.DidKeyRoundTrip` | services/infrastructure/internal/atproto/didkey.go:26-57 | the decoder accepts a string with a key exactly when the encoder produces that string from that key |
| `DidKey.EncodeEd25519DIDKey` | services/infrastructure/internal/atproto/didkey.go:26-35 | refuses exactly a key that is not 32 bytes, otherwise returns the specified did:key |
| `DidKey.DecodeEd25519DIDKey` | services/infrastructure/internal/atproto/didkey.go:39-57 | returns the specified key or the first failing check's error |
| `DidKey.EveryDidKeyBegins` | services/infrastructure/internal/atproto/didkey.go:20-35 | the did:key of every 32-byte key has 56 characters and begins `did:key:z6Mk` |
| `DidKey.DidKeyOutcomes` | services/infrastructure/internal/atproto/didkey.go:39-57 | what each encoded byte string decodes to behind the prefix: its key, a wrong length or a wrong multicodec; and exactly which strings lack the prefix or hold a foreign character, and where |
| `DidKey.AlphabetCode` | services/infrastructure/internal/atproto/didkey.go:60 | the fifty-eight characters, by code |
| `ApiKey.Base62Encode` | services/infrastructure/internal/apikey/model.go:60-81 | returns the specified text, a lone zero digit for value zero |
| `ApiKey.EncodedDeterminesValue` | services/infrastructure/internal/apikey/model.go:60-81 | two inputs share a text exactly when their big-endian values agree |
| `ApiKey.EncodedDigits` | services/infrastructure/internal/apikey/model.go:60-81 | the text spells base-62 digits whose value is the big-endian value of the bytes |
| `ApiKey.AlphabetCode` | services/infrastructure/internal/apikey/model.go:12-13 | the sixty-two characters: digits, capitals, small letters |
| `ApiKey.EncodedInjective` | services/infrastructure/internal/apikey/model.go:60-81 | inputs of one length never share a text |
| `ApiKey.VisiblePrefixExists` | services/infrastructure/internal/apikey/model.go:29-51 | the text is at least nine characters exactly when the value is at least 62^8 |
| `ApiKey.ZeroKeyHasNoPrefix` | services/infrastructure/internal/apikey/model.go:29-51 | thirty-two zero bytes encode to one character |
| `Sums.SumByPermuted` | services/infrastructure/internal/aggregation/map_reduce.go:164-187 | a sum does not depend on the order of its terms |
| `TreeSum.TreeReduceSum` | services/infrastructure/internal/aggregation/map_reduce.go:164-187 | the recursion ends and returns the plain sum for every length |
| `TreeSum.SumValues` | services/infrastructure/internal/aggregation/map_reduce.go:71-81 | the same sum on both sides of the threshold |
| `MonteCarlo.WelfordStep` | services/infrastructure/internal/aggregation/monte_carlo.go:56-82 | one update turns the mean and the sum of squared deviations of the trials so far into those of one more |
| `MonteCarlo.Accumulate` | services/infrastructure/internal/aggregation/monte_carlo.go:56-82 | the loop returns count, mean, squared deviations and extremes of all trials, or the first bad one |
| `MonteCarlo.VarianceBounds` | services/infrastructure/internal/aggregation/monte_carlo.go:83-117 | the variance is at least zero and at most (max - mean)(mean - min) |
| `MonteCarlo.VarianceOfTwo` | services/infrastructure/internal/aggregation/monte_carlo.go:83-117 | two trials have their midpoint as mean and the square of half their distance as variance, where that bound is reached |
| `MonteCarlo.MeanBetween` | services/infrastructure/internal/aggregation/monte_carlo.go:83-117 | the mean lies between the extremes |
| `MonteCarlo.OrderIrrelevant` | services/infrastructure/internal/aggregation/monte_carlo.go:56-117 | the statistics do not depend on the order of the trials |
| `MonteCarlo.AggregateMonteCarlo` | services/infrastructure/internal/aggregation/monte_carlo.go:39-117 | succeeds exactly with a field and at least one trial, all readable; reports the exact mean, variance and extremes, and an interval at the level asked for, centred on the mean, with margin z times the deviation over the root of the count |
| `MonteCarlo.ZScoreTable` | services/infrastructure/internal/aggregation/monte_carlo.go:12-18 | the five table values, the straight lines between 90, 95 and 99% meeting them from both sides, and what any other level gets |
| `MonteCarlo.ZScoreIncreases` | services/infrastructure/internal/aggregation/monte_carlo.go:157-173 | from 90 to 99% a higher level asks for a strictly wider interval |
| `MonteCarlo.ZScoreMonotoneExactlyWhen` | services/infrastructure/internal/aggregation/monte_carlo.go:157-173 | a higher level gets a smaller value exactly from 85% to a level below 90% |
| `Merge.AbsorbedMeans` | services/infrastructure/internal/aggregation/map_reduce.go:196-224 | a value disappears under a newer one exactly when the newer holds all its keys and leaves no array items |
| `Merge.MergedUnderKey` | services/infrastructure/internal/aggregation/map_reduce.go:196-224 | under one key: what one side holds is kept, of two arrays the older items come first and then the newer, two objects merge, anything else is the newer value |
| `Merge.FoldedUnderKey` | services/infrastructure/internal/aggregation/map_reduce.go:128-147 | over a whole fold, a key holds the last scalar, the items of all arrays in document order, or the fold of all objects |
| `Merge.AssociativeExactlyWhen` | services/infrastructure/internal/aggregation/map_reduce.go:196-224 | three merges associate exactly when no kind returns after another kind with something left to resurface |
| `Merge.OverIdentity` | services/infrastructure/internal/aggregation/map_reduce.go:128-147 | the empty object is an identity on both sides |
| `Merge.CompatibleRegroup` | services/infrastructure/internal/aggregation/map_reduce.go:196-224 | documents of one shape always associate |
| `Merge.FoldRegroups` | services/infrastructure/internal/aggregation/map_reduce.go:128-147 | the reducer's fold over documents of one shape may be split into any two batches and merged |
| `Merge.MixedShapesDoNotRegroup` | services/infrastructure/internal/aggregation/map_reduce.go:196-224 | an array, a number and an array at one key do not associate |
| `MergeInPlace.DeepMerge` | services/infrastructure/internal/aggregation/map_reduce.go:196-224 | the in-place merge of disjoint object graphs leaves the destination holding the pure merge; a key only the source holds an object under takes that very object, one both do keeps the destination's; nothing outside the destination changes |
| `MergeInPlace.ReducerMerge` | services/infrastructure/internal/aggregation/map_reduce.go:128-147 | returns an object holding the fold of all documents, or the index of the first that does not parse |
| `Pow.LeadingZeroBits` | services/infrastructure/pow/pow.go:43-56 | the loop counts the zero bits before the first one bit |
| `Pow.DifficultyIsTarget` | services/infrastructure/pow/pow.go:43-56 | at least k zero bits exactly when the big-endian digest is below 2^(8 length - k) |
| `Pow.PreimageInjective` | services/infrastructure/pow/pow.go:32-40 | for challenges of one length the hashed bytes determine challenge, key and nonce |
| `Pow.SolvesExactlyWhen` | services/infrastructure/pow/pow.go:29-53 | a nonce solves exactly when the digest of challenge, key and eight big-endian bytes, in this order, is below 2^(8 * length - difficulty) |
| `Pow.Solve` | services/infrastructure/pow/pow.go:60-66 | returns the least nonce that solves |
| `Admission.Registry.RedeemChallenge` | services/infrastructure/internal/admission/pow.go:104-130 | deletes the row and then verifies; which error, and what is deleted under each |
| `Admission.Registry.ReserveCreationSlot` | services/infrastructure/internal/admission/admission.go:90-113 | increments the counter of the bucket and day of the transaction's start, refuses exactly above the cap |
| `Admission.Registry.Admit` | services/infrastructure/internal/volunteer/pgx-repo.go:93-130 | commits redemption, reservation and row together, or leaves every table as it was |
| `Admission.RedeemedExactlyWhen` | services/infrastructure/internal/admission/pow.go:111-130 | a redemption succeeds exactly for a challenge that is there, issued to the same key, unexpired at the transaction's start and solved at its own difficulty; which refusal otherwise; and only that row goes |
| `Admission.AdmittedExactlyWhen` | services/infrastructure/internal/volunteer/pgx-repo.go:93-163 | which refusal a registration gets, work before cap before key, and every table it leaves |
| `Admission.Registry.SweepCounters` | services/infrastructure/internal/admission/sweeper.go:57-70 | removes exactly the rows older than the retention window |
| `Admission.Registry.SweepChallenges` | services/infrastructure/internal/admission/sweeper.go:111-121 | removes exactly the expired challenges |
| `Registration.StepInv` | services/infrastructure/internal/admission/admission.go:43-56 | every step of every party keeps the invariant tying pending writes, locks, counters, challenges and created volunteers |
| `Registration.AdmissionExact` | services/infrastructure/internal/admission/admission.go:90-113 | in every interleaving a slot's counter is the number of registrations committed under it exactly when no sweep has removed it, it is at most the cap, and no challenge or key backs two |
| `Registration.RegistrationsAreEarned` | services/infrastructure/internal/volunteer/pgx-repo.go:93-163 | in every run each committed registration under a gate with proof of work used a challenge issued to its own key, unexpired when its transaction started and solved at its own difficulty |
| `Registration.AttemptsAreAtomic` | services/infrastructure/internal/volunteer/pgx-repo.go:93-130 | an attempt that commits acts as the whole registration run alone at that instant, a refused one is refused as it would be alone, and one that does not commit leaves challenge and counter as they were |
| `Registration.RowsLast` | services/infrastructure/internal/admission/sweeper.go:57-121 | in every step a challenge goes only by the commit that used it or once expired, a counter row only more than seven days old, and a volunteer never |
| `Registration.NoDeadlock` | services/infrastructure/internal/volunteer/pgx-repo.go:93-130 | some open transaction can always take its next step |
| `Registration.ReservedCountExactlyWhen` | services/infrastructure/internal/admission/admission.go:90-113 | in a reachable state a reservation is refused exactly at the cap, and takes one more than the registrations committed under its slot exactly when the slot has not been swept |
| `Registration.FullSlotAdmitsExactlyWhenSwept` | services/infrastructure/internal/admission/admission.go:90-113 | a slot full to the cap takes another reservation exactly when its row has been swept |
| `Registration.CapHoldsForever` | services/infrastructure/internal/admission/sweeper.go:57-70 | while no reservation is made on a swept row no slot ever exceeds the cap, swept or not |
| `Registration.TimelyReservesUnswept` | services/infrastructure/internal/admission/sweeper.go:57-70 | reservations inside the retention window are never on a swept row |
| `Registration.TimelyCapHolds` | services/infrastructure/internal/admission/sweeper.go:57-70 | so on such runs no slot ever exceeds the cap |
| `Registration.LateReservationOverfills` | services/infrastructure/internal/admission/sweeper.go:57-70 | a run, with a cap of one, that commits two registrations under one slot |
| `Revocation.MagnitudeCanonical` | services/infrastructure/internal/attestation/revocation.go:80-137 | every magnitude is rendered in the form the signer admits |
| `Revocation.MagnitudeReads` | services/infrastructure/internal/attestation/revocation.go:28-31 | a magnitude is its whole credits in decimal, a point, and its millionths in six digits |
| `Revocation.BuiltSignable` | services/infrastructure/internal/attestation/revocation.go:100-137 | a built revocation can be signed exactly when the reason is a reason code |
| `Revocation.PendingAfterEmission` | services/infrastructure/internal/attestation/revocation.go:33-47 | one appended revocation takes its own adjustment, and no other, off the pending list |
| `Revocation.Emitter.Create` | services/infrastructure/internal/attestation/pgx-repo.go:121-180 | appends a row, or changes nothing and says whether a unique index or a missing reference refused it |
| `Revocation.CreatedExactlyWhen` | services/infrastructure/migrations/00020_attestation_v2.up.sql:66-75 | on the fields, when an insert appends and which constraint refuses it otherwise |
| `Revocation.Emitter.GetGrantByResultID` | services/infrastructure/internal/attestation/pgx-repo.go:198-211 | finds an agreed version 2 grant exactly when there is one |
| `Revocation.Emitter.EmitForAdjustment` | services/infrastructure/internal/attestation/revocation.go:80-137 | which error, when nothing is written, that no reference is ever missing, and that success leaves the adjustment needing nothing more, every revocation still naming its grant and carrying its magnitude |
| `Revocation.Emitter.Reconcile` | services/infrastructure/internal/attestation/revocation.go:146-178 | afterwards exactly the ids of the batch that did not fail are no longer pending, and the count is their number |
| `Reconciliation.SweepIsReconcile` | services/infrastructure/internal/attestation/revocation.go:146-178 | ties the sweeps below to one run of the reconciler |
| `Reconciliation.SweepsDrain` | services/infrastructure/internal/attestation/revocation.go:33-47 | with at most f < 100 permanent failures, enough sweeps that 100 - f each cover the rest leave only failures |
| `Reconciliation.BatchMembership` | services/infrastructure/internal/attestation/revocation.go:33-47 | an adjustment is in a sweep exactly when fewer than a hundred pending ones are older |
| `Reconciliation.StarvedExactlyWhen` | services/infrastructure/internal/attestation/revocation.go:33-47 | after as many sweeps as were pending, a healthy adjustment still waits exactly when a hundred failing ones are older |
| `Reconciliation.HundredFailuresStarve` | services/infrastructure/internal/attestation/revocation.go:33-47 | a hundred failing adjustments and a younger healthy one that no number of sweeps emits |
| `Reconciliation.CheckedReasonsFailOnlyByOutage` | services/infrastructure/internal/credit/admin-handler.go:128-137 | with reasons checked on writing, the adjustments that fail are those whose inserts fail |
| `RevocationRace.StepInv` | services/infrastructure/internal/attestation/revocation.go:80-137 | every step of any emitter keeps the indexes, the faithfulness of every revocation and what emitters have read |
| `RevocationRace.RevocationsExact` | services/infrastructure/internal/attestation/revocation.go:28-47 | in every interleaving each adjustment has at most one revocation; each names the agreed version 2 grant of the same result with the adjustment's reason and its magnitude and no other, and can be signed; without such a grant there is none |
| `TtlCache.Cache.Get` | services/dashboard/src/lib/public-viz-guard.ts:26-58 | answers an entry before its time and drops it after |
| `TtlCache.Cache.Set` | services/dashboard/src/lib/public-viz-guard.ts:26-58 | the new map: front key evicted when a new key finds it full, the key moved last |
| `TtlCache.CacheIsFresh` | services/dashboard/src/lib/public-viz-guard.ts:26-58 | after any history an answer is the last value set and only before its time passes; the size bound and expiry order hold; and a fresh entry survives until maxEntries other keys have been set |
| `RateLimiter.Limiter.Allow` | services/dashboard/src/lib/public-viz-guard.ts:60-89 | the answer and the new map of windows |
| `RateLimiter.EvictionIsOldest` | services/dashboard/src/lib/public-viz-guard.ts:60-89 | tracked keys never exceed maxKeys; one is given up exactly for a new key when the map is full, and it has the oldest window start |
| `RateLimiter.OthersDoNotMatter` | services/dashboard/src/lib/public-viz-guard.ts:60-89 | a key never evicted has the window it would have alone |
| `RateLimiter.AllowedIsAdmitted` | services/dashboard/src/lib/public-viz-guard.ts:60-89 | and is let through exactly as it would be alone |
| `RateLimiter.WindowsAreFixed` | services/dashboard/src/lib/public-viz-guard.ts:60-89 | a request opens its own window exactly when the one before has stood for its full length; any other is counted in that window |
| `RateLimiter.AtMostTwiceTheLimit` | services/dashboard/src/lib/public-viz-guard.ts:60-89 | for a key on its own, any half-open interval one window long admits at most twice the limit |
| `RateLimiter.GrantedExactly` | services/dashboard/src/lib/public-viz-guard.ts:60-89 | for a key on its own, each window admits exactly the lesser of what was asked and the limit |
| `RateLimiter.LimiterKeepsItsPromise` | services/dashboard/src/lib/public-viz-guard.ts:60-89 | of the limiter's own answers to a key never evicted among any others, at most twice the limit are yes in any interval one window long, and exactly the lesser of asked and limit in each of its windows |
| `Cursor.CursorDetermines` | services/infrastructure/internal/types/pagination.go:40-44 | a cursor is never empty and determines the id and, to the microsecond, the time |
| `Cursor.CursorReads` | services/infrastructure/internal/types/pagination.go:40-44 | the encoded characters are the time, one comma and no other, and the 36 characters of the id |
| `Cursor.CalendarAscends` | services/infrastructure/internal/types/pagination.go:40-44 | the numbers listings order times by grow with the calendar fields |
| `Cursor.CursorCodecRoundTrips` | services/infrastructure/internal/types/pagination.go:40-44 | the modelled cursor text, over all times and identifiers, is a codec that round-trips, as the listings below need |
| `Keyset.PageMeans` | services/infrastructure/internal/attestation/pgx-repo.go:242-315 | a page is descending, wanted, past the cursor, and full with the last row's cursor when there are more |
| `Keyset.PageExactly` | services/infrastructure/internal/attestation/pgx-repo.go:280-312 | on the fields: any two rows of a page are newest first, greatest id first among equal times, and strictly below the cursor |
| `Keyset.PageSizeExactly` | services/infrastructure/internal/types/pagination.go:10-32 | a page holds at most 50 rows, or the number asked for up to 200, exactly that many with the last row's cursor when there are more, and no cursor otherwise |
| `Keyset.LeftForLater` | services/infrastructure/internal/attestation/pgx-repo.go:242-315 | a wanted row a page leaves out is below its last row |
| `Keyset.HasMoreMeans` | services/infrastructure/internal/attestation/pgx-repo.go:306-312 | a page says there are more exactly when a wanted row is below all of its rows |
| `Keyset.WalkDescends` | services/infrastructure/internal/attestation/pgx-repo.go:242-315 | following cursors gives strictly descending (time, id) order, whatever changes between fetches |
| `Keyset.WalkShowsTables` | services/infrastructure/internal/attestation/pgx-repo.go:242-315 | each row is one its own fetch's table held and wanted |
| `Keyset.WalkComplete` | services/infrastructure/internal/assignment/pgx-repo.go:120-167 | a finished walk lists every key that was there at every fetch |
| `Keyset.WalkIsListing` | services/infrastructure/internal/assignment/pgx-repo.go:120-167 | on a fixed table the walk ends after as many pages as the listing fills and returns the listing |
| `Listings.List` | services/infrastructure/internal/attestation/pgx-repo.go:242-315 | the appending and truncating loop returns the specified page or error |
| `Listings.ListByVolunteer` | services/infrastructure/internal/assignment/pgx-repo.go:120-167 | the same for one volunteer's assignments |
| `Listings.RefusedExactlyWhen` | services/infrastructure/internal/attestation/pgx-repo.go:242-281 | a listing is refused exactly for text that does not parse, the first of from, to and cursor named |
| `Listings.ShowsExactlyWhatPasses` | services/infrastructure/internal/attestation/pgx-repo.go:242-315 | an accepted request shows only rows of the leaf, volunteer and times asked for, below the cursor, and leaves such a row out only below its last one |
| `Listings.ShowsOwnAssignments` | services/infrastructure/internal/assignment/pgx-repo.go:120-167 | one volunteer's listing shows only that volunteer's assignments, and leaves one out only below its last row |
| `History.ServesBelow` | services/volunteer-cli/internal/management/daemon_bridge.go:884-975 | the page a cursor yields, and the next cursor, in terms of positions in the append-only file |
| `History.DaemonPage` | services/volunteer-cli/internal/management/daemon_bridge.go:920-975 | the daemon serves up to fifty entries from as many as the cursor skips, newest first, says whether more are left, and where they start |
| `History.ShownExactly` | apps/volunteer-desktop/src/hooks/use-history.ts:61-72 | an entry is shown exactly when it is of the leaf and of the status asked for |
| `History.ShownInOrder` | apps/volunteer-desktop/src/hooks/use-history.ts:61-72 | shown entries keep the order they came in |
| `History.StopsAtFirstShown` | apps/volunteer-desktop/src/hooks/use-history.ts:155-174 | a load stops at its first page that shows something or ends the history, and not before |
| `History.WalkContinuesExactlyWhen` | apps/volunteer-desktop/src/hooks/use-history.ts:162-175 | the pages of one load continue a held run exactly when the daemon pages by entry or nothing completed up to the last page read |
| `HistoryList.List.FetchPage` | apps/volunteer-desktop/src/hooks/use-history.ts:147-192 | the page loop's new state: at most five pages, up to the first that shows something |
| `HistoryList.List.LoadMore` | apps/volunteer-desktop/src/hooks/use-history.ts:206-210 | appends when there is more, changes nothing otherwise |
| `HistoryList.List.Refresh` | apps/volunteer-desktop/src/hooks/use-history.ts:212-243 | the new state: newer rows on top, or the list started over |
| `HistoryRuns.FetchCoherent` | apps/volunteer-desktop/src/hooks/use-history.ts:147-192 | what is shown stays the filtered image of what is loaded, with its count and ids |
| `HistoryRuns.RefreshTracks` | apps/volunteer-desktop/src/hooks/use-history.ts:212-243 | a refresh leaves a contiguous run starting at the newest entry, and starts over exactly when nothing was loaded or a page or more completed |
| `HistoryRuns.PageOfCompletionsStartsOver` | apps/volunteer-desktop/src/hooks/use-history.ts:212-243 | after exactly fifty completions a refresh already drops what was loaded |
| `HistoryRuns.LoadContinuesExactlyWhen` | apps/volunteer-desktop/src/hooks/use-history.ts:206-210 | a load keeps the list contiguous exactly when the daemon pages by entry or nothing completed since the cursor was issued |
| `HistoryRuns.RunKeeps` | apps/volunteer-desktop/src/hooks/use-history.ts:147-243 | with entry-keyed cursors any run of completions, loads and refreshes keeps the list contiguous and the shown entries its filtered image |
| `HistoryRuns.RefreshedRun` | apps/volunteer-desktop/src/hooks/use-history.ts:147-243 | from the first fetch on, and a refresh after any run starts the list at the newest entry |
| `HistoryRuns.IndexCursorRepeatsRow` | services/volunteer-cli/internal/management/daemon_bridge.go:912-975 | under the daemon's own cursor one completion before a load shows a row twice |
| `Schedule.RangesToCells` | apps/volunteer-desktop/src/components/schedule-builder.tsx:25-45 | the loops add exactly the specified cells in order |
| `Schedule.CellsAreCovered` | apps/volunteer-desktop/src/components/schedule-builder.tsx:25-45 | a cell is on exactly when some range covers its day and hour, wrapping and whole-day ranges included |
| `Schedule.CoversClockwise` | apps/volunteer-desktop/src/components/schedule-builder.tsx:25-45 | a range covers the hours from its start on around the clock until its end, all twenty-four when they are the same |
| `Schedule.CellsToRanges` | apps/volunteer-desktop/src/components/schedule-builder.tsx:48-77 | grouping, sorting and run tracking yield the specified ranges |
| `Schedule.RangesDenoteCells` | apps/volunteer-desktop/src/components/schedule-builder.tsx:48-77 | the ranges cover exactly the grid's cells |
| `Schedule.RangesAreMaximalRuns` | apps/volunteer-desktop/src/components/schedule-builder.tsx:48-77 | the ranges are the maximal runs of each day: all of them, each once, nothing else |
| `Schedule.MaximalRunsMeet` | apps/volunteer-desktop/src/components/schedule-builder.tsx:48-77 | two maximal runs that share a cell are equal, so the ranges are disjoint |
| `Schedule.CellsRoundTrip` | apps/volunteer-desktop/src/components/schedule-builder.tsx:25-77 | cells to ranges and back gives the same cells, for every grid |
| `Schedule.RangesRoundTripExactlyWhen` | apps/volunteer-desktop/src/components/schedule-builder.tsx:25-77 | ranges to cells and back keeps every hour exactly when each range's hours are on the clock |
| `Schedule.ValidatedRangesRoundTrip` | services/volunteer-cli/internal/config/config.go:268-280 | every schedule the daemon accepts keeps its hours through the grid |
| `Schedule.PastMidnightIsLost` | apps/volunteer-desktop/src/components/schedule-builder.tsx:25-77 | a range from 20 to 26, which the daemon refuses, loses an hour |
| `Schedule.SavedAgain` | apps/volunteer-desktop/src/components/schedule-builder.tsx:25-77 | a schedule opened and saved unchanged has the same ranges |
| `Sidecar.Slot.Poll` | apps/volunteer-desktop/src-tauri/src/sidecar.rs:185-198 | reaps an exited child once and remembers its exit code |
| `Sidecar.Slot.IsPidAlive` | apps/volunteer-desktop/src-tauri/src/sidecar.rs:670-675 | asks the spawned child itself, any other process of the system |
| `Sidecar.Slot.SpawnDaemon` | apps/volunteer-desktop/src-tauri/src/sidecar.rs:308-349 | the slot and outcome after a check and spawn under one lock |
| `Sidecar.Tail.ReadAll` | apps/volunteer-desktop/src-tauri/src/sidecar.rs:323-337 | the buffer always holds the last twenty lines read, or all of them, trimmed at the end |
| `Sidecar.SpaceCodes` | apps/volunteer-desktop/src-tauri/src/sidecar.rs:323-337 | the twenty-five characters counted as white space, by code |
| `Sidecar.TrimEndMeans` | apps/volunteer-desktop/src-tauri/src/sidecar.rs:323-337 | trimming cuts white space only, and all of it at the end |
| `Supervisor.AskedMeans` | apps/volunteer-desktop/src-tauri/src/sidecar.rs:670-675 | the app's own daemon counts as alive exactly while it runs, a zombie as exited though the system still answers for it |
| `Supervisor.StepInv` | apps/volunteer-desktop/src-tauri/src/sidecar.rs:308-349 | every step of any caller or the system keeps the slot right and every restart's previous daemon gone once waited for |
| `Supervisor.OneDaemon` | apps/volunteer-desktop/src-tauri/src/sidecar.rs:304-349 | in every interleaving at most one spawned daemon runs and it is the one in the slot |
| `Supervisor.RestartWaitsForExit` | apps/volunteer-desktop/src-tauri/src/sidecar.rs:545-595 | a daemon is spawned only while none of the app's runs, and by a restart only after the one it found running has exited |
| `Supervisor.OutcomesAreTrue` | apps/volunteer-desktop/src-tauri/src/sidecar.rs:482-505 | Ready names a daemon that answers and is never the old one; AlreadyRunning and NotStopped name a process that answers; Exited carries the true exit code; Starting means the daemon runs; SpawnError that none of the app's does |
| `Supervisor.StartDecides` | apps/volunteer-desktop/src-tauri/src/sidecar.rs:92-97 | a start goes on to spawn exactly when daemon.json names nothing that answers, and otherwise reports that process as already running |
| `Supervisor.SpawnDecides` | apps/volunteer-desktop/src-tauri/src/sidecar.rs:360-371 | a spawn makes a daemon and puts it in the slot exactly when none of the app's runs and the system obliges |
| `Supervisor.RestartDecides` | apps/volunteer-desktop/src-tauri/src/sidecar.rs:545-562 | a restart stops the daemon that daemon.json names exactly when it answers |
| `Supervisor.AwaitDecides` | apps/volunteer-desktop/src-tauri/src/sidecar.rs:454-463 | the wait for the old daemon ends when it is gone; at the end of its time it is forced once, then given up; only its own stale announcement is dropped |
| `Supervisor.WaitDecides` | apps/volunteer-desktop/src-tauri/src/sidecar.rs:482-505 | the wait for a new daemon ends at once for one that answers and is not the old one, or for an exit, otherwise when time is up |

## Left out

- Floating point: numbers are exact reals, so nothing here is a claim about float64 rounding. A version 1 credit amount enters signed bytes as the JSON number it prints as.
- Text is a sequence of Unicode scalar values, not its UTF-8 bytes; invalid UTF-8, which Go's encoder replaces, does not arise.
- SHA-256, the square root and the power r2 ** -1.5 are function parameters; Ed25519 is not modelled, only the bytes it signs.
- Clocks, randomness, fresh identifiers and whether the database is up are arguments of the calls that use them.
- Calendar arithmetic: a timestamp is its calendar fields, and the number a listing orders it by is those fields read in order; which dates exist is not modelled.
- Pow.Solve: is given that some 64-bit nonce solves, because the original loop would otherwise not end.
- Keyset.WalkComplete: takes the cursor codec as a parameter that round-trips, which CursorCodecRoundTrips discharges; the decoder's acceptance of other spellings of a time or id is not modelled.
- Registration.StepInv: a sweep removes its rows in one step and skips locked ones; table rows are written at commit, uncommitted writes being invisible to others as under read committed. Pool exhaustion and statement timeouts appear only as a transaction dying.
- RevocationRace.RevocationsExact: adjustments are never edited, as the table's own rules say.
- MergeInPlace.DeepMerge: arrays are values, so two slices sharing one backing store after Go's append are not captured; source and destination share no objects, as freshly parsed documents do not.
- The shallow merge, reducerSum, reducerAverage, reducerConcatenate and JSON number extraction: one-line facts.
- Revocation.Emitter.EmitForAdjustment: the float copy of the magnitude, which version 2 never signs, is not carried.
- HistoryRuns.RunKeeps: work unit ids in the history are distinct, calls do not overlap or fail, the client does not change, and the date window is fixed; a 7-day window really moves with the clock. Leaf-name lists, loading and error flags are not part of the list's state here.
- Supervisor.StepInv: a process identifier is never reused, `try_wait` does not fail, waiting is a caller's step repeated until its chance to expire, and daemon.json is a readable PID or nothing. `ensure_daemon_started`, suspend-and-quit and the wording of failures are not modelled.
- Sidecar.Slot.SpawnDaemon: command construction and log lines are left out.
- Schedule.CellsToRanges: a cell is a pair of numbers rather than the text of two numbers and a dash; sorting is an insertion sort.
- BucketForIP, the HTTP handlers, trust policy, credit adjustment, transitioner, dispatch cache, container engine, updater and every user-interface concern: case tables, wiring or input and output.
