# A verified model of the restaurant system's kernel

This project models, in Dafny, the pure kernel of an offline-first point of sale: the byte form under
every hash, the fold that turns a delivered set of events into orders and money, the auditor that checks
the merged log, the arithmetic of money and tax, the business day, and the small protocols and parsers
around them. Every definition follows the code's own branches and constants. The theorems are about all
inputs, all runs or all deliveries, but for the named inputs that show where a property fails.

`dafny verify dfyconfig.toml` checks the whole project.

## What is modelled, module by module

- `Text16`, `Wrappers`: JavaScript strings as sequences of UTF-16 code units, decimal printing, the order
  `<` compares strings by; `Result` stands for a value or a thrown error, `Option` for a value or null.
- `Canonical`, `CanonicalText`, `JsonReader`, `CanonicalUnique`: `canonicalJson`, its normal form, a reader of
  JSON text written from section 7 of RFC 8259 and apart from the printer, and the proof that the reader takes
  every printed text back to its normal form; unique readability follows. Object key order is UTF-16 order as
  in section 3.2.3 of RFC 8785.
- `Pin`, `Credential`: the hand-written base64 codec (section 4 of RFC 4648, unpadded per its section
  3.2), with the decoder's signed 32-bit accumulator as a bit-vector, and the encoded credential string
  (version 0x13, section 3.1 of RFC 9106). Argon2id is a function parameter.
- `AuditChain`, `AuditLeg`: the per-device hash chain and the auditor's fifth leg over it. SHA-256 is a
  function parameter; a lemma that needs it to tell texts apart says so, and only of well-formed UTF-16,
  because UTF-8 encoding already loses lone surrogates.
- `GapLeg`, `ReadModelDiff`: the auditor's first and fourth legs, loops included.
- `Money`, `Tax`: rounding, exact totals, the charge at a granularity, residuals, and tax per line.
- `Calendar`, `BusinessDay`, `Karachi`, `NamedDate`: civil dates, the two-pass solver for an instant from a wall
  time, and the days it cuts. A zone is a first offset and a list of changes at least a day apart, each
  offset strictly between 0 and 24 hours east; a change may jump by any amount. Karachi's own history, local
  mean time included, is one such zone.
- `Alarms`, `Permissions`: two views that must depend on sets and not on arrays.
- `PadMachine`, `WaiterPad`: taps and presses over a line that loses replies, as a state machine and as the
  class whose handlers follow it call by call.
- `RefundGate`: the refund cap of the gateway's merge, as runs over the log it appends to.
- `LanMesh`, `Config`, `Campaign`: the peer directory, the configuration artifact, and campaign and
  loyalty arithmetic.
- `MergeLattice`, `MergeEngine`, `MergeConvergence`, `MergeMoney`, `MergeLines`, `MergeOrder`, `MergeReads`,
  `MergeRelabel`: the merge engine of `packages/sync-client`. The nested maps of the source are one map whose keys carry the whole path, and
  a member that the source keys by its canonical text is keyed by its value, which `Canonical` justifies.
  Loops over JavaScript maps visit keys in insertion order; here they visit them in any order, so a
  proved result holds for every order.

## What the model found

Places where a property a reader may expect fails, with the input and the exact condition.

- The two passes that solve for an instant, said to converge for every real transition, do so exactly when
  no change of offset falls across the cutover's wall time (`BusinessDay.SolverExact`), and the bounds of a day
  are exact exactly when its own two cutovers are clean (`DayExactIff`). In Asia/Karachi the last millisecond
  before the clocks went back in November 2008 lies outside its own business day at cutover hour 23
  (`Karachi.RepeatedCutoverMisfiles`). Over the zone's whole history 1 and 23 are the only hours with such an
  instant (`KarachiTiles`), and `KarachiDayExact` names the days.
- `Date.UTC` reads the years 0 to 99 as 1900 to 1999, so `businessDayBoundsOfDate` refuses the real dates of
  those years and of those only (`NamedDate.AcceptsRealDates`, `EarlyYearsRefused`); `ShiftExact`,
  `BusinessDateIsDayOf` and `BoundsOfRealDateIff` say exactly where the misreading reaches.
- Extraction inverts application for every base and rate. Application inverts extraction exactly when
  `(10000 * gross + 4999) % (10000 + bps) < 10000` (`Tax.ApplyInvertsExtract`); at 1600 basis points a gross
  of 4 does not come back (`NoBaseMakesFour`).
- `Pad.tsx` names one residual of SEND: a line whose reply was lost is sent again. Till plus glass is
  ahead of the taps before that, as soon as the first landing goes unheard (`PadMachine.LandedAndNotResent`);
  it is taps plus resends exactly for the items whose last landing was heard (`ResentBalancesIff`).
- Parsing one configuration run after another is not overriding one parsed map by the other when the second
  run resets a key the first set (`Config.OverrideExactlyWithoutResets`, `ResetIsNotAnOverride`).
- The merge engine's comments say value-keying is an engine obligation. Assignments, confirms, closes and
  line edges are keyed by event id alone, so two payloads under one id make the result depend on arrival;
  `MergeConvergence.ConvergesIffAgree` states exactly when it does not, and `PlaceConvergesIff` does so place by
  place: a collision in one place leaves every other place, the money and the lines among them, convergent.
- A line edge that adopts a state need not adopt a terminal one, and two adoptions may retire each other,
  so a served line can come back (`MergeLines.AdoptionBackToReady`, `AdoptionsCancel`). A line shows a
  terminal exactly when some edge to one is named by no adoption (`TerminalShowsIff`).
- Alarm keys are joined with NUL, and a failed print may name an order or printer that holds one. For every
  such pair there are facts that make its alarm due and leave it off the list, and for no other alarm
  (`Alarms.NulPairLost`, `TrustedIffPlain`, `OrderFreeIffPlain`, `ExactIffAlone`). Alarm ids are joined with a
  colon: two alarms of one list share an id exactly for print pairs that hold one (`IdUniqueIffRendered`,
  `ColonPairShared`).
- The gateway's refund cap holds over every run but for refunds merged before their payment: a payment is
  over-refunded exactly when those alone exceed it (`RefundGate.EveryRunCapped`).

## Model

| member | source | states |
|---|---|---|
| CanonicalUnique.TextUnique | packages/domain/src/canonical.ts:17-29 | unique readability: if two canonical texts, each followed by text that cannot continue a value, are equal, then the values have one normal form and the remainders are equal |
| CanonicalUnique.CanonicalIffSameNormal | packages/domain/src/canonical.ts:14-29 | two values print alike exactly when their JSON normal forms are equal: objects as finite maps without omitted members, omitted array elements and top level as null, minus zero as zero |
| CanonicalUnique.PersistedSameText | packages/domain/src/canonical.ts:10-29 | a value prints the same before and after a round trip through JSON text, so hashing early or late agrees; only an omitted value has no JSON text, and it prints as null |
| CanonicalUnique.SameEntriesSameNormal | packages/domain/src/canonical.ts:22-27 | the order in which an object's members were inserted does not reach its normal form |
| CanonicalUnique.CanonicalWellFormed | packages/domain/src/canonical.ts:17-29 | canonical text holds no lone surrogate, whatever the strings inside hold, so UTF-8 encoding loses nothing |
| Text16.PairsExact | packages/domain/src/canonical.ts:28 | two units are a surrogate pair exactly when some code point above 0xFFFF is written as the two |
| JsonReader.ReadBack | packages/domain/src/canonical.ts:14-29 | a reader of JSON text written from section 7 of RFC 8259, apart from the printer, reads the canonical text of any value, whatever follows it, as that value's normal form, and stops exactly where the value ends |
| JsonReader.PrintedByUnit | packages/domain/src/canonical.ts:28 | a text is printed unit by unit: a quote, a backslash, a unit below 0x20 and a lone surrogate escaped, every other unit as it is |
| JsonReader.ShortestEscape | packages/domain/src/canonical.ts:28 | each escape reads back as its unit, and no escape that reads as that unit is shorter |
| JsonReader.ObjectInOrder | packages/domain/src/canonical.ts:22-27 | an object's text lists exactly the members that are not omitted, in ascending UTF-16 order of their names |
| JsonReader.WellFormedExact | packages/domain/src/canonical.ts:28 | a text is well-formed UTF-16 exactly when no surrogate in it stands alone |
| Pin.ToB64 | packages/domain/src/pin.ts:49-63 | the encoder loop writes the base64 characters of the whole byte array, partial groups included |
| Pin.FromB64 | packages/domain/src/pin.ts:67-87 | null exactly when a character is outside the alphabet, else the decoded bytes |
| Pin.Unpack | packages/domain/src/pin.ts:74-86 | the accumulator loop, wrapping at 32 bits, performs exactly floor(6n/8) writes in bounds and yields the decoding |
| Pin.PushCompletes | packages/domain/src/pin.ts:78-84 | each byte the accumulator completes is made of the last two sextets alone, whatever sign or older bits the 32-bit word holds |
| Pin.StepReads | packages/domain/src/pin.ts:75-84 | only the last sextet held in the signed, wrapping 32-bit accumulator matters: the byte kept after an arithmetic shift is the next byte of the decoding |
| Pin.FromB64ToB64 | packages/domain/src/pin.ts:49-87 | every byte sequence encodes to alphabet text that decodes to it |
| Pin.AlphabetExact | packages/domain/src/pin.ts:45 | the alphabet, in order |
| Pin.GroupNumber | packages/domain/src/pin.ts:49-63 | three bytes and their four sextets are one number |
| Pin.TextRoundTrip | packages/domain/src/pin.ts:49-87 | alphabet text decodes and encodes back to itself exactly when its length is not 1 modulo 4 and the unused trailing bits are zero |
| Pin.EqualConstantTime | packages/domain/src/pin.ts:94-99 | the difference-accumulating comparison is equality of lengths and bytes |
| Credential.ParseBack | packages/domain/src/pin.ts:109-137 | the string built for any parameters, non-empty salt and non-empty digest parses back to exactly them |
| Credential.CredentialTextInjective | packages/domain/src/pin.ts:132-137 | two credentials never share an encoded string |
| Credential.EnrolledPinVerifies | packages/domain/src/pin.ts:132-156 | a credential just hashed verifies its own PIN, and another PIN exactly when the key derivation gives both the same digest |
| Credential.EnrolledText | packages/domain/src/pin.ts:34-137 | the stored string written out: Argon2id, version 19, 19456 KiB, two passes, one lane, the salt and a digest of 32 bytes |
| Credential.ParsedShape | packages/domain/src/pin.ts:109-129 | a text is read as a credential if and only if it has that shape and version and its numbers and bytes, neither field empty, are that credential's |
| Credential.VerifyExact | packages/domain/src/pin.ts:148-156 | a PIN verifies exactly when the stored text is read and its own salt and costs give the stored digest |
| AuditChain.VerifyAuditChain | packages/domain/src/audit.ts:40-50 | intact exactly when every event names its predecessor's hash; otherwise the first broken link, with the expected and found hashes |
| AuditChain.AppendedAccepted | packages/domain/src/audit.ts:31-50 | a chain built by setting each draft's previous hash to the last hash is accepted |
| AuditChain.SameHashSameEvent | packages/domain/src/audit.ts:17-25 | under a hash that tells texts apart, two events hash alike exactly when they agree on everything except when the server received them |
| AuditChain.HashCovers | packages/domain/src/audit.ts:17-25 | the hashed text reads back, with nothing left over, as an object of exactly the envelope's fields under their names, less when the server received it |
| AuditChain.PrevHashNamed | packages/domain/src/audit.ts:31-50 | a chain names its predecessor under one key of the payload, and nothing without it |
| AuditChain.LastHashFixesChain | packages/domain/src/audit.ts:40-50 | two accepted chains whose last events hash alike have the same length and agree event by event, so nothing can be cut off or put before the front |
| AuditChain.EditBreaksNextLink | packages/domain/src/audit.ts:31-50 | an in-place edit of an accepted chain breaks first at the edited event if its own link changed, else at the next event exactly when there is one and covered content changed |
| AuditLeg.CollectChains | packages/auditor/src/auditor.ts:545-585 | each device's chain is its readable audit rows in row order, and each unreadable row yields one finding |
| AuditLeg.RowsInOrder | packages/auditor/src/auditor.ts:545-585 | a device's chain, and the unreadable rows, stand in the order of the rows |
| AuditLeg.OneRow | packages/auditor/src/auditor.ts:545-585 | a row alone: on the chain of its own device when it reads, a finding naming it when it does not |
| AuditLeg.RunAuditLeg | packages/auditor/src/auditor.ts:541-602 | the findings are exactly those due: first one for each unreadable row, in row order, then one for each device whose chain breaks, no device twice, naming its first broken link |
| AuditLeg.CleanIffNothingDue | packages/auditor/src/auditor.ts:541-604 | no finding exactly when every row can be read and every device's chain is accepted |
| GapLeg.MissingRuns | packages/auditor/src/auditor.ts:228-237 | the moving-next loop over the sorted covered slots yields disjoint, maximal, ascending runs that cover exactly the uncovered slots, at most one more than the covered slots |
| GapLeg.CollectMerged | packages/auditor/src/auditor.ts:187-201 | the covered sets and per-device maxima collected from the merged rows are exactly theirs |
| GapLeg.CollectQuarantined | packages/auditor/src/auditor.ts:202-214 | with the quarantined rows, a slot is in a device's set exactly when a merged row or an attributed quarantined row covers it |
| GapLeg.RunGapLeg | packages/auditor/src/auditor.ts:187-270 | the leg reports, for every device, a report in the sense of ReportExact, in whatever order the devices are taken |
| GapLeg.ReportExact | packages/auditor/src/auditor.ts:224-270 | a report names a slot, singly or in a range, exactly when it is owed and not covered, and holds at most 8 times one more than the covered slots, whatever the watermark |
| GapLeg.OwedExact | packages/auditor/src/auditor.ts:215-227 | a device owes a slot exactly when its watermark or one of its merged lamports reaches it |
| GapLeg.EmitExact | packages/auditor/src/auditor.ts:238-260 | a run of up to eight slots is told slot by slot, a longer one by its ends |
| GapLeg.QuarantineOnlyCovers | packages/auditor/src/auditor.ts:181-214 | adding quarantined rows removes the slots they attribute and adds none |
| ReadModelDiff.DiffRows | packages/auditor/src/auditor.ts:485-536 | a finding is made exactly when it is due, naming the id, and exactly as often: for each row of an id after its first, a duplicate; for each missing, drifted or extra id, one |
| ReadModelDiff.DuplicateIds | packages/auditor/src/auditor.ts:505-515 | one duplicate finding for every supplied row but the first of its id, for repeated ids only |
| ReadModelDiff.WrongByCounts | packages/auditor/src/auditor.ts:485-536 | a duplicate is an id supplied more than once, a missing one is refolded and not supplied, an extra one supplied and not refolded |
| ReadModelDiff.DivergesByLastRows | packages/auditor/src/auditor.ts:485-536 | an id both sides have has drifted exactly when the last rows under it differ in normal form |
| ReadModelDiff.CleanIffSameRows | packages/auditor/src/auditor.ts:479-536 | no finding exactly when the supplied rows have distinct ids and, as a map from id, equal the refolded rows in normal form |
| Money.RateIsHalfUp | packages/domain/src/money.ts:122-130 | the integer formula is the rate rounded half up over 10000 |
| Money.RateExact | packages/domain/src/money.ts:122-130 | a rate is answered exactly when amount, rate and result are amounts, with the nearest one, ties up |
| Money.HalfUpNearest | packages/domain/src/money.ts:122-130 | half-up division is the nearest quotient, ties going up |
| Money.NearestUnique | packages/domain/src/money.ts:122-130 | only one integer is the nearest quotient in that sense |
| Money.TotalPaisaOrNull | packages/domain/src/money.ts:51-58 | the loop gives the exact total, or null exactly when a member is not a safe integer or the sum is not |
| Money.SumExact | packages/domain/src/money.ts:80-84 | a sum is answered, exactly, exactly when every member is safe and the whole is an amount |
| Money.TotalPermutes | packages/domain/src/money.ts:51-84 | no total, and no refusal to total, depends on the order of the amounts |
| Money.SplitConserves | packages/domain/src/money.ts:98-105 | the parts sum to the whole, in descending order and within one paisa of each other |
| Money.SplitAnswered | packages/domain/src/money.ts:98-105 | a split is refused exactly when the whole or the number of parts is no amount, or there are no parts |
| Money.ChargeIsSteps | packages/domain/src/money.ts:219-235 | the charge is the nearest multiple of the step, at least one step for any bill |
| Money.ChargeExact | packages/domain/src/money.ts:219-235 | the operation itself: answered exactly when bill, step and charge are amounts and the step is positive, with the nearest number of steps, ties up and at least one for any bill |
| Money.ChargeNear | packages/domain/src/money.ts:200-235 | the charge is zero exactly for a zero bill, within half a step otherwise, and one step for a bill under half a step |
| Money.ChargeMonotone | packages/domain/src/money.ts:219-235 | a larger bill is never charged less |
| Money.ChargeIdempotent | packages/domain/src/money.ts:219-235 | charging a charge changes nothing |
| Money.RoundedOrderResidual | packages/domain/src/invariants.ts:145-150 | for an order tendered exactly its charge, the residual of the unrounded bill lies strictly above minus a step and below half a step, and is positive exactly when the charge rounded down |
| Money.ResidualExact | packages/domain/src/invariants.ts:145-150 | the residual is answered exactly on three amounts, and with the tender it makes up the bill and the refunds |
| Money.RefundReopens | packages/domain/src/invariants.ts:145-150 | money handed back re-opens exactly as much of the bill |
| RefundGate.CheckInvariants | services/sync-gateway/src/gateway.ts:207-281 | the check refuses a refund exactly when its payment is merged, its attempt is new, and it exceeds what is left after the refunds merged so far, each attempt counted once and the first winning |
| RefundGate.PaymentExact | services/sync-gateway/src/gateway.ts:219-230 | the payment a refund is held against is the first merged one under the attempt the refund names |
| RefundGate.PriorsExact | services/sync-gateway/src/gateway.ts:232-251 | the refunds counted against it are those naming it, the first merged of each attempt |
| RefundGate.MergedIffItFits | services/sync-gateway/src/gateway.ts:252-281 | after its payment, a refund under a new attempt is merged exactly when it and the earlier ones fit the payment |
| RefundGate.EveryRunCapped | services/sync-gateway/src/gateway.ts:207-281 | over any run, a merged payment is over-refunded exactly when the refunds merged before it already exceeded it, and then no further refund counts |
| Tax.ExtractInvertsApply | packages/domain/src/tax.ts:274-279 | extracting from a base plus its tax returns exactly that tax, for every base and rate |
| Tax.ApplyInvertsExtract | packages/domain/src/tax.ts:274-319 | applying to what extraction leaves returns the extracted tax exactly when 10000 times the gross plus 4999 leaves less than 10000 modulo 10000 plus the rate |
| Tax.GrossOfSomeBase | packages/domain/src/tax.ts:274-319 | that residue condition holds exactly for the gross amounts some base and its tax add up to |
| Tax.NoBaseMakesFour | packages/domain/src/tax.ts:274-319 | at 1600 basis points no base makes a gross of 4: the extracted tax is 1, and the tax on the other 3 is 0 |
| Tax.PosturesInvert | packages/domain/src/tax.ts:280-319 | a line billed exclusively, billed again inclusively at its total, is the same line |
| Tax.SnapshotCloses | packages/domain/src/tax.ts:365-408 | subtotal plus tax is the total and the sum of line totals; the total is the sum billed under none and inclusive, and exceeds it by exactly the tax under exclusive |
| Tax.SnapshotExact | packages/domain/src/tax.ts:280-408 | a snapshot is answered if and only if the rate, each line, each total are amounts and every line has an id; it carries the posture, rate and ids given, each line's base, tax and total in terms of what was billed, and their sums |
| Tax.SnapshotPermutes | packages/domain/src/tax.ts:365-408 | the totals, and whether the call is refused, do not depend on the order of the lines |
| Tax.TaxDistance | packages/domain/src/tax.ts:280-408 | under every posture, twice the distance between the summed line taxes and the tax on the whole bill is at most the number of lines plus one |
| Calendar.CivilOf | packages/domain/src/business-day.ts:92-95 | every day number has a real date that prints back to it |
| Calendar.RealUnique | packages/domain/src/business-day.ts:92-95 | a day has one real date |
| Calendar.ShiftExact | packages/domain/src/business-day.ts:92-95 | shifting a real date by days is exact across months and years exactly when its year is not 0 to 99 |
| Calendar.MonthLengths | packages/domain/src/business-day.ts:92-95 | the calendar's months: thirty days in April, June, September and November, 28 or 29 in February, 31 in the others |
| Calendar.LeapYears | packages/domain/src/business-day.ts:92-95 | the leap years of the Gregorian calendar |
| BusinessDay.SolverExact | packages/domain/src/business-day.ts:58-78 | the instant the two passes find divides time before and after the wall time exactly when no change of offset straddles it; otherwise some instant is on the wrong side |
| BusinessDay.BusinessDateIsDayOf | packages/domain/src/business-day.ts:104-113 | the date of an instant is that of its cutover-shifted wall day exactly when it is not both before the cutover hour and in a year from 0 to 99 |
| BusinessDay.CutoverHours | packages/domain/src/business-day.ts:80-113 | a date is answered exactly for the cutover hours 0 to 23 |
| BusinessDay.DaysTileIffClean | packages/domain/src/business-day.ts:104-135 | every instant lies inside the bounds computed for its own day exactly when no change straddles any day's cutover |
| BusinessDay.OneDayEach | packages/domain/src/business-day.ts:104-135 | a day whose own two cutovers no change straddles holds exactly the instants from its start to the start of the next day |
| BusinessDay.DayExactIff | packages/domain/src/business-day.ts:104-135 | and only such a day: the bounds of a day hold exactly its instants if and only if its own two cutovers are clean |
| Karachi.RepeatedCutoverMisfiles | packages/domain/src/business-day.ts:24-78 | in Asia/Karachi, the last millisecond before the clocks went back in November 2008 lies outside its own day at cutover hour 23 |
| Karachi.KarachiTiles | packages/domain/src/business-day.ts:24-135 | with every change of Karachi's offset since local mean time, every instant lies in its own day exactly when the cutover hour is neither 1 nor 23 |
| Karachi.KarachiDayExact | packages/domain/src/business-day.ts:24-135 | the bounds of a Karachi day are exact unless the clock skipped or repeated its own cutover or the next one: 1:00 of 1 January 1907, and 23:00 of the four nights the clocks went back an hour |
| BusinessDay.BoundsOfRealDate | packages/domain/src/business-day.ts:140-148 | the bounds of a real date are the starts of its day and the next, when neither day is in the years 0 to 99 |
| BusinessDay.BoundsOfRealDateIff | packages/domain/src/business-day.ts:140-148 | and only then: the bounds are the day's own exactly when neither the date nor the next is in the years 0 to 99 |
| BusinessDay.DaysMeet | packages/domain/src/business-day.ts:140-148 | for every real date outside the years 0 to 99, the day ends where the next begins |
| NamedDate.IsoExact | packages/domain/src/business-day.ts:88-89 | a date text prints back from the date it parses to and from no other |
| NamedDate.AcceptsRealDates | packages/domain/src/business-day.ts:137-179 | the bounds of a date text exist exactly when the text names a real date from the year 100 on |
| NamedDate.OtherCutoversRefused | packages/domain/src/business-day.ts:80-86 | no date is answered for a cutover that is no hour of the day |
| NamedDate.AnswersItsDate | packages/domain/src/business-day.ts:164-179 | what is answered are the bounds of the date the text spells |
| NamedDate.EarlyYearsRefused | packages/domain/src/business-day.ts:137-179 | of the days that exist, each written as YYYY-MM-DD, exactly those of the years 0 to 99 are refused |
| NamedDate.NamedDayHoldsItsInstants | packages/domain/src/business-day.ts:97-179 | when no change straddles the named day's own two cutovers, an instant whose date is not misread lies in its bounds exactly when its business date is that date |
| Alarms.AckKeyUnique | apps/manager/src/alarms.ts:217-225 | the key of any late order, and of a print pair without NUL, is that of no other alarm |
| Alarms.AckKeyUniqueIffPlain | apps/manager/src/alarms.ts:217-225 | an alarm shares its key with no other exactly when it is late or its print pair holds no NUL |
| Alarms.AcknowledgedKeys | apps/manager/src/alarms.ts:235-304 | the loop collects exactly the keys of well-formed acknowledgements |
| Alarms.AlarmsFrom | apps/manager/src/alarms.ts:335-422 | the list has no duplicates and holds exactly the alarms the rows and facts call for |
| Alarms.ListedIffDue | apps/manager/src/alarms.ts:335-422 | a late alarm, whatever its order's id, is listed exactly when its order is unfinished, old enough and unacknowledged; a print alarm of a pair without NUL exactly when its order is unfinished, some failure names the pair and no acknowledgement does |
| Alarms.LateExact | apps/manager/src/alarms.ts:335-422 | in terms of the rows alone: a late alarm is listed if and only if its order has an order row, the last queue row of it with fewer lines ready than in total is at least as old, in whole minutes and never below none, as the order type's red threshold, and no well-formed acknowledgement names the order; channel, tables and minutes are those rows' |
| Alarms.PrintExact | apps/manager/src/alarms.ts:335-422 | in the same terms, a print alarm of a pair without NUL: some failed print names the pair, and no well-formed acknowledgement does |
| Alarms.FactOrderIrrelevant | apps/manager/src/alarms.ts:335-422 | permuting or duplicating facts changes no late alarm and no print alarm of a pair without NUL |
| Alarms.AcksOnlyRemove | apps/manager/src/alarms.ts:272-304 | more acknowledgements only remove alarms, among late alarms and print alarms of pairs without NUL |
| Alarms.AckTakesItsAlarm | apps/manager/src/alarms.ts:272-422 | of the late alarms, and of the print alarms of pairs with NUL at most at their outer ends, one acknowledgement removes exactly the alarm it names |
| Alarms.AckTakesItsKey | apps/manager/src/alarms.ts:272-422 | whatever the names hold, one acknowledgement removes exactly the alarms that share its key |
| Alarms.ExactIffAlone | apps/manager/src/alarms.ts:272-422 | an acknowledgement removes exactly the alarm it names, in every input, if and only if the alarm is late or its pair holds NUL at most at its outer ends |
| Alarms.TrustedIffPlain | apps/manager/src/alarms.ts:335-422 | an alarm is listed exactly when due in every input if and only if it is late or its print pair holds no NUL |
| Alarms.OrderFreeIffPlain | apps/manager/src/alarms.ts:335-422 | the order and repetition of facts never reach an alarm, and further acknowledgements never list it, if and only if it is late or its print pair holds no NUL |
| Alarms.NulPairLost | apps/manager/src/alarms.ts:217-225 | for every print pair that holds a NUL, facts that make its alarm due and leave it off the list |
| Alarms.SameIdIff | apps/manager/src/alarms.ts:406-414 | two alarms share an id exactly when they are one alarm, or failed prints whose order and printer read the same around a colon |
| Alarms.IdUniqueIffRendered | apps/manager/src/alarms.ts:406-414 | an alarm's id is that of no other exactly when it is late or its print pair holds no colon |
| Alarms.ListedIdsDistinct | apps/manager/src/alarms.ts:335-422 | in one list such an id names one alarm |
| Alarms.ColonPairShared | apps/manager/src/alarms.ts:335-422 | for every print pair that holds a colon, facts that list its alarm beside another under the same id |
| Alarms.NulNamesCollide | apps/manager/src/alarms.ts:217-225 | a concrete input: two failures whose pairs share one key, the second due and never listed |
| Permissions.OnlyHeldRolesMatter | packages/domain/src/permissions.ts:770-1074 | every decision depends on a subject's assignments only through the set of roles held actively at the location |
| Permissions.ListShapeIrrelevant | packages/domain/src/permissions.ts:770-876 | permuting, duplicating or adding inactive assignments changes no decision of `can` |
| Permissions.UnionDecidesAsWider | packages/domain/src/permissions.ts:818-876 | the outcome for two lists of assignments together is the greater of the two outcomes |
| Permissions.UnionPaysOutAsWider | packages/domain/src/permissions.ts:899-945 | the same of paid-outs, for every amount and threshold |
| Permissions.CanExact | packages/domain/src/permissions.ts:305-876 | what `can` answers, for every action: allowed if and only if some active role at the location may do it outright; escalated, to branch manager and owner, if and only if a cashier may ask and no held role may do it; reports by reach; refused otherwise, and always in another organisation |
| Permissions.PaidOutExact | packages/domain/src/permissions.ts:899-945 | a paid-out is allowed if and only if some role is held in the organisation and the amount is at most the threshold, escalated to branch manager and owner above it, denied if and only if none is held |
| Permissions.ReachExact | packages/domain/src/permissions.ts:686-815 | each reach of the two reports holds exactly for the roles named |
| Permissions.MatrixByRole | packages/domain/src/permissions.ts:305-685 | every cell of the matrix: which role may do which action outright, and that only a cashier ever asks |
| Permissions.EscalationResolves | packages/domain/src/permissions.ts:818-876 | every escalation names a role, and an active assignment of any role it names turns it into allow |
| Permissions.DiscountUpToFloor | packages/domain/src/permissions.ts:1046-1074 | without an in-bounds campaign, the within row is used exactly up to the floor of the percentage of the total |
| Permissions.DiscountRows | packages/domain/src/permissions.ts:1046-1074 | who may discount how much outright, and who is refused outright |
| WaiterPad.Pad.constructor | apps/waiter/src/Pad.tsx:318-324 | a newly opened table starts with nothing on the glass |
| WaiterPad.Pad.Tap | apps/waiter/src/Pad.tsx:415-421 | a tap adds one to its row or a new row, and does nothing on a row unavailable for a reason other than being sold out |
| WaiterPad.Pad.Send | apps/waiter/src/Pad.tsx:459-508 | one press of SEND, call by call, is the state machine's press |
| PadMachine.EveryRunSound | apps/waiter/src/Pad.tsx:416-508 | over any run of taps, presses, losses and polls: for each item, till plus unsent equals tapped plus landed-but-unheard, items on the glass are distinct and positive, and each press confirmed only after every row of it was acknowledged |
| PadMachine.SurplusIsWhatWasLost | apps/waiter/src/Pad.tsx:463-508 | with an empty glass, the till holds exactly what was tapped plus what landed although the reply was lost |
| PadMachine.ResentBalancesIff | apps/waiter/src/Pad.tsx:463-508 | over any run, till plus glass is taps plus resends exactly for the items whose last landing was heard, and for every item no longer on the glass |
| PadMachine.LandedAndNotResent | apps/waiter/src/Pad.tsx:463-508 | one tap and one press whose reply is lost leave one on the till, one on the glass, one tapped and none sent again |
| PadMachine.ConfirmedPressEmptiesGlass | apps/waiter/src/Pad.tsx:480-502 | a press sends its confirm exactly when every row's reply was an acknowledgement, and then nothing is left unsent |
| PadMachine.PressExact | apps/waiter/src/Pad.tsx:459-508 | all a press leaves, by the first row not acknowledged: the rows before it on the till and off the glass, that row on the till too if only its reply was lost, the refusal shown exactly when the last call was refused, and reachable as the closing refresh found |
| PadMachine.PressIgnored | apps/waiter/src/Pad.tsx:459-463 | a press that cannot start changes nothing |
| LanMesh.SplitExact | packages/device-config/src/lan-mesh.ts:110-113 | splitting cuts at every comma and loses nothing |
| LanMesh.PeerShaped | packages/device-config/src/lan-mesh.ts:78-127 | an entry that names a peer is exactly its id, at-sign, host, colon and a run of digits whose value is the port in range |
| LanMesh.PeerShape | packages/device-config/src/lan-mesh.ts:78-127 | and every text of that shape names that peer |
| LanMesh.AllOrNothing | packages/device-config/src/lan-mesh.ts:109-128 | an accepted directory has one peer for every non-blank piece, in order; a refused one has a piece that names no peer |
| LanMesh.DirectoryReadBack | packages/device-config/src/lan-mesh.ts:109-185 | the printed directory of any non-empty list of legal peers parses back to the list |
| LanMesh.ReadablePeers | packages/device-config/src/lan-mesh.ts:78-128 | a list of peers is some directory's reading exactly when every peer in it is legal |
| LanMesh.MeshResolved | packages/device-config/src/lan-mesh.ts:145-185 | no mesh comes only from blank port and peers; a mesh has a port in range, a host and legal peers; and printing its peers back into the setting resolves to the same mesh |
| LanMesh.MeshExact | packages/device-config/src/lan-mesh.ts:145-162 | none exactly when port and peers are blank; a mesh exactly when the port is digits worth 1 to 65535 and the directory reads, on that port, those peers and the host given, or all hosts when it is blank |
| LanMesh.AnyHost | packages/device-config/src/lan-mesh.ts:60 | every host is the text 0.0.0.0 |
| LanMesh.SpaceUnits | packages/device-config/src/lan-mesh.ts:78-148 | the units trimming and the peer pattern take for white space |
| LanMesh.TrimExact | packages/device-config/src/lan-mesh.ts:109-150 | trimming takes white space off both ends and nothing else |
| Config.Repeats | packages/domain/src/config.ts:182-195 | the seen-set loop flags exactly the rows whose key an earlier row carries |
| Config.ParseConfigArtifact | packages/domain/src/config.ts:562-594 | the loop computes the fold ParseExact and ParseConcat describe |
| Config.ParseExact | packages/domain/src/config.ts:543-594 | refused exactly when a known, non-deleted entry is invalid, naming the first such key; otherwise each key holds what its last entry says, nothing when that is a reset, and the unknown keys are listed in order |
| Config.ParseConcat | packages/domain/src/config.ts:562-594 | parsing one run of entries after another lays the second over the first, its values winning and its resets taking values away |
| Config.OverrideExactlyWithoutResets | packages/domain/src/config.ts:574-593 | overriding one parsed map by the other is what the concatenation parses to exactly when the second run ends by resetting no key the first set |
| Config.ResetIsNotAnOverride | packages/domain/src/config.ts:574-579 | a step set by one run and reset by the next, where overriding the maps would keep it |
| Config.SnapshotOrderFree | packages/domain/src/config.ts:562-594 | with one row per known key, the order of the rows changes neither acceptance nor any value |
| Config.WriterGuardsTheArtifact | packages/domain/src/config.ts:596-648 | an artifact parses exactly when the writer admits each of its live known entries, and a refused key has an entry the writer refuses |
| Config.OnDefaultExact | packages/domain/src/config.ts:463-481 | the health list names each key once and exactly the keys that resolve to a default |
| Config.DefaultsExact | packages/domain/src/config.ts:277-410 | what each key resolves to when nothing is configured: no tax on any tender, charges to the rupee, thresholds of nothing, no commission |
| Config.DeliveredExact | packages/domain/src/config.ts:463-470 | a key resolves to a configured value exactly when one was delivered, and to that one |
| Config.NumbersExact | packages/domain/src/config.ts:277-410 | the three numbers accepted: a positive whole number of rupees, a sum that is not negative, a share of at most the whole |
| Config.CellExact | packages/domain/src/config.ts:136-157 | a cell has a rate that is not negative, and none under posture none |
| Config.WriterExact | packages/domain/src/config.ts:620-648 | the writer refuses an unknown key, and exactly the values the key's own schema refuses |
| Config.ProvidersExact | packages/domain/src/config.ts:206-238 | a commission registry is accepted, its names trimmed, exactly when every rate is a share and no trimmed name is blank or repeated in any case |
| Config.MatrixExact | packages/domain/src/config.ts:175-195 | a tax matrix is accepted unchanged exactly when each cell is valid and no tender has two |
| Config.ResolvedAlwaysValid | packages/domain/src/config.ts:463-470 | after any accepted artifact, every key resolves to a value its own schema accepts unchanged |
| Config.ResolvedStepCharges | packages/domain/src/config.ts:278-310 | the resolved rounding step is a positive whole number of rupees, and never the reason a bill is refused |
| Config.OrderFreeIffAgreeing | packages/domain/src/config.ts:181-195 | reordering the overrides changes no tender's cell exactly when no two overrides of one tender disagree |
| Config.AcceptedMatrixOrderFree | packages/domain/src/config.ts:175-195 | an accepted matrix is order-free, gives every override's tender that override, and never a cell of posture none with a rate |
| Config.CellForFound | packages/domain/src/config.ts:503-506 | the cell for a tender is an override's when there is one, else the default |
| Campaign.BenefitWithinBounds | packages/domain/src/campaign.ts:245-260 | an accepted benefit on any bill is never refused, never above bill, gross or cap, and equal to one of them |
| Campaign.BenefitExact | packages/domain/src/campaign.ts:245-260 | for any row and bill: when a percentage or a sum is answered at all, and that the answer is the least of share or sum, bill and cap |
| Campaign.BenefitMonotone | packages/domain/src/campaign.ts:245-260 | a bigger bill is never worth a smaller benefit |
| Campaign.BaseOutOfRange | packages/domain/src/campaign.ts:245-260 | a base that is no amount is refused by a percentage, while a fixed amount answers, negatively exactly for a negative base |
| Campaign.FreeItemHasNoWorth | packages/domain/src/campaign.ts:245-260 | a free item answers no sum for any base, bad ones included |
| Campaign.TextOrderIsDateOrder | packages/domain/src/campaign.ts:303-312 | comparing YYYY-MM-DD texts as strings is the order of year, month and day |
| Campaign.WindowIsChronological | packages/domain/src/campaign.ts:309-324 | a campaign reaches exactly the orders it matches on the business days from its first to its last, both included |
| Campaign.AvailableIsEarnedLessRedeemed | packages/domain/src/campaign.ts:348-359 | after any orders and redemptions, on any tills, what is available is rewards earned less rewards redeemed, never below none |
| Campaign.ZeroIffAvailable | packages/domain/src/campaign.ts:387-399 | the distance is zero exactly when a reward is available, and both refuse exactly a non-positive every_n |
| Campaign.DistanceExact | packages/domain/src/campaign.ts:361-399 | fewer orders than the distance make no reward; the distance makes exactly one, overdrawn or not, exactly when it was not cut off at the safe range |
| Campaign.RedemptionTakesOne | packages/domain/src/campaign.ts:348-359 | redeeming while one is available leaves exactly one fewer |
| MergeEngine.Engine.constructor | packages/sync-client/src/folds/merge.ts:867-884 | an engine starts empty |
| MergeEngine.Engine.Apply | packages/sync-client/src/folds/merge.ts:1233-1281 | one delivery takes the state to the fold's next state; whatever is not reported dirty is unchanged; an event is reported parked exactly when it is; a creation drains exactly the events waiting on it |
| MergeEngine.Engine.DrainParkedFor | packages/sync-client/src/folds/merge.ts:1266-1295 | taking the waiting events one at a time, in any order, folds each and empties the order's waiting list |
| MergeEngine.Engine.Rebuild | packages/sync-client/src/folds/merge.ts:1607-1619 | replaying a stored log gives the state of delivering it |
| MergeReads.ValuesAfter | packages/sync-client/src/folds/merge.ts:1103-1125 | one event adds to a line's values the one it says, and nothing else |
| MergeReads.ValuesDelivered | packages/sync-client/src/folds/merge.ts:1103-1125 | on any log, the values of a line are exactly those the delivered additions say |
| MergeReads.TogglesDelivered | packages/sync-client/src/folds/merge.ts:884-903 | the toggles of an item are exactly those delivered, under their ids |
| MergeReads.EdgesDelivered | packages/sync-client/src/folds/merge.ts:1172-1185 | a line has an edge under an id exactly when a delivered change names the line under it, and it is the one some such change states |
| MergeReads.NodesDelivered | packages/sync-client/src/folds/merge.ts:957-1101 | an order has a table node under an id exactly when a creation or an assignment came under it, with the table one of them states |
| MergeReads.TombstonesDelivered | packages/sync-client/src/folds/merge.ts:1091-1101 | the superseded assignments are exactly those a delivered assignment other than themselves names |
| MergeReads.ClosesDelivered | packages/sync-client/src/folds/merge.ts:1214-1219 | an order has a close under an id exactly when one was delivered under it, with what one of those states |
| MergeReads.ConfirmsDelivered | packages/sync-client/src/folds/merge.ts:967-981 | an order has a confirm under an id only once created, with what one delivered confirm states; and then it has it unless a printed ticket came under that id |
| MergeReads.CreatesDelivered | packages/sync-client/src/folds/merge.ts:957-966 | an order's creations are exactly those delivered |
| MergeReads.RemovalsDelivered | packages/sync-client/src/folds/merge.ts:1149-1155 | the removed lines are exactly those a delivered removal names, whether or not the line came |
| MergeReads.NotesDelivered | packages/sync-client/src/folds/merge.ts:1165-1171 | the notes of a line are exactly those delivered |
| MergeReads.PaymentsDelivered | packages/sync-client/src/folds/merge.ts:1186-1212 | the payments of an attempt are exactly those delivered |
| MergeReads.RefundsDelivered | packages/sync-client/src/folds/merge.ts:1186-1212 | the refunds of an attempt are exactly those delivered |
| MergeReads.ParkedDelivered | packages/sync-client/src/folds/merge.ts:1241-1255 | an event the log agrees with is in the parked table exactly when it was delivered, is a confirm or a printed ticket, and no delivered event created its order |
| MergeReads.TogglesAfter | packages/sync-client/src/folds/merge.ts:884-903 | one event adds to an item's toggles exactly the one it is |
| MergeReads.EdgesAfter | packages/sync-client/src/folds/merge.ts:1172-1185 | one event sets an edge of a line exactly when it names the line, under its own id, and leaves every other edge |
| MergeReads.NodesAfter | packages/sync-client/src/folds/merge.ts:957-1101 | one event sets a table node exactly when it creates the order or assigns it, and leaves every other node |
| MergeReads.TombstonesAfter | packages/sync-client/src/folds/merge.ts:1091-1101 | one event supersedes exactly the assignments it names, never itself |
| MergeReads.ClosesAfter | packages/sync-client/src/folds/merge.ts:1214-1219 | one event sets a close exactly when it is one, and leaves every other close |
| MergeReads.ConfirmsAfter | packages/sync-client/src/folds/merge.ts:967-981 | one folded event sets a confirm exactly when it is one, with its own stamp and basis |
| MergeReads.CreatesAfter | packages/sync-client/src/folds/merge.ts:957-966 | one event adds exactly the creation it is |
| MergeReads.RemovalsAfter | packages/sync-client/src/folds/merge.ts:1149-1155 | one event removes exactly the line it names |
| MergeReads.NotesAfter | packages/sync-client/src/folds/merge.ts:1165-1171 | one event adds exactly the note it is, to its own line |
| MergeReads.PaymentsAfter | packages/sync-client/src/folds/merge.ts:1186-1212 | one event adds exactly the payment it is, to its own attempt |
| MergeReads.RefundsAfter | packages/sync-client/src/folds/merge.ts:1186-1212 | one event adds exactly the refund it is, to its own attempt |
| MergeReads.OrderReadsItsPart | packages/sync-client/src/folds/merge.ts:1299-1520 | what the engine reports unchanged is all an order is projected from: lattices alike on an order's part give the same creations, tables, confirms, closes, money, removals and every line's values, notes and edges |
| MergeReads.ItemReadsItsPart | packages/sync-client/src/folds/merge.ts:884-903 | likewise of an item's part and its toggles |
| MergeConvergence.DeliverSettles | packages/sync-client/src/folds/merge.ts:1-24 | on a log that agrees with itself, the state after any delivery is the one its event set determines: the places its folded events set, and the bare facts whose order nobody created |
| MergeConvergence.ConvergesIffAgree | packages/sync-client/src/folds/merge.ts:947-1281 | all devices that hold the same events, drawn from a log, in any order and multiplicity, hold the same state if and only if the log has one event per parked id and one content per place |
| MergeConvergence.OneEventPerIdAgrees | packages/sync-client/src/folds/merge.ts:889-903 | one event per id is enough for that |
| MergeConvergence.PlaceConvergesIff | packages/sync-client/src/folds/merge.ts:947-1281 | on any log, devices that hold the same events agree about one place if and only if the events that touch it do: one content, or, for a confirm, no creation, no confirm, or one bare fact under its order and id |
| MergeConvergence.ValuePlacesConverge | packages/sync-client/src/folds/merge.ts:889-903 | places keyed by value converge on any log |
| MergeConvergence.PlaceExact | packages/sync-client/src/folds/merge.ts:947-1281 | on any log, a place other than a confirm is held exactly when some delivered event sets it, with what one of them set |
| MergeConvergence.OneIdTwoClosesDiverge | packages/sync-client/src/folds/merge.ts:1214-1219 | two closes under one id leave two devices different |
| MergeConvergence.RedeliveryIsNothing | packages/sync-client/src/folds/merge.ts:945-947 | delivering an event again changes nothing, when every other delivered event agrees with it |
| MergeConvergence.RedeliveryIsNothingIff | packages/sync-client/src/folds/merge.ts:945-947 | drawing from any log, redelivering an event is nothing to every device if and only if every event of the log agrees with it |
| MergeConvergence.PlacesNeverLeave | packages/sync-client/src/folds/merge.ts:191-193 | on any log, more events never take a place other than a confirm out of the lattice |
| MergeConvergence.ParkedExactly | packages/sync-client/src/folds/merge.ts:19-24 | an event the rest of the log agrees with is in the parked table exactly when it is a bare fact whose order no delivered event created |
| MergeMoney.Totals | packages/sync-client/src/folds/merge.ts:1375-1385 | the payment totals over the attempts, visited in any order, count agreed attempts once and disputed ones not at all, and flag divergence exactly |
| MergeMoney.Refunds | packages/sync-client/src/folds/merge.ts:1386-1414 | the refund total counts agreed attempts once and disputed ones not at all, divergence is flagged exactly, and the claims on each payment are summed over the attempts, in any order |
| MergeMoney.MemberCountsOnce | packages/sync-client/src/folds/merge.ts:1186-1212 | for payments and refunds alike: a first member adds its amount, the same member again adds nothing, a different one takes the attempt out of every total, and a disputed attempt stays out |
| MergeMoney.OnePaymentTotals | packages/sync-client/src/folds/merge.ts:1375-1385 | one payment counts its amount in the total of its own kind, settling or repaying, and nothing in the other |
| MergeMoney.OneRefundTotal | packages/sync-client/src/folds/merge.ts:1386-1414 | one refund counts its amount |
| MergeMoney.PaymentFolds | packages/sync-client/src/folds/merge.ts:1186-1212 | folding a payment adds its member to its own attempt's cell and to no other |
| MergeMoney.RefundFolds | packages/sync-client/src/folds/merge.ts:1186-1212 | folding a refund adds its member to its own attempt's cell and to no other |
| MergeMoney.LargestByParent | packages/sync-client/src/folds/merge.ts:1404-1412 | the grouping keeps, for each payment named, the largest claim of one attempt |
| MergeMoney.CapViolated | packages/sync-client/src/folds/merge.ts:1394-1446 | the loops raise the flag exactly when the largest claims on some payment exceed its smallest member |
| MergeMoney.CapIffOverRefunded | packages/sync-client/src/folds/merge.ts:1423-1446 | that is exactly when some reading, keeping at most one member of each attempt, refunds more of a payment than some reading says was paid |
| MergeMoney.CapNeverRegresses | packages/sync-client/src/folds/merge.ts:1423-1446 | no further payment or refund, disputing or not, clears the flag |
| MergeMoney.DeliveredViolationStays | packages/sync-client/src/folds/merge.ts:1423-1446 | on any log, a device that was delivered more shows every violation another shows |
| MergeMoney.MoneyConverges | packages/sync-client/src/folds/merge.ts:1186-1212 | on any log, devices that hold the same events hold the same payments and refunds |
| MergeMoney.ProjectMoney | packages/sync-client/src/folds/merge.ts:1363-1434 | the money columns of an order at any lattice: the three totals, divergence, and the cap flag, raised exactly when some reading over-refunds |
| MergeLines.ProjectLine | packages/sync-client/src/folds/merge.ts:430-491 | the retirement, watermark and badge loops, whatever order they visit the edges in, give the states, anomalies and cooking flag the edge set determines, and show a decided exit exactly when the one terminal is an exit |
| MergeLines.LegalMoves | packages/domain/src/states.ts:28-66 | the legal moves written out: one step along the chain, served from preparation or ready, delivered once picked up, voided or cancelled before any terminal, and none after |
| MergeLines.OneEdge | packages/sync-client/src/folds/merge.ts:430-491 | one edge alone: badged when illegal and nothing more, else its state is shown and counts as cooked from ready on |
| MergeLines.ChainSteps | packages/domain/src/states.ts:3-17 | the five states before a terminal, each at its own step of the chain, and the four terminals |
| MergeLines.AdoptionExact | packages/sync-client/src/folds/merge.ts:263-278 | choosing among two states or more is an adoption, coming from one alone never is |
| MergeLines.TerminalsInOrder | packages/sync-client/src/folds/merge.ts:467-491 | contested terminals show in the order of the vocabulary |
| MergeLines.StrangerBadged | packages/sync-client/src/folds/merge.ts:459-491 | a legal edge that names one here in a state it does not come from is badged for it |
| MergeLines.RegressionBadged | packages/sync-client/src/folds/merge.ts:459-491 | beside a served head, a head still cooking is kept and badged |
| MergeLines.WatermarkNeverFalls | packages/sync-client/src/folds/merge.ts:449-466 | more edges never lower progress nor erase an illegal-transition badge |
| MergeLines.OnlyAdoptionsTakeTerminals | packages/sync-client/src/folds/merge.ts:434-448 | edges that are not adoptions never remove a terminal value that shows |
| MergeLines.TerminalShowsIff | packages/sync-client/src/folds/merge.ts:430-491 | a line shows a terminal exactly when some legal edge took it to one and no adoption names that edge |
| MergeLines.TerminalForGood | packages/sync-client/src/folds/merge.ts:430-491 | so where edges name only earlier edges and adoptions choose terminals, a line shows a terminal exactly when some legal edge ever took it to one |
| MergeLines.AdoptionBackToReady | packages/sync-client/src/folds/merge.ts:263-278 | an adoption of a non-terminal state takes a served line back to ready |
| MergeLines.AdoptionsCancel | packages/sync-client/src/folds/merge.ts:434-448 | two adoptions naming each other leave a served line with no terminal |
| MergeLines.ProjectItem | packages/sync-client/src/folds/merge.ts:765-814 | an item is available exactly when untoggled or every head says so, and contested exactly when the heads disagree or none is left |
| MergeLines.OneActSettles | packages/sync-client/src/folds/merge.ts:805-813 | one more toggle makes an item sellable exactly when it says so and every head it does not name said so; naming all heads leaves it the only one |
| MergeLines.FewToggles | packages/sync-client/src/folds/merge.ts:765-814 | no toggle, one, two that disagree, and two that replace each other: sellable and contested as stated for each |
| MergeOrder.LeastByHash | packages/sync-client/src/folds/merge.ts:1299-1312 | the register's default is the member with the smallest hash, whatever order the members are visited in |
| MergeOrder.ConfirmAnchor | packages/sync-client/src/folds/merge.ts:1338-1353 | the anchor is the one value that is the earliest verified stamp, else the earliest, and the id comparison, which may be any relation, never reaches it |
| MergeOrder.AnchorOfTwo | packages/sync-client/src/folds/merge.ts:1338-1353 | of two confirms the verified one is the anchor, and of two alike the earlier |
| MergeOrder.LeastOfTwo | packages/sync-client/src/folds/merge.ts:1299-1312 | of two values the one with the smaller hash is the default |
| MergeOrder.AnchorRelabelled | packages/sync-client/src/folds/merge.ts:1338-1353 | renaming the confirms moves no anchor |
| MergeOrder.AssignmentSettles | packages/sync-client/src/folds/merge.ts:1091-1101 | an assignment naming every head leaves exactly its own table |
| MergeOrder.BillLines | packages/sync-client/src/folds/merge.ts:1441-1502 | the line loop, in any order, skips removed lines, bills each other line at its least-hash value or at nothing when it has exited, counts the lines standing and those with nothing left to cook, and flags a disputed value exactly |
| MergeOrder.AgreedLineWorth | packages/sync-client/src/folds/merge.ts:1456-1502 | an agreed line is worth quantity times price, nothing once voided or cancelled alone |
| MergeOrder.RemovalTakesItsLine | packages/sync-client/src/folds/merge.ts:1456-1520 | a removal takes exactly its own line's worth off the bill |
| MergeOrder.RemovalIsForGood | packages/sync-client/src/folds/merge.ts:202-222 | on any log, once a removal is delivered, no later delivery, the addition included, bills its line |
| MergeOrder.ValuesConverge | packages/sync-client/src/folds/merge.ts:202-222 | on any log, devices that hold the same events agree on the lines, their values, the superseded assignments and every item's toggles |
| MergeOrder.Settlement | packages/sync-client/src/folds/merge.ts:1522-1573 | settled exactly when some close came; an addition is uncovered exactly when some close attests a sum and the bill is above all of them; a bad snapshot is flagged exactly |
| MergeOrder.OneCloseCovers | packages/sync-client/src/folds/merge.ts:1522-1573 | against one close, the bill is uncovered exactly when the close attests a sum and the bill is above it |
| MergeOrder.GoodSnapshot | packages/sync-client/src/folds/merge.ts:1522-1573 | a snapshot is good exactly when each of its two sums is left out or is an amount |
| MergeRelabel.DeliverRenamed | packages/sync-client/src/folds/merge.ts:1-18 | delivering renamed events leaves the renamed state |
| MergeRelabel.NoIdReachesAValue | packages/sync-client/src/folds/merge.ts:1-18 | under any one-to-one renaming of event ids, payments, refunds, lines, values, the bill, the counts of lines, line states, tables, the anchor and availability are unchanged |

## Left out

- Floating-point printing, `BigInt` members and `toJSON` in `canonicalJson`: values are integers, texts, booleans, null, arrays, objects and omitted values; the loop inside `JSON.stringify` is the standard's.
- SHA-256, Argon2id and random salts: parameters. Injectivity of the hash is an assumption stated where used.
- Credential.ParseBack: the parser's `Number(...)` rounds runs of digits above 2^53; the model reads them exactly. A credential built by `hashPin` has none.
- LanMesh.PeerShaped: likewise for a port of more than fifteen digits, which both refuse.
- GapLeg.RunGapLeg: assumes merged lamport numbers are not negative, as the envelope schema requires (`packages/domain/src/envelope.ts`, line 39).
- BusinessDay.SolverExact: zones west of Greenwich, or with two changes within a day, are outside the model of a zone; the ICU data and the range limit of `Date` are not modelled.
- Tax.SnapshotCloses: the guard on a posture string outside the closed set is not modelled; postures are a closed type.
- Campaign.DistanceExact: a count of eligible orders above 2^53 would be rounded by `Number`; counts are unbounded here. The clamp of the distance itself is modelled.
- Config.ParseExact: a value whose shape no schema fits, a missing value included, is one constructor; the wording and path of a refusal are not modelled. Lower-casing of provider names is a parameter.
- PadMachine.EveryRunSound: one press at a time and no tap during a press; two overlapping presses of one asynchronous handler are not modelled.
- Alarms.AlarmsFrom: the aging thresholds are a function parameter, and the reference text shown for an order is not modelled.
- MergeEngine.Engine.Apply: work counters, and the memory of keys dropped by retention, are not part of the state; `planDrop` and `commitDrop` are left out.
- MergeConvergence.ConvergesIffAgree: an envelope is the fields the fold reads; a parked row's text carries the others too, so "one event per parked id" means equal in all of them.
- MergeOrder.Settlement: the rendering of a total above 2^53 as zero with an overflow exception, the notes of a line, and the assembly of all pieces into one row text are not modelled.
- RefundGate.CheckInvariants: the identity, registry, duplicate and contiguity checks that come before it are not modelled, nor the rounding of a sum of refunds above 2^53, which is refused either way.
- The auditor's second and third legs, except the residual arithmetic in `Money`: they walk the merge engine's rows.
- The other folds (`shift-cash.ts`, `customer-file.ts`, `customer-orders.ts`), sessions, stores, spooler, and the gateway beyond its refund cap: separate state that would need its own model.
- The wire schemas of the event registry, tenancy, the state-transition table beyond its legality, aging, quick tags and panel density: finite tables and single-branch resolvers that would add easy members.
- React rendering, device configuration files, boot-line prose, printing and network or database access.
