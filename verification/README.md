# The hash-chained audit trail, modelled and proved

An audit trail is an append-only file of decision records, one JSON object a line. A chained record carries the
trail's identity, its own line number and a digest that commits to what precedes it: to one line where that line is
chained itself, to every byte so far where it is not. A write that was cut off leaves a damaged end; a repair ends the
damaged line and appends a *discontinuity* that names it and links over it. Beside the trail stand a sidecar of
signatures and key rotations, a file of time stamps, and the statements of outside witnesses. This project models the
writer, the repair, the streaming verifier and the readers beside it, and proves what the package promises about them.

## How the model is built

The digest function is a parameter everywhere and nothing is assumed of it: what the trail's digests show is stated
as "these lines are the same, or here are two byte strings, both hashed by the readings, with one digest". A signature
scheme is a pair of a signing and a verifying function; only the theorems about runs suppose that what is signed
verifies. Bytes are characters below 256, so that literals stay readable. Lines are written and read with a small JSON
codec (`Json`), for which reading back, and the fate of every cut, are proved rather than supposed.

The layers, each resting on the ones before it:

1. **Bytes and lines** (`Octets`, `Decimal`, `Json`, `Torn`, `Reading`): splitting a file into lines is the only
   inverse of joining them; what the codec writes reads back; the beginning of a record, whatever record beginnings
   follow it on its line, is never read as a record.
2. **The chain** (`Chain`, `Forms`, `Evidence`, `Coverage`, `Soundness`): which findings each line of a list deserves,
   stated on the whole list; what a line must hold to be read as what it is; that a line without findings before it fixes
   every byte before it, and that all records of a sound trail are of one identity; how coverage and segments divide the
   lines.
3. **The verifier** (`Verifier`, `Checkpoints`, `Listings`, `Report`, `Sections`): a class with the streaming verifier's fields, a
   running hash and one line of look-ahead. Every method is proved against the declarative chain, up to the full report.
4. **The writer and its runs** (`Records`, `Writer`, `Repair`, `Runs`, `Bounds`, `Agreement`): batches, repairs and
   cuts, in any order, from any trail without findings, and exactly which writes keep it so.
5. **The sidecar** (`Sidecar`, `Messages`, `Signatures`, `SignatureReader`, `Attested`, `SidecarWriter`, `SidecarRuns`,
   `SidecarAgreement`, `Namesakes`): the checker that consumes the sidecar as trail lines settle, the writer's backward scan, and exactly
   which runs leave the two in agreement.
6. **Witnesses, stamps, history, export** (`Witness`, `WitnessReader`, `Legality`, `Stamps`, `StampFile`, `History`, `Export`):
   readings that must agree with something simple.
7. **All of it in one reading** (`OneList`, `Together`, `Verification`, `Accepted`): the trail, the sidecar and the stamps'
   intervals in one pass, with the one list of findings, and the coverages drawn from it, from the statements supplied
   and from the stamps that are trusted; and exactly what it takes for all of it to find nothing.
8. **Two side cores** (`Surrogates` with `Literals`, `Version`): the escaped-surrogate scanners and version arithmetic.

A method that the source writes as a loop over fields or buffers is a method here, and its `ensures` equates the
result or the whole new state with a function of the inputs; the lemmas then say what that function means. What each
finding is made for, and what each count counts, is said a second time without those functions: of the lines, items and
statements themselves (`Soundness`, `Forms`, `Sections`, `Attested`, `Legality`, `Literals`, `Accepted`).

## Where the code falls short of a plain reading of its promise

- A run can leave a line too long to read. Under the lock it cannot: each record chained there is measured, and so is a
  repair's. A batch written without the lock is measured record by record, but not with the torn bytes it may be
  written after, and a writer that does not chain measures nothing. `Agreement.PlainAppendTooLong` and
  `Agreement.UnlockedAppendTooLong` are two runs that end in the finding. `Agreement.RunsAreClean` gives the exact
  condition: nothing but an incomplete last line is found after a run if and only if every action, on the trail it is
  called on, keeps to the bound (`Bounds.KeepsToBound`, a sum of lengths known before the call).
- Recording a stamp again appends nothing if and only if the token kept the first time is a stamp over its checkpoint
  (`StampFile.RecordedOnce`): recording compares lengths alone. `StampFile.RecordedAgain` is a token kept twice. The
  command cannot meet this, because the only token it hands on is one that was answered for that very digest; a direct
  caller of the recording function can.
- Two keys with one short name, a digest cut in half, are one key to the writer after a signature, but not to the
  verifier. A use of a key *slips* (`Namesakes.Slips`) when another key of its name is in force, the sidecar's last
  readable line is a signature, and the write reaches the newline of its first line (of a rotation, one that names a
  place readers take): all known before the call. Where no other key verifies what a key signed, trail and sidecar
  agree after a run if and only if no use in it slips (`Namesakes.SidecarAgreesExactly`).
  `Namesakes.OneNameDisagrees` is a scheme with a run of two uses after which they do not.
- Following a trail's history page by page comes to the trail's start if and only if every line fits the window
  (`History.AllPages`): with its newline it is shorter than the window, or is the first line and fills it. A longer line
  is legal in a trail, and the page at its end is not refused: it is empty and answers the offset it was asked with
  (`History.PageRepeats`).
- A base version is refused, though valid, if and only if a carry would make a version of the greatest length longer
  (`Version.OverflowsIs`); `Version.GreatestOverflows` is such a base.

## Model

| member | source | states |
|---|---|---|
| Octets.SplitOfJoin | internal/audit/verify.go:395-461 | Lines and a rest that hold no newline are the only reading of their joined bytes |
| Octets.SplitAppend | internal/audit/audit.go:1012-1056 | Bytes appended to a file continue its last line and leave its complete lines as they were |
| Json.ValueReadsBack | internal/audit/audit.go:567-596 | Every value written reads back, whatever follows it |
| Torn.BeginningIsBroken | internal/audit/repair.go:294-302 | No strict beginning of a written record is read as a record |
| Torn.BrokenGoesOn | internal/audit/repair.go:220-290 | A torn record with the beginning of another after it on its line is still torn, and is no record |
| Records.RecordReads | internal/audit/audit.go:1082-1114 | A written record is one line and reads back with its members |
| Records.RecordCutIsBroken | internal/audit/audit.go:1012-1056 | A record's write cut off at any byte leaves what no reader takes for a record |
| Records.LinkReads | internal/audit/audit.go:1294-1313 | The link read from a record is the one it was written with, exactly while its sequence is one every reader holds |
| Records.RecordIsRead | internal/audit/audit.go:1278-1313 | A written record within the line bound is chained, of discontinuity kind or with named damage just as it was written |
| Records.DiscontinuityReads | internal/audit/verify.go:556-573 | A discontinuity names the damage it was written for |
| Chain.ReportedPrefix | internal/audit/verify.go:649-658 | What is reported of all but the last line read never depends on what follows: one line of look-ahead is enough |
| Forms.LinkIs | internal/audit/audit.go:1278-1313 | A line is a chained record exactly when it is within the bound and its object has an identity, a number every reader holds and a digest, each spelled out, under the three names of a link |
| Forms.KindIs | internal/audit/verify.go:480-536 | A line is of discontinuity kind exactly when it can be read and its object says so |
| Forms.DamageIs | internal/audit/verify.go:556-573 | A damage is named exactly by four members, none twice and none besides, each of its form and range |
| Forms.BindingIs | internal/audit/audit.go:748-773 | A binding is well formed exactly when there is none, or it is an object within its bound of just a kind and a digest of their forms |
| Evidence.ChainedLineBinds | internal/audit/verify.go:467-536 | Two trails with one undamaged chained line and no finding up to it: it has one number in both, and the lines up to it are equal or a collision is shown |
| Evidence.HeadBinds | internal/audit/verify.go:467-477 | What a record at a place would follow fixes every line before it, whether it is a line's digest or a whole prefix's, or shows a collision |
| Evidence.DiscontinuityBinds | internal/audit/verify.go:594-630 | A discontinuity fixes the damaged line it names and, through the link over it, everything before that, or shows a collision |
| Soundness.OneIdentity | internal/audit/verify.go:527-532 | All undamaged chained lines up to a line the trail is sound through carry one identity |
| Soundness.FindingsAre | internal/audit/verify.go:480-536 | An undamaged line has a finding exactly when it deserves one of that name, under its own number: said of its length, link and kind, of the digest of what precedes its place, and of the nearest chained line ahead of that place |
| Soundness.NothingFoundIs | internal/audit/verify.go:395-536 | Nothing is found of a trail exactly when it ends in a newline and no undamaged line of it deserves anything |
| Coverage.EachLineCountedOnce | internal/audit/verify.go:661-698 | Legacy prefix, chained, unchained, uncovered and damaged lines add up to all of them |
| Coverage.CountsSnoc | internal/audit/verify.go:661-698 | The counters moved line by line are the counts of the finished classification, where a chained line reaches back over the pending ones |
| Coverage.InChainCounted | internal/audit/verify.go:739-757 | The chained count is the number of chained lines |
| Coverage.SegmentsPartition | internal/audit/verify.go:594-642 | The segments and the damaged lines partition the lines |
| Coverage.DamagedAreExcused | internal/audit/verify.go:594-630 | As many lines count as damaged as discontinuities excuse one |
| Sections.CoverageIs | internal/audit/verify.go:661-698 | Each count of a report is the number of lines that stand so: records of the chain, lines named damaged, and others by whether records of the chain stand before and after them |
| Verifier.NamedAreDamaged | internal/audit/verify.go:594-630 | Every line that a listed discontinuity names is damaged and stands before it, and no line is named twice |
| Verifier.DamagedAreNamed | internal/audit/verify.go:594-630 | Every damaged line is named by a listed discontinuity |
| Verifier.TrailVerifier.ReadPieces | internal/audit/verify.go:395-424 | Reading by bounded pieces yields the next line or rest, its length and digest, and keeps no line past the bound |
| Verifier.TrailVerifier.HeadOfNext | internal/audit/verify.go:467-477 | The head taken from one kept line and the running hash is the head stated on the whole list |
| Verifier.TrailVerifier.Check | internal/audit/verify.go:480-536 | A line's findings, made as it is read, are the ones the list of lines gives it there; `Soundness.FindingsAre` says which those are |
| Verifier.TrailVerifier.CheckDiscontinuity | internal/audit/verify.go:594-630 | A discontinuity that names the line before it excuses that line, opens a segment and is listed; any other is malformed and excuses nothing |
| Verifier.TrailVerifier.CountLine | internal/audit/verify.go:661-698 | Counting a settled line moves the coverage as the classification of the list moves |
| Verifier.TrailVerifier.Settle | internal/audit/verify.go:661-698 | Settling a line reports, counts and lists exactly it, and keeps the checkpoint head and wanted counts |
| Verifier.TrailVerifier.ListLine | internal/audit/verify.go:691-697 | A settled record past the sequence asked for is listed while there is room, and otherwise known to follow |
| Verifier.TrailVerifier.Commit | internal/audit/verify.go:649-658 | Committing settles the one line looked ahead over, damaged or not |
| Verifier.TrailVerifier.EndSegment | internal/audit/verify.go:634-642 | Closing a segment lists it unless it is empty, and counts past the listing bound |
| Verifier.TrailVerifier.TakeLine | internal/audit/verify.go:441-461 | One line more keeps every field equal to its declarative account of the lines read |
| Verifier.TrailVerifier.NextLine | internal/audit/verify.go:395-424 | The head for the next line is taken before its bytes are, and then either the stream has come to one line more or all lines are read and what is left is the rest |
| Verifier.TrailVerifier.NoteTail | internal/audit/verify.go:425-440 | Bytes after the last newline are reported with their line, length and digest, and nothing else is |
| Verifier.TrailVerifier.ReadLine | internal/audit/verify.go:395-461 | One call reads one line, or settles the last one and ends |
| Sections.AllFindingsAre | internal/audit/verify.go:395-536 | The reading of a trail makes the findings its lines earn, one more for bytes without a newline, and no other |
| Sections.IncompleteIs | internal/audit/verify.go:425-440 | The incomplete last line reported is what follows the last newline, by the number it would have, its length and its digest |
| Sections.DiscontinuitiesAre | internal/audit/verify.go:594-630 | A discontinuity is listed exactly when a record names the line before it, with the length and digest the record gives |
| Checkpoints.MatchesOwnLine | internal/audit/verify.go:903-916 | A checkpoint matches exactly when it is the checkpoint of an undamaged chained line at its sequence |
| Soundness.HoldIs | internal/audit/verify.go:903-916 | A held checkpoint fails in one way: no such line, no record that stands there, another trail's, or another digest |
| Soundness.HeldFindingsAre | internal/audit/verify.go:830-898 | Holding a trail to checkpoints adds a finding for each that fails, in the way it fails and at its sequence, and no other; a stamp's has one name for all |
| Checkpoints.CheckpointBinds | internal/audit/verify.go:830-916 | Two trails that match one held checkpoint with no finding up to it are the same up to it, or a collision is shown |
| Checkpoints.SortedKeeps | internal/audit/verify.go:830-898 | The held checkpoints are taken in order of sequence, none lost or doubled |
| Checkpoints.ThroughIsHighest | internal/audit/verify.go:830-898 | Held coverage reaches the highest matching checkpoint that no failed check is at or before |
| Checkpoints.SoundIsReported | internal/audit/verify.go:710-715 | No finding is recorded at or before a line exactly when every line up to it is damaged or has none |
| Checkpoints.ClearIsSound | internal/audit/verify.go:710-715 | The one earliest finding kept decides that for every line |
| Checkpoints.ClearOfHeld | internal/audit/verify.go:830-898 | After the held checkpoints are checked it decides it for the chain and for them together |
| Listings.CheckpointsAre | internal/audit/verify.go:691-697 | The checkpoints listed are those the trail matches in the range, in order of sequence |
| Listings.AllListed | internal/audit/verify.go:246-250 | However many are listed at a time, listing again after the last one until no more follow gives each of them once, in order |
| Report.ReachIsHighest | internal/audit/verify.go:830-898 | The reach is the highest sequence of a held or credited checkpoint that attests: it matches, and up to it neither a line of the chain nor any checkpoint supplied, a trusted stamp's included, fails |
| Report.AllMatchedIsAllAttest | internal/audit/verify.go:830-898 | All held checkpoints count as matched exactly when each one attests |
| Sections.SummaryIs | internal/audit/verify.go:830-898 | The summary counts the checkpoints held and those that match, and its latest is the highest that attests |
| Soundness.RequirementIs | internal/audit/verify.go:979-991 | A required coverage is met exactly when a checkpoint held or credited attests at it or past it, and otherwise is the one finding more |
| Report.HoldAgainst | internal/audit/verify.go:903-916 | The check made from the kept lines is the one stated on all lines |
| Report.CheckHeld | internal/audit/verify.go:830-898 | Held and credited checkpoints are checked in order, and findings, summary, reach and countersigned coverage are those of the whole file |
| Report.CheckRequirement | internal/audit/verify.go:979-991 | A required coverage is met, or one finding more is recorded |
| Report.Compose | internal/audit/verify.go:729-817 | The report's counts, listings, segments and status are those of the lines |
| Report.Conserved | internal/audit/verify.go:729-817 | For every trail the coverage adds up to its complete lines, and damaged lines to discontinuities |
| Report.ReportRead | internal/audit/verify.go:729-817 | Of a trail read through, the report is that of its lines and of all checkpoints supplied, mismatched stamps included, and the limit for stamps is the earliest failed check before any requirement |
| Report.Verify | internal/audit/verify.go:194-231 | For every file and every supply of checkpoints the one-pass verification gives the declarative findings, coverage, segments, incomplete last line, list of checkpoints, reach and requirement, and what it counts adds up |
| Soundness.ReportedIdentity | internal/audit/verify.go:527-532 | In a report with no finding, every record that stands has the identity of the head reported |
| Accepted.ChainStatusIs | internal/audit/verify.go:799-806 | A report is invalid exactly when its lines, a checkpoint or the coverage required fall short, and valid rather than segmented when no line is named damaged |
| Reading.ReadSlice | internal/audit/verify.go:395-424 | One bounded read ends with the first newline, the chunk or the contents |
| Reading.AfterNewline | internal/audit/audit.go:1182-1215 | A chunk looked through backward answers where its last newline is followed |
| Writer.LastLine | internal/audit/audit.go:1182-1215 | Read backward by chunks of any size, the last line is the last of all complete lines, refused when incomplete or too long |
| Writer.ReadPrefix | internal/audit/audit.go:1235-1264 | One forward pass gives the digest of the whole file, its line count and its last identity, or refuses a line too long |
| Writer.ReadHead | internal/audit/audit.go:1158-1177 | The head from the last line alone, or from the whole file only when that line is unchained |
| Writer.ChainedLines | internal/audit/audit.go:1082-1114 | What an append writes: each record links to the one before it, and without a lock no record is chained |
| Writer.EncodeBatch | internal/audit/audit.go:1082-1114 | A batch is the records each linked to the one before, or refused whole when one is too long |
| Writer.EncodeLines | internal/audit/audit.go:1060-1074 | Records written without the chain are their lines, each ended |
| Repair.DamageStart | internal/audit/repair.go:307-332 | Scanned backward by chunks of any size, the damage starts after the last newline, refused past the bound |
| Repair.DiscontinuityAfter | internal/audit/repair.go:220-290 | What a repair appends over damage, and each case it refuses |
| Repair.RepairLines | internal/audit/repair.go:205-214 | A repair needs a chained trail and its lock |
| Repair.BoundRepair | internal/audit/repair.go:145-155 | A repair confirmed on some damaged bytes writes exactly when an unconfirmed one would and those are the bytes there, and writes the same |
| Runs.HeadAgrees | internal/audit/audit.go:1158-1177 | On every tidy trail the cheap head is the verifier's: its line count, its previous digest, its identity, minted only where there is none |
| Runs.FollowingIsTidy | internal/audit/verify.go:480-536 | A record written after its head has no finding, excuses nothing, and the next one follows it |
| Runs.ChainedWritten | internal/audit/audit.go:1082-1114 | A chained batch cut off at any byte keeps the trail good |
| Runs.UnchainedWritten | internal/audit/audit.go:1060-1074 | An unchained batch cut off at any byte, even after a torn line, keeps the trail good |
| Runs.DiscontinuityIsTidy | internal/audit/repair.go:220-290 | A repair's record has no finding and excuses the line it names |
| Runs.RepairWritten | internal/audit/repair.go:205-290 | A repair cut off at any byte keeps the trail good |
| Runs.ExecKeeps | internal/audit/audit.go:1012-1056 | Every write, whole or cut off, keeps the trail good |
| Runs.RunKeeps | internal/audit/audit.go:82-119 | Every run of writes keeps the trail good |
| Bounds.WriteKeepsToBound | internal/audit/audit.go:1012-1056 | A write of lines, cut off anywhere, leaves a line past the bound exactly when there was one or it completes one, the first counted with the torn bytes before it |
| Bounds.WholeFit | internal/audit/audit.go:1082-1090 | Written whole, a batch keeps to the bound exactly when its first line does together with those bytes and every other line by itself |
| Bounds.ExecKeepsToBound | internal/audit/audit.go:1082-1114 | Any action, cut off anywhere, leaves a line past the bound exactly when there was one or its condition before the call fails |
| Bounds.RunKeepsToBound | internal/audit/audit.go:1012-1056 | So does a run, exactly when some action's condition fails on the trail it is called on |
| Agreement.RunsAgree | internal/audit/verify.go:395-536 | After any run from a trail without findings the report is each line too long to read, once, and the incomplete last line, and nothing else |
| Agreement.CleanHasNoLongLine | internal/audit/verify.go:395-536 | After any run nothing but the incomplete last line is found exactly when no complete line is past the bound |
| Agreement.RunsAreClean | internal/audit/verify.go:395-536 | And exactly when every action of the run kept to the bound on the trail it was called on |
| Agreement.LockedRunsAreClean | internal/audit/audit.go:1082-1114 | A run of chained batches under the lock and repairs always does, so no bound is supposed |
| Agreement.PlainAppendTooLong | internal/audit/audit.go:1044-1046 | A writer that does not chain can leave a line too long: one record of the bound's length on an empty trail |
| Agreement.UnlockedAppendTooLong | internal/audit/audit.go:1082-1090 | So can a chaining writer without the lock: two records within the bound, the first torn at its newline |
| Agreement.HeadOfAccepted | internal/audit/audit.go:1158-1177 | On every trail without findings the cheap head equals the verifier's head |
| Agreement.NeverNamedLater | internal/audit/verify.go:700-708 | A complete line is never named damaged by a later write |
| Agreement.CheckpointStable | internal/audit/verify.go:700-708 | A checkpoint given for a trail without findings still matches after any run, with coverage through its sequence |
| Agreement.RepairEnds | internal/audit/repair.go:220-290 | A whole repair leaves no incomplete line, keeps the damaged bytes as a line, and has them counted as damaged |
| Sidecar.ItemReads | internal/audit/sign.go:476-512 | A written signature or rotation reads back |
| Sidecar.RotationReads | internal/audit/sign.go:436-447 | A rotation reads back exactly while its place is one every reader holds |
| Sidecar.ItemFits | internal/audit/sign.go:417-432 | Every written sidecar line is within the bound its readers hold it to |
| Sidecar.TornStaysUnreadable | internal/audit/sign.go:595-601 | A torn line ended by the writer is never a sidecar line, whatever it holds |
| Forms.ItemIs | internal/audit/sign.go:476-512 | A sidecar line is read as an item exactly when it is within the bound and its object has the seven members of that kind of item, each of its form, and no others |
| Messages.RecordMessageBinds | internal/audit/sign.go:380-382 | What is signed for a record fixes trail, sequence and digest |
| Messages.RotationMessageBinds | internal/audit/sign.go:386-388 | What is signed for a rotation fixes trail, line and next key |
| Messages.KindsApart | internal/audit/sign.go:380-388 | No message about a record is one about a rotation |
| Signatures.SignedIsCountedWell | internal/audit/verify_signatures.go:265-318 | In every reading the signed sequences increase, each an undamaged chained line's, and through is the greatest before the first chain finding |
| Signatures.SignedWithinChained | internal/audit/verify_signatures.go:368-395 | No more records count as signed than are chained |
| Attested.ItemMeans | internal/audit/verify_signatures.go:265-318 | One item more counts its record signed, hands the key on, or is found wrong in one way, as the item, the line at its number, the key in force and the revocations decide |
| Attested.CountedAre | internal/audit/verify_signatures.go:300-318 | A sequence is counted signed exactly when an item in order has it, the trail and digest of the record that stands there, a signature over them by the key in force, and that key is not revoked there |
| Attested.FoundAre | internal/audit/verify_signatures.go:265-357 | A sidecar finding is made exactly when an item is wrong in that way |
| Attested.KeyIsGiven | internal/audit/verify_signatures.go:336-356 | Where several keys are given, the key in force is always the one at the place of as many rotations as held |
| Attested.SidecarMeans | internal/audit/verify_signatures.go:229-357 | All three of a whole sidecar's reading |
| SignatureReader.SignatureChecker.Peek | internal/audit/verify_signatures.go:171-221 | The line looked at is the next item of the whole sidecar, whatever was taken |
| SignatureReader.SignatureChecker.CheckRecord | internal/audit/verify_signatures.go:300-318 | A signature is held to the settled line of its own sequence and counted or found as the list of lines says; `Attested.SignatureMeans` says what that is |
| Attested.SignatureMeans | internal/audit/verify_signatures.go:300-318 | A signature at a line signs its record, or is wrong in exactly the way found: no such record, another digest, another key or message, or a revoked key |
| SignatureReader.SignatureChecker.CheckRotation | internal/audit/verify_signatures.go:336-355 | A rotation that holds moves the key on; one that does not leaves it |
| Attested.RotationMeans | internal/audit/verify_signatures.go:336-366 | A rotation hands the trail over, or is wrong in exactly the way found |
| SignatureReader.SignatureChecker.Check | internal/audit/verify_signatures.go:265-296 | One item moves the checker as one step of the declarative reading |
| SignatureReader.InStep | internal/audit/verify_signatures.go:229-245 | An item in order that is taken while a line settles is about that very line, though the code never compares the two |
| SignatureReader.PastTheEnd | internal/audit/verify_signatures.go:249-261 | An item in order that is left after the trail names a line past its end |
| SignatureReader.SignatureChecker.Settle | internal/audit/verify_signatures.go:229-245 | Settling a line consumes just the items up to its place and keeps the merge in step |
| SignatureReader.SignatureChecker.Finish | internal/audit/verify_signatures.go:249-261 | Every item is consumed in the end |
| SignatureReader.ReportSigned | internal/audit/verify_signatures.go:368-395 | Signed and unsigned records add up to the chained ones; through, the signatures after it and the requirement are those of the reading |
| SignatureReader.AfterThrough | internal/audit/verify_signatures.go:322-330 | The signatures after the signed prefix are counted once each |
| Sections.SignedCoverageIs | internal/audit/verify_signatures.go:322-395 | The counts are of the records some item signs, of those past the greatest one the trail is sound through, and that is where the coverage ends |
| SidecarWriter.LastReadableLine | internal/audit/sign.go:665-702 | Scanned backward by chunks of any size, past torn and overlong lines, the answer is the last readable line of a forward reading |
| SidecarWriter.KeyInForce | internal/audit/sign.go:613-639 | Which key may write, and whether the last line is torn |
| SidecarWriter.AppendSidecar | internal/audit/sign.go:573-593 | What a key in force appends, a torn line ended first, and that any other key appends nothing |
| SidecarWriter.SignLines | internal/audit/sign.go:551-567 | One signature for each appended line that is chained, in order |
| SidecarWriter.ReadTrailHead | internal/audit/sign.go:765-784 | The head a rotation names, and its refusal where no record is chained |
| SidecarWriter.Rotate | internal/audit/sign.go:722-759 | What a rotation appends, and each case it refuses |
| SidecarRuns.HoldsSignature | internal/audit/sign.go:417-432 | A signature by the key in force for the line at its sequence is counted and leaves no finding |
| SidecarRuns.HoldsRotation | internal/audit/sign.go:436-447 | A rotation by the key in force is taken and hands the key on |
| SidecarRuns.SignaturesHold | internal/audit/sign.go:551-567 | So are the signatures of a batch, however many of them were written |
| SidecarRuns.SidecarWritten | internal/audit/sign.go:573-593 | A sidecar write cut off anywhere adds a torn line ended unreadable and as many items as were written whole |
| SidecarRuns.SignedLinesStand | internal/audit/sign.go:551-567 | The lines a writer signs stand in the trail at their own sequences |
| SidecarAgreement.InForceIs | internal/audit/sign.go:595-639 | The writer's reading of the sidecar's end lets a key write exactly when it is the one in force in fact, unless the two share a short name |
| SidecarAgreement.NamesakeMayWrite | internal/audit/sign.go:631-638 | A key that shares it may write exactly when the last readable line is a signature |
| SidecarAgreement.NamesakeIsFound | internal/audit/verify_signatures.go:300-318 | And what it signs is found invalid, where the key in force does not verify it |
| SidecarAgreement.SignedAdds | internal/audit/sign.go:551-593 | A signed append cut off in either file keeps the two files agreeing |
| SidecarAgreement.RotationAdds | internal/audit/sign.go:722-759 | A rotation cut off anywhere keeps them agreeing |
| Namesakes.UseKeeps | internal/audit/sign.go:551-784 | So does every use that does not slip, a namesake's among them when nothing of its write is whole |
| Namesakes.UsesKeep | internal/audit/sign.go:551-784 | And every run in which none slips |
| Namesakes.SlipSpoils | internal/audit/verify_signatures.go:300-357 | A use that slips leaves a sidecar that fails its reading, where no other key verifies what a key signed |
| Namesakes.SpoiltStays | internal/audit/sign.go:551-784 | No later use, of any key, mends it |
| Namesakes.SidecarAgrees | internal/audit/verify_signatures.go:171-355 | After any run of signed and unsigned appends, repairs, torn writes, keys not in force and rotations in which no use slips, reading under the first signing key gives no finding, the writer's key in force, and exactly the whole signatures counted |
| Namesakes.SidecarAgreesExactly | internal/audit/sign.go:595-639 | And after one in which some use slips it does not: the two agree exactly when none does |
| Namesakes.NamesakesDisagree | internal/audit/sign.go:631-638 | Two keys of one name that each sign one record on an empty trail: the second use slips, and the files disagree |
| Namesakes.OneNameDisagrees | internal/audit/sign.go:631-638 | A scheme that has such keys, with the run |
| Witness.ListedOnce | internal/audit/witness.go:586-595 | A set of statements at distinct indexes has one order |
| Witness.LegalSplits | internal/audit/witness.go:695-730 | A chain is legal exactly when its two parts are, the second from where the first ended, and only the whole ends in a retirement |
| Witness.CleanSaves | internal/audit/witness.go:743-749 | A clean reading saves a continuation that holds, its last and latest statements among those read |
| Witness.ReadingsCompose | internal/audit/witness.go:581-750 | Reading all is clean exactly when the first part is and the rest is from what it saved, with the same last, latest and retirement and the conflicts joined |
| Messages.SignedTextBinds | internal/audit/witness.go:172-189 | The text a witness signs fixes all of its statement but the signature |
| Legality.LegalIs | internal/audit/witness.go:659-733 | A chain is legal exactly when each statement in it names the signature of the one an index before and keeps the rule of its kind against the latest checkpoint statement before it |
| Legality.CleanIs | internal/audit/witness.go:628-750 | A reading is clean exactly when no statement is forged or of another trail, no two share an index, the continuation could have been saved, each statement follows and keeps its rule, and the head is neither older than it nor beyond the others |
| Legality.ChainFindingsAre | internal/audit/witness.go:659-741 | Which findings the chain and the head make, each exactly when |
| Legality.EndingIs | internal/audit/witness.go:742-750 | What a clean reading ends with: its last statement, its latest checkpoint statement, the conflicts, and whether it is retired |
| WitnessReader.Collect | internal/audit/witness.go:586-627 | The statements read are the set of those supplied, whatever their order, files and repeats, and each malformed line is counted once |
| WitnessReader.CheckEach | internal/audit/witness.go:630-643 | Each statement whose key is not supplied or does not verify its text is found invalid, each other one of another trail is found so, and the rest pass |
| WitnessReader.SortedIs | internal/audit/witness.go:644-649 | Sorting by index loses and doubles nothing |
| WitnessReader.Walk | internal/audit/witness.go:659-733 | The walk accepts exactly the legal chains and carries their latest checkpoint and conflicts |
| WitnessReader.Read | internal/audit/witness.go:581-750 | A reading is clean exactly when the set of distinct statements forms a legal chain that the head lies on; statements that all pass are found broken, unreached or behind as that set says, an unreached head left out of the chain; of others, as many findings of each name as lines are malformed, statements forged or of another trail, and indexes shared; no statement verified, and none of a clean reading, is forged or of another trail |
| Stamps.GatheredIs | internal/audit/stamp.go:538-555 | An interval's earliest and latest times are attained and bound all its records |
| Stamps.CoveredAlike | internal/audit/stamp.go:538-555 | All records of an interval are first covered by the same time |
| Stamps.CoverBack | internal/audit/stamp.go:594-646 | The backward pass gives each interval the earliest lending time at or after it |
| Stamps.LagNext | internal/audit/stamp.go:594-646 | One covered interval more gives the lags of one interval's records more |
| Stamps.LagWhole | internal/audit/stamp.go:594-646 | The intervals together are all covered records |
| Stamps.LagIs | internal/audit/stamp.go:588-646 | A record has a lag exactly when its time was read and a stamp lends to it, and it is the time to the earliest that does |
| Stamps.CountsAre | internal/audit/stamp.go:620-640 | Records with a lag, and those covered whose own time was not read, are each counted once |
| Stamps.StampChecker.Settle | internal/audit/stamp.go:538-555 | A settled record goes into its own interval and no other |
| Stamps.StampChecker.Covers | internal/audit/stamp.go:594-646 | The buffer filled backward holds when each interval was first covered |
| Stamps.StampChecker.Coverage | internal/audit/stamp.go:594-670 | Count, longest and shortest lag are those of each record taken by itself, and attained at the sequences reported |
| Stamps.StampedSequences | internal/audit/stamp.go:480-489 | The stamped sequences, sorted, each once |
| Stamps.LagsUpToHighest | internal/audit/stamp.go:584-590 | The records with a lag are exactly those with a time of their own up to the highest stamp that lends its time |
| OneList.Append | internal/audit/verify.go:721-726 | A finding more is kept while there is room, and counted always |
| OneList.ReadParts | internal/audit/verify.go:649-682 | What is recorded while trail and sidecar are read in step holds the findings of each, in its own order, and no other |
| Together.SettledLifts | internal/audit/verify.go:644-658 | What is reported of settled lines, and a settled line itself, is the same in the whole trail as in the part read |
| Together.Pass.SettleBeside | internal/audit/verify.go:661-698 | A settled line's findings are recorded, its record goes into the stamps' intervals with its own time, and the sidecar gives up the items of its line, whose findings come next |
| Together.Pass.Commit | internal/audit/verify.go:649-658 | Settling the kept line moves trail, sidecar and stamps one line on together |
| Together.Pass.ReadLine | internal/audit/verify.go:395-461 | One line more keeps the three in step, and the end leaves them all at the last line |
| Together.ReadTogether | internal/audit/verify.go:194-221 | One pass gives the trail's account, the lockstep reading of the whole sidecar beside the whole trail, the interval of each chained record, and the findings of both in the order they are made |
| Verification.MatchStamps | internal/audit/stamp.go:560-582 | A trusted stamp matches exactly when its checkpoint is one of the trail's; any other is a finding of the trail |
| Verification.LendsIsAttests | internal/audit/stamp.go:584-590 | A stamp lends its time exactly when its checkpoint attests, with the limit taken from the earliest failed check |
| Verification.CountersignedIs | internal/audit/verify.go:830-898 | Countersigned coverage is the highest checkpoint of a statement supplied that attests, and is there only when the set of statements reads clean |
| Verification.VerifyAll | internal/audit/verify.go:194-231 | One verification with sidecar, stamps, statements and held checkpoints: each part of the report is that of the whole list of lines, lags are those of the undamaged chained records under the trail's own limit, the stamped coverage is the highest stamp that attests and no record past it has a lag, and status and continuation are drawn from the one list of findings |
| Verification.Conclude | internal/audit/verify.go:729-817 | What is left to record goes on the one list in order: stamps that do not match, statements, held checkpoints and their requirement, and what is required of countersigning, signatures and stamps |
| Verification.ListHoldsEach | internal/audit/verify.go:729-817 | The one list holds what each reader found, in that reader's own order, and nothing else |
| Accepted.ListIs | internal/audit/verify.go:729-817 | A finding is in the one list exactly when it is the trail's, the sidecar's, the statements' or an untrusted stamp's, or a coverage required is out of reach |
| Accepted.AcceptedIs | internal/audit/verify.go:729-817 | A whole verification finds nothing exactly when no line, item, checkpoint, statement or stamp that it was given is wrong and what is required is reached: said of all of these, and of nothing the verifier keeps |
| Accepted.StatusIs | internal/audit/verify.go:799-806 | It is valid exactly when besides no line is named damaged, and segmented when one is |
| Accepted.LagMeans | internal/audit/stamp.go:588-646 | A record's lag is from its own time to that of the earliest trusted stamp that attests to it, under the trail's own failed checks |
| Accepted.RecordsAre | internal/audit/verify.go:691-697 | The records whose lags are taken are those that stand, each with the time of its own line |
| Accepted.ContinuationIs | internal/audit/verify.go:226-229 | There is a continuation to save exactly when statements were supplied and nothing at all was found, and it is the end of their chain |
| StampFile.StampReads | internal/audit/stamp.go:101-138 | A stamp that fits its line reads back |
| Forms.StampIs | internal/audit/stamp.go:117-138 | A line is a stamp exactly when it is within the bound and its object has a checkpoint of four members, the version and a token, and nothing else |
| StampFile.HoldsStamp | internal/audit/stamp.go:152-210 | A checkpoint counts as stamped exactly when some complete line holds a stamp over it |
| StampFile.RecordStamp | internal/audit/stamp.go:361-397 | What recording a stamp appends, and each case it refuses or finds held |
| StampFile.LinesWritten | internal/audit/stamp.go:361-397 | A write cut off anywhere adds a torn line ended unreadable and at most the new line |
| StampFile.RunsStampOnce | internal/audit/stamp.go:347-397 | Over every run of cut writes no checkpoint is stamped twice, the file stays within its bound, and kept stamps stay |
| StampFile.RecordedOnce | internal/audit/stamp.go:347-397 | A retry appends nothing exactly when the kept token is over its checkpoint |
| StampFile.RecordedAgain | internal/audit/stamp.go:361-397 | A token over nothing, with a checkpoint that is then kept twice |
| History.HistoryRange | internal/audit/wire_history.go:67-82 | The window's bounds, and the requests refused before anything is read |
| History.ReadLines | internal/audit/wire_history.go:84-134 | Read backward, a window's lines are listed newest first up to a page |
| History.ListedAre | internal/audit/wire_history.go:84-130 | Of the lines read, each that matches is listed behind just the later ones that do, no other is, and the unreadable are counted |
| History.DefinitionHistory | internal/audit/wire_history.go:49-134 | A page lists the newest matching records before its offset, counts what cannot be read, and answers where the next one starts |
| History.ReachesBack | internal/audit/wire_history.go:84-134 | A page's offset is lower than the one it was asked with exactly when the window reaches back to the first byte or past a newline before its last byte |
| History.ReachesIs | internal/audit/wire_history.go:84-93 | Where the bytes end in a newline, that is when the last line fits the window |
| History.NoNewlineIs | internal/audit/wire_history.go:86-90 | The page is refused exactly when what follows the last newline does not fit it |
| History.AllPages | internal/audit/wire_history.go:67-134 | Following the pages comes to the trail's start exactly when every line fits, and then lists every matching record once, newest first, and counts every unreadable line once; otherwise the lines after the last one that does not fit are listed so, and the page at its end answers its own offset |
| History.PageRepeats | internal/audit/wire_history.go:84-134 | A trail of two lines of which every page at the end answers the offset it was asked with |
| Export.EachLineListed | internal/audit/wire.go:411-430 | Each complete line has one record, at the offset where its bytes stand |
| Export.LineRead | internal/audit/wire.go:367-409 | A part that ends a line adds that line's record, one that does not adds none, wherever pages and blocks cut |
| Export.BlocksHold | internal/audit/wire.go:356-365 | A file that holds every captured block holds the captured bytes |
| Export.WireExport.Block | internal/audit/wire.go:347-354 | A block is served exactly when its digest is the captured one; it then is the captured block, or a clash of digests is kept |
| Export.WireExport.FinishLine | internal/audit/wire.go:411-430 | A line's record is the one the line has where it stands; `Export.ExportTells` says what that record tells |
| Export.WireExport.ReadParts | internal/audit/wire.go:367-405 | The cached blocks yield the next bytes and the records of the lines that end in them, within the page's bounds |
| Export.WireExport.ReadPage | internal/audit/wire.go:367-409 | So does a page, with the incomplete last line once the file ends |
| Export.WireExport.TurnPage | internal/audit/wire.go:246-298 | A page goes on where the last one ended and moves to the next file; each page answered found the files to be those captured, before and after, and a finished export without a clash found them unwritten |
| Export.WireExport.Answer | internal/audit/wire.go:185-298 | The cursor answered last is answered again unchanged, any other but the next is refused, and neither changes anything |
| Export.AllPages | internal/audit/wire.go:185-328 | For every sequence of page sizes, each file's pages join to its bytes and to one record for each of its lines, which tells of that line |
| Export.ExportTells | internal/audit/wire.go:411-430 | Each record of a whole export tells of its own line: where it stands, its length, digest and bytes, and whether it is incomplete, too long, or a well formed object |
| Export.UnwrittenIs | internal/audit/wire.go:330-365 | A finished export without a clash found every file to be the one captured, with nothing written to it but at its end |
| Surrogates.UnpairedSurrogateEscape | internal/carrier/decode.go:114-155 | For every text: an escaped surrogate is found exactly when one is not half of a pair, and the first such one is answered |
| Surrogates.HexQuad | internal/carrier/decode.go:158-178 | Four hex digits and their value, or none; `Literals.UnitIs` says which value |
| Literals.UnitIs | internal/carrier/decode.go:158-178 | Every unit, spelled by the digit tables in any mix of case, is read as that unit |
| Literals.LiteralReads | internal/carrier/decode.go:114-155 | The escapes found in a literal are those of the pieces it was spelled from |
| Literals.FirstLoneIs | internal/carrier/decode.go:114-155 | A lone surrogate so spelled is found, and the first one is answered with its place |
| Literals.PairedIs | internal/audit/audit.go:601-651 | A literal's escapes all pair up exactly when no piece of it is lone |
| Literals.Utf8Is | internal/audit/audit.go:601-651 | Bytes are valid UTF-8 exactly when they are the encoding of some scalar values |
| Surrogates.ScannersAgree | internal/audit/audit.go:601-651 | On every string literal the two scanners judge the escapes alike |
| Surrogates.WellFormedJSONString | internal/audit/audit.go:601-651 | A literal is accepted exactly when it is valid UTF-8 and all its escaped surrogates pair up |
| Version.ValidIsThreeNumerals | internal/artifactversion/version.go:13-18 | A version is three numerals without leading zeroes joined by dots, within the bound, and nothing else |
| Version.Compare | internal/artifactversion/version.go:89-106 | Length, then bytes, component by component, is the numeric order of the triples, and equal only for equal texts |
| Version.ChoicesSpell | internal/artifactversion/version.go:56-61 | Each choice is a version that spells the base's numbers with one of them raised and those after it at zero |
| Version.ChoicesRise | internal/artifactversion/version.go:56-61 | The base, the patch, the minor and the major choice rise in this order |
| Version.IncrementLength | internal/artifactversion/version.go:84-87 | An incremented component is longer exactly when it is all nines |
| Version.OverflowsIs | internal/artifactversion/version.go:62-66 | Some choice passes the bound exactly when a carry lengthens a version of the greatest length |
| Version.GreatestOverflows | internal/artifactversion/version.go:62-66 | A valid base of 256 bytes, with a major version of nines, that is refused |
| Version.Options | internal/artifactversion/version.go:44-75 | Which bases and candidates are refused, and otherwise the choices and where the candidate stands |

## Left out

- File handles, locks, identities of files, syncing and missing files: a locked write is one step that may be cut off anywhere, and a file that is missing is an empty one, except in the export, where presence and identity are values.
- Digests, signatures, tokens and certificates: parameters.
- Json.ValueReadsBack: is of a stand-in codec, without white space, escapes, arrays, fractions, negative and very large numbers; for the export and the history, whether a line is an object that matches is a parameter.
- Torn.BeginningIsBroken: is of that codec's records, whose strings hold no escapes.
- StampFile.StampReads: takes a token as text; its base64 form is not modelled.
- Clocks, random identities, run and tool names: parameters of the right form.
- Finding texts, and the sentences about what a verification establishes.
- The summary counts of stamps, and the presentation of reports.
- Report.Verify: has no sections of the sidecar and the stamps; they are in `Verification.VerifyAll`. Its findings and status are of the trail and of what is held against it.
- The trail's findings, and the sidecar's, are each kept in a list of their own beside the one list, where the code has only the latter; `Verification.ListHoldsEach` says that they are the same findings.
- WitnessReader.Read: takes the form of a statement's line as a parameter, and two statements as the same when their values are; their JSON, the bounds on their number and size, and the text of a continuation are not modelled.
- Verification.VerifyAll: is given which stamps are trusted and what is wrong with the others, because tokens and certificates are not modelled, and always has a public key to check with; a verification without one is `Report.Verify`. Times are integers, so no lag is cut to the range of a duration.
- The bound on a checkpoint's own length inside a stamps line, and the stamps file held open while an authority is asked.
- `settled.damaged` is set on a value and written back to both places it is kept, where the code holds one object by two references.
- The pager's table of exports: its capacity, lifetimes, random export names and the check of the project's authority; one export stands for each of its own cursors.
- The history served through the pager, and the answer's own encoding.
- `hex4` of the trail's scanner shifts and sets bits where the model multiplies and adds, as `hexQuad` does.
- Export.WireExport.ReadPage: says nothing of the export after a page that failed, because the code discards it then.
- Namesakes.UsesKeep: speaks of keys a verifier accepts; that a rotation to any other is refused beforehand is the key loader's, not modelled.
- The carrier's parser with its limits, the configuration of trails, and everything outside `internal/audit`, `internal/carrier/decode.go` and `internal/artifactversion`.
