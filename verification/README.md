# Open Institutional Compiler: a verified model of its evidence machinery

This project models the deterministic core of the compiler in Dafny and proves what that core promises:
which bytes an admission input may be, what state an admission evaluation returns and how that state moves
in time and under added evidence, what a receipt binds, what acquisition leaves on disk after any failure,
when a frozen corpus verifies, and what the boundaries around model output let through.

`dafny verify dfyconfig.toml` checks the whole project.

## Reading order

| file | what it models |
|---|---|
| `Outcomes`, `Text`, `TextSort`, `Numerals`, `Utf8`, `Digests` | results, code-point order and sorting, decimal numerals, strict UTF-8, collision-free digests |
| `Json`, `JsonRoundTrip`, `JsonAccess`, `JsonPath` | JSON values, the canonical printer, the full reader of sections 2 to 7 of RFC 8259, field access, positions |
| `CanonicalGate`, `JsonGrammar` | the byte boundary of the admission evaluator, and its answer for every text of the JSON grammar |
| `Evaluator`, `Precedence`, `AdmissionFields`, `Timeline` | the ordered evaluation, its declarative table, the table in terms of the fields alone, evidence as a set, outcomes over time |
| `StateMapping` | entries 5 to 12 of the frozen state mapping, read as any record about the source, against the evaluator |
| `EvidenceOrder`, `AdmissionDocument`, `AdmissionSpelling`, `AdmissionReceipt`, `ReceiptContents`, `AdmissionWitness` | the evidence loop, evaluation of the JSON document, which JSON members each field comes from, the receipt, its identity and what its JSON says, a document that is admitted |
| `Disk`, `Acquisition` | a file system whose every step may fail or be the last, atomic quarantine, runs and sequences of runs |
| `Ledger`, `LedgerReading`, `Glob`, `FreezePackage`, `FreezeProducer`, `FreezeVerifier`, `FreezeReport`, `FreezeSoundness` | the hash ledger, file patterns, the freeze producer, its verifier and what each failure it lists means |
| `FreezeRoundTrip`, `FreezeConditions`, `FreezeRecords`, `FreezeContents` | producer and verifier together, ids of one component and the inputs that fail, the condition on the records alone, what the written files say |
| `Grounding`, `CandidateExtraction`, `PythonEquality`, `Docket` | quote containment, the candidate boundary, Python's `==` on JSON, the review docket |
| `ProposalBoundary`, `ProposalPayload` | the any-depth scans and the proposal contract |
| `Pointers` | the `$ref` walk and its JSON Pointers |
| `Conformance` | three contract checkers and what each amounts to |

## How things are modelled

- Text is a sequence of Unicode scalar values, numbers are integers, instants are integers, and JSON objects
  are finite maps.
- SHA-256 and SHA-512 are parameters. Theorems about binding assume they are collision free
  (`Digests.Injective`); ledger theorems assume their values are nonempty lowercase hexadecimal.
- File patterns follow `pathlib` and `fnmatch` of Python 3.12, the version the project requires.
- Case folding is a parameter that maps each character to a string. What a theorem needs of it is stated as
  `FoldsLikeUnicode` or `LowerStays`.
- Clock readings, network responses, random temporary names and operating-system faults are parameters or
  arbitrary choices. A crash stops a program between any two file operations and leaves the files as they
  are, so a postcondition that covers every outcome covers every intermediate state. The file system counts its
  faults, so that a program without one owes success under an exact condition.
- Loops and in-place updates of the source are methods with loops over a `FileSystem` or `Findings` object or
  over local variables. Each is proved against a specification, and the theorems are about that specification.

## Where a promise needs a condition

- A frozen corpus does not always verify. `FreezeThenVerify` gives the exact condition for distinct identifiers,
  with or without slashes. For identifiers without a slash it comes to known dispositions and storage classes,
  targets different from provenance, identifiers on one line (`BrokenIdFails`), and, for each internal-only
  identifier, a file pattern that is accepted (`RefusedPatternFails`) and finds first no bytes but its own
  (`NestedIdFails`, `QuestionMarkIdFails`). `RecordsDecide` gives the exact condition on the rights records alone
  under which every successful run verifies. With slashes, receipts and copies must also not overwrite or miss one
  another: `./x` freezes and fails (`DotIdFails`), a name in a folder passes (`FolderIdPasses`).
- Passing the grounding test is weaker than being literal source material, up to whitespace and case, where a
  character of the fragment expands under folding, as `ß` does (`ExpansionIsNotLiteral`). Over a fragment
  without such characters the two are the same for every quote (`GroundedIsLiteral`, `AcceptedIsLiteral`), and no
  larger alphabet has this property (`GroundedIsLiteralExactly`).
- The docket merge compares contents with Python's `==`, under which `1` and `True` are equal. The filed JSON is
  independent of the order and repetition of extractions exactly when no two of them alone would file different
  JSON under one identifier (`OrderMattersExactly`), which holds for accepted responses
  (`AcceptedResponsesInAnyOrder`) and fails for two hand-built extractions (`TrueReplacesOne`).
- Success of `_model_payload` alone does not exclude authority keys; it does once the root keys are checked
  (`PayloadAloneExact`, `PayloadAloneMisses`, `KeyScanIsSubsumed`).
- The state mapping `src/oic/admission_specs/STATE-INPUT-MAPPING-v0.1.json` and the code disagree in wording, and
  the model follows the code. The mapping asks for a differing version or digest, a scope not covered, or an
  expired, superseded or revoked lifecycle of any applicable record, where the code asks that no evidence binds or
  covers, and that all scoped evidence has ended. Read as any record about the registered source, the two agree
  exactly under the condition of `MappingAgreesExactly`; the mapping admits exactly what the code admits with
  every such record clean (`MappingAdmitsExactly`), and `ExpiredRecordSplitsThem` is an input on which they differ.

## Model

| member | source | states |
|---|---|---|
| `JsonRoundTrip.LoadsPrint` | src/oic/admission.py:233-240 | Round trip over every JSON value: reading the canonical text gives the value back, with the duplicate-key hook or without it |
| `JsonRoundTrip.PrintInjective` | src/oic/admission.py:233-252 | Two values with one canonical text are the same value |
| `JsonRoundTrip.DistinctPairs` | src/oic/admission.py:381-387 | Pairs with distinct keys, in whatever order, build exactly the object they came from |
| `Utf8.DecodeEncode` | src/oic/admission.py:408-410 | Strict UTF-8 decoding undoes encoding |
| `Utf8.EncodeDecode` | src/oic/admission.py:408-410 | Strict UTF-8 decoding accepts no byte string but the encoding of what it returns: overlong forms, surrogates and truncated sequences are refused |
| `Text.AscendingUnique` | src/oic/admission.py:237-240 | Sorting keys by code point leaves one possible order of a set of keys |
| `Text.LessExactly` | src/oic/admission.py:237-240 | Code-point order: the first difference decides, and a proper prefix comes first |
| `CanonicalGate.RejectDuplicateKeys` | src/oic/admission.py:381-387 | The loop over pairs returns the object, or an error at the first repeated key |
| `CanonicalGate.UniquePairsExact` | src/oic/admission.py:381-387 | The hook accepts exactly the lists without a repeated key and then loses no pair |
| `CanonicalGate.CanonicalInjective` | src/oic/admission.py:233-252 | Equal canonical bytes come from equal values |
| `CanonicalGate.GateExact` | src/oic/admission.py:399-429 | Decoding and the canonical check together accept a byte string exactly when it is the canonical text of an object, and then return that object |
| `CanonicalGate.OneSpelling` | src/oic/admission.py:424-429 | Every document has exactly one accepted byte string |
| `CanonicalGate.KeyOrderMatters` | src/oic/admission.py:424-429 | Listing the members of an object in any order decodes to that object and is accepted in ascending key order only |
| `CanonicalGate.WhitespaceRefused` | src/oic/admission.py:424-429 | Leading insignificant whitespace decodes to the same document and is refused |
| `CanonicalGate.OtherSpellingRefused` | src/oic/admission.py:424-429 | Any other spelling of a member value that reads as that value is refused |
| `CanonicalGate.OtherSpellings` | src/oic/admission.py:424-429 | Minus zero, an escaped solidus and an escaped letter are such spellings |
| `CanonicalGate.DuplicateKeyRefused` | src/oic/admission.py:381-387 | A repeated key is refused where a plain reader would let the later value win |
| `JsonGrammar.LoadsExactly` | src/oic/admission.py:411-421 | The reader succeeds exactly on the texts of the grammar of RFC 8259 with integer numbers, with the value the syntax tree stands for; with the duplicate-key hook, exactly on those in which no object at any depth repeats a key |
| `JsonGrammar.SpellExact` | src/oic/admission.py:233-240 | The text of a syntax tree is the canonical text of its value exactly when the tree uses none of its choices: no blank, no needless or long escape, no upper-case digit, no negative zero, members ascending at every depth |
| `JsonGrammar.GateDecides` | src/oic/admission.py:399-429 | For the text of every object tree with blanks around it: refused as JSON when a key repeats at any depth, accepted as its value when no choice is used and nothing surrounds it, and otherwise refused as not canonical |
| `JsonGrammar.GateAnswers` | src/oic/admission.py:399-429 | For every byte string: an encoding error exactly for a byte-order mark or bytes that are not UTF-8, a JSON error exactly when it is no text of an object without repeated keys, acceptance exactly for the canonical texts |
| `Precedence.FirstTerminalStateWins` | src/oic/admission.py:621-723 | The if-chain returns a state exactly when that state is the least, in the frozen precedence, whose declarative guard holds |
| `Precedence.EmptySetErrorUnreachable` | src/oic/admission.py:548-554 | The lifecycle scans are reached only with scoped evidence, so the empty-set error never arises |
| `Precedence.AdmittedExactly` | src/oic/admission.py:657-723 | ADMITTED holds exactly when all fourteen earlier guards fail, and then all operative evidence of the source rests on one authority basis that a scoped record carries |
| `AdmissionFields.StateFromFields` | src/oic/admission.py:545-723 | From the fields alone: the state is the first, in the order of precedence, whose condition on versions, digests, jurisdictions, scopes, stamps and statuses of registration, records and warrants holds |
| `AdmissionFields.AdmittedFromFields` | src/oic/admission.py:557-723 | ADMITTED exactly when the registration is in force and some record about the source and its active warrant agree with it in version and digest, cover the scope, have started and carry no expiry, supersession or revocation stamp at or before the time, with one basis among all such records |
| `AdmissionFields.ExpiredFromFields` | src/oic/admission.py:590-598 | EXPIRED from the fields alone: past the earlier checks, the registration or every scoped record or its warrant has reached its expiry |
| `AdmissionFields.RevokedFromFields` | src/oic/admission.py:596-606 | REVOKED from the fields alone: past the earlier checks, the registration or every scoped record is revoked, by its own stamp, its warrant stamp or its warrant status |
| `Precedence.EvidenceActsAsASet` | src/oic/admission.py:657-723 | Permuting or repeating evidence or anchors never changes the state |
| `Precedence.EvidenceNeverRetreats` | src/oic/admission.py:657-723 | Evidence added to an input that already had some never moves the state to an earlier place of the precedence, except to CONFLICTING_AUTHORITY |
| `Precedence.AdditionToAdmitted` | src/oic/admission.py:707-723 | Any evidence added to an ADMITTED input leaves it ADMITTED or CONFLICTING_AUTHORITY |
| `Precedence.ConflictIsPermanent` | src/oic/admission.py:707-714 | CONFLICTING_AUTHORITY survives any addition of evidence |
| `Timeline.PhaseMonotone` | src/oic/admission.py:509-528 | As time passes an outcome never returns to an earlier phase: not yet, live, revoked, superseded, expired |
| `Timeline.ShapeOfEveryRun` | src/oic/admission.py:621-723 | Over any non-decreasing times the states are one constant state of checks 1 to 8, or NOT_YET_EFFECTIVE*, a mix of the three live states, REVOKED*, SUPERSEDED*, EXPIRED* |
| `Timeline.DeadStaysDead` | src/oic/admission.py:695-705 | Once revoked, superseded or expired, never admitted again |
| `Timeline.PiecewiseConstant` | src/oic/admission.py:518-528 | Two times with no lifecycle stamp of the input in the half-open interval between them have the same state |
| `Timeline.ChangeHasABoundary` | src/oic/admission.py:587-618 | Whenever the state changes between two times, a stamp written in the input lies in the half-open interval |
| `Timeline.AdmissionCanReturn` | src/oic/admission.py:707-723 | The live segment really mixes: concrete inputs are admitted, lose admission to a conflict or to a gap, and regain it |
| `StateMapping.MappingAgreesExactly` | src/oic/admission_specs/STATE-INPUT-MAPPING-v0.1.json:34-90 | With entries 5 to 12 of the mapping read as any record about the source, the code returns the first state the mapping requires exactly when some check of the code holds no later than what each such record, taken alone, asks for, and the evidence is not about other sources only |
| `StateMapping.MappingTakesTheEarliest` | src/oic/admission_specs/STATE-INPUT-MAPPING-v0.1.json:34-90 | Where a record about the source asks for a state before the one returned, the mapping requires the earliest state any record asks for |
| `StateMapping.ForeignEvidenceOnly` | src/oic/admission_specs/STATE-INPUT-MAPPING-v0.1.json:34-54 | With evidence about other sources only and no earlier check, the code reports a version mismatch, and the mapping requires missing evidence, or a digest mismatch when an anchor differs |
| `StateMapping.CleanEvidenceAgrees` | src/oic/admission_specs/STATE-INPUT-MAPPING-v0.1.json:34-90 | When every record about the source binds version and digest, covers the scope and is in force, and some record is about it if there are any, both readings agree on the state |
| `StateMapping.MappingAdmitsExactly` | src/oic/admission_specs/STATE-INPUT-MAPPING-v0.1.json:34-108 | The mapping admits exactly the inputs the code admits all of whose records about the source are clean |
| `StateMapping.ExpiredRecordSplitsThem` | src/oic/admission_specs/STATE-INPUT-MAPPING-v0.1.json:69-75 | An input the code admits on one record and the mapping calls expired for another |
| `EvidenceOrder.RequireEvidenceIntegrity` | src/oic/admission.py:454-476 | The loop with its seen set and previous key ends as the order and integrity check at the first bad position |
| `EvidenceOrder.AcceptedExactly` | src/oic/admission.py:454-476 | Acceptance means strictly ascending evidence identifiers and recomputing digests, and nothing less |
| `EvidenceOrder.AtMostOneOrder` | src/oic/admission.py:454-476 | No two different orders of one bag of evidence are both accepted |
| `EvidenceOrder.AcceptedOrderExists` | src/oic/admission.py:454-476 | Some order of a bag of evidence is accepted exactly when its identifiers are distinct and all digests recompute |
| `AdmissionDocument.DocumentRefinesState` | src/oic/admission.py:621-723 | When every stamp parses, evaluating the JSON document equals the typed evaluator |
| `AdmissionDocument.TimestampErrorExactly` | src/oic/admission.py:479-528 | Evaluation is refused exactly when some stamp the check order reaches does not parse, and refused for no other reason |
| `AdmissionDocument.OnlyReachedStampsMatter` | src/oic/admission.py:587-618 | A stamp the check order does not reach never changes the result, malformed or not |
| `AdmissionDocument.ReachedStampsDecide` | src/oic/admission.py:621-723 | A document whose reached stamps parse has the typed outcome, whichever instants stand for its other stamps |
| `AdmissionDocument.TemporalChecksReadRelevant` | src/oic/admission.py:657-668 | Checks 9 to 15 read only the evidence about the registered source |
| `AdmissionSpelling.ReadExactly` | src/oic/admission.py:531-545 | A document is read from a JSON value exactly when every field of registration, evidence, warrants, anchors, scope and ruleset is the value under its own key |
| `JsonAccess.AccessExact` | src/oic/admission.py:531-545 | Each way of reading a member accepts exactly a value of its own kind under its own key, and null only where null is allowed |
| `AdmissionSpelling.ParsesExactly` | src/oic/admission.py:484-507 | An input has its stamps parsed to another exactly when each stamp became its instant and everything else stayed |
| `AdmissionReceipt.ReceiptIdRecomputes` | src/oic/admission.py:759-784 | The receipt identifier is admrec-sha256: and the digest of the canonical text of the receipt JSON without its identifier member |
| `AdmissionReceipt.ReceiptBinding` | src/oic/admission.py:787-844 | With a collision-free digest, two issued receipts with one identifier are equal in every field and came from byte-identical inputs |
| `AdmissionReceipt.ReceiptBytesBinding` | src/oic/admission.py:782-784 | Equal canonical receipt bytes come from byte-identical inputs |
| `AdmissionReceipt.IssuedReceipt` | src/oic/admission.py:852-888 | An issued receipt comes from canonical bytes whose JSON members spell a document with the frozen ruleset and ascending, recomputing evidence; it carries its reason code and the input digest |
| `AdmissionReceipt.IssuedState` | src/oic/admission.py:621-723 | The state on an issued receipt is the first whose condition on the fields spelled by the JSON members holds, with every reached stamp parsed |
| `AdmissionReceipt.FirstRefusalIsGiven` | src/oic/admission.py:399-476 | A payload is refused with an error exactly when that error is the first of the eight in boundary order whose own condition on the bytes holds |
| `AdmissionReceipt.IssuedExactly` | src/oic/admission.py:852-888 | A receipt is issued exactly for the canonical bytes of an object whose members spell a document with the frozen ruleset, ascending recomputing evidence, and parsing stamps wherever the check order reaches |
| `AdmissionWitness.AdmittedReceiptExists` | src/oic/admission.py:787-888 | For every digest function and every clock that reads one stamp, a concrete document is issued a receipt that says ADMITTED |
| `AdmissionReceipt.ReceiptDescribesInput` | src/oic/admission.py:787-844 | Every input-derived field of an issued receipt repeats or digests the input field it is named after; evidence is cited in ascending order |
| `ReceiptContents.ReceiptSays` | src/oic/admission.py:759-844 | Member by member, the JSON of an issued receipt repeats the texts of its document, lists identifiers and digests of its evidence in order, carries the three digests, and names itself by the digest of its other members |
| `ReceiptContents.StateInJson` | src/oic/admission.py:621-844 | The state and reason code in the JSON of an issued receipt are those of the mapping entry for the first state the fields of the document require |
| `ReceiptContents.MappingEntry` | src/oic/admission_specs/STATE-INPUT-MAPPING-v0.1.json:6-108 | Each state has the name, the reason code and the place of its entry in the frozen mapping |
| `AdmissionReceipt.ReasonCodeInjective` | src/oic/admission.py:308-340 | A reason code names exactly one state |
| `Disk.AtomicWrite` | scripts/acquire_canada_preflight.py:318-336 | However the write ends, the file holds its old content or all of the new data, every other file is untouched, and a temporary file stays only after a crash or a failed unlink; it succeeds exactly when no file operation failed |
| `Disk.ReadLoop` | scripts/acquire_canada_preflight.py:362-372 | The bounded read loop stores exactly the received bytes and never more than the bound; without a fault it ends with all of them or because they are too many |
| `Disk.Commit` | scripts/acquire_canada_preflight.py:376-386 | After the digest check: commit to a free target, keep an equal artifact, or refuse a different one; each refusal has its own cause, so an equal artifact without a fault is kept |
| `Disk.StreamToQuarantine` | scripts/acquire_canada_preflight.py:339-388 | At every step the target is as it was or holds the complete received bytes within the bound and of the expected digest; an existing target never changes; without a fault it succeeds exactly when bound, expected digest and any existing artifact allow, and every refusal states its cause |
| `Acquisition.ValidateSelection` | scripts/acquire_canada_preflight.py:246-265 | Succeeds exactly for distinct, known, unambiguous identifiers with no digest expected outside the selection, and returns their sources in order |
| `Acquisition.SourcePaths` | scripts/acquire_canada_preflight.py:268-289 | Succeeds exactly for safe and distinct identifiers, and then gives each source its two paths; each refusal has its cause |
| `Acquisition.SafePaths` | scripts/acquire_canada_preflight.py:268-289 | A safe identifier has no slash, dot or lower-case letter, and its receipt and artifact lie directly in their two directories under its name |
| `Acquisition.AcquireOne` | scripts/acquire_canada_preflight.py:433-506 | Success writes exactly the receipt of the accepted response, whose bytes met the bound and the expected digest; without a fault it succeeds exactly when the source is obtainable; whatever fails, truthful receipts stay truthful, other receipts and quarantined bytes unchanged |
| `Acquisition.ReceiptSays` | scripts/acquire_canada_preflight.py:391-425 | A receipt read back names its source, says whether bytes were kept, gives their length and digest or nulls, and keeps every descriptive field |
| `Acquisition.AcquireAll` | scripts/acquire_canada_preflight.py:509-533 | The loop keeps both invariants; on success every receipt is written; without a fault it stops only at the first source that is not obtainable, with its cause, having written all earlier receipts and touched no later file |
| `Acquisition.RunOnce` | scripts/acquire_canada_preflight.py:509-533 | One whole run keeps both invariants, however its steps end; without a fault it succeeds exactly when the selection is valid, identifiers are safe and every requested source is obtainable, and each refusal before that is exact |
| `Acquisition.Campaign` | scripts/acquire_canada_preflight.py:509-533 | Over any sequence of runs, with a failure or a crash at any step, after each run every receipt marked downloaded has the length and digest of the bytes then at its quarantine path, and whatever any earlier run quarantined still has the bytes it had |
| `Acquisition.TruthfulAfterReceipt` | scripts/acquire_canada_preflight.py:433-506 | Writing a truthful receipt, or failing midway, keeps all receipts truthful |
| `Ledger.ReadSums` | scripts/verify_canada_freeze.py:28-38 | The line loop with its dictionary computes the parsed ledger, or the error of a malformed line |
| `Ledger.LedgerRoundTrip` | scripts/freeze_canada_corpus.py:296-302 | Parsing a printed ledger gives back exactly its dictionary, for hexadecimal digests and one-line names |
| `Ledger.LedgerMapExact` | scripts/verify_canada_freeze.py:28-38 | With distinct names the dictionary files each digest under its own name and nothing else |
| `Ledger.BrokenNamesAreLost` | scripts/verify_canada_freeze.py:30-37 | A name with a line boundary is never read from any ledger |
| `LedgerReading.SplitExactly` | scripts/verify_canada_freeze.py:31-31 | The lines of a text are exactly the pieces between line boundaries, where a carriage return takes a following line feed along and nothing follows a last boundary |
| `LedgerReading.SumsExactly` | scripts/verify_canada_freeze.py:28-38 | A ledger is read exactly when every line is blank or has two spaces in a row, and gives a name a digest exactly when the last line that files anything under the name files that digest |
| `FreezeVerifier.CheckCoverage` | scripts/verify_canada_freeze.py:53-58 | The first loop lists the blocked records with an entry and the cleared records without one, in id order |
| `FreezeVerifier.CheckEntry` | scripts/verify_canada_freeze.py:65-115 | One pass of the entry loop lists the failures of the specification, and nothing exactly when the entry agrees with its rights record, receipt, bytes and both ledgers |
| `FreezeVerifier.CheckEntries` | scripts/verify_canada_freeze.py:65-117 | The entry loop adds the failures of each entry in index order, or fails closed |
| `FreezeVerifier.Verify` | scripts/verify_canada_freeze.py:41-117 | The whole verification: the failures of coverage, extra receipts and entries, in that order, or a closed failure |
| `FreezeReport.ReportLists` | scripts/verify_canada_freeze.py:53-117 | The list is exactly the one that holds, in source order and once each, the failures whose own condition on files, records, receipts and ledgers holds; verification fails closed exactly when an entry reached cannot be read |
| `FreezeReport.EntryList` | scripts/verify_canada_freeze.py:65-134 | For one entry, each failure is listed exactly when its own condition holds, in source order, with the checks that an absent record, receipt or file skips |
| `FreezeReport.LastRecordCounts` | scripts/verify_canada_freeze.py:47-47 | Of several rights records with one id the last one counts |
| `FreezeVerifier.EntryExact` | scripts/verify_canada_freeze.py:65-115 | The failures listed for an entry are empty exactly when each of its fields, its receipt, its bytes and its ledger lines agree |
| `FreezeVerifier.StorageFailuresExact` | scripts/verify_canada_freeze.py:87-134 | The storage and ledger checks find nothing exactly when bytes, entry and ledgers agree, for each storage class |
| `FreezeSoundness.ReportExact` | scripts/verify_canada_freeze.py:53-117 | The list is empty exactly when coverage, receipts and every entry agree |
| `FreezeSoundness.PassedMeans` | scripts/verify_canada_freeze.py:41-117 | When verification passes, the entries are exactly the records that are not blocked, and every repository-frozen file agrees in length and both digests with its entry, receipt and both ledgers |
| `FreezeSoundness.TamperingIsFound` | scripts/verify_canada_freeze.py:105-115 | With a collision-free SHA-256, changing the bytes of any repository-frozen file of a passing tree makes verification fail |
| `FreezePackage.EntryReadsBack` | scripts/freeze_canada_corpus.py:211-227 | An index entry is read back from its JSON as it was written |
| `FreezePackage.ReceiptReadsBack` | scripts/freeze_canada_corpus.py:160-185 | The receipt fields the verifier compares are read back as they were written |
| `FreezeProducer.Acquire` | scripts/freeze_canada_corpus.py:115-186 | Only a record that passes every rights gate, with a bounded response of a known media type, is acquired; CA-3 never from its provenance URL |
| `FreezeProducer.FirstRefusalWins` | scripts/freeze_canada_corpus.py:115-186 | A record is acquired exactly when none of the eight gates refuses it, and a refusal is the first in source order that applies |
| `FreezeProducer.StoreItem` | scripts/freeze_canada_corpus.py:199-210 | Success means exactly the bytes and the receipt were written, each where its path resolves, and is owed whenever no file operation failed; whatever happens, index, narrative and ledgers are unchanged |
| `FreezeProducer.Freeze` | scripts/freeze_canada_corpus.py:189-242 | Without a fault it succeeds exactly when every gate passes in id order and every copy can be placed, and then the tree is the frozen one; any failure leaves index, narrative and ledgers as they were |
| `FreezeProducer.WritePackage` | scripts/freeze_canada_corpus.py:289-302 | It succeeds exactly when no write failed; index, narrative and both ledgers are then written and nothing else changed |
| `FreezeProducer.Run` | scripts/freeze_canada_corpus.py:305-330 | The two together: when a run succeeds, and the tree it leaves |
| `FreezeRoundTrip.QueueSorts` | scripts/freeze_canada_corpus.py:191-197 | The queue is a permutation of the eligible records, ascending by id |
| `FreezeRoundTrip.AcquiredExactly` | scripts/freeze_canada_corpus.py:191-198 | A successful freeze acquired exactly the eligible records, each once |
| `FreezeRoundTrip.BlockedNeverRequested` | scripts/freeze_canada_corpus.py:121-122 | No blocked record is ever requested, whatever the records and responses |
| `FreezeRoundTrip.FreezeDispositionExact` | scripts/freeze_canada_corpus.py:229-234 | COMPLETE means no record is blocked; BLOCKED means some are and nothing was acquired |
| `FreezeContents.PackageContents` | scripts/freeze_canada_corpus.py:229-302 | After a successful run the index and the narrative record read back from disk give the numbers of records, of cleared ones and of blocked ones, the blocked ids ascending, the disposition, an entry for each acquired source in order, and the ids committed and kept internal |
| `FreezeContents.EntryContents` | scripts/freeze_canada_corpus.py:211-227 | Each entry repeats its own record, names its receipt and copy, and carries the length and both digests of its own body |
| `FreezeContents.EntryDetails` | scripts/freeze_canada_corpus.py:211-227 | Each entry takes its final URL and retrieval time over from its receipt |
| `FreezeContents.ReceiptContents` | scripts/freeze_canada_corpus.py:160-185 | A receipt read back binds its own body and keeps every other member |
| `FreezeContents.SuffixTable` | scripts/freeze_canada_corpus.py:201-201 | The media types with a suffix, and no other |
| `FreezeRoundTrip.TreeIs` | scripts/freeze_canada_corpus.py:199-210 | Whatever the ids, the tree holds at each path what was stored there last, or what it held before |
| `FreezeRoundTrip.TreeHolds` | scripts/freeze_canada_corpus.py:199-210 | Whatever the ids, the bytes and receipt of a source survive the run exactly when the last copy stored at its path has the same bytes and no later source stores its receipt at the same path |
| `FreezeRoundTrip.LedgersReadBack` | scripts/freeze_canada_corpus.py:296-302 | When no two sources are filed under one name and no name spans lines, both written ledgers are read back with the right digest under every name |
| `FreezeRoundTrip.FreezeThenVerify` | scripts/verify_canada_freeze.py:41-134 | After a successful run over distinct ids, with or without slashes, from a clean tree, verification is empty if and only if dispositions and storage classes are the known ones, no acquired target is its provenance URL, no acquired id spans lines, no two receipts share a path, none strays under a name no entry expects, every committed path holds its own bytes last, and the file pattern of each internal id is accepted and finds first no bytes other than its own |
| `FreezeConditions.OneComponentRoundTrip` | scripts/verify_canada_freeze.py:41-134 | For ids without a slash the condition is: known dispositions and storage classes, targets different from provenance, ids on one line, and no internal source whose pattern is refused or finds other bytes first |
| `FreezeRecords.RecordsDecide` | scripts/verify_canada_freeze.py:41-134 | For ids without a slash, every successful run verifies, whatever is fetched, if and only if the rights records meet a condition of their own or a closed gate lets no run succeed |
| `FreezeRecords.OrdinaryIdsNest` | scripts/verify_canada_freeze.py:96-102 | Only an id that continues it after a dot can put its bytes before those of an id without pattern characters |
| `FreezeConditions.BrokenIdFails` | scripts/verify_canada_freeze.py:28-38 | Any id without a slash that spans lines is acquired and frozen without an error, and its tree never verifies |
| `FreezeConditions.NestedIdFails` | scripts/verify_canada_freeze.py:96-102 | Internal ids A and A.B with different bodies freeze and never verify: the pattern for A finds A.B.xml first |
| `FreezeConditions.QuestionMarkIdFails` | scripts/verify_canada_freeze.py:96-102 | Internal ids A! and A? with different bodies freeze and never verify: the pattern for A? finds A!.xml first |
| `FreezeConditions.RefusedPatternFails` | scripts/verify_canada_freeze.py:96-102 | Any internal id without a slash and with two stars in a row freezes and never verifies: its pattern is refused |
| `FreezeConditions.DotIdFails` | scripts/verify_canada_freeze.py:60-64 | An id of the form ./x, for any name x, freezes and never verifies: its receipt is filed as that of x |
| `FreezeConditions.StrayFails` | scripts/verify_canada_freeze.py:60-64 | A single source whose receipt lands in the receipt directory under another name than its own freezes and never verifies |
| `FreezeConditions.FolderIdPasses` | scripts/verify_canada_freeze.py:41-134 | A committed source whose id names a folder and a file freezes and verifies |
| `Glob.OrdinaryPrefix` | scripts/verify_canada_freeze.py:96-102 | Text without pattern characters followed by a star matches exactly the names that begin with it |
| `Glob.StarStep` | scripts/verify_canada_freeze.py:96-102 | A star matches any part of a name |
| `Glob.ClassStep` | scripts/verify_canada_freeze.py:96-102 | A bracketed list of characters matches one of them, or with an exclamation mark one other |
| `Glob.RangeHolds` | scripts/verify_canada_freeze.py:96-102 | A bracketed range matches a character between its ends, both included |
| `Glob.OneStep` | scripts/verify_canada_freeze.py:96-102 | A question mark matches any one character, and a character that is no wildcard itself |
| `Glob.FirstBracket` | scripts/verify_canada_freeze.py:96-102 | A closing bracket that comes first in a class is a member of it |
| `Glob.EmptyRange` | scripts/verify_canada_freeze.py:96-102 | An empty range disappears from a class, and an exclamation mark that then comes first negates the rest |
| `Grounding.CollapseIdempotent` | src/oic/interpretation_proposal.py:362-364 | Collapsing whitespace is idempotent and keeps the first character of a text that starts with a word |
| `Grounding.CollapseStart` | src/oic/interpretation_proposal.py:362-364 | Collapsing drops a leading blank and keeps a leading visible character, with one space after it exactly when the text goes on after blanks |
| `Grounding.FoldLaws` | src/oic/interpretation_proposal.py:362-364 | Folding works character by character |
| `Grounding.LiteralIsGrounded` | src/oic/candidate_extraction.py:203-219 | Every contiguous piece of the source passes the collapsed, case-folded containment test, whatever the folding |
| `Grounding.GroundingTransitive` | src/oic/interpretation_proposal.py:367-374 | A quote grounded in a span that is grounded in the source is grounded in the source |
| `Grounding.GroundedThenLiteral` | src/oic/candidate_extraction.py:215-219 | In a source none of whose visible characters expands under folding, any grounded quote has the key of a literal span of the source |
| `Grounding.GroundedIsLiteral` | src/oic/candidate_extraction.py:208-219 | Over such a source, being grounded and being a literal span up to whitespace and case are the same for every quote |
| `Grounding.ExpansionIsNotLiteral` | src/oic/candidate_extraction.py:203-219 | A character that folds to several makes a quote pass that is no span of the source |
| `Grounding.GroundedIsLiteralExactly` | src/oic/candidate_extraction.py:208-219 | Over any alphabet, being grounded means being literal for all quotes and all sources written in it exactly when no visible character of the alphabet expands |
| `CandidateExtraction.CheckGroundingExact` | src/oic/candidate_extraction.py:208-219 | Every nonblank literal span is accepted, and where no character of the fragment expands, whatever is accepted is a nonblank literal span |
| `CandidateExtraction.AcceptedIsLiteral` | src/oic/candidate_extraction.py:208-219 | Where no character of the fragment expands, an item is acceptable exactly when its span is literal source material |
| `CandidateExtraction.NormalizeExact` | src/oic/candidate_extraction.py:333-370 | The five field checks come to one condition: exactly the two proposed fields, a known type, a nonblank grounded span |
| `CandidateExtraction.NormalizeErrorExact` | src/oic/candidate_extraction.py:333-370 | A candidate is refused with an error exactly when it is the first of the eight field checks whose own condition holds |
| `CandidateExtraction.CandidateSays` | src/oic/candidate_extraction.py:333-381 | An accepted candidate carries its span, its type, the source anchor alone, and the extracted and uncertain states |
| `CandidateExtraction.UnitIdDigests` | src/oic/candidate_extraction.py:373-381 | A candidate identifier digests exactly the schema tag, the span with its type, and the anchor |
| `CandidateExtraction.NormalizeAllExact` | src/oic/candidate_extraction.py:248-251 | A response is accepted exactly when every candidate is acceptable, and each candidate keeps its place, span and type |
| `CandidateExtraction.ProposeErrorExact` | src/oic/candidate_extraction.py:222-331 | A response is refused for exactly the first reason that applies: of the source, of the response, or of its first bad candidate |
| `CandidateExtraction.UnitIdBinds` | src/oic/candidate_extraction.py:373-381 | Equal candidate identifiers mean equal spans, types and anchors |
| `CandidateExtraction.LiteralSpanAccepted` | src/oic/candidate_extraction.py:208-219 | Every nonblank literal span of the source is acceptable |
| `TextSort.SortedExactly` | tests/contract/semantic_conformance.py:226-226 | A list equals its sorted form exactly when it is ascending |
| `TextSort.SameSort` | src/oic/review_docket.py:117-117 | Two lists have one sorted form exactly when they hold the same strings equally often |
| `TextSort.SortIsStable` | scripts/freeze_canada_corpus.py:197-197 | Sorting keeps items under one key in the order they came |
| `Docket.ProposalSetOf` | src/oic/review_docket.py:110-125 | The loop collects the sorted identifiers of one extraction, or refuses a candidate without one |
| `Docket.BuildReviewDocket` | src/oic/review_docket.py:72-107 | The nested loops build the docket of the specification, or its refusal |
| `Docket.SetsDescribe` | src/oic/review_docket.py:110-125 | Position by position, a proposal set repeats provider, model, request identifier and raw digest of its own extraction, lists its identifiers ascending and digests that list |
| `Docket.DocketErrorExact` | src/oic/review_docket.py:72-107 | A docket is refused with an error exactly when it is the first of the four whose own condition on the extractions holds |
| `Docket.AgreementExact` | src/oic/review_docket.py:78-86 | NO_CANDIDATES exactly when nothing was proposed; IDENTICAL exactly when something was and all sets are equal as multisets of ids; DIVERGENT otherwise |
| `PythonEquality.ObjectsEqual` | src/oic/review_docket.py:75-95 | Python equality of decoded objects: the same keys, and equal values under them, where truth values count as numbers |
| `PythonEquality.ArraysEqual` | src/oic/review_docket.py:75-95 | Equality of arrays: the same length and equal items at each place |
| `PythonEquality.ScalarsEqual` | src/oic/review_docket.py:75-95 | Numbers and truth values are equal as numbers; otherwise equal values are of one kind, and scalars the same |
| `Docket.MergeExact` | src/oic/review_docket.py:87-96 | The merge succeeds exactly when no identifier has two contents that Python tells apart, and then files every candidate under its identifier and nothing else |
| `Docket.LastIsFiled` | src/oic/review_docket.py:87-96 | Of the contents listed under one identifier the last is the one filed |
| `Docket.TrueReplacesOne` | src/oic/review_docket.py:72-107 | Two extractions of one hand-built candidate each, differing in 1 and true only: no docket is refused, and the order of the two decides the JSON filed |
| `Docket.FiledExactly` | src/oic/review_docket.py:87-107 | The identifiers filed are exactly those of some proposal set |
| `Docket.OrderIndependent` | src/oic/review_docket.py:72-107 | Order and repetition of the extractions change neither whether and why a docket is refused, nor its agreement, nor the identifiers filed, nor their contents as Python compares them |
| `Docket.OrderMattersExactly` | src/oic/review_docket.py:72-107 | The JSON filed is the same for every order and repetition of the extractions exactly when no two of them, each taken alone, would file different JSON under one identifier |
| `Docket.DocketIdBinds` | src/oic/review_docket.py:97-102 | Equal docket identifiers mean the same anchor and the same proposal sets in the same order |
| `Docket.DocketIdDigests` | src/oic/review_docket.py:97-102 | A docket identifier digests exactly the anchor and the proposal sets in their order, each with its six members |
| `Docket.AcceptedResponsesMakeADocket` | src/oic/review_docket.py:72-107 | For responses that passed the candidate boundary, a docket is refused only for differing anchors, and one identifier always means one JSON content |
| `Docket.AcceptedResponsesInAnyOrder` | src/oic/review_docket.py:72-107 | The docket of accepted responses files the same JSON for every order and repetition of them |
| `Pointers.TokenRoundTrip` | src/oic/schemas.py:206-207 | Unescaping undoes the escaping of a token (sections 3 and 4 of RFC 6901) |
| `Pointers.EscapeStep` | src/oic/schemas.py:206-207 | Escaping works character by character: a tilde becomes ~0, a slash ~1, and nothing else changes |
| `Pointers.LocatePointer` | src/oic/schemas.py:206-221 | A pointer evaluates to the position it was made from |
| `Pointers.PointerInjective` | src/oic/schemas.py:210-221 | Different positions of one document have different pointers, even where a key reads like an index |
| `Pointers.PositionsExact` | src/oic/schemas.py:210-221 | The walk reaches a position exactly when its last key is $ref and its value a string |
| `Pointers.WalkComplete` | src/oic/schemas.py:210-221 | Every such position is yielded, under its pointer |
| `Pointers.WalkSound` | src/oic/schemas.py:210-221 | Every pair yielded is such a position, and its pointer evaluates to the string yielded with it |
| `Pointers.WalkOnce` | src/oic/schemas.py:210-221 | No pointer is yielded twice |
| `ProposalBoundary.Findings.ScanKeys` | src/oic/interpretation_proposal.py:382-390 | The recursive scan adds exactly the authority keys of the document to the set it is given |
| `ProposalBoundary.Findings.ScanValues` | src/oic/interpretation_proposal.py:393-402 | The recursive scan adds exactly the status-token values of the document to the set it is given |
| `ProposalBoundary.KeysExact` | src/oic/interpretation_proposal.py:382-390 | A key is reported exactly when it is a key of some object at some depth and folds to an authority key |
| `ProposalBoundary.StripExact` | src/oic/interpretation_proposal.py:398-400 | Stripping takes off exactly the blanks around a text |
| `ProposalBoundary.ValuesExact` | src/oic/interpretation_proposal.py:393-402 | A string is reported exactly when it stands as a value at some depth and is, between blanks, a text that folds to one of the four status tokens |
| `ProposalPayload.ParseProvider` | src/oic/interpretation_proposal.py:405-429 | The five parsing checks in order, with the two accumulating scans |
| `ProposalPayload.ParsedIsClean` | src/oic/interpretation_proposal.py:405-429 | What parses holds, at any depth, no value that is a status token between blanks up to case and no key that folds to an authority key |
| `ProposalPayload.PaddedStatusRefused` | src/oic/interpretation_proposal.py:393-429 | A response with a status token, in any case and with blanks around it, as a value at any depth is refused |
| `ProposalPayload.ParseErrorExact` | src/oic/interpretation_proposal.py:405-429 | Parsing is refused with an error exactly when it is the first of the five whose own condition on the response holds |
| `ProposalPayload.NormalizeAssertion` | src/oic/interpretation_proposal.py:432-479 | The assertion rebuilt field by field is the assertion, or the first failed check is reported |
| `ProposalPayload.NormalizeReference` | src/oic/interpretation_proposal.py:482-499 | The reference rebuilt is the reference, or the first failed check is reported |
| `ProposalPayload.AssertionErrorExact` | src/oic/interpretation_proposal.py:432-479 | No check fails exactly for a well-formed assertion |
| `ProposalPayload.AssertionFirstFailure` | src/oic/interpretation_proposal.py:432-479 | An assertion is refused with an error exactly when it is the first of its checks whose own condition on the fields holds |
| `ProposalPayload.ReferenceFirstFailure` | src/oic/interpretation_proposal.py:482-499 | A reference is refused with an error exactly when it is the first of its checks whose own condition on the fields holds |
| `ProposalPayload.ModelPayload` | src/oic/interpretation_proposal.py:502-513 | Both arrays are returned as they came, or the first complaint in order |
| `ProposalPayload.PayloadExact` | src/oic/interpretation_proposal.py:502-513 | Success exactly when both arrays hold only well-formed items; order and duplicates survive, and normalizing again changes nothing |
| `ProposalPayload.PayloadErrorExact` | src/oic/interpretation_proposal.py:502-513 | The payload is refused with an error exactly when an array is missing its shape or the error is that of the first bad assertion or, with none, of the first bad reference |
| `ProposalPayload.PayloadAloneExact` | src/oic/interpretation_proposal.py:502-513 | After success of the payload check alone, the response is free of authority keys exactly when its other root members are |
| `ProposalPayload.KeyScanIsSubsumed` | src/oic/interpretation_proposal.py:405-429 | Once the root keys are checked, success of the payload check implies no authority key at any depth |
| `ProposalPayload.PayloadAloneMisses` | src/oic/interpretation_proposal.py:502-513 | Without the root-key check it does not: a response with a verdict at its root passes the payload check |
| `ProposalPayload.ProposalIdBinds` | src/oic/interpretation_proposal.py:527-555 | Equal proposal identifiers mean equal bindings, proposers and payloads, order included |
| `ProposalPayload.BuildEnvelope` | src/oic/interpretation_proposal.py:558-593 | Refuses exactly an unknown proposer kind, then a blank proposer; otherwise binding, proposer and payload are read back from the envelope, its identifier recomputes from them, it is uncertain and provisional, and the references key is there exactly when there are references |
| `ProposalPayload.EnvelopeKeepsPayload` | src/oic/interpretation_proposal.py:558-593 | The payload is read back from its envelope as it went in |
| `ProposalPayload.EnvelopeSays` | src/oic/interpretation_proposal.py:527-593 | Each member of an envelope holds what it is named after, and its identifier digests exactly the schema, the binding, the proposer and both arrays of the payload |
| `Conformance.CheckPartition` | tests/contract/semantic_conformance.py:281-330 | The set comparisons of the checker list the SC-WA-001 findings whose conditions hold, in order |
| `Conformance.PartitionShows` | tests/contract/semantic_conformance.py:285-330 | Each finding is listed exactly when what it says of the arrays, the marking and the formula holds, atom by atom; once, and in the order of the checks |
| `Conformance.EqualityChecksSuffice` | tests/contract/semantic_conformance.py:297-330 | The overlap, uncovered and extraneous checks follow from the two equality checks |
| `Conformance.PartitionExact` | tests/contract/semantic_conformance.py:278-330 | With a marking, no finding means exactly that the two arrays list the formula atoms marked T or F and the other formula atoms, each once |
| `Conformance.CheckOverlays` | tests/contract/semantic_conformance.py:206-220 | The SC-RD-003 findings in order: a repeated identifier, DM-1, a WP identifier after another, two identifiers that are not WP |
| `Conformance.OverlaysExact` | tests/contract/semantic_conformance.py:206-220 | No overlay finding means exactly distinct WP identifiers followed by at most one other identifier that is not DM-1 |
| `Conformance.CheckReasonCodes` | tests/contract/semantic_conformance.py:222-236 | The SC-RD-004 findings in order: a repeated code, a code after a greater one, a missing expected code |
| `Conformance.CodesExact` | tests/contract/semantic_conformance.py:222-236 | No code finding means exactly strictly ascending codes that contain every expected one |

## Left out

- Floating-point numbers, `NaN` and `Infinity`, lone surrogates, and limits on integer size or nesting depth: numbers are integers, text is scalar values.
- JSON Schema validation of inputs beyond the presence and type of the fields later steps read, and the metaschema check of `src/oic/schemas.py`.
- The spelling of timestamps: parsing a stamp is a parameter that may refuse it.
- The hash functions themselves and the 24-character truncation of candidate, docket and proposal identifiers: identifiers are modelled untruncated.
- The insertion order of dictionaries: objects are maps, and loops over members take them in key order or in any order.
- HTTP, redirects, URL allowlists, content types of requests, content sniffing and byte screening: a response is an arbitrary body that may fail at any chunk.
- Concurrent processes on one directory: the model has one process at a time, with crashes.
- Directory creation and permissions: that a directory is missing is one of the failures a write may have.
- Symbolic links and case-insensitive file systems: paths are resolved by their text, with `.` and `..`.
- FreezeRoundTrip.FreezeThenVerify: does not cover internal-only identifiers with pattern characters in a folder name, whose pattern searches several directories, or that climb into the freeze directory itself.
- FreezeVerifier.StorageFailures: reads the folders of a file pattern as they are written, so a folder with pattern characters is one with that name.
- FreezeRecords.RecordsDecide: the condition on the records alone is for identifiers without a slash; with slashes, which paths meet depends on the media types fetched.
- Type coercion by `str()` and `int()` of index fields with unexpected types: the model fails closed there.
- The rights document as JSON: rights records are typed values. A missing field of one is not part of this model.
- FreezeProducer.FreezeRecord: the explanatory notes, the tool names and the disposition counts of the narrative record, copied from constants and from the rights document, are a parameter.
- Unicode's own case-folding table: folding is a parameter, any character-wise folding with the stated properties.
- Validation of source anchors in `src/oic/candidate_extraction.py`, prompts and provider calls: parameters or strings without branching logic.
- SC-WA-002 and SC-RD-001, SC-RD-002, SC-RD-005, SC-RD-006: comparisons of single fields and recomputed digests that would add only easy members.
- Schema registry construction, reference resolution and report assembly in `src/oic/schemas.py`: resolution is a library, the rest is one pass over a list.
- `src/oic/manifests.py`, `src/oic/cli.py`, `src/oic/doctor.py`, `src/oic/baseline.py`, `scripts/verify_code_start_gate.py`, `scripts/capture_canada_rights_evidence.py` and the rendering tools: plumbing, pinned constants and templates.
