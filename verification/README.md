# AcmeMux: a verified model

AcmeMux manages certificates: it edits a native configuration and its dotenv file, runs the native client through a
broker, records each run as a durable job, and serves one administrator over HTTP. This project models the parts of it
that carry state or transform text, and proves what they are there for. `dafny verify dfyconfig.toml` checks all of it.

| component | files | what is proved |
|---|---|---|
| redaction of secrets | `RedactionSpec`, `Redaction` | the automaton that is built and linked in place deletes every secret, and nothing but secrets |
| output of a native run | `Utf8`, `BrokerOutput`, `BrokerRunner` | limits, and two redactions around a sanitizer that together let no secret and no control rune through |
| dotenv editing | `DotenvSyntax`, `DotenvScanner`, `DotenvGrammar`, `DotenvKeys`, `DotenvPolicy`, `DotenvEdit`, `DotenvLocality`, `DotenvSplice`, `DotenvOrder`, `DotenvTrap`, `DotenvEncoding`, `DotenvApply`, `DotenvChange`, `DotenvLayout`, `DotenvRoundTrip`, `DotenvDocument` | exactly the files of a grammar are read, as what they say; a file is changed exactly as asked, and comments, spaces and breaks stay |
| durable jobs | `JobTypes`, `JobStore`, `JobRuns`, `JobWorker`, `JobLives` | one execution for each acceptance, through crashes and unclear commits; every execution settles |
| operation results | `OperationResult`, `RenewalAttempts`, `OperationExecutor` | what is recorded about a run follows from the evidence, and is always accepted by the jobs store |
| sessions | `SessionStore`, `SessionRuns`, `SessionIdle`, `SessionLives`, `SessionService` | revocation, rotation, grace, idle and absolute expiry in every interleaving of requests, and who stays logged in |
| login limiter | `LimiterRules`, `LimiterBounds`, `LimiterWindows`, `Limiter` | exactly which logins are admitted, told from the windows of earlier ones, and when the announced wait is enough |
| native configuration | `YamlTree`, `YamlEdits`, `YamlChanges`, `YamlSelectors`, `YamlStore`, `YamlPut`, `YamlGrow`, `YamlWay`, `YamlDocument`, `YamlPreview`, `YamlLooks`, `YamlValidation` | edits of linked nodes in place refine edits of a tree; changes are local, their order does not matter, comments stay, and a secret that is replaced leaves no trace |
| password verifiers, tokens, schedules, inventory | `Base64`, `Decimal`, `Splitting`, `Verifier`, `TokenStream`, `Schedule`, `CertificateInventory` | exactly what is parsed, injectivity, next occurrences, reconciliation |

Code that works step by step is modelled as methods with loops, and objects that it updates as classes with those
fields; each is proved against a function or a predicate, and the properties are proved of these.

Where the code does less than one may expect, the model follows the code and says exactly when it does what is expected:

- A dotenv change may be refused for the order in which an unstable sort leaves two edits that start at one place
  (`DotenvTrap.TrapIffRefused` says exactly when, `DotenvTrap.TrapExample` gives a file).
- The wait that a refused login is told may be too short once the clock has been set back
  (`LimiterBounds.WaitExactly`, `LimiterBounds.WaitMayFail`).
- A phase report made by a clock behind the request commits a row that no later read accepts
  (`JobStore.PhaseKeepsValid`, `JobStore.PhaseBehindClock`).
- A clean result for other certificates than were requested stops the worker (`JobWorker.ExecutedFailsOnlyOnScope`); the
  executor never gives one (`OperationExecutor.ExecutorNeverStopsWorker`).
- A removal that prunes empty parents and whose selector ends in a binding is always refused
  (`YamlPreview.PreviewedIff`).
- The parser of password verifiers, documented as strict, skips line breaks inside their Base64 parts
  (`Verifier.FormatParsed`, `Verifier.BreakIsAccepted`).

## Model

| member | source | states |
|---|---|---|
| `RedactionSpec.RedactIsPatternFree` | internal/redaction/redaction.go:137-161 | for any secrets and any input, no secret occurs anywhere in the text returned, not even one that deletions have put together |
| `RedactionSpec.RedactIdentity` | internal/redaction/redaction.go:137-161 | a text comes back unchanged if and only if it holds no secret |
| `RedactionSpec.RedactIdempotent` | internal/redaction/redaction.go:137-161 | a second pass over the text returned changes nothing |
| `RedactionSpec.RedactOnlyDeletesPatterns` | internal/redaction/redaction.go:137-161 | the text returned is reached from the input by deleting occurrences of secrets one after the other, and by nothing else |
| `RedactionSpec.RedactDependsOnPatternSet` | internal/redaction/redaction.go:137-161 | the order and the repetition of the secrets make no difference |
| `Redaction.BuildAutomaton` | internal/redaction/redaction.go:197-255 | an automaton for exactly these patterns is built, unless they have more distinct prefixes than there may be states, and then none is |
| `Redaction.Filter.Insert` | internal/redaction/redaction.go:202-228 | the trie has one state for each prefix of the patterns so far, and one more pattern keeps that; it is given up only when every list that begins with these patterns is too large |
| `Redaction.Filter.LinkFailures` | internal/redaction/redaction.go:229-253 | after the breadth-first pass each state links to the state of its longest proper suffix and knows the longest pattern that ends it |
| `Redaction.Filter.Transition` | internal/redaction/redaction.go:257-267 | walking the chain of siblings finds the child of a byte, or that there is none |
| `Redaction.Filter.Advance` | internal/redaction/redaction.go:269-279 | following failure links ends in the state of the longest suffix, of the state's text and the byte, that is a prefix of a pattern |
| `Redaction.Filter.Bytes` | internal/redaction/redaction.go:137-161 | the scan with its stack of states computes the redaction, for every input; an empty filter returns its input |
| `Redaction.Filter.Clear` | internal/redaction/redaction.go:184-195 | no state, edge or root transition is left |
| `BrokerOutput.Collector.Write` | internal/broker/output.go:52-82 | every write reports its full length, what is kept stays within all three limits, and overflow is announced at the first write that does not fit and never again |
| `BrokerOutput.Collector.Take` | internal/broker/output.go:84-100 | both streams are released whole, or neither: neither exactly when some limit was exceeded by all that was written |
| `BrokerOutput.SanitizeOutput` | internal/broker/output.go:106-126 | the loop over runes computes the sanitized text |
| `BrokerOutput.SanitizedIsPlain` | internal/broker/output.go:106-126 | whatever the bytes, the result is valid UTF-8 without control or format runes but for line feed and tab |
| `BrokerOutput.SanitizedIdentity` | internal/broker/output.go:106-126 | exactly plain text is left as it is |
| `BrokerOutput.SanitizedRunes` | internal/broker/output.go:106-126 | valid text is sanitized rune by rune: each plain rune stays, each other one becomes a question mark, and their order stays |
| `BrokerOutput.SanitizedBroken` | internal/broker/output.go:106-126 | where no rune begins, one byte becomes a question mark and the text goes on behind it |
| `Utf8.DecodeEncoded` | internal/broker/output.go:106-126 | every code point is read back from its encoding, whatever follows |
| `Utf8.EncodeDecoded` | internal/broker/output.go:106-126 | what is read as a rune is its one encoding |
| `Utf8.ValidIsEncoded` | internal/broker/output.go:106-126 | valid texts are the encodings of runes, one after the other |
| `BrokerOutput.SafeOutput` | internal/broker/runner_linux.go:203-215 | redacting, sanitizing and redacting again leaves no secret and nothing longer than what was captured; with secrets that are valid UTF-8 it leaves only plain text: the second redaction does not undo the sanitizing |
| `BrokerOutput.OnePassLeaks` | internal/broker/runner_linux.go:211-215 | without the second redaction a secret that sanitizing puts together would remain: a concrete one |
| `BrokerRunner.ReportOutput` | internal/broker/runner_linux.go:197-222 | the automaton, the sanitizer and the automaton again run over what the collector releases; the report holds no secret, only plain text when the secrets are valid UTF-8, and nothing at all when a limit was exceeded |
| `DotenvScanner.ScanEntries` | internal/dotenv/dotenv.go:433-504 | the scan finds exactly the statements of the file, where they stand, which are managed and which are not, or fails with the code of the first fault; `DotenvGrammar` says which files these are |
| `DotenvGrammar.ReadIffWritten` | internal/dotenv/dotenv.go:433-562 | the scanner accepts exactly the files of a grammar, and reads of each exactly what it says: a bare value ends before its comment and the space in front of that, a quoted one at the first such quote that no backslash precedes |
| `DotenvGrammar.TextReads` | internal/dotenv/dotenv.go:433-562 | every file put together from assignments, comments and space by these rules is read as what was put in |
| `DotenvGrammar.PartReads` | internal/dotenv/dotenv.go:433-562 | the same of one assignment or comment, whatever follows it: its key, its value byte for byte and where it stands |
| `DotenvKeys.TrimIff` | internal/dotenv/dotenv.go:470-518 | the key read is exactly what stands between white space, in Unicode terms |
| `DotenvGrammar.Characters` | internal/dotenv/dotenv.go:681-702 | the characters that these rules speak of |
| `DotenvScanner.ContainsExpansion` | internal/dotenv/dotenv.go:564-578 | a value is said to expand exactly when it holds a dollar behind an even number of backslashes |
| `DotenvScanner.SkipWhitespace` | internal/dotenv/dotenv.go:681-691 | stops at the first byte that is no white space |
| `DotenvScanner.SkipHorizontal` | internal/dotenv/dotenv.go:693-698 | stops at the first byte that is no horizontal space |
| `DotenvScanner.ConsumeLine` | internal/dotenv/dotenv.go:704-717 | stops behind the line and its break, a carriage return and line feed being one |
| `DotenvScanner.CurrentLineStart` | internal/dotenv/dotenv.go:674-679 | goes back to the byte behind the last break |
| `DotenvPolicy.ValidateAllowedKeys` | internal/dotenv/dotenv.go:401-418 | accepts exactly lists of distinct valid keys, and sorts them |
| `KeyOrder.LessIff` | internal/dotenv/dotenv.go:401-418 | keys are in byte order: the first difference decides, and a prefix comes first |
| `DotenvPolicy.LineCount` | internal/dotenv/dotenv.go:652-672 | the loop counts the lines |
| `DotenvPolicy.LinesAreBreaks` | internal/dotenv/dotenv.go:652-672 | the lines are the breaks, and one more when the text does not end with a break |
| `DotenvPolicy.NewlineKind` | internal/dotenv/dotenv.go:638-646 | in a file all of whose breaks are of one kind that kind is found, and the line feed in a file without breaks |
| `DotenvPolicy.NewlineFirst` | internal/dotenv/dotenv.go:638-646 | in a file that mixes them the first line feed decides, and without any the carriage return |
| `DotenvEncoding.EncodeValue` | internal/dotenv/dotenv.go:580-621 | tries single quotes, then double quotes with escapes, and keeps what the upstream parser reads back |
| `DotenvEncoding.EncodingIsClosed` | internal/dotenv/dotenv.go:580-636 | whatever is written is closed by the scanner at its last byte, and never read as an expansion |
| `DotenvEncoding.EncodingChooses` | internal/dotenv/dotenv.go:580-621 | a value without single quotes is written literally between them whenever that reads back, any other escaped between double quotes when that does, and otherwise it is refused |
| `DotenvEncoding.FileRulesEncode` | internal/dotenv/dotenv.go:580-636 | by the rules of the file exactly the values that do not end with a backslash can be written |
| `DotenvLocality.ItemsConcat` | internal/dotenv/dotenv.go:433-504 | the statements of two texts that meet at a boundary are those of the one and then those of the other: no statement is read across |
| `DotenvSplice.CoverItems` | internal/dotenv/dotenv.go:317-327 | the spliced text says what the file said before, changed exactly as the operations ask, statement by statement |
| `DotenvOrder.MergeIffFileOrder` | internal/dotenv/dotenv.go:301-327 | merging adjacent edits succeeds exactly when the sort has left file order, and then the splice writes exactly the bytes that no edit covers, with the replacements |
| `DotenvTrap.StatementsApart` | internal/dotenv/dotenv.go:433-504 | the places of the statements never touch, so that edits of values never meet each other |
| `DotenvTrap.TieIsTrap` | internal/dotenv/dotenv.go:281-301 | two edits start at one place exactly when an empty value is replaced directly in front of the line break that the removal of an unterminated last statement takes with it |
| `DotenvTrap.TrapIffRefused` | internal/dotenv/dotenv.go:301-316 | in that case, and in no other, an order that the sort may leave is refused |
| `DotenvTrap.TrapExample` | internal/dotenv/dotenv.go:281-316 | a file and two changes for which the case arises |
| `DotenvChange.EditedMeaning` | internal/dotenv/dotenv.go:246-361 | in the result a key that no change names has its value byte for byte, a replaced key has exactly the encoded value, a removed key is gone, and nothing else appears |
| `DotenvChange.EditedKeys` | internal/dotenv/dotenv.go:246-361 | the keys of the result are those there were and those replaced, without those removed |
| `DotenvChange.AcceptedIff` | internal/dotenv/dotenv.go:246-299 | changes are accepted exactly when each names an allowed key and a known action, with a value that is short, clean and can be written, and no key is named twice |
| `DotenvChange.ReplacedReads` | internal/dotenv/dotenv.go:246-361 | in the result each replaced key has a value that the upstream parser reads as the one submitted |
| `DotenvDocument.SummariesTell` | internal/dotenv/dotenv.go:281-299 | the summary tells every replacement, and a removal exactly when there was something to remove |
| `DotenvLayout.CoverIsLaid` | internal/dotenv/dotenv.go:281-345 | splicing writes exactly the old text statement by statement: what stands between statements, and each line with its old value, its new one, or not at all |
| `DotenvLayout.AssignmentStays` | internal/dotenv/dotenv.go:281-345 | an assignment that is not removed is in the result with its export, its spaces and the comment behind its value, whether the value is replaced or not |
| `DotenvLayout.RemarkStays` | internal/dotenv/dotenv.go:281-345 | every comment line is in the result, whatever is replaced, removed or added |
| `DotenvLayout.AddedKeepEnd` | internal/dotenv/dotenv.go:329-345 | a file to which keys are added ends with a break exactly when it did before |
| `DotenvLayout.AddedKeepBreaks` | internal/dotenv/dotenv.go:329-345 | a file with breaks of one kind has only such breaks when keys have been added |
| `DotenvRoundTrip.AddThenRemove` | internal/dotenv/dotenv.go:246-361 | adding a key that is not there and removing it from the result restores the file byte for byte, whatever its line breaks |
| `DotenvDocument.Document.Parse` | internal/dotenv/dotenv.go:135-193 | succeeds exactly on files within the policy whose scan succeeds and whose managed values the upstream parser reads as the file says; otherwise fails with the code of what is wrong |
| `DotenvDocument.Document.Apply` | internal/dotenv/dotenv.go:246-361 | gives the edited file and its summary, or the code of the first faulty change, or fails because the candidate does not parse, or, in the case of `DotenvTrap`, for the order of edits; the document stays |
| `DotenvDocument.Document.Clear` | internal/dotenv/dotenv.go:380-390 | forgets the text and everything read from it, after which every change is refused |
| `JobTypes.ValidateRequest` | internal/jobs/types.go:175-214 | the check of a request, item by item, accepts exactly valid requests |
| `JobTypes.ValidateItems` | internal/jobs/types.go:351-374 | the check of item results accepts exactly distinct names with known states and valid codes |
| `JobTypes.PlainTextIff` | internal/jobs/types.go:298-325 | exactly the encodings of runes that are no control characters are accepted as text, and as output those with line feeds, carriage returns and tabs as well |
| `JobTypes.CleanPathIff` | internal/jobs/types.go:221-223 | exactly the root, and names behind slashes of which none is empty, a dot or two dots, are accepted as paths |
| `JobTypes.RequestSurvives` | internal/jobs/store.go:548-577 | a valid request is read back from its stored rows as it was |
| `JobStore.Store.EnqueueKind` | internal/jobs/store.go:42-118 | the row after the transaction and the answer, for a commit, a failure and a commit of unknown outcome |
| `JobStore.EnqueueAccepts` | internal/jobs/store.go:42-118 | a request is accepted exactly when it is valid and nothing active or unreconciled blocks it, and the queued row is then exactly the request, with nothing else in any field |
| `JobStore.Store.Claim` | internal/jobs/store.go:142-187 | claims a queued row and nothing else |
| `JobStore.ClaimSucceeds` | internal/jobs/store.go:142-187 | with a clock not behind the row, a valid queued row is claimed |
| `JobStore.ClaimRecords` | internal/jobs/store.go:142-187 | a claim starts the operation at that moment in its first phase, and changes nothing else |
| `JobStore.Store.UpdatePhase` | internal/jobs/store.go:190-235 | advances the phase of a running row by a valid transition and nothing else |
| `JobStore.PhaseKeepsValid` | internal/jobs/store.go:190-235 | the row stays valid exactly when the clock is not behind the request |
| `JobStore.PhaseBehindClock` | internal/jobs/store.go:190-235 | otherwise a row is committed that no later read accepts |
| `JobStore.PhaseRecords` | internal/jobs/store.go:190-235 | a report records its phase and moment, and changes nothing else |
| `JobStore.Store.Finish` | internal/jobs/store.go:239-244 | records a checked result, covering exactly the requested items, over a running row and over nothing else |
| `JobStore.Store.FinishUncertain` | internal/jobs/store.go:249-258 | records an uncertain end with an uncertain result for every requested item |
| `JobStore.FinishRecords` | internal/jobs/store.go:260-351 | a result is recorded as it is in every field: state, code, inventory, output, truncation and the result of each certificate |
| `JobStore.UncertainRecords` | internal/jobs/store.go:249-258 | an uncertain end records no output, an unknown inventory and every requested certificate as ambiguous |
| `JobStore.FinishAdvances` | internal/jobs/store.go:260-351 | a finished row is valid and terminal, has a result for every requested item in order, and an unknown inventory only where that is allowed |
| `JobStore.Store.InterruptRunning` | internal/jobs/store.go:355-418 | a running row becomes an interrupted one; any other is left alone |
| `JobStore.InterruptSucceeds` | internal/jobs/store.go:355-418 | with a clock not behind the row, a valid running row is interrupted |
| `JobStore.InterruptRecords` | internal/jobs/store.go:355-418 | an interruption found at the next start records the same under its own code |
| `JobStore.Store.PendingReconciliation` | internal/jobs/store.go:422-432 | finds the uncertain operation whose inventory is unknown |
| `JobStore.Store.CompleteReconciliation` | internal/jobs/store.go:437-487 | records an inventory once, for that operation only |
| `JobStore.ReconcileRecords` | internal/jobs/store.go:437-487 | a reconciliation records the inventory it is given and changes nothing else of the result |
| `JobRuns.ExecutedAtMostOnce` | internal/jobs/worker.go:187-321 | in every run, with a crash after any commit, commits of unknown outcome and any number of restarts, the executor is called for an operation id at most once for each acceptance of it |
| `JobRuns.AcceptedOnlyWhenFree` | internal/jobs/store.go:42-118 | a request is accepted only when there is no row, or a finished one whose inventory is known |
| `JobRuns.OnlyOnward` | internal/jobs/store.go:42-487 | until another request is accepted, an operation keeps all it was accepted with and never goes back |
| `JobRuns.NeverQueuedAgain` | internal/jobs/store.go:355-418 | a started operation is never queued again, and a finished one never runs again |
| `JobRuns.EveryRowValid` | internal/jobs/store.go:672-738 | with a clock that never runs back, every row that is ever committed can be read back |
| `JobWorker.Service.Execute` | internal/jobs/worker.go:267-321 | what the worker makes of any sequence of reports and any outcome, panics included |
| `JobWorker.ExecutedSettles` | internal/jobs/worker.go:267-321 | an execution that ends without an error leaves a valid terminal row with a known inventory: the executor's own result in every field when it was clean, and when not an ambiguous end of every certificate, without output, with the right code and the inventory read afterwards |
| `JobWorker.CleanIffOrderly` | internal/jobs/worker.go:267-321 | with a healthy database an execution is clean exactly when the executor returns a valid result and has reported the refresh of the inventory last, at most the execution before it, and nothing else |
| `JobWorker.HealthyPhases` | internal/jobs/worker.go:267-321 | with a healthy database a report fails exactly when it breaks the order of phases |
| `JobWorker.FailureCodes` | internal/jobs/worker.go:267-321 | which of the three codes an uncertain end has |
| `JobWorker.ExecutedFailsOnlyOnScope` | internal/jobs/worker.go:267-321 | with a healthy database the worker stops exactly on an otherwise clean result that names other certificates than were requested |
| `JobWorker.Service.Recover` | internal/jobs/worker.go:252-265 | interrupts what was running, then reconciles what is pending |
| `JobWorker.RecoveredSettles` | internal/jobs/worker.go:252-265 | a recovery that succeeds leaves nothing running and no unknown inventory but that of a queued operation, and says whether it interrupted one |
| `JobWorker.RecoveredRecords` | internal/jobs/worker.go:252-265 | field by field: a running operation is recorded as interrupted with the inventory read now, one with an unknown inventory gets that, and every other row is left as it is |
| `JobWorker.HealthyRecovery` | internal/jobs/worker.go:252-265 | with a healthy database recovery succeeds from every valid row, and fails on a row that is invalid and not running |
| `JobWorker.Service.Reconcile` | internal/jobs/worker.go:333-344 | records the inventory read, or that it is unavailable when reading panicked or gave an invalid one |
| `JobWorker.ReconciledInventories` | internal/jobs/worker.go:333-344 | a valid inventory is recorded as it was read, anything else as unavailable |
| `JobWorker.Service.Run` | internal/jobs/worker.go:187-250 | the whole life of the worker: recovery, then rounds until it is stopped or fails |
| `JobWorker.QueuedIsSettled` | internal/jobs/worker.go:187-250 | with a healthy database a queued operation is claimed in the next round and settled in it, whatever arrives meanwhile, unless its result is out of scope |
| `JobWorker.Service.Accept` | internal/jobs/worker.go:123-140 | what arrives is offered to the store one after the other |
| `JobWorker.Service.Status` | internal/jobs/worker.go:145-165 | shows work in progress, and a finished operation with unknown inventory as running |
| `JobWorker.Service.Latest` | internal/jobs/worker.go:170-182 | shows a finished operation whose inventory is known |
| `JobWorker.StatusOrLatest` | internal/jobs/worker.go:145-182 | of every valid row exactly one of the two shows something, and the one in progress is exactly what blocks acceptance, shown without results |
| `JobLives.LifeTaken` | internal/jobs/worker.go:187-250 | every life of the worker is a run of the state machine to the same row |
| `JobLives.LivesExecuteOnce` | internal/jobs/worker.go:187-344 | a service started any number of times, cut off behind any step, calls the executor for an operation at most as often as that was accepted |
| `OperationResult.OperationOutput` | internal/operation/executor.go:438-463 | joins the streams and cuts them back to the last whole rune within the bound |
| `OperationResult.CombinedShows` | internal/operation/executor.go:438-452 | each stream that is not empty is there in full behind its own mark on a line of its own, standard output first |
| `OperationResult.OutputPersists` | internal/operation/executor.go:438-463 | output of plain streams may always be persisted; it is a prefix of both streams, cut within three bytes of the bound and never inside a rune |
| `OperationResult.ChangedCertificateNames` | internal/operation/executor.go:417-430 | names exactly the certificates whose artifact is new or differs from before |
| `OperationResult.ClassifyExecution` | internal/operation/executor.go:271-351 | the verdict and the item results for every outcome of the broker and all evidence |
| `OperationResult.ClassifiedMeans` | internal/operation/executor.go:271-351 | success is claimed exactly for a conclusive success, and then every certificate is completed; a result is partial exactly when a conclusive run failed with completed and uncompleted certificates; a certificate is completed exactly when the run succeeded or its artifact was seen to change |
| `OperationResult.StatesMean` | internal/operation/executor.go:271-351 | every state of a result, if and only if, by what the broker saw and which artifacts changed |
| `OperationResult.ItemStatesMean` | internal/operation/executor.go:271-351 | every state of one certificate, if and only if: it is not attempted only when the run was not, and ambiguous only when nothing tells |
| `OperationResult.CodesMean` | internal/operation/executor.go:271-351 | the code of the whole goes with its state, or tells what was found behind the run, or why the broker gave up |
| `OperationResult.ItemCodesMean` | internal/operation/executor.go:271-351 | the code of one certificate tells why it has its state |
| `RenewalAttempts.FailedRenewalCertificate` | internal/operation/executor.go:358-385 | the loop over the lines finds the last one that names a certificate whose artifact is as before |
| `RenewalAttempts.FailedIff` | internal/operation/executor.go:271-385 | a certificate is recorded as failed exactly when a conclusive run failed with all its output kept, the inventory was read, its artifact is as before, and the last line about such a certificate names this one |
| `OperationResult.ClassifiedIsAccepted` | internal/operation/executor.go:271-351 | whatever a run does, its classification is a result that the jobs store accepts, naming exactly the requested certificates in order |
| `OperationExecutor.Execute` | internal/operation/executor.go:30-155 | the broker runs exactly when every precondition holds and the execution phase was recorded, at most once, and in the reported order; without a run the first fault decides the code; with one the result is its classification |
| `OperationExecutor.FinishWithoutRun` | internal/operation/executor.go:171-191 | a valid result for the requested certificates that claims no change |
| `OperationExecutor.ExecutorNeverStopsWorker` | internal/operation/executor.go:30-155 | with a healthy database an operation that this executor runs always ends settled, in the state it was given |
| `SessionStore.CreateRows` | internal/identity/session.go:89-157 | a creation leaves only living rows, unchanged, and the new one, within the bound; the new one stays when no row was used later and none has a larger id |
| `SessionStore.NewestBounded` | internal/identity/session.go:145-157 | no more rows than the bound remain |
| `SessionStore.NewestKeeps` | internal/identity/session.go:145-157 | the row used last, and of these the one with the largest id, remains |
| `SessionStore.CreateSpares` | internal/identity/session.go:89-157 | a creation ends no session that it need not end: as many remain as the policy allows, and whichever goes was used before every one that remains, or with it under a smaller id |
| `SessionRuns.RevokedForGood` | internal/identity/service.go:153-192 | in every interleaving, once the epoch has been advanced no token issued before is accepted by any later update, however long before its row was loaded, and no login checked before gets a session |
| `SessionRuns.ReplacedAtMostOnce` | internal/identity/session.go:220-268 | of all validations of a token, in any run, at most one is given a replacement |
| `SessionRuns.GraceEnds` | internal/identity/session.go:220-304 | a replaced token is never accepted once the grace fixed at its replacement has ended, and never replaced again |
| `SessionRuns.ExpiryHolds` | internal/identity/session.go:179-304 | a token is accepted only before the absolute expiry fixed at login, which every rotation hands on with the CSRF token, and a previous token only within its grace |
| `SessionIdle.IdleHolds` | internal/identity/session.go:179-304 | in every interleaving a token is accepted only below the idle expiry of the row that was loaded, and only when its session was created, or one of its tokens accepted, less than the idle time ago |
| `SessionIdle.UndisturbedIff` | internal/identity/session.go:179-304 | whom nobody disturbs is accepted if and only if the token comes before its idle expiry, its absolute expiry and, for a previous one, the end of its grace; replaced if and only if due; and then its row alone changes, as told |
| `SessionIdle.UndisturbedEnds` | internal/identity/session.go:179-304 | whoever comes too late loses the row, and a previous token that comes too late is forgotten |
| `SessionIdle.NextVisit` | internal/identity/session.go:179-304 | whoever comes back within the idle time and before the absolute expiry, with the token last told, stays logged in |
| `SessionIdle.GraceHolds` | internal/identity/session.go:220-304 | a replaced token is still accepted, and not replaced again, until its grace ends |
| `SessionIdle.FirstVisit` | internal/identity/session.go:61-304 | a new session is accepted exactly until its idle time has passed, and its token replaced exactly when due |
| `SessionRuns.CleanupIsBound` | internal/identity/session.go:306-324 | cleanup by a stale validation removes at most the session that it had loaded, never one created since under the same row id |
| `SessionRuns.SessionsBounded` | internal/identity/session.go:145-157 | there are never more sessions than the policy allows |
| `SessionRuns.NewSessionSurvives` | internal/identity/session.go:61-167 | a login of the current epoch has a session afterwards that its token selects, when no row was used later and none has a larger id |
| `SessionLives.OneIsSelected` | internal/identity/session.go:326-359 | after any history a token selects one row at most, as a current or as a previous token |
| `SessionService.Service.Initialize` | internal/identity/service.go:98-132 | creates the administrator exactly when there is none |
| `SessionService.Service.Authenticate` | internal/identity/service.go:196-232 | a session is created exactly when the password was right and the epoch at creation is the one loaded before; then no revocation lies between check and creation |
| `SessionService.Service.CreateSession` | internal/identity/session.go:61-167 | the creation is a possible step of the machine, and succeeds exactly in the epoch it was asked for |
| `SessionService.Service.ValidateOnce` | internal/identity/session.go:179-304 | load, other requests and the second statement are possible steps; a token is accepted only if issued after the last revocation and only if its session was active within the idle time, and given a replacement only if none was given before; expiry is told exactly when the loaded row has ended, an accepting answer tells what is in the row, and when nobody disturbs it is given exactly when the token is in time |
| `SessionService.Service.ValidateSession` | internal/identity/session.go:179-304 | a rotation that was overtaken is tried once more without rotation; both passes are as in `ValidateOnce`, and whatever other requests do meanwhile, an accepted token was issued after the last revocation |
| `SessionService.Service.DeleteExpiredSession` | internal/identity/session.go:306-324 | deletes the loaded row only under its epoch and the presented token |
| `SessionService.Service.LoadSession` | internal/identity/session.go:326-359 | finds a row that the token selects in the current epoch, or that there is none |
| `SessionService.Service.Revoke` | internal/identity/service.go:153-192 | advances the epoch and deletes every session in one step |
| `SessionService.Service.LogOut` | internal/identity/session.go:363-374 | deletes exactly the rows that the token selects, as a current or as a previous one |
| `Limiter.LoginLimiter.Allow` | internal/httpapi/limiter.go:82-103 | the state and the answer after a call, for any clock |
| `Limiter.LoginLimiter.Available` | internal/httpapi/limiter.go:144-166 | refills by the time that has passed, never by time that runs back, and tells whether a token is there or how long until it is |
| `Limiter.LoginLimiter.ClientBucket` | internal/httpapi/limiter.go:119-131 | the client of a key, a new one, or the shared one when there are too many |
| `Limiter.LoginLimiter.ExpireIdleClients` | internal/httpapi/limiter.go:133-142 | forgets exactly the clients that have been idle for the expiry, in whatever order they are visited |
| `LimiterBounds.CallSpends` | internal/httpapi/limiter.go:82-103 | a refused call takes nothing from either bucket, an admitted one exactly one token from each, and nobody else's bucket changes but by expiry |
| `LimiterBounds.AdmissionsBounded` | internal/httpapi/limiter.go:82-103 | for every sequence of calls, whatever the keys and clocks, no more logins are admitted than the capacity and one for each refill interval |
| `LimiterWindows.WindowLaw` | internal/httpapi/limiter.go:144-166 | a bucket holds exactly the least that any window ending now leaves of the capacity and the refill since its start |
| `LimiterWindows.TokenIffAllowed` | internal/httpapi/limiter.go:144-166 | a token is there if and only if every window allows one more |
| `LimiterWindows.AdmittedIffAllowed` | internal/httpapi/limiter.go:82-142 | with a forward clock, few enough callers and an expiry no shorter than a full refill, a call is admitted if and only if every window ending now allows one more, among all calls and among those of its key |
| `LimiterWindows.RefusalExplained` | internal/httpapi/limiter.go:82-166 | with any keys and clocks, a refusal means that in some window ending now the admissions have used up the capacity and the refill: among all calls, those of this key, or those that shared a bucket |
| `LimiterWindows.CapacityGranted` | internal/httpapi/limiter.go:82-166 | of any calls the first are all admitted, as many as both capacities allow |
| `LimiterWindows.RememberedIff` | internal/httpapi/limiter.go:119-142 | with a forward clock exactly the callers of the last idle time are remembered, and when they called last |
| `LimiterBounds.ClientsBounded` | internal/httpapi/limiter.go:119-131 | however many addresses call, no more than the maximum are remembered |
| `LimiterBounds.AdmittedIffDue` | internal/httpapi/limiter.go:82-103 | a call is admitted if and only if both buckets are due by their own clocks |
| `LimiterBounds.WaitExactly` | internal/httpapi/limiter.go:91-99 | the wait told to a refused caller is enough, for every later call and nobody else calling, if and only if both buckets are due at its end |
| `LimiterBounds.WaitSuffices` | internal/httpapi/limiter.go:91-99 | it is enough when the refusing clock was not behind the buckets |
| `LimiterBounds.WaitIsNeeded` | internal/httpapi/limiter.go:82-103 | nor is it longer than need be: who has a bucket of its own and comes back sooner is refused |
| `LimiterBounds.WaitMayFail` | internal/httpapi/limiter.go:144-166 | with a clock set back it may not be: an input for which the condition and the wait both fail |
| `LimiterBounds.ExpiryChangesNoAnswer` | internal/httpapi/limiter.go:133-142 | with a forward clock, few enough callers and an expiry no shorter than a full refill, forgetting idle clients changes no answer and no wait |
| `YamlEdits.SetReadsBack` | internal/nativeconfig/yaml.go:161-215 | what is set reads back, what was there before is returned, and when no change is reported there is none |
| `YamlEdits.SetRefusedIff` | internal/nativeconfig/yaml.go:161-215 | a set fails exactly when something on the way is no mapping |
| `YamlEdits.SetElsewhere` | internal/nativeconfig/yaml.go:161-215 | every path that diverges reads what it read |
| `YamlEdits.SetAbove` | internal/nativeconfig/yaml.go:161-215 | above the path there are mappings afterwards, and were mappings or nothing before |
| `YamlEdits.SetKeepsOrder` | internal/nativeconfig/yaml.go:161-215 | keys keep their order, and at most the missing one is added at the end |
| `YamlEdits.SetKeepsUnique` | internal/nativeconfig/yaml.go:161-215 | keys stay unique |
| `YamlEdits.RemoveIsGone` | internal/nativeconfig/yaml.go:217-256 | what is removed is gone, with all below it |
| `YamlEdits.RemoveElsewhere` | internal/nativeconfig/yaml.go:217-256 | every path that diverges reads what it read, though mappings are pruned |
| `YamlEdits.PrunedIff` | internal/nativeconfig/yaml.go:243-254 | a mapping above disappears exactly when it is deeper than the kept levels and held nothing but the way to what is removed |
| `YamlEdits.RemoveKeepsUnique` | internal/nativeconfig/yaml.go:217-256 | keys stay unique |
| `YamlLooks.SetStands` | internal/nativeconfig/yaml.go:161-215 | every mapping on the way keeps its comments, style and anchor, all its keys as they are written, and every value but that of the next key; a missing key is added behind them |
| `YamlLooks.SetPresents` | internal/nativeconfig/yaml.go:178-215 | a value that replaces another stands between its comments, with its anchor; a forced text gets quotes that it did not have, a value of the same kind the style that was there |
| `YamlLooks.SetChangedIff` | internal/nativeconfig/yaml.go:183-215 | a change is reported exactly when the value was not there or differs, and for a forced set always |
| `YamlLooks.RemoveStands` | internal/nativeconfig/yaml.go:217-256 | every mapping on the way that stays keeps its presentation and all its entries but the next one on the path |
| `YamlChanges.ChangeSetsLeaf` | internal/nativeconfig/engine.go:415-442 | one change sets one leaf, or clears it with all below, and touches no path that diverges |
| `YamlChanges.ApplyAllSucceedsIff` | internal/nativeconfig/engine.go:280-291 | a list of diverging changes succeeds exactly when none is blocked in the document as it was and no depth is out of range |
| `YamlChanges.ApplyAllLeaf` | internal/nativeconfig/engine.go:280-291 | the value at every path after the list, told from the list and the document as it was |
| `YamlChanges.OrderDoesNotMatter` | internal/nativeconfig/engine.go:280-291 | diverging changes succeed together or fail together in every order, and leave the same value at every path |
| `YamlSelectors.Match` | internal/integrations/manifest.go:206-224 | the loop over the selector finds the bindings of a path, or that it does not match |
| `YamlSelectors.Resolve` | internal/integrations/manifest.go:244-266 | bindings resolve exactly when they are the declared ones with valid values, to the path they stand for |
| `YamlSelectors.ResolvedMatches` | internal/integrations/manifest.go:206-266 | a resolved path matches, and gives its bindings back |
| `YamlSelectors.MatchedResolves` | internal/integrations/manifest.go:206-266 | a path that matches resolves from its bindings to itself |
| `YamlSelectors.DifferentBindingsDiverge` | internal/integrations/manifest.go:244-266 | different bindings of one field address paths of which neither leads through the other |
| `YamlSelectors.DifferentFieldsDiverge` | internal/integrations/manifest.go:244-266 | so do any bindings of two fields whose selectors name different keys at one place |
| `YamlPreview.PreserveDepth` | internal/nativeconfig/engine.go:427-437 | the loop finds one more than the last bound segment, zero without one, or all levels but the last |
| `YamlPreview.Prepare` | internal/nativeconfig/engine.go:235-278 | requests are accepted exactly when each names a managed field with bindings that resolve and no field is named twice; they become changes in their order |
| `YamlPreview.Preview` | internal/nativeconfig/engine.go:227-291 | the candidate is a copy on which the accepted requests were carried out in place, one after the other; the document stays; at the first refusal there is none |
| `YamlPreview.PreviewedIff` | internal/nativeconfig/engine.go:227-291 | for separate fields the preview succeeds exactly when the requests are accepted, nothing in the document is in the way of one, and no removal prunes from a selector that ends in a binding |
| `YamlPreview.PreviewedReads` | internal/nativeconfig/engine.go:280-291 | after all requests each field reads as its own request asked |
| `YamlPreview.RequestOrderDoesNotMatter` | internal/nativeconfig/engine.go:235-291 | in every order the requests for separate fields succeed or fail alike and leave the same value at every path |
| `YamlLooks.PreviewedPresents` | internal/nativeconfig/engine.go:280-291 | after all requests a field that was set stands between its old comments; a secret is always rewritten, any other value only when it differs |
| `YamlLooks.PreviewedElsewhere` | internal/nativeconfig/engine.go:280-291 | what no request leads to or through is exactly as it was, presentation included |
| `YamlLooks.SecretsHidden` | internal/nativeconfig/engine.go:280-291 | two documents that differ only in a secret become the same candidate when that is set, whatever else is asked for: the candidate does not tell whether the secret was the same |
| `YamlLooks.RemovalPrunes` | internal/nativeconfig/engine.go:427-437 | a mapping above a removed field is cleared away exactly when the field asks for it, no binding names it or anything further down, and it holds nothing else |
| `YamlDocument.Document.MappingValue` | internal/nativeconfig/yaml.go:134-144 | finds the first value of a key and its place among keys and values |
| `YamlDocument.Document.NodeAtPath` | internal/nativeconfig/yaml.go:146-159 | finds the node a path leads to, or that there is none |
| `YamlDocument.Document.EqualNodeValue` | internal/nativeconfig/yaml.go:258-268 | tells whether kind, tag, text and content agree, whatever the comments and styles |
| `YamlDocument.Document.CloneNode` | internal/nativeconfig/yaml.go:108-119 | gives fresh nodes with the same value, sharing none |
| `YamlDocument.Document.SetNodeAtPath` | internal/nativeconfig/yaml.go:161-215 | linked nodes changed in place have the value of the tree edit, with the same refusal, the same answer and a copy of what was there; a refused set leaves the value as it was |
| `YamlDocument.Document.RemoveNodeAtPath` | internal/nativeconfig/yaml.go:217-256 | the same for removal and pruning in place |
| `YamlDocument.Document.ApplyChange` | internal/nativeconfig/engine.go:415-442 | one change in place refines one change of the tree |
| `YamlDocument.Document.Preview` | internal/nativeconfig/engine.go:280-291 | all changes on a copy refine the list of changes of the tree, and the document stays |
| `YamlValidation.ValidateNode` | internal/nativeconfig/yaml.go:61-106 | the walk with an explicit stack accepts exactly the documents all of whose nodes are sound and not too deep, and which are not too many |
| `YamlValidation.SoundIff` | internal/nativeconfig/yaml.go:61-106 | these are exactly the documents of which every node that hangs anywhere has a standard tag, proper keys each once, and no more than the allowed depth above it |
| `YamlValidation.SoundIsUnique` | internal/nativeconfig/yaml.go:61-106 | what is accepted has no key twice, which the edits rely on |
| `Verifier.ParseFormatted` | internal/identity/password.go:78-165 | for all accepted parameters and lengths that match, what is printed is parsed back |
| `Verifier.ParseIff` | internal/identity/password.go:120-165 | a text is parsed to a value if and only if it is the printed text of that value, but for line breaks in its salt and hash, and not too long |
| `Verifier.FormatIs` | internal/identity/password.go:78-88 | what is printed, in full |
| `Base64.EncodedBits` | internal/identity/password.go:78-88 | three bytes are the same 24 bits as their four symbols, at every place, in as few symbols as that takes |
| `Base64.SymbolsAre` | internal/identity/password.go:78-88 | the symbols are those of table 1 in section 4 of RFC 4648 |
| `Verifier.FormatParsed` | internal/identity/password.go:120-165 | an accepted text is the printed one if and only if it has no line break |
| `Verifier.BreakIsAccepted` | internal/identity/password.go:120-165 | every printed text is accepted with a line break in it as well, as the same verifier |
| `TokenStream.TokenWriter.WritePreview` | internal/configuration/token.go:141-163 | the writer's stream is the framed preview, its value kinds, lengths and counts included |
| `TokenStream.PreviewInjective` | internal/configuration/token.go:141-184 | two previews with the same stream are the same preview: no two can share a token but by a collision of the hash |
| `Schedule.OccurrenceOnDate` | internal/scheduler/calculate.go:33-48 | finds the first instant of a local date that reaches the target minute, through repeated and skipped hours, or that there is none |
| `Schedule.NextOccurrence` | internal/scheduler/calculate.go:14-31 | the first occurrence behind an instant, for any zone |
| `Schedule.DatesAdvance` | internal/scheduler/calculate.go:14-31 | the occurrence after an occurrence is on a later local date, so that no date fires twice |
| `Schedule.ChainAdvances` | internal/scheduler/calculate.go:14-31 | so along any chain of occurrences both instants and dates strictly advance |
| `Schedule.NeverExhausted` | internal/scheduler/calculate.go:14-31 | the search never runs out of dates, and finds what it finds within three dates |
| `Schedule.FoundWhenPresent` | internal/scheduler/calculate.go:14-31 | with an occurrence on each searched date there is a next one |
| `Schedule.ShowsTarget` | internal/scheduler/calculate.go:33-48 | an occurrence shows the target on the wall clock to the minute, unless the clock has just been set |
| `Schedule.SteadyNext` | internal/scheduler/calculate.go:14-48 | where the clock is never set, the next occurrence is the target minute that comes within a day |
| `CertificateInventory.DecodeInventory` | internal/inventory/decode.go:66-123 | succeeds exactly when counts agree and every reported certificate is consistent with what was audited; then the result is sorted and covers all that was reported; otherwise some certificate fails with that code |
| `CertificateInventory.ConsistentIff` | internal/inventory/decode.go:66-123 | what consistent means: each candidate has proper texts, an expired field and an expiration, a canonical path under the root that ends in its name and was audited, and no two share a path or a name |
| `CertificateInventory.RefusalMeans` | internal/inventory/decode.go:66-123 | which code a refused candidate gives: outside the storage exactly for a canonical path not under the root, duplicate exactly for an otherwise sound one whose path or name was there before |
| `CertificateInventory.ReconciledFields` | internal/inventory/decode.go:66-123 | each certificate has the name, domains, issuer, path and expiration that were reported, and what was audited of its path |
| `CertificateInventory.ReconciledExactly` | internal/inventory/decode.go:66-123 | then the result has exactly the audited paths, each once, strictly ascending, each with what was audited of it |

## Left out

- `Redaction.BuildAutomaton`: does not model `encodedVariants`, `Fields` and the checks of the filter's constructor, which decide which patterns there are; the patterns are a parameter.
- `Redaction.Filter.Clear`: does not model the zeroing of released memory.
- `BrokerOutput.Collector.Write`: does not model the lock and the callback on overflow; writes are atomic, and only the first overflow is announced.
- `BrokerRunner.ReportOutput`: does not model the process, its termination, exit code and environment, and a filter that was never built.
- `DotenvDocument.Document.Parse`: does not model godotenv, which is a parameter of which nothing but one thing is assumed, that it rejects quoted text without a closing quote; `FileRules` is one that meets this.
- `DotenvDocument.Document.Apply`: does not model which of two edits with one start the sort puts first, because the sort is unstable and leaves it open; all orders are considered.
- `JobStore.Store.EnqueueKind`: does not model SQL, the schema and time as text; each transaction is one step on the one row, whose items and request kind are those of the loaded operation.
- `JobWorker.Service.Run`: does not model timers, the wake channel and the flag that admits one worker only; cancellation is part of what a round meets.
- `OperationExecutor.Execute`: does not model leases, files and the native client, which are parameters; inventories that were read from the same evidence are assumed to be equal.
- `RenewalAttempts.FailedRenewalCertificate`: does not model `parseRenewalAttempt`, whose reading of a line is a parameter.
- `SessionService.Service.ValidateSession`: does not model hashing, randomness, database errors and the replacement of a weak verifier; tokens are identities and new ones are fresh.
- `SessionService.Service.Authenticate`: does not model the password hash, whose verdict is a parameter.
- `Limiter.LoginLimiter.Allow`: does not model floating point and saturating durations; levels are exact scaled integers.
- `Limiter.LoginLimiter.ClientBucket`: does not model the normalisation of addresses in `loginClientKey`; clients are values of a map and not pointers.
- `TryAcquireKDF`, the semaphore in front of the password hash.
- `YamlPreview.Preview`: does not model parsing and encoding of YAML, size limits, the kinds and rules of field values, fields kept in the dotenv file, summaries and the inspection of the candidate.
- `YamlPreview.Prepare`: does not model `normalizeBindings` on lists with empty or repeated bindings, and takes field and bindings together for the identity that the source writes as one string.
- `YamlValidation.ValidateNode`: does not model aliases, which the source refuses where it meets them, the document node above the root, and the codes of the refusals.
- `Schedule.NextOccurrence`: does not model time zones as files; a zone is any function from instants to offsets.
- `TokenStream.PreviewInjective`: does not model the hash itself, and leaves out `creationPreviewToken`, `sourceToken` and `recoveryToken`, which are written by the same writer.
- `CertificateInventory.DecodeInventory`: does not model JSON, text checks and the parsing of expirations, which are parameters.
- `Verifier.ParseFormatted`: does not model Argon2 and the comparison of hashes.
- Nil receivers, contexts and logging throughout.
- HTTP routes, authentication middleware, the user interface, packaging, and the inspection and semantic checks of configurations, which would add many members and no harder property.
