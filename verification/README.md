# Verified model of the runtime catalog producer

The catalog producer acquires upstream archives, verifies them, and publishes signed runtime catalogs. This project
models the parts of it whose correctness does not show in any single function body, and proves what they promise:

- **Publication protocols.** `Publication` is the five-state control word that an async supervisor, a blocking worker,
  a canceller and a drop guard race over before the one irreversible `renameat2`. `CachePublication` is the tentative
  link with its commit-or-abort decision, for any number of publishers racing on one digest name, with `stat` and
  `unlink` as separate steps. Both are classes for the locked operations plus a step relation over every interleaving;
  the theorems speak about all runs. Methods that call the classes are proved to do exactly the relation's steps, and
  what others do between the steps of one locked body is proved to commute out of it, so a body counts as atomic.
- **Dependency closure.** `Locators` is node_modules resolution and the two locator grammars; `Closure` is the worklist
  that computes required and optional reachability, with the platform-pruning checks on top.
- **Tar.** `TarHeader` holds header fields and npm path normalisation, `TarArchive` the streaming parser, `TarRules` its
  rules in the format's own terms, `TarFrames` what any accepted stream is made of, `TarPrinter` the ustar printer with
  the fields of its headers, `TarRoundTrip` what the parser makes of a printed archive.
- **Signed envelopes.** `JsonScan` and `Envelope` are the hand-written span scanner and the grammar it accepts;
  `Base64Url` is the codec with its two independently written decoders.
- **Two small compilers.** `NpmRange` expands npm range terms into comparators; `Containment` builds the seccomp filter
  and runs it in an interpreter for classic BPF.
- **Bundles.** `Inventory` holds the inventory rules and the signed-release check; `TransferBundle` the verifier of a
  transferred root; `BundleWriter` preflight and the refinement theorem; `PreflightRules` which requests preflight
  accepts, in the caller's terms; `BundleContents` what a published bundle says about its request; `BundleOutput` the
  staged output root, the writer and the exporter.

`Text` holds comparison, search and splitting as the source uses them; `Wrappers` holds `Option`.

Code that loops or updates fields in the source is a method or a class here, and each such method is proved equal to a
specification function or to a property; the lemmas then say what that function means. Each grammar (`Layout`, `Token`,
`Frame`, lists of packages) is independent of the scanner it is compared with.

Where a method and its specification share a function that tests a byte, a name or a field, a lemma says what that
function means in the terms of the format or the document, with its names and numbers written out.

Conventions. Text that is compared, searched or split is a `string` with one character for each byte of its UTF-8 form,
so lengths are byte lengths and comparison is byte order. Unsigned 64-bit arithmetic is unbounded arithmetic with the
source's overflow tests written out; a schema version has 16 bits. A run-time error of the source is `None` or `false`.

Parameters, and what is assumed of them:

- SHA-256 is a function. Only the shape of its hexadecimal form is assumed, never injectivity.
- The canonical JSON encoders and decoders of manifests and verified-input records are functions for which decoding
  undoes encoding on valid values (`TransferBundle.Codec.Lawful`).
- The range matcher of the closure check, the prerelease admission rule of the range library, the source-address
  grammar, and the reading of pax records are functions about which nothing is assumed.
- Whether another process has bound a name when it is looked at is a Boolean argument.

Findings about the code, each with its lemma or its model:

- The core locator grammar admits locators that the installer's refuses: those with a package in a scope called
  `@node_modules` (`Locators.CoreDoesNotImplyInstaller`), and those in which a package other than the last is named
  `node_modules` or has a name that ends so, such as "node_modules/node_modules/node_modules/z".
  `Locators.InstallerIsCleanCore` gives the exact condition under which the two agree, and so covers both families.
- Of everything preflight's own validation of its two documents looks at, only two things can turn a request away: a
  bad source address, and a request without records (`PreflightRules.PassesExactlyTheAcceptable`). Sorting, distinctness,
  safe paths, sizes and totals hold already.
- The two legacy npm policies accept no plain ustar archive (`TarRoundTrip.LegacyPoliciesRefuse`).
- The pruning loop skips the root, so that the root's required dependencies are never pruned follows only together
  with the closure check (`Closure.AcceptedPruningIsClosed`).
- After the end marker the tar parser does not look at a last partial block, and it never looks at padding bytes; a
  directory and a regular member may share a normalised path. `TarFrames.AcceptedIsFramed` claims no more.
- Once the links of a Node archive equal the fixed list, resolving them adds only that the three files they name are
  there (`TarRules.LinksMean`).
- A comparator expansion fails on arithmetic only if the part it must raise is the largest 64-bit number
  (`NpmRange.ExpansionFailsOnOverflow`).
- After `linkat`, a failing `fstat` returns before the cleanup closure, and a panic unwinds past it. The cache theorems
  carry this, and a failing `stat` or `unlink`, as the flag `leaked`.
- The first look at the cache decision is made without the lock, so it can fall between a supervisor's exchange and its
  release; it then commutes with the release (`CachePublication.FirstLookMovesAfterSupervisor`).

## Model

| member | source | states |
|---|---|---|
| Publication.PublicationControl.CompareExchange | crates/catalog-acquire/src/lib.rs:486-498 | the atomic exchange: state and result as `Exchange` of the old word |
| Publication.PublicationControl.Transition | crates/catalog-acquire/src/lib.rs:486-498 | the exchange under the lock, with exactly one notification when it succeeds |
| Publication.PublicationControl.Authorize | crates/catalog-acquire/src/lib.rs:449-451 | moves Ready to Authorized and nothing else, waking the worker when it does |
| Publication.PublicationControl.ClaimPublication | crates/catalog-acquire/src/lib.rs:453-455 | moves Authorized to Claimed and nothing else |
| Publication.PublicationControl.Abort | crates/catalog-acquire/src/lib.rs:457-484 | aborts from every state before Claimed, is won again when already aborted, loses to Claimed |
| Publication.PublicationGuard.Abort | crates/catalog-acquire/src/lib.rs:518-522 | the guard's abort is the control's, once |
| Publication.PublicationGuard.Drop | crates/catalog-acquire/src/lib.rs:525-531 | an active guard aborts when dropped, a disarmed one does nothing |
| Publication.StepKeepsInvariant | crates/catalog-acquire/src/lib.rs:323-531 | every step of supervisor, worker, canceller or drop keeps the inductive invariant |
| Publication.SuperviseLocked | crates/catalog-acquire/src/lib.rs:449-531 | the supervisor's calls of authorize, the guard's abort and the guard's drop, made on an object that agrees with a state, do exactly the three steps lock, exchange, release; the worker wakes exactly if the object was notified |
| Publication.WorkLocked | crates/catalog-acquire/src/lib.rs:412-455 | the same of the worker's transition to Ready and of its claim |
| Publication.HolderAloneWrites | crates/catalog-acquire/src/lib.rs:449-498 | nobody but the lock's holder writes the control word or releases the lock |
| Publication.OthersMoveBeforeSupervisor | crates/catalog-acquire/src/lib.rs:449-498 | any step of another actor while the supervisor is in the lock commutes to before the supervisor's step |
| Publication.OthersMoveBeforeWorker | crates/catalog-acquire/src/lib.rs:412-455 | any step of another actor right after the worker took the lock commutes to before it |
| Publication.OthersMoveAfterWorker | crates/catalog-acquire/src/lib.rs:412-455 | any step of another actor right before the worker's release commutes to after it |
| Publication.RunInvariant | crates/catalog-acquire/src/lib.rs:323-531 | the invariant holds in every state of every run |
| Publication.CancelledRunsNeverRename | crates/catalog-acquire/src/lib.rs:323-388 | once Cancelled is reported, no state of the run, earlier or later, has renamed the payload |
| Publication.AbortedRunsNeverRename | crates/catalog-acquire/src/lib.rs:457-531 | an abort that won, by call or by a dropped future, is final: the run never renames |
| Publication.RenamesOnceAfterClaim | crates/catalog-acquire/src/bundle_writer.rs:645-675 | the rename happens at most once in any run and only from the Claimed word |
| Publication.AuthorizationNeverFails | crates/catalog-acquire/src/lib.rs:323-388 | the branch for a failed authorization is unreachable in every run |
| Publication.LostAbortReturnsWorkersResult | crates/catalog-acquire/src/lib.rs:323-388 | an abort that loses to the claim waits for the worker; the caller is told the worker's own result, or an input error if it panicked |
| Publication.AnswerIsTrue | crates/catalog-acquire/src/lib.rs:323-388 | in every run: "cancelled" is told only when the caller cancelled and nothing was renamed, an input error only for a panic, and any other answer is the worker's own result, which is "done" only if the rename happened once |
| Publication.UncancelledAnswerIsTheWorkers | crates/catalog-acquire/src/lib.rs:323-388 | without a cancellation the answer is how the worker ended |
| Publication.CancellationInTimeIsHonoured | crates/catalog-acquire/src/lib.rs:323-388 | a cancellation that the supervisor can see before it authorizes is honoured: nothing is ever authorized or renamed |
| Publication.UndisturbedRunsPublish | crates/catalog-acquire/src/lib.rs:323-455 | once the worker is ready, and unless it fails or panics, a caller who neither cancels nor drops the future is told "done", and the rename has happened |
| Publication.NoLostWakeUp | crates/catalog-acquire/src/lib.rs:434-447 | no reachable state has the worker asleep with the word changed and no notification about to happen |
| Publication.CanAlwaysFinish | crates/catalog-acquire/src/lib.rs:323-531 | from every state that satisfies the invariant some continuation finishes both sides: no deadlock |
| Publication.SleeperIsReleased | crates/catalog-acquire/src/lib.rs:434-498 | supervisor steps alone wake a sleeping worker, with the word authorized or aborted |
| CachePublication.PublicationControl.Decide | crates/catalog-acquire/src/http.rs:779-794 | the first decision stays, and only the first one notifies |
| CachePublication.PublicationDecisionGuard.AbortDecision | crates/catalog-acquire/src/http.rs:838-841 | aborts unless decided, and disarms the guard |
| CachePublication.PublicationDecisionGuard.CommitDecision | crates/catalog-acquire/src/http.rs:843-846 | commits unless decided, and disarms the guard |
| CachePublication.PublicationDecisionGuard.Drop | crates/catalog-acquire/src/http.rs:853-859 | an active guard aborts when dropped, a disarmed one leaves the decision alone |
| CachePublication.StepKeepsInvariant | crates/catalog-acquire/src/http.rs:1438-1611 | every step of a publisher keeps that publisher's invariant |
| CachePublication.DecideLocked | crates/catalog-acquire/src/http.rs:779-859 | the guard's abort, commit and drop, made on an object that agrees with a publisher, do exactly the steps lock, exchange, release; the guard stays armed exactly when it was dropped; the worker wakes exactly if the object was notified |
| CachePublication.WorkOnControl | crates/catalog-acquire/src/http.rs:764-798 | the worker's first look at the decision and its tentative mark on the object are the worker's steps |
| CachePublication.TakeResult | crates/catalog-acquire/src/http.rs:1501-1508 | disarming and then dropping the guard is the step that takes the worker's result, and decides nothing |
| CachePublication.HolderAloneDecides | crates/catalog-acquire/src/http.rs:779-794 | a decision is made only by a supervisor that holds the lock |
| CachePublication.OthersMoveBeforeSupervisor | crates/catalog-acquire/src/http.rs:779-822 | any step of the worker or of an interruption while a supervisor is in the lock commutes to before it, except a first look after the lock is taken |
| CachePublication.FirstLookMovesAfterSupervisor | crates/catalog-acquire/src/http.rs:796-798 | and that first look commutes to after the release |
| CachePublication.OthersKeepInvariant | crates/catalog-acquire/src/http.rs:1512-1611 | a step of one publisher keeps the invariant of every other publisher on the same name |
| CachePublication.RunInvariant | crates/catalog-acquire/src/http.rs:1438-1611 | the invariant of all publishers holds in every state of every run |
| CachePublication.UnlinkSeesOwnLink | crates/catalog-acquire/src/http.rs:1695-1706 | for any number of publishers: whoever is about to stat for cleanup or to unlink finds its own inode bound, and no two publishers are linked at once |
| CachePublication.LinkSurvivesIffCommitted | crates/catalog-acquire/src/http.rs:1554-1588 | when a worker has finished without a leak, its link stands if and only if the decision is commit |
| CachePublication.DecisionIsWriteOnce | crates/catalog-acquire/src/http.rs:779-794 | no action changes a decision that has been made, or the result of a finished worker |
| CachePublication.CommittedLinkStays | crates/catalog-acquire/src/http.rs:1512-1611 | a committed link is removed by no publisher for the rest of the run |
| CachePublication.ForeignLinkStays | crates/catalog-acquire/src/http.rs:1695-1706 | an inode that no publisher made is never unlinked |
| CachePublication.InterruptionMeansGaveUp | crates/catalog-acquire/src/http.rs:1438-1510 | a supervisor that returned an interruption has an abort decision or never began, and a worker that is through |
| CachePublication.ReportIsTrue | crates/catalog-acquire/src/http.rs:1438-1510 | in every run: a reported cancellation or timeout is the one that happened and hides no panic, and any other report is the worker's own result; a link reported as the publisher's own is committed and stands |
| CachePublication.AbortsOnlyWithReason | crates/catalog-acquire/src/http.rs:1470-1510 | a publisher aborts only if it was cancelled, ran out of time or was dropped |
| CachePublication.InterruptionsAreOrdered | crates/catalog-acquire/src/http.rs:678-689 | wherever the supervisor looks, cancellation goes before the deadline, and without either it starts the worker, commits, or hands out the result; a worker's failure is handed out whatever else happened |
| CachePublication.InterruptionInTimeIsHonoured | crates/catalog-acquire/src/http.rs:1476-1510 | a publisher interrupted before its supervisor chooses never commits |
| CachePublication.LateWorkerNeverLinks | crates/catalog-acquire/src/http.rs:1454-1475 | a worker that has not begun when the abort or the interruption comes never binds the name |
| CachePublication.GivingUpLeavesNoLink | crates/catalog-acquire/src/http.rs:1438-1510 | a publisher that gave up has no link of its own, then and for the rest of the run |
| CachePublication.NoLostWakeUp | crates/catalog-acquire/src/http.rs:800-822 | no worker sleeps on a decision that has been made without a notification about to happen |
| CachePublication.CanAlwaysFinish | crates/catalog-acquire/src/http.rs:1438-1611 | a publisher's own steps alone finish it from every reachable state |
| CachePublication.SleeperIsReleased | crates/catalog-acquire/src/http.rs:779-822 | the supervisor alone wakes a sleeping worker, with a decision made |
| Locators.Resolve | crates/catalog-installer-verify/src/installer.rs:690-712 | the loop answers with the first recorded candidate among the enclosing bases, for every text and set of locators |
| Locators.DependencyResolves | crates/catalog-acquire/src/npm.rs:959-976 | the older loop succeeds exactly when that first candidate exists, so exactly when the installer's loop does |
| Locators.ParentStripsOnePackage | crates/catalog-installer-verify/src/installer.rs:690-712 | on an admitted locator one step of the loop strips exactly the last package |
| Locators.BasesAreEnclosingPackages | crates/catalog-installer-verify/src/installer.rs:690-712 | on an admitted locator the loop visits the locators of all shorter package lists, in order, down to the root |
| Locators.ResolvesNearestEnclosing | crates/catalog-installer-verify/src/installer.rs:690-712 | resolution answers with the nearest enclosing package that holds the wanted one, or no enclosing package does |
| Locators.PackageNameMeans | crates/catalog-core/src/wire.rs:1102-1124 | a package name is one segment, or a scope and a name, of at most 214 bytes; the characters of a segment |
| Locators.InventoryPathMeans | crates/catalog-core/src/wire.rs:1126-1137 | an inventory path leads straight down through printable characters |
| Locators.ValidateInstallerLocator | crates/catalog-installer-verify/src/installer.rs:642-660 | accepts exactly the texts that spell a list of packages ending in the given name |
| Locators.InstallerGrammar | crates/catalog-installer-verify/src/installer.rs:642-660 | splitting at the separator and checking pieces decides that grammar, both ways |
| Locators.ValidateCoreLocator | crates/catalog-core/src/pi_installer_lock.rs:230-245 | accepts exactly the core grammar's texts |
| Locators.CoreGrammar | crates/catalog-core/src/pi_installer_lock.rs:230-245 | taking packages off the front decides the core grammar, both ways |
| Locators.InstallerIsCleanCore | crates/catalog-core/src/pi_installer_lock.rs:230-245 | installer-accepted implies core-accepted, and the exact condition for the converse |
| Locators.CoreDoesNotImplyInstaller | crates/catalog-core/src/pi_installer_lock.rs:230-245 | a concrete locator that only the core grammar admits |
| Closure.DependencyEdges | crates/catalog-installer-verify/src/installer.rs:762-800 | succeeds exactly when each of the three fields is a map or absent and each entry is named well and is overridden, a missing peer marked optional, or resolves to a matching version; the edges are exactly those the fields declare, with their labels |
| Closure.RecordOkMeans | crates/catalog-installer-verify/src/installer.rs:769-796 | on the fields of the document: when the dependencies of a record are accepted |
| Closure.EdgesMean | crates/catalog-installer-verify/src/installer.rs:769-798 | on the fields: required edges come from dependencies that are not optional ones too and from peers whose metadata do not hold `optional` as true; all others are optional |
| Closure.ClosedTableIsComplete | crates/catalog-installer-verify/src/installer.rs:801-830 | a table closed under edges holds every locator a path from the root reaches, with the stronger label on all-required paths |
| Closure.TableIsReachability | crates/catalog-installer-verify/src/installer.rs:801-830 | with an empty queue the table is exactly reachability and its true entries exactly reachability by required edges |
| Closure.VerifyClosure | crates/catalog-installer-verify/src/installer.rs:801-830 | succeeds if and only if the root exists, all records are well formed and all are reachable; returns exactly the required-reachable locators, whatever the order of the edges, with everything a required record requires among them; enqueues a locator at most twice; terminates |
| Closure.RequiredSetIsClosed | crates/catalog-installer-verify/src/installer.rs:762-830 | the root is required, and what a required record declares as required resolves and is required |
| Closure.RequiredHasRequirer | crates/catalog-installer-verify/src/installer.rs:762-830 | nothing else is: a required record is required by a required record, never by an optional dependency, a peer marked optional or an overridden dependency |
| Closure.VerifyApplicableClosure | crates/catalog-installer-verify/src/installer.rs:831-863 | accepts if and only if the closure is complete and each package's pruning and optional flag agree with required reachability |
| Closure.AcceptedPruningIsClosed | crates/catalog-installer-verify/src/installer.rs:831-863 | what is kept, with the root, is closed under required edges; nothing required is pruned; the lock says optional: true for exactly what is not required, and false or nothing for what is |
| Closure.OptionalFlagMeans | crates/catalog-installer-verify/src/installer.rs:839-847 | an absent flag means false, and anything but a Boolean is an error |
| Closure.SameMapMeans | crates/catalog-installer-verify/src/installer.rs:661-689 | two records agree on a field exactly when both hold a map or nothing there, with the same entries |
| Closure.SameRecord | crates/catalog-installer-verify/src/installer.rs:661-689 | comparing dependencies up to empty and absent maps makes both records give the same edges and verdict |
| Closure.DeclarationsAgreeWithLock | crates/catalog-installer-verify/src/installer.rs:661-689 | if all packages compare equal, graph, verdict and required set from the archives are those from the lock |
| NpmRange.ZeroIsLeastPrerelease | crates/catalog-installer-verify/src/installer.rs:917-992 | X.Y.Z-0 is the least version with its core under section 11 of SemVer 2.0.0 |
| NpmRange.IdentifiersOrder | crates/catalog-installer-verify/src/installer.rs:877-915 | prereleases compare identifier by identifier, numbers below words, and a list below its continuations |
| NpmRange.Precedence | crates/catalog-installer-verify/src/installer.rs:877-915 | versions compare by core, then a prerelease below its release, then by prerelease; a total order, section 11 of SemVer 2.0.0 |
| NpmRange.ExpansionKeepsMeaning | crates/catalog-installer-verify/src/installer.rs:917-992 | for every term and version the emitted comparators hold exactly in npm's interval: caret, tilde, partial equality, inequalities, wildcards |
| NpmRange.ExpansionFailsOnOverflow | crates/catalog-installer-verify/src/installer.rs:917-992 | expansion fails exactly when the part to raise is the largest u64, or a wildcard operator has no missing part |
| NpmRange.ExpandKeepsMeaning | crates/catalog-installer-verify/src/installer.rs:877-915 | the collected comparators of an alternative mean the conjunction of its terms |
| NpmRange.HyphenMeans | crates/catalog-installer-verify/src/installer.rs:887-890 | a hyphen alternative means: not below the first end and not above the second, whose missing parts stand for every number; and when it can be expanded |
| NpmRange.NpmRangeMatches | crates/catalog-installer-verify/src/installer.rs:877-915 | on a range already split into terms: an error exactly when an alternative is empty or cannot be expanded, otherwise true exactly when some alternative holds |
| Containment.ProgramMeansDecision | crates/catalog-publish/src/broker.rs:2098-2186 | running the program for any denied list on any call halts with the intended decision |
| Containment.ProgramWellFormed | crates/catalog-publish/src/broker.rs:2098-2186 | every load is at a known word, every jump stays inside, the last instruction returns |
| Containment.WellFormedReturns | crates/catalog-publish/src/broker.rs:2098-2186 | a well-formed program returns from every start, accumulator and call |
| Containment.ShippedFilterContains | crates/catalog-publish/src/broker.rs:2098-2186 | the shipped program of 59 instructions on every call, in numbers: kills outside the x86-64 ABI and for x32 calls, answers ENOSYS to clone3, EPERM to the 19 denied numbers and to any clone without exactly the flags of a thread, allows the rest |
| Containment.ThreadFlags | crates/catalog-publish/src/broker.rs:2113-2124 | the clone condition bit by bit: high word zero, mask 0x50f00 set, nothing outside the allowlist; so CLONE_THREAD and CLONE_VM are set |
| Containment.InstructionCodes | crates/catalog-publish/src/broker.rs:2098-2104 | the five codes are the kernel's class, size, mode and operation bits |
| Containment.ProcessContainmentFilter | crates/catalog-publish/src/broker.rs:2098-2186 | the loop builds a well-formed program of 21 + 2n instructions that means the decision |
| Base64Url.EncodeNoPad | crates/catalog-core/src/signature.rs:584-604 | the encoder keeps the bit string and appends only zero bits, section 5 of RFC 4648 |
| Base64Url.Alphabet | crates/catalog-core/src/signature.rs:584-604 | the alphabet in order, letter by letter |
| Base64Url.TestVectors | crates/catalog-core/src/signature.rs:584-604 | the unpadded test vectors of section 10 of RFC 4648 |
| Base64Url.EncodeKeepsBits | crates/catalog-core/src/signature.rs:584-604 | the same of the encoding function, for every length |
| Base64Url.EncodeInjective | crates/catalog-core/src/signature.rs:584-604 | different byte strings have different encodings |
| Base64Url.DecodeInvertsEncode | crates/catalog-core/src/signature.rs:584-641 | decoding after encoding is the identity for every length |
| Base64Url.DecodeNoPad | crates/catalog-core/src/signature.rs:606-641 | succeeds exactly on encodings of N bytes, with those bytes, so encoding the result gives the text back |
| Base64Url.DecodeEmbeddedKey | crates/catalog-core/build.rs:155-187 | the decoder without a re-encoding check accepts exactly the same texts with the same bytes at N = 32 |
| JsonScan.ScanJsonString | crates/catalog-core/src/signature.rs:535-565 | the cursor ends where the specification's string ends, or fails with it |
| JsonScan.EscapeCharacters | crates/catalog-core/src/signature.rs:535-565 | the characters that may follow a backslash |
| JsonScan.HexDigitCharacters | crates/catalog-core/src/signature.rs:535-565 | the digits of a Unicode escape |
| JsonScan.WhitespaceCharacters | crates/catalog-core/src/signature.rs:567-575 | the four characters that are whitespace |
| JsonScan.Punctuation | crates/catalog-core/src/signature.rs:474-565 | the quote, the backslash and the structural characters |
| JsonScan.StringOfPrint | crates/catalog-core/src/signature.rs:535-565 | every printed string of plain bytes and escapes is scanned to its end, whatever follows |
| JsonScan.StringHasItems | crates/catalog-core/src/signature.rs:535-565 | every scanned string is such a printed string |
| JsonScan.ScanJsonCompound | crates/catalog-core/src/signature.rs:489-521 | the cursor and its stack of closers end where the specification's compound ends |
| JsonScan.CompoundIsTheBalancedPrefix | crates/catalog-core/src/signature.rs:489-521 | a compound span is a bracket group balanced outside strings with depth at most 128, and no other prefix is one |
| JsonScan.ScanJsonValue | crates/catalog-core/src/signature.rs:474-487 | dispatches on the first byte; scalars end before the first whitespace, comma or closing brace |
| JsonScan.ValueOfPrint | crates/catalog-core/src/signature.rs:474-487 | printed strings, groups and scalars are scanned to their end |
| JsonScan.ValueHasPrint | crates/catalog-core/src/signature.rs:474-487 | every scanned value is a printed one |
| Envelope.SkipJsonWhitespace | crates/catalog-core/src/signature.rs:567-575 | stops at the first byte that is not whitespace |
| Envelope.ScanSignedEnvelope | crates/catalog-core/src/signature.rs:378-472 | the envelope cursor computes the specification's spans |
| Envelope.KeyTexts | crates/catalog-core/src/signature.rs:396-403 | the five keys, letter by letter |
| Envelope.AcceptedWithinBounds | crates/catalog-core/src/signature.rs:424-472 | on any accepted input: at most 5, 18, 130, 8388608 and 88 bytes for the five values, 8389632 in all, 1024 outside the payload |
| Envelope.EnvelopeOfPrint | crates/catalog-core/src/signature.rs:378-472 | scanning inverts printing for any field order, whitespace and payload within the bounds |
| Envelope.EnvelopeHasLayout | crates/catalog-core/src/signature.rs:378-472 | every accepted envelope is a printed layout, and its spans are the layout's |
| Envelope.AcceptsExactlyThePrinted | crates/catalog-core/src/signature.rs:378-472 | both directions together |
| Envelope.SpansHoldTheValues | crates/catalog-core/src/signature.rs:378-472 | the span of a field holds exactly the text of the value printed for it |
| Envelope.AcceptedSpansAreSeparate | crates/catalog-core/src/signature.rs:378-472 | on any accepted input the five spans are non-empty, in range and pairwise disjoint |
| Inventory.RequireBoundedTotal | crates/catalog-core/src/bundle.rs:587-594 | the checked loop accepts exactly when the sum is within the bound |
| Inventory.FindEntry | crates/catalog-core/src/bundle.rs:569-577 | on strictly sorted entries binary search finds the entry of a path if there is one |
| Inventory.RequireStrictlySortedPaths | crates/catalog-core/src/bundle.rs:579-585 | comparing neighbours decides that every path is below every later one |
| Inventory.RequireKindObjects | crates/catalog-core/src/bundle.rs:543-567 | accepts exactly the paths the bundle kind demands and allows |
| Inventory.AdmitInventory | crates/catalog-core/src/bundle.rs:74-92 | admits exactly the valid inventories |
| Inventory.AdmittedInventory | crates/catalog-core/src/bundle.rs:74-92 | an admitted inventory in numbers |
| Inventory.ObjectsOfAKind | crates/catalog-core/src/bundle.rs:543-567 | the names each kind of bundle must hold and may hold |
| Inventory.RelativePathMeans | crates/catalog-core/src/bundle.rs:608-617 | a valid path leads straight down from wherever it is read, one level a part, through printable characters |
| Inventory.AssetNameMeans | crates/catalog-core/src/bundle.rs:596-606 | a valid asset name: 1 to 255 graphic ASCII characters, no slash or backslash, not a dot or two |
| Inventory.AdmitManifest | crates/catalog-core/src/bundle.rs:290-331 | of the assets and the catalog envelope: admits exactly when reserved names are excluded, names strictly sorted, each asset valid and the total bounded |
| Inventory.AdmittedManifest | crates/catalog-core/src/bundle.rs:290-331 | an admitted manifest in numbers, with the four reserved names |
| Inventory.MatchingIsExact | crates/catalog-core/src/bundle.rs:482-499 | length plus one lookup per asset is the same as exact equality of path sets with agreeing sizes and digests (counting) |
| Inventory.VerifySignedReleaseInventory | crates/catalog-core/src/bundle.rs:482-499 | accepts if and only if the paths are the assets and the three reserved names and all signed entries agree in size and digest |
| Inventory.ReleasePathsAreDetermined | crates/catalog-core/src/bundle.rs:478-499 | two inventories accepted for one manifest list the same paths in the same order |
| Inventory.ReleaseIsDetermined | crates/catalog-core/src/bundle.rs:478-499 | and have the same entry everywhere but at the two outputs that cannot bind their own bytes |
| TransferBundle.ValidateManifest | crates/catalog-acquire/src/bundle_writer.rs:1104-1163 | the loop accepts exactly the valid transfer manifests |
| TransferBundle.VerifyTransferredBundleRoot | crates/catalog-acquire/src/bundle_writer.rs:894-1040 | the verifier's loops compute the specification of acceptance and the reported result |
| TransferBundle.VerdictMeans | crates/catalog-acquire/src/bundle_writer.rs:894-1040 | a root is accepted with a report exactly when both documents are within their bounds, canonical and valid, tree and contents agree with them, and the report is read off the files |
| TransferBundle.TreeMeans | crates/catalog-acquire/src/bundle_writer.rs:918-970 | the tree agrees with a manifest exactly when it holds only regular files, beside or in the two payload directories, these are the entries and the manifest, and each has its entry's size and digest |
| TransferBundle.ContentsMean | crates/catalog-acquire/src/bundle_writer.rs:971-1030 | the manifest lists under objects/ exactly what the record lists, and each record refers to an entry of its digest |
| TransferBundle.ManifestMeans | crates/catalog-acquire/src/bundle_writer.rs:1104-1163 | a valid transfer manifest in numbers and names |
| TransferBundle.EntryMeans | crates/catalog-acquire/src/bundle_writer.rs:1128-1141 | a valid entry in numbers and names |
| TransferBundle.InputMeans | crates/catalog-core/src/bundle.rs:167-272 | a valid verified-input record in numbers and names |
| PreflightRules.SortAscends | crates/catalog-acquire/src/bundle_writer.rs:790-848 | sorting by a key without duplicates gives strictly ascending keys |
| BundleWriter.CollectRecords | crates/catalog-acquire/src/bundle_writer.rs:760-789 | succeeds exactly when roles and digests are pairwise distinct and sizes and total fit; returns entries, references and prepared records in order |
| BundleWriter.CollectObjects | crates/catalog-acquire/src/bundle_writer.rs:792-816 | succeeds exactly when objects of one digest agree and sizes and total fit; duplicates collapse to their first and are counted once |
| BundleWriter.PrepareObjects | crates/catalog-acquire/src/bundle_writer.rs:864-871 | every source is checked and the first of each digest is kept |
| BundleWriter.PreflightVerifiedBundle | crates/catalog-acquire/src/bundle_writer.rs:740-880 | succeeds exactly on the requests that pass, with the planned files and documents |
| PreflightRules.CollectedPathsDiffer | crates/catalog-acquire/src/bundle_writer.rs:760-848 | when roles and digests of records differ, no path is collected twice: records, objects and the input record never collide |
| PreflightRules.ManifestAscends | crates/catalog-acquire/src/bundle_writer.rs:790-848 | the manifest's paths and roles are then strictly ascending |
| PreflightRules.RecordAscends | crates/catalog-acquire/src/bundle_writer.rs:818-829 | the record's object paths are strictly ascending for every request |
| PreflightRules.ManifestTotal | crates/catalog-acquire/src/bundle_writer.rs:760-848 | the manifest's sizes add up to exactly what preflight counted, with one object a digest |
| PreflightRules.RecordIsAdmitted | crates/catalog-acquire/src/bundle_writer.rs:818-842 | preflight's admission of its own record succeeds exactly when every source address is good |
| PreflightRules.ManifestIsValid | crates/catalog-acquire/src/bundle_writer.rs:850-858 | preflight's validation of its own manifest succeeds exactly when there is a record |
| PreflightRules.PassesExactlyTheAcceptable | crates/catalog-acquire/src/bundle_writer.rs:740-880 | preflight passes exactly the requests that meet the conditions a caller can check: claims, counts, fits, distinctness, agreement, addresses, total, encoded lengths, intact contents |
| PreflightRules.AcceptableMeans | crates/catalog-acquire/src/bundle_writer.rs:740-880 | those conditions with every rule and bound written out |
| BundleWriter.EntryIsWritten | crates/catalog-acquire/src/bundle_writer.rs:706-738 | every collected entry names a file of the tree with that size and digest |
| BundleWriter.TreeIsExpected | crates/catalog-acquire/src/bundle_writer.rs:706-738 | the tree's files are the manifest's entries and the manifest, nothing else |
| BundleWriter.VerifiedIsBundle | crates/catalog-acquire/src/bundle_writer.rs:818-842 | what preflight decodes from its own bytes is the record it encoded |
| BundleWriter.ObjectsAreManifested | crates/catalog-acquire/src/bundle_writer.rs:971-996 | manifest and record list the same objects, duplicates collapsed alike |
| BundleWriter.WrittenTreeIsAccepted | crates/catalog-acquire/src/bundle_writer.rs:706-738 | for every request that passes, the verifier accepts the written tree with the same record and manifest |
| BundleContents.WrittenBundleSaysTheRequest | crates/catalog-acquire/src/bundle_writer.rs:706-858 | what the verifier reads from the written tree: each claim of the request in its own field, exactly the request's (address, size, digest) triples as objects, each record under its role; and the files hold each record's bytes and the first object of each digest under their digests, and nothing else |
| BundleOutput.CreationMeans | crates/catalog-acquire/src/bundle_writer.rs:1325-1350 | what can be created: a new safe name at the root, or a safe name in a directory that is there |
| BundleOutput.OutputRoot.CreateDirectory | crates/catalog-acquire/src/bundle_writer.rs:364-388 | adds exactly one fresh safe directory |
| BundleOutput.OutputRoot.WriteFile | crates/catalog-acquire/src/bundle_writer.rs:390-395 | adds exactly one fresh file in an existing directory, and tracks it |
| BundleOutput.OutputRoot.CopyFile | crates/catalog-acquire/src/bundle_writer.rs:397-429 | stages at most the declared size even when it fails; succeeds exactly when the source ends there with the digest |
| BundleOutput.OutputRoot.Prepare | crates/catalog-acquire/src/bundle_writer.rs:606-614 | succeeds once, exactly when everything staged is tracked |
| BundleOutput.OutputRoot.Publish | crates/catalog-acquire/src/bundle_writer.rs:645-675 | binds the final name at most once, only when prepared and claimed, never over another name |
| BundleOutput.WritePreflightBundle | crates/catalog-acquire/src/bundle_writer.rs:706-738 | publishes exactly the planned tree, or nothing; fails only on a taken name, is cancelled only by the two callbacks |
| BundleOutput.WriteVerifiedBundle | crates/catalog-acquire/src/bundle_writer.rs:678-694 | a published tree is one the verifier accepts with the record that is returned, and record, manifest and files say exactly what the request says, field by field; published exactly when preflight passes and nobody interferes |
| BundleOutput.AcceptedDirectories | crates/catalog-acquire/src/bundle_writer.rs:1061-1080 | an accepted root has both payload directories and no others |
| BundleOutput.ExportPreflightBundle | crates/catalog-acquire/src/bundle_writer.rs:1061-1080 | export publishes the same tree byte for byte and it verifies to the same result |
| TarHeader.OctalOfDigits | crates/catalog-installer-verify/src/archive.rs:1026-1043 | octal digits denote the number that was written |
| TarHeader.NumberOfDigits | crates/catalog-installer-verify/src/archive.rs:1026-1043 | a number field written in octal before a NUL or space is read back |
| TarHeader.NumberMeans | crates/catalog-installer-verify/src/archive.rs:1026-1043 | a field is read as a number exactly when it holds that number's octal digits, leading zeros and all, before a NUL, a space or its end, and the number has 64 bits |
| TarHeader.ChecksumCatchesAByte | crates/catalog-installer-verify/src/archive.rs:1045-1056 | no header with one damaged byte outside the field passes |
| TarHeader.ChecksumCountsEachByte | crates/catalog-installer-verify/src/archive.rs:1045-1056 | raising one byte by one raises the number the field must hold by one |
| TarHeader.ChecksumOfZeros | crates/catalog-installer-verify/src/archive.rs:1045-1056 | the field counts as eight spaces: over zeros it must hold 256 |
| TarHeader.Utf8Means | crates/catalog-installer-verify/src/archive.rs:989-1000 | the test accepts exactly the encodings of lists of Unicode scalar values, section 3 of RFC 3629 |
| TarHeader.NormalizationIsIdempotent | crates/catalog-installer-verify/src/archive.rs:704-738 | a normalised path is safe and normalises to itself without being an alias |
| TarHeader.AliasesAreDottedPaths | crates/catalog-installer-verify/src/archive.rs:704-738 | a path is an alias of a canonical path exactly when it is that safe path with one "." segment put inside it, within the length bound |
| TarArchive.ReadRegularMember | crates/catalog-installer-verify/src/archive.rs:911-945 | the chunked loop hashes and keeps exactly the body and stops after its padding |
| TarArchive.CheckAliases | crates/catalog-installer-verify/src/archive.rs:582-587 | the loop decides that alias targets are distinct and each equals its member's facts |
| TarArchive.ReadRecord | crates/catalog-installer-verify/src/archive.rs:417-567 | one header and its body move the state as specified |
| TarArchive.ParseTar | crates/catalog-installer-verify/src/archive.rs:380-617 | the block loop with its zero-block counter computes the specification, with every failure |
| TarFrames.PendingNeedsMember | crates/catalog-installer-verify/src/archive.rs:426-467 | while an extension is pending only a member's header is accepted |
| TarFrames.FramesAreRead | crates/catalog-installer-verify/src/archive.rs:404-567 | the records up to the first zero block are frames of one member each, and the state logs exactly them |
| TarFrames.AcceptedIsFramed | crates/catalog-installer-verify/src/archive.rs:380-617 | an accepted stream is aligned frames, then two or more zero blocks, then less than a block; extensions are consumed by the very next member; one root; distinct spellings; regular members agree as below |
| TarFrames.LoggedRegularsAgree | crates/catalog-installer-verify/src/archive.rs:532-588 | the facts of an accepted npm archive are those of all its regular members, no path has two aliases, and every alias has an unaliased member with its path, in any order |
| TarFrames.SameCanonicalPathSameFile | crates/catalog-installer-verify/src/archive.rs:481-588 | an accepted npm stream is frames in which any two regular members whose raw names npm's normalisation takes to one path have one mode, size and digest |
| TarRules.TextMeans | crates/catalog-installer-verify/src/archive.rs:989-1000 | a text field is read exactly when it holds some UTF-8 text filled up with NUL bytes |
| TarRules.PathMeans | crates/catalog-installer-verify/src/archive.rs:955-966 | the path of a plain header: the name, after the prefix and a slash if there is one |
| TarRules.PathComesFrom | crates/catalog-installer-verify/src/archive.rs:468-480 | where a member's path comes from, by policy and pending extension, and what its header must repeat |
| TarRules.NumericHeaderMeans | crates/catalog-installer-verify/src/archive.rs:1002-1024 | which fields must hold numbers, and what the oldest pax archives must hold instead |
| TarRules.StarTimesMean | crates/catalog-installer-verify/src/archive.rs:976-987 | the two times of the oldest star archives |
| TarRules.LongNameMeans | crates/catalog-installer-verify/src/archive.rs:443-467 | a long name is accepted exactly when it is a closed, relative text without backslash or control characters |
| TarRules.PaxHeaderMeans | crates/catalog-installer-verify/src/archive.rs:638-666 | how a canonical pax archive cuts a path down to the header, exactly |
| TarRules.ExtensionsByPolicy | crates/catalog-installer-verify/src/archive.rs:426-456 | which policies allow which extension, and its bounds |
| TarRules.CaptureLimitMeans | crates/catalog-installer-verify/src/archive.rs:690-702 | the contents kept: package.json and npm-shrinkwrap.json directly under the root, with their bounds |
| TarRules.RootMeans | crates/catalog-installer-verify/src/archive.rs:490-517 | the root each policy asks for |
| TarRules.PaxSizeMustAgree | crates/catalog-installer-verify/src/archive.rs:468-484 | a size stated by a pending pax header must be the header's own, and then changes nothing |
| TarRules.FollowIsAWalk | crates/catalog-installer-verify/src/archive.rs:1069-1085 | following a link target is walking it part by part, and fails on an empty part, a dot or a control character |
| TarRules.FollowUpsAndNames | crates/catalog-installer-verify/src/archive.rs:1069-1085 | a link target of some ups and then plain names leads exactly there |
| TarRules.LinksMean | crates/catalog-installer-verify/src/archive.rs:589-603 | the check of the links amounts to: exactly the three links, and the three files they lead to are there |
| TarRules.NpmEndMeans | crates/catalog-installer-verify/src/archive.rs:565-588 | what the end of an npm archive must find, and what is reported |
| TarRules.NodeEndMeans | crates/catalog-installer-verify/src/archive.rs:565-617 | what the end of a Node archive must find, and what is reported |
| TarRules.AcceptedNodeArchive | crates/catalog-installer-verify/src/archive.rs:380-617 | an accepted Node archive has one root "node-v...-linux-x64" and holds the three tools its links lead to |
| TarPrinter.ChecksumIsValid | crates/catalog-installer-verify/src/archive.rs:1045-1056 | the printer's checksum satisfies the parser's test |
| TarPrinter.PathIsRead | crates/catalog-installer-verify/src/archive.rs:955-966 | the printed name field gives back any UTF-8 name without a NUL of at most 100 bytes |
| TarPrinter.LongNameIsRepeated | crates/catalog-installer-verify/src/archive.rs:668-681 | the header after a long name must repeat its first hundred bytes, and nothing else will do |
| TarPrinter.Tar | crates/catalog-installer-verify/src/archive.rs:1287-1310 | the printer's loop writes the specified archive, every record padded to a block |
| TarRoundTrip.RecordOfPrint | crates/catalog-installer-verify/src/archive.rs:417-567 | under every policy the record of a printed file, directory, link or long name moves the parser's state as the entry says, or fails as it says |
| TarRoundTrip.PrintedArchiveMeans | crates/catalog-installer-verify/src/archive.rs:380-617 | for every policy and every list of printable entries, parsing the printed archive is the fold over the entries followed by the final checks |
| TarRoundTrip.SafeEntriesAreRead | crates/catalog-installer-verify/src/archive.rs:417-567 | on safe paths under a plain npm policy that fold succeeds exactly on bounded lists, and the state then holds exactly the list |
| TarRoundTrip.PrintedArchiveIsRead | crates/catalog-installer-verify/src/archive.rs:380-617 | for every list of printable entries with safe paths and each of the three npm policies that read ustar: the printed archive is accepted if and only if the list is admissible, and parsing gives back exactly the paths, sizes, modes, digests, captured roles and contents, and counts |
| TarRoundTrip.LegacyPoliciesRefuse | crates/catalog-installer-verify/src/archive.rs:380-617 | the two legacy policies refuse every printed archive |
| Text.JoinInvertsSplit | crates/catalog-installer-verify/src/archive.rs:716-736 | joining the parts of a split gives the text back |
| Text.LessMeans | crates/catalog-core/src/bundle.rs:579-585 | text is ordered as in a dictionary of bytes |

## Left out

- Library code: SHA-256, SHA-512, Ed25519, gzip and xz decoders, JSON parsing, RFC 8785 canonical form. They are parameters
  or absent; nothing is proved about them.
- System calls, ownership, modes, link counts, identity checks, fsync and re-verification against concurrent change. The
  file tree is a map of paths; only link, unlink and rename are atomic steps, and only the modelled processes touch the
  cache directory.
- The notification primitive of the async runtime in `wait for ready` and `wait for tentative` is a flag that is set and
  taken; a panic while the decision lock is held, which would poison it, is not modelled.
- The retry loop inside the abort operation is one step, because it runs under the lock that every other transition takes.
- The numbers of the Linux ABI (audit architecture, instruction codes) are written out as the kernel defines them where the
  source takes them from a library.
- The tokenisation of range texts and version texts, and the library's rule for which prereleases a range admits.
- Closure.VerifyClosure: the range matcher is a parameter, so nothing is proved here about its link to `NpmRange`.
- Base64Url.DecodeEmbeddedKey: only the 32-byte length, the only one the build script has.
- Envelope.ScanSignedEnvelope: the scanner only; the parse of the four scalars, the canonical-payload comparison and the
  signature check after it are not modelled.
- TransferBundle.Codec.Lawful: decoding is assumed to undo encoding on valid values; duplicate-key rejection is part of the
  decoder parameter.
- TarArchive.ParseTar: pax records are read by a parameter, so the pinned pax tables and the slice of a pax record of length
  1 are not modelled; the compressed-stream end check is not modelled.
- TarRoundTrip.PrintedArchiveIsRead: names are UTF-8 of at most 100 bytes in the name field, because the printer writes no
  prefix and no pax records; what becomes of links, of GNU long names and of the Node policy is stated by
  `TarRoundTrip.PrintedArchiveMeans`.
- TarArchive.ReadRecord: pax records are read by a parameter, as in `TarArchive.ParseTar`.
- NpmRange.NpmRangeMatches: the bound of 512 bytes and the test for an empty range, the splitting at "||" and white space,
  the hyphen form, the parsing of versions, and the range library's limit on comparators are not modelled, so their errors
  are missing from the error condition.
- Inventory.AdmitManifest: the commit, tag, digest and signature fields of the manifest are not modelled.
- TransferBundle.VerifyTransferredBundleRoot: modes, ownership, identity and the second reading of the tree are not modelled.
- BundleOutput.OutputRoot.CreateDirectory: the mode, ownership and identity of the directory are not modelled.
- BundleOutput.OutputRoot.WriteFile: modes, identity checks and system-call failures are not modelled.
- BundleOutput.OutputRoot.CopyFile: the source's identity and the checks of its descriptor after copying are not modelled.
- BundleOutput.OutputRoot.Prepare: syncing and the re-verification of tracked identities are not modelled.
- BundleOutput.OutputRoot.Publish: of the rename's failures only a taken name is modelled, and no identity check after it.
- BundleOutput.WritePreflightBundle: system-call failures while staging are not modelled.
- BundleOutput.WriteVerifiedBundle: system-call failures while staging are not modelled.
- BundleOutput.ExportPreflightBundle: modes, identity checks and system-call failures are not modelled.
- Package identity, peer and version checks around the closure, GitHub and HTTP plumbing, command lines, redirect policy,
  signing services, the Python scripts and the pinned digest tables.
- Field validators of wire records, source records and qualification records beyond the ones the bundles use.
- The padded base64 codec of wire records, which would repeat the base64url proof.
