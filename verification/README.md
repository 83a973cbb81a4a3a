# Verified model of the release tooling

This project models the release tooling of the repository (the Python programs under `cli/ci`) in Dafny and
proves what those programs promise. It models:

* **Boundary scanners** of the architecture guard: the comment masker, the string literal scanners that run on
  its output, and the closures over tainted names, aliases and resolved paths.
* **Publication protocols**: the same-name npm publication against a registry with delayed visibility, and the
  resumable upload to a draft release. The remote side is state that changes at any time; in the protocol crashes
  and restarts come at any moment, and a program runs against a script of outcomes fixed before the call.
* **Dependency inventory**: the Cargo and Bun worklists, the reader of `Cargo.lock`, and the trailing-comma
  stripper for `bun.lock`.
* **Archive decoding and npm versions**: the raw tar walk, the member table, and the version rewriting with the
  precedence of section 11 of Semantic Versioning 2.0.0.
* **Evidence bundles and assembly**: base64 (sections 3.5 and 4 of RFC 4648), the command-log producer and its
  independent validator, and the four-way merge.
* **Reports and help walking**: the public-documents report with its own validator, and the budgeted walk over
  the help tree.

The loops of the programs are methods with invariants, and objects that are updated in place are classes. Each
method is proved against a specification function or an outright property, and the lemmas prove what that
specification means. `Wrappers`, `Sequences`, `PythonText`, `Ordering` and `Reachability` hold what several
components share. SHA-256, JSON, Unicode folding and the regular expressions are parameters; a lemma states the
facts it needs of them. `Platforms` and `Limits` hold the constants that several components use.

## What the proofs found

* The Rust literal scanner knows character literals, but the masker that runs before it does not. Behind a
  character literal, scanning after masking is right for every continuation if and only if the literal is
  harmless: it holds no quote and no comment opener, or it is `'\x""'` or its backtick form, where the scanner
  does not check the digits (`CharacterLiteralKept`). Behind every literal that opens a quote, such as `'"'`, a
  comment line is kept and its strings are reported (`CharacterLiteralHidesComment`). Literal preservation covers
  Rust code with lifetimes, divisions and harmless character literals.
* One pass of the trailing-comma stripper leaves nothing for a second one if and only if no comma stands before
  a deleted comma (`OnePassIsEnough`; `AdjacentCommasLeaveOne` shows a text with such a comma).
* Same-name publication never submits a version its preflight found. With fresh lookups, a session submits an
  alias it handles if and only if the version was not public when it looked (`SubmittedIffNotPublic`), so a
  version that was accepted and is not yet visible is always submitted again after a crash
  (`AcceptedIsSubmittedAgain`, with the run `AcceptedVersionSubmittedTwice`).
* A payload version precedes the prereleases of its core exactly when its root is a prerelease, or the other
  version is an rc, or the platform is a darwin one (`PayloadAgainstPrereleases`): the Linux payload of a plain
  release does not precede a dev root of the same core.
* `assemble` writes each `<platform>-build-report.json` without a collision check. The merge conserves every
  artifact exactly when no artifact has such a name, and the count of thirteen archives does not detect the loss
  of a runner, even with all mandatory evidence present (`ThirteenWithoutARunner`).
* An array in `Cargo.lock` ignores whatever stands before its first opening bracket (`ArrayMeaning`), and one
  that closes without opening raises an error that is no refusal code (`ClosedBeforeOpened`).
* A `]` inside a dependency string of `Cargo.lock` ends the array early; a printed lockfile is read back exactly
  when no dependency string holds one (`LockRoundTrip`).
* The parent check of the member table looks up folded parents of folded names, so it means a physical tree when
  folding a folded component changes nothing; the tree theorems state that as `Stable`.

## Model

| member | source | states |
|---|---|---|
| Masking.MaskerContract | cli/ci/check_architecture.py:273-326 | in both modes masking keeps the length, keeps every newline in place, changes a character only to a space, and a second masking changes nothing |
| Masking.MaskIdempotentFrom | cli/ci/check_architecture.py:273-326 | from every scanner state, masking the masked text leaves it as it is |
| Masking.MaskShape | cli/ci/check_architecture.py:273-326 | every output is the input with some non-newline characters blanked |
| Masking.RawLengthOf | cli/ci/check_architecture.py:254-270 | a raw literal with any prefix, any number of hashes and a body without the terminator is recognised with exactly its length, whatever follows |
| Masking.RawLengthShape | cli/ci/check_architecture.py:254-270 | whatever is recognised is such a raw literal: prefix, hashes, body without terminator, terminator |
| Masking.RustRawLiteralEnd | cli/ci/check_architecture.py:254-270 | the imperative scanner returns the exclusive end of the raw literal at the given position, or None when there is none |
| Masking.WithoutComments | cli/ci/check_architecture.py:273-326 | the imperative masker computes the mask of the text for both modes |
| Literals.MaskOfRendering | cli/ci/check_architecture.py:273-326 | masking a rendered token list keeps gaps and literals and blanks exactly the comments |
| Literals.ScanAfterMasking | cli/ci/check_architecture.py:273-326 | scanning the masked rendering of code, escaped or raw literals, harmless character literals, nested block comments and line comments returns exactly the literal bodies in order; code may hold lifetimes and single slashes |
| Literals.ScanOfMasked | cli/ci/check_architecture.py:902-991 | the scanners return the bodies of a masked token list in order, comments having become blanks |
| Literals.LifetimeStays | cli/ci/check_architecture.py:933-957 | an apostrophe that opens no character literal opens none after masking either, whatever comment follows |
| Literals.MaskCharacter | cli/ci/check_architecture.py:273-326 | the masker keeps a harmless character literal and goes on in code |
| Literals.CharacterMeaning | cli/ci/check_architecture.py:933-957 | a character literal is recognised with a length if and only if that much of the text is one in the grammar: between apostrophes one character, or a backslash and one character, or `\x` and any two, or `\u{...}` over hexadecimal digits and underscores with at least one digit |
| Literals.ScanCharacter | cli/ci/check_architecture.py:965-968 | the scanner passes over every character literal of that grammar, quotes and comment openers included, and goes on with what follows |
| Literals.OpenLiteralEndsScan | cli/ci/check_architecture.py:916-930 | an escaped literal of either language with no unescaped delimiter behind it ends the scan |
| Literals.OpenRawLiteralEndsScan | cli/ci/check_architecture.py:974-979 | a raw literal without its terminator ends the scan |
| Literals.CharacterLiteralKept | cli/ci/check_architecture.py:933-957 | for every character literal: scanning after masking is right for all well-formed continuations if and only if the literal is harmless |
| Literals.CharacterLiteralHidesComment | cli/ci/check_architecture.py:273-326 | behind every character literal that opens a quote the masker keeps a comment line, and a string in it is reported |
| Literals.CharacterLiteralOpensComment | cli/ci/check_architecture.py:273-326 | a comment opener inside a character literal blanks the literal that follows, which is lost |
| Literals.EscapedLiteral | cli/ci/check_architecture.py:902-913 | the scanner returns the body up to the first unescaped delimiter and the position after it, or None |
| Literals.TypeScriptStringLiterals | cli/ci/check_architecture.py:916-930 | the imperative scanner computes the literal list of the specification |
| Literals.RustCharLiteralEnd | cli/ci/check_architecture.py:933-957 | the imperative scanner returns the end of the character literal at the position, as CharacterMeaning describes it, or None |
| Literals.RustStringLiterals | cli/ci/check_architecture.py:960-991 | the imperative scanner computes the literal list of the specification, raw literals and character literals included |
| Closures.TaintedNames | cli/ci/check_architecture.py:1195-1238 | the result is the least set that holds the seeds and is closed under the assignment rule (`_` excluded for Rust), reached within one round more than there are untainted assigned names |
| Closures.TaintOrderIndependent | cli/ci/check_architecture.py:1195-1238 | order and repetition of the assignments do not change the result |
| Closures.TaintIsDerivability | cli/ci/check_architecture.py:1195-1238 | a name is tainted if and only if a chain of assignments derives it from the seeds |
| Closures.ReadAliases | cli/ci/check_architecture.py:1241-1283 | the alias set is the least one that holds the imports and is closed under plain bindings |
| Closures.ResolvedPaths | cli/ci/check_architecture.py:1458-1502 | the loop bounded by one round more than constants always reaches its fixpoint: exactly the resolvable names are resolved, each value is the one its constant computes, and the violations are exactly the values outside the allowlist |
| Closures.ResolveRound | cli/ci/check_architecture.py:1465-1502 | one round keeps values justified and least, and a round without change is closed |
| NpmVersions.IdentifierMeaning | cli/ci/publication.py:542 | an identifier of a version text is a number in its only decimal form or a word that stands for itself |
| NpmVersions.BuildIsDropped | cli/ci/publication.py:542 | build metadata must be non-empty identifiers with single dots between them and then changes nothing |
| NpmVersions.PrecedenceOrder | cli/ci/package_local.py:523-527 | SemVer precedence is a strict order in which any two different versions are comparable |
| NpmVersions.PrecedenceSteps | cli/ci/package_local.py:523-527 | the rules that fix it: core numbers from the left, prereleases below their release, numbers below words, lists below their extensions |
| NpmVersions.PayloadParses | cli/ci/package_local.py:523-527 | every platform payload of an admitted version is valid SemVer with the expected identifiers |
| NpmVersions.PayloadPrecedesRoot | cli/ci/package_local.py:523-527 | every payload strictly precedes its root in SemVer precedence |
| NpmVersions.PayloadAgainstPrereleases | cli/ci/package_local.py:523-527 | a payload precedes another prerelease root of its core if and only if its own root is a prerelease, or the other is an rc, or the platform is a darwin one |
| NpmVersions.PayloadInjective | cli/ci/publication.py:542 | equal payload versions come from equal versions and platforms |
| NpmVersions.PayloadIsNoRoot | cli/ci/publication.py:542 | no payload version is a root version |
| NpmVersions.AdmittedIsPlanVersion | cli/ci/publication.py:59 | a text matches the loader's expression if and only if it is the text of a plan version |
| NpmVersions.RootParses | cli/ci/publication.py:59 | every version the loader admits is valid SemVer |
| RegistryPublication.StepKeepsInv | cli/ci/publication.py:539-563 | every step, environment steps and crashes included, keeps the protocol invariant, and what the registry shows never changes |
| RegistryPublication.RootAfterPayloads | cli/ci/publication.py:552-563 | in every run the root is submitted only when all four payloads are visible with exactly the expected integrity |
| RegistryPublication.DoneMeansPublished | cli/ci/publication.py:552-563 | a finished session means all five versions are visible with the expected integrity |
| RegistryPublication.SubmissionsFollowPreflight | cli/ci/publication.py:539-560 | every submission is of a version its preflight did not find, after a preflight whose answers were all missing or exact, and no session submits twice |
| RegistryPublication.MismatchSubmitsNothing | cli/ci/publication.py:543-545 | a preflight that saw an integrity other than the expected one for any version submits nothing |
| RegistryPublication.RecoveryFillsGaps | cli/ci/publication.py:537-538 | when lookups are not stale, a session submits only versions that were not public when it started |
| RegistryPublication.SubmittedIffNotPublic | cli/ci/publication.py:543-557 | in every run with fresh lookups, a session has submitted an alias it handled if and only if the version was not public at that session's lookup of it |
| RegistryPublication.AcceptedIsSubmittedAgain | cli/ci/publication.py:491-506 | a version accepted but not visible at that lookup is always submitted again |
| RegistryPublication.AcceptedVersionSubmittedTwice | cli/ci/publication.py:491-506 | such a run: the first payload is accepted, the session crashes, and the next session submits it again |
| RegistryPublication.PlanReleaseIsValid | cli/ci/publication.py:542 | the five versions derived from an admitted plan version are pairwise different |
| RegistryPublication.Publisher.RegistryIntegrity | cli/ci/publication.py:479-488 | a lookup is one protocol step; it fails only where the script has no answer, may answer late, and never invents an integrity |
| RegistryPublication.Publisher.AwaitRegistryIntegrities | cli/ci/publication.py:491-506 | normal return means the whole cohort was seen with the expected integrity; every early end is backed by the script, a timeout only after the whole timeout; in a fair world with the cohort held by the registry and lookups fresh in time it returns normally |
| RegistryPublication.Publisher.SubmitOne | cli/ci/publication.py:554-558 | one package is handled if and only if its bytes stayed and, when it was missing, its submission is accepted; a found version is left alone |
| RegistryPublication.Publisher.SubmitCohort | cli/ci/publication.py:553-561 | exactly the versions preflight did not find are submitted, in order; an early end is backed by the script; in a fair world the whole cohort is submitted |
| RegistryPublication.Publisher.Publish | cli/ci/publication.py:539-563 | the program is a run of the protocol against a script of outcomes fixed before the call; every early end goes back to the matching outcome of the script; success means all five versions are public and exactly the aliases whose answer was missing were submitted; when every lookup answers, nothing foreign is there, signing, bytes and submissions hold and versions show in time, it succeeds |
| DraftUpload.VerifyListing | cli/ci/stage_upload.py:38-47 | the listing is accepted if and only if it consists of distinct completed uploads of planned bytes |
| DraftUpload.Draft.TakeSnapshot | cli/ci/stage_upload.py:26-47 | a snapshot observes exactly a verified listing or fails, whatever changed the draft before |
| DraftUpload.Draft.StageArtifact | cli/ci/stage_upload.py:63-85 | the attempts for one artifact obey the upload rule for every outcome; success means the latest snapshot shows the artifact, and it stops only for a failed snapshot, bad local bytes, a permanent error, a timeout or a third failure |
| DraftUpload.Draft.Stage | cli/ci/stage_upload.py:50-87 | every upload of the call obeys the rule (absent from the snapshot just taken, at most two earlier attempts, all transient), normal return means the remote names are exactly the wanted ones, every other end goes back to an outcome of the script fixed before the call, and in a favourable script it returns normally |
| DraftUpload.AtMostThreeAttempts | cli/ci/stage_upload.py:63-85 | in every such call each name is uploaded at most three times |
| DraftUpload.NothingAfterAnEnd | cli/ci/stage_upload.py:69-83 | after a success, a permanent error or a timeout the name is never uploaded again |
| DraftUpload.VerifiedIsNotUploaded | cli/ci/stage_upload.py:60-62 | what the snapshots show is not uploaded |
| DraftUpload.CompleteInventory | cli/ci/stage_upload.py:86-87 | the final condition means: every non-empty artifact is there once with its size and digest, and nothing else |
| Reachability.ClosedHoldsReached | cli/ci/dependency_evidence.py:560-579 | a set of states that holds the direct ones and is closed under edges holds every reached one |
| Reachability.WalkEnds | cli/ci/dependency_evidence.py:560-579 | with an empty queue the processed states are exactly the reached ones |
| Reachability.Schedule | cli/ci/dependency_evidence.py:576-579 | scheduling a successor unless it is scheduled keeps the worklist invariant |
| CargoInventory.FaultMeaning | cli/ci/dependency_evidence.py:501-533 | a package passes if and only if it has a crate name, a valid version, and either a registry address of bounded printable text with a checksum of 64 lower-case hexadecimal digits, or neither and the manifest's version; each refusal code has its condition |
| CargoInventory.FirstFaultMeaning | cli/ci/dependency_evidence.py:497-538 | the first refusal is the code of the first package that fails a check, repeats an identity or exceeds the limit |
| CargoInventory.NoFault | cli/ci/dependency_evidence.py:497-545 | no package is refused if and only if each passes its checks and no identity repeats |
| CargoInventory.ResolveMeaning | cli/ci/dependency_evidence.py:469-486 | a reference resolves to the only package that fits it and is refused exactly when there is no such package, with the right code |
| CargoInventory.LocalMeaning | cli/ci/dependency_evidence.py:548-555 | the local check passes if and only if the name stands for the manifest's version without a source and for nothing else |
| CargoInventory.EnterPackages | cli/ci/dependency_evidence.py:497-545 | the loop builds the dictionary and the index by name, or stops with the first refusal |
| CargoInventory.ScopeLocals | cli/ci/dependency_evidence.py:547-556 | exactly the local packages get the local scope |
| CargoInventory.ScheduleDirect | cli/ci/dependency_evidence.py:558-564 | the queue starts with each resolved direct state once |
| CargoInventory.Expand | cli/ci/dependency_evidence.py:574-579 | one state's references are all resolved and scheduled, or one means no package |
| CargoInventory.Walk | cli/ci/dependency_evidence.py:558-579 | success if and only if every reachable reference means a package, otherwise the code of a first failing one; scopes grow by exactly the reached ones; each reached state is processed exactly once |
| CargoInventory.ResolvedCargoComponent | cli/ci/dependency_evidence.py:489-604 | an inventory is produced exactly for the accepted inputs (sound packages, distinct identities, locals present, references resolvable, every package in some scope), in terms of FaultMeaning's conditions: one sound row for each package, sorted, with scopes exactly the local scope and every scope some direct dependency of which reaches it; otherwise the code of the first failing phase, for references that of the first failing one of the direct list or of some reached package |
| CargoInventory.RowsAreSound | cli/ci/dependency_evidence.py:508-533 | every row has a registry source and a digest of 64 digits, or no digest, the workspace or component-local label, and the manifest's version |
| CargoInventory.RowOrder | cli/ci/dependency_evidence.py:597 | rows stand in the order of name, version and source, compared at the first character that differs, a prefix first |
| CargoInventory.SortKeysDiffer | cli/ci/dependency_evidence.py:509-538 | rows of different packages never tie in the final sort |
| CargoInventory.SortEntries | cli/ci/dependency_evidence.py:597 | the rows come out strictly sorted and complete |
| CargoInventory.OrderIndependent | cli/ci/dependency_evidence.py:489-604 | neither acceptance nor the inventory depends on the order of packages or on order or repetition of direct dependencies |
| BunInventory.ExpandName | cli/ci/dependency_evidence.py:831-835 | the inner loop schedules all dependencies of the processed name |
| BunInventory.WalkNames | cli/ci/dependency_evidence.py:813-835 | success if and only if every reachable name is in the lockfile; scopes are exactly reachability; each reached state is processed once |
| BunInventory.Inventory | cli/ci/dependency_evidence.py:836-858 | sorted rows for the workspace and for each package with exactly its scopes, or the code that tells a missing from an unreachable package |
| Ordering.SortedIsUnique | cli/ci/dependency_evidence.py:594-597 | a list without ties has one sorted arrangement |
| Ordering.BeforeMeaning | cli/ci/dependency_evidence.py:597 | the order of strings is decided at the first character that differs, a proper prefix first |
| TrailingCommas.DeletesOnlyCommas | cli/ci/dependency_evidence.py:152-186 | on every text only commas outside strings are deleted and the reader ends in the same state |
| TrailingCommas.StripValue | cli/ci/dependency_evidence.py:152-186 | in every context the printing of a value with trailing commas becomes its printing without them |
| TrailingCommas.StripsToStrictPrinting | cli/ci/dependency_evidence.py:152-186 | for every laid-out JSON value with surrounding white space the stripper succeeds and yields the strict printing |
| TrailingCommas.OnePassIsEnough | cli/ci/dependency_evidence.py:169-176 | on every text a second pass changes nothing if and only if no comma outside strings stands before a deleted one |
| TrailingCommas.ClosesAfterStripping | cli/ci/dependency_evidence.py:169-176 | what is left begins with a closing bracket exactly when the text did, or began with a deleted comma |
| TrailingCommas.StripJsonTrailingCommas | cli/ci/dependency_evidence.py:152-186 | the imperative stripper computes the specification and fails exactly on an unterminated string |
| TrailingCommas.WellEscapedMeans | cli/ci/dependency_evidence.py:160-169 | a text leaves the reader inside the string if and only if it consists of plain characters and complete escapes |
| PythonText.SplitJoin | cli/ci/dependency_evidence.py:420 | splitting into lines undoes joining lines without breaks |
| CargoLock.ParseTomlStringArray | cli/ci/dependency_evidence.py:234-251 | the imperative reader computes the array and the lines it takes in, or the error |
| CargoLock.ReadLine | cli/ci/dependency_evidence.py:425-457 | one round of the reader's loop has exactly the effect of the specification on state and remaining lines |
| CargoLock.ParseCargoLock | cli/ci/dependency_evidence.py:419-466 | the imperative reader computes the specification on every text |
| CargoLockMeaning.VersionMeaning | cli/ci/dependency_evidence.py:439-442 | a line is the version line if and only if it is the word, an equals sign between any spaces, and digits with that value |
| CargoLockMeaning.ArrayMeaning | cli/ci/dependency_evidence.py:242-251 | an array is read as some strings if and only if only white space follows its first closing bracket and between the brackets stand literals for exactly those strings with only spaces and commas around them; text before the opening bracket is ignored |
| CargoLockMeaning.ClosedBeforeOpened | cli/ci/dependency_evidence.py:242-244 | an array whose first closing bracket has no opening one before it is refused, with a stray exception when nothing follows |
| CargoLockMeaning.AssembleMeaning | cli/ci/dependency_evidence.py:237-241 | lines are taken in up to the first that has a closing bracket, none when the value has one |
| CargoLockMeaning.ValueMeaning | cli/ci/dependency_evidence.py:237-251 | a value that no line closes is refused; otherwise the array of the text taken in is read and the lines behind it are left over |
| CargoLockMeaning.FieldMeaning | cli/ci/dependency_evidence.py:445-457 | a field line sets the field of its key and no other; a second one, an unknown key and a bad literal are refused with their codes |
| CargoLockMeaning.OtherLines | cli/ci/dependency_evidence.py:427-446 | blank lines and comments do nothing, a package header closes the package before it within the limit, and a field without an equals sign is refused |
| CargoLockMeaning.VersionLine | cli/ci/dependency_evidence.py:438-444 | before the first package only one version line is accepted |
| CargoLockMeaning.EndMeaning | cli/ci/dependency_evidence.py:458-466 | the file is accepted if and only if its version is 4 and it has between 1 and 16384 packages; otherwise the code of the first failure |
| CargoLockPrinting.ArrayRoundTrip | cli/ci/dependency_evidence.py:234-251 | a printed array, on one line or several, is read back exactly when no string holds a closing bracket, and refused otherwise |
| CargoLockPrinting.ParsePackage | cli/ci/dependency_evidence.py:430-457 | one printed package is read into one record, or refused for its bracket or for the package limit |
| CargoLockPrinting.LockRoundTrip | cli/ci/dependency_evidence.py:419-466 | a printed version 4 lockfile is accepted if and only if it has between 1 and 16384 packages and no dependency holds a bracket, and then the records come back in order |
| TarWalk.WalkIsDecomposition | cli/ci/publication.py:125-136 | a byte string is accepted if and only if it decomposes into non-empty headers with padded payloads and a zero tail of at least two blocks, and that decomposition is unique |
| TarWalk.WalkUndoesPrinting | cli/ci/publication.py:125-136 | every printed list of members with octal sizes is walked back to the same blocks |
| TarWalk.TrailingByteIsRefused | cli/ci/publication.py:136 | after the members and one empty block any non-zero byte is refused |
| TarWalk.TailIsZeros | cli/ci/publication.py:128-136 | an accepted archive is its members followed by at least 1024 zeros |
| TarWalk.PrintedSize | cli/ci/publication.py:131 | the size field of a printed header is read as the size it was written for |
| TarWalk.OctalIntMeaning | cli/ci/publication.py:131 | a size field is read as a number if and only if it is an octal numeral in Python's grammar: spaces around, a sign, a prefix, groups of digits with single underscores |
| TarWalk.DeclaredSizeMeaning | cli/ci/publication.py:131 | the declared size is that number once trailing zeros and spaces are gone, an empty field being zero |
| TarWalk.WalkArchive | cli/ci/publication.py:125-136 | the imperative walk accepts exactly what the specification does and stops at the members' offsets |
| MemberTable.BuildTable | cli/ci/publication.py:137-170 | the loop accepts exactly the sound, bounded member lists with distinct portable names and no member beneath a file or link, and returns their table |
| MemberTable.SafeNameMeaning | cli/ci/publication.py:141-144 | a member name passes if and only if it is a relative path of clean components, none of them `..` |
| MemberTable.EveryMemberRecorded | cli/ci/publication.py:154-160 | no member of an accepted list overwrites another in the table |
| MemberTable.BeneathIsAncestry | cli/ci/publication.py:162-166 | the parent check means proper ancestry, component by component, up to the portable form |
| MemberTable.AcceptedIsTree | cli/ci/publication.py:137-166 | an accepted table is a physical tree within the bounds |
| MemberTable.TreeIsAccepted | cli/ci/publication.py:137-166 | sound members within the bounds that form a physical tree are accepted |
| Base64.DecodeEncode | cli/ci/kernel_rc_evidence.py:105-109 | decoding undoes encoding |
| Base64.EncodedLength | cli/ci/build_kernel_rc.py:75 | the encoded length is 4*ceil(n/3) |
| Base64.CanonicalText | cli/ci/kernel_rc_evidence.py:105-111 | among all texts that decode to some bytes exactly one passes the re-encoding check |
| Base64.DecodingIsNotInjective | cli/ci/kernel_rc_evidence.py:109 | without the re-encoding check two texts would stand for the same bytes |
| CommandLogs.RowIsCanonical | cli/ci/kernel_rc_evidence.py:97-112 | a row is accepted for some bytes if and only if it is the one row the producer writes for them |
| CommandLogs.HeaderMeaning | cli/ci/kernel_rc_evidence.py:60-68 | the identities are accepted if and only if schemas, mode, platform, version and revision are the stated ones and agree |
| CommandLogs.ValidateProducerCommandLogs | cli/ci/kernel_rc_evidence.py:56-113 | the validator accepts exactly the valid bundles (identities, one bounded record of the bundle, no original beside it, one canonical row for each member) and returns the bytes of each member |
| CommandLogs.CollectRows | cli/ci/build_kernel_rc.py:70-85 | the collecting loop succeeds exactly when all logs are recorded as they are and neither their bytes nor their encodings exceed 16 MiB together, and yields the canonical rows |
| CommandLogs.ProducerCommandLogEvidence | cli/ci/build_kernel_rc.py:54-101 | the producer succeeds exactly when its own conditions and the validator's header conditions hold, and its evidence replaces the logs by the bundle |
| CommandLogs.RoundTrip | cli/ci/build_kernel_rc.py:86-96 | every produced bundle passes the independent validator, which returns the original bytes |
| CommandLogs.AcceptedIsProduced | cli/ci/kernel_rc_evidence.py:56-113 | every accepted bundle is the one the producer would write for the returned bytes |
| CommandLogs.MembersAreDistinct | cli/ci/kernel_rc_evidence.py:19-27 | eight distinct members on macOS and five on Linux, none of them the bundle itself |
| Assembly.MergeBuild | cli/ci/assemble_kernel_rc.py:33-106 | the loops over artifacts and evidence, with the checks that mandatory evidence is present and foreign evidence absent, compute the merge that AssemblyAcceptance.MergeMeaning describes |
| Assembly.Assemble | cli/ci/assemble_kernel_rc.py:12-130 | the loop over the four builds and the checks on the whole inventory compute the assembly that AssemblyAcceptance.AssembledMeaning describes; every evidence file that is no packaged artifact is in the result under its name with its digest, size, kind and platform, unless it is called build-report.json in the package directory and the report has taken its place, and every record comes from a build |
| Assembly.MergeAllAccounts | cli/ci/assemble_kernel_rc.py:94-106 | after every merge each evidence file that is no packaged artifact stands under its release name with its own digest and size or is replaced by the report, and nothing else is in the inventory |
| AssemblyAcceptance.MergeMeaning | cli/ci/assemble_kernel_rc.py:33-106 | one merge files the entries of a genuine build, the last of a name winning, and refuses every other build and every collision but that of identical npm roots and that with a report |
| AssemblyAcceptance.AssembledMeaning | cli/ci/assemble_kernel_rc.py:12-130 | the assembly succeeds if and only if the four builds are genuine, of one release and without collisions and their entries make a complete inventory, which is the result |
| Assembly.MergeAllConserves | cli/ci/assemble_kernel_rc.py:45-108 | every archive record comes from an artifact, every artifact is there or replaced by a build report of its name, and the platforms differ |
| Assembly.SlotsDiffer | cli/ci/assemble_kernel_rc.py:52-55 | across all builds only npm roots share a place |
| Assembly.ConservedUnlessReportName | cli/ci/assemble_kernel_rc.py:104-106 | the merge keeps every artifact's record if and only if no artifact is named like a build report; only identical npm roots share a name |
| Assembly.BuildFillsSlots | cli/ci/kernel_rc_evidence.py:613-618 | one build brings an archive for each of its four places and nothing else |
| Assembly.AssembledCovers | cli/ci/publication.py:78-80 | an accepted assembly takes each of the thirteen places exactly once if and only if no standalone archive or platform package is named like a build report |
| Assembly.MergedCovers | cli/ci/publication.py:257-287 | the same for any number of merged builds whose archives are one more than three for each build |
| AssemblyGap.SampleMerges | cli/ci/assemble_kernel_rc.py:33-106 | a build with all mandatory evidence and new names is accepted, and its evidence takes names that begin with its platform |
| AssemblyGap.ThirteenWithoutARunner | cli/ci/assemble_kernel_rc.py:128-130 | four complete builds that are accepted with thirteen archives although a runner is missing |
| PublicDocs.CollectHolds | cli/ci/check_alpha_public_docs.py:185-193 | collecting keeps every failure exactly once |
| PublicDocs.Report.AddFailure | cli/ci/check_alpha_public_docs.py:185-193 | a failure is appended unless it is there |
| PublicDocs.Report.ReadDocuments | cli/ci/check_alpha_public_docs.py:826-857 | the loop records every document's outcome, keeps the texts that were read, and sets the authentication check |
| PublicDocs.Report.JudgeTexts | cli/ci/check_alpha_public_docs.py:922-931 | the loop sets every semantic check and adds its failure |
| PublicDocs.Report.JudgeClaims | cli/ci/check_alpha_public_docs.py:969-984 | the stale-claims loop, with the branch that fails without a failure of its own |
| PublicDocs.TextsCount | cli/ci/check_alpha_public_docs.py:856 | as many texts as documents are kept exactly when all were read |
| PublicDocs.FinalChecksMean | cli/ci/check_alpha_public_docs.py:813-984 | past version and root every check is evaluated and passes exactly when its condition holds |
| PublicDocs.NothingCollectedIsAllGood | cli/ci/check_alpha_public_docs.py:986-989 | no failure is recorded if and only if every check passes |
| PublicDocs.SemanticMeaning | cli/ci/check_alpha_public_docs.py:926-935 | the semantic check passes exactly under its condition on the texts that were read |
| PublicDocs.FailuresMean | cli/ci/check_alpha_public_docs.py:789-992 | a failure is reported if and only if its check, document or claim gives cause for it |
| PublicDocs.RecordsMean | cli/ci/check_alpha_public_docs.py:824-851 | each document's record tells what reading it gave |
| PublicDocs.SilentStaleClaims | cli/ci/check_alpha_public_docs.py:969-984 | when stale-claims fails silently, an unread document's failure is in the report |
| PublicDocs.Assess | cli/ci/check_alpha_public_docs.py:789-992 | for every combination of outcomes the report passes its own validator, its failures are exactly the due ones, each once, its checks and documents tell what was found, and it passes exactly when every check does |
| HelpWalk.ExpansionHolds | cli/ci/check_public_surface.py:314-318 | expanding alternatives gives exactly the paths that choose one alternative of each word |
| HelpWalk.Expand | cli/ci/check_public_surface.py:314-318 | the nested loops compute the expansion |
| HelpWalk.DiscoveredHolds | cli/ci/check_public_surface.py:321-357 | a help text names exactly its section entries under the current path and all prefixes of its usage lines' alternatives, each once |
| HelpWalk.DiscoveredPaths | cli/ci/check_public_surface.py:321-357 | the imperative reader computes that list |
| HelpWalk.CommandPaths | cli/ci/check_public_surface.py:266-274 | the loops compute the manifest's paths without repetition |
| HelpWalk.TopicPaths | cli/ci/check_public_surface.py:277-284 | the loop computes the topics' paths without repetition |
| HelpWalk.HelpCommands | cli/ci/check_public_surface.py:287-307 | the fixed entry points followed by one help command for each known path |
| HelpWalk.KnownPathsHold | cli/ci/check_public_surface.py:303-304 | the known paths are exactly those of the manifest and the topics, each once |
| HelpWalk.KnownCommandsDiffer | cli/ci/check_public_surface.py:287-307 | no known command occurs twice and every known path has its help command |
| HelpWalk.InSectionMeaning | cli/ci/check_public_surface.py:326-338 | a line stands in a section if and only if a header comes before it and every line since continues the section |
| HelpWalk.CurrentOfHelp | cli/ci/check_public_surface.py:384-387 | the current path of a command is the path whose help it is, and empty for every other command |
| HelpWalk.NamesMean | cli/ci/check_public_surface.py:384-393 | a command names a path if and only if a line of its output does, as a section entry under the path whose help it is or as a prefix of a usage line's choice |
| HelpWalk.WalkHelp | cli/ci/check_public_surface.py:363-394 | the walk runs every known command first, none twice, at most 400 more than are known, only named ones besides; with an empty queue, under the help of a path of depth below four every section entry has been run below that path, and so has every prefix up to depth four of every usage line's choice; known commands are judged as required and the others not |

## Left out

- Literals.ScanAfterMasking: literals and block comments that never end are outside the token lists; the masker theorems cover them.
- MemberTable.AcceptedIsTree: takes the portable map to work component by component and to be stable under repetition; Unicode normalisation itself is not part of this model.
- Assembly.Assemble: checks on file contents (digests, archives, structured reports) arrive as one outcome for each build, evidence paths arrive split into directory and name, and the writing of files after the inventory is complete is left out.
- RegistryPublication.Publisher.Publish: credentials and receipts on disk are left out; whether signing succeeds, the clock and other clients are part of the script.
- CargoInventory.ResolvedCargoComponent: the expressions for versions and references are inputs; among several reached packages with a reference that means no package, the one visited first is not determined.
- BunInventory.Inventory: the validation of the lockfile's JSON shape and of its integrity strings before the worklist.
- HelpWalk.DiscoveredPaths: the tests on one line (section header, entry, indentation, command words) are inputs.
- CommandLogs.ProducerCommandLogEvidence: file identity checks around the reads; the logs are taken to stay as they are.
- DraftUpload.Draft.Stage: texts of remote errors; whether an outcome is transient or permanent is part of the script.
- `toml_assignments`, `parse_root_manifest` and `parse_member_manifest`: straight-line readers over the array reader that is modelled.
- `publication_routes`, `BoundedCapture.drain`, `validated_archive_members` and `write_installed_sdk_payloads`: short loops whose properties can be read off their bodies.
- `validate_sdk_archive_table`, the split of the SDK's entry allowance, and `sdk_native_inventory`: the last is not part of this model.
- The `load_plan` field checks and the parts of `verify_local` beyond coverage: straight-line checks.
- Process execution, signals, Docker, Homebrew, npm and `gh`: only their outcomes appear.
- File custody (file identity, no-follow opens, symlinks): file bytes are inputs.
- gzip, `tarfile`, SHA-256, JSON and regular expression internals: parameters or inputs.
- Help-text and README generation, workflow policy strings, denylist patterns, argument parsing and printing.
