# Process triage: bundles, identities and kill plans

This project models the parts of process triage whose correctness rests on more than one
function: session bundles (`pt-bundle`), the canonical forms by which commands, paths,
sockets, processes and sessions are identified (`pt-common`), ownership and workspace
attribution (`pt-common`), priors and protected patterns (`pt-config`), and the exact kill-plan
optimizers, false-discovery-rate selection and greedy probe selection (`pt-core`).

- **Bundles.** `Manifest.dfy`, `SafePaths.dfy`, `Writer.dfy`, `Reader.dfy`, `Encryption.dfy` and
  `Bundle.dfy`.
  A writer keeps manifest entries and file data in two lists and sorts each by path; a reader
  looks entries up, checks hashes and remembers what it verified; `PTBENC01` is the envelope
  around an encrypted bundle. The main results are that the two separate stable sorts never
  get out of step, what exactly a written bundle reads back as, what the verified marks mean
  in every run of reader calls, and that the envelope is parsed exactly.
- **Canonical forms.** `Paths.dfy`, `Categories.dfy`, `Signatures.dfy`, `Resources.dfy`,
  `ListenerKeys.dfy`, `WorkflowOrigin.dfy`, `Ids.dfy` and `SessionIds.dfy`. Each string-level form is related, on
  all strings, to a specification over components, sets, tokens or tuples.
- **Decisions.** `Plans.dfy`, `Knapsack.dfy` and `BranchBound.dfy` are the two exact optimizers
  for one resource goal; `Fdr.dfy` is the selection by e-values; `Probes.dfy` and
  `ProbeBudget.dfy` are the selection of overlapping probes. The optimizers' tables and search states are related to all plans the
  candidates allow, the scan over ranks to a rule that does not mention an order, and the
  greedy rounds to the best that any choice of probes covers.
- **Classification.** `Workspace.dfy`, `Lineage.dfy`, `Policy.dfy` and `Priors.dfy`.
- **Shared.** `Wrappers.dfy`, `Strings.dfy`, `Whitespace.dfy`, `Utf8.dfy`, `Totals.dfy`,
  `Sorting.dfy` and its two instances `StableSort.dfy` and `DescendingSort.dfy` model the
  library operations the code uses. The sorts are characterised, not just defined: `Unique`
  shows that any stable sort gives the same result, so nothing depends on the algorithm.

Hashing, JSON, the ZIP container and authenticated encryption are the function-valued fields
of `Platform.Libraries`. What the proofs need of them is stated as named laws
(`HashLaw`, `JsonLaw`, `ZipLaw`, `AeadLaw`, `AeadAuthentic`) and appears as a hypothesis
wherever it is used; the container's behaviour on repeated names is left open. Randomness
(salt, nonce, suffix bytes) and the clock, also where it stamps archive members, are parameters. `f64` is modelled by `real`, so
rounding, infinities as inputs and NaN are not, and case folding covers ASCII letters only.

## Where the code differs from its documentation

The model follows the code. In these places a stated intention holds only under a condition;
for each, the condition is proved for all inputs and a failing input is given.

- A plan from the dynamic-programming optimizer can miss a target that could be reached,
  because every gain is rounded up to whole steps: two gains of a half count for two
  (`HalvesCountAsOnes`). It always reaches its target exactly when the step size is positive
  and every positive gain is a whole number of steps (`AlwaysMetExactly`).
- The branch-and-bound optimizer bounds what a branch can still gain by the sum of all
  remaining gains, which is no bound when some are negative. Its answer is right for every
  target exactly when the gains have one sign (`RightExactly`, `ThreeAndMinusTwo`).
- Greedy probe selection by gain is documented to come within 1 - 1/e of the best. With k
  rounds it covers at least 1 - (1 - 1/k)^k of it when no probe lists a feature twice
  (`GreedyGuarantee`). A repeated feature is counted each time: the utility reported is the
  coverage exactly when there is none (`ReportsCoverageExactly`), and the guarantee survives
  adding probes exactly then (`GuaranteesExactly`, `RepeatsMislead`).
- Probe selection within a budget, by gain per cost, comes within no constant share of the
  best when one probe may cost the whole budget (`NoConstantShare`). When no probe costs more
  than d of it, at least (1 - d) / (2 - d) of the best is covered (`BudgetGuarantee`); a
  positive share is sure exactly when d is below one (`SureShareExactly`). When all probes
  cost the same it is selection by gain (`EqualCosts`).
- A `WrappedLauncher` signal means that a launcher was stripped, except on command lines with
  leading or trailing white space, which always get one (`WrapperSignalExact`,
  `BlankBeforeCommand`).
- A worktree equal to the root but spelled differently gets the workspace's own identity a
  second time (`WorktreeIdentityRepeats`, `RootAsItsOwnWorktree`).
- Canonicalising a listener key twice changes nothing except after a run of 5, 8, 11, ...
  colons (`IdempotentExactly`, `FiveColonsFail`); the IPv6 wildcard keeps a key of its own
  (`WildcardsShareKey`).
- Wildcards are replaced anywhere in a listener key, so `10.0.0.0:80` becomes `1any:80`
  (`LongerAddress`, `TailOfLongerAddress`). Keys without the letter y share a canonical key
  exactly when they agree up to writing the IPv4 wildcard as a star, except before two colons
  (`SharedKeyExactly`); a y allows more (`AnySpelledOut`).
- Different commands can share a normal form. A command's form is its own exactly when it has
  no two flags, its single flag is not two flags joined by a comma, and no colon lets the base
  name end, or the flags begin, elsewhere (`StandsAloneExactly`, `CommaCollides`,
  `ColonCollides`).
- A start id is unique among printed ids, but the parser also accepts other spellings of the
  same process (`AcceptedIsPrinted`, `PlusSignAccepted`).
- A glob with literals on both sides of a star misses commands it is meant to protect
  (`GlobProtectsExactly`, `TwoRuns`).
- In the fallback matcher the anchors of a regular expression have no effect: `^w$` protects
  every command that contains w (`AnchorsAreDropped`).
- The writer accepts paths that make its own bundle unreadable (`OpensExactly`), such as a
  file name with two dots in it (`DottedNameRefused`).
- The path check refuses more than leaving the bundle's directory would need: a relative path
  that stays inside is refused exactly when some component has two dots in its text
  (`HarmlessButRefused`, `DottedName`, `DownAndUp`).
- `normalize_path_for_hashing` maps runs of two or more slashes to the empty string, not to
  the root (`RunsOfSlashes`, `DoubleSlash`).

## Model

| member | source | states |
|---|---|---|
| StableSort.Unique | upstream/crates/pt-bundle/src/manifest.rs:312-314 | a sequence is the result of the stable sort exactly when it is sorted and keeps the order within equal keys |
| StableSort.SortAligned | upstream/crates/pt-bundle/src/writer.rs:264-265 | two collections related position by position, with equal keys, stay related when each is sorted by itself, even with repeated keys |
| StableSort.SortIgnoresOrder | upstream/crates/pt-bundle/src/manifest.rs:311-314 | with distinct keys the sorted result depends only on the multiset of elements |
| Manifests.FindFile | upstream/crates/pt-bundle/src/manifest.rs:194-196 | an entry is found exactly when the path is listed, and it has that path |
| Manifests.FindFileIsFirst | upstream/crates/pt-bundle/src/manifest.rs:194-196 | among entries with the same path the first one is found |
| Manifests.FirstEntryDefect | upstream/crates/pt-bundle/src/manifest.rs:277-307 | no defect exactly when every entry passes; otherwise the defect of the first entry that does not |
| Manifests.AcceptedIffWellFormed | upstream/crates/pt-bundle/src/manifest.rs:220-309 | validation accepts exactly the manifests with a supported version, a complete header and only safe relative paths with 64-byte checksums |
| SafePaths.SafePathExactly | upstream/crates/pt-bundle/src/manifest.rs:278-298 | an accepted path never steps above its start, and the accepted paths are exactly the relative ones without two dots in a component |
| SafePaths.HarmlessButRefused | upstream/crates/pt-bundle/src/manifest.rs:293-298 | a relative path is refused although it stays inside exactly when it stays inside and some component holds two dots |
| SafePaths.ParentRuleWouldSuffice | upstream/crates/pt-bundle/src/manifest.rs:292-298 | corollary: a relative path without a parent component stays inside, and is refused exactly when some component holds two dots |
| SafePaths.DottedName | upstream/crates/pt-bundle/src/manifest.rs:293-298 | `notes..txt` stays inside and is refused |
| SafePaths.DownAndUp | upstream/crates/pt-bundle/src/manifest.rs:293-298 | `a/../b` stays inside and is refused |
| SafePaths.ParentLeaves | upstream/crates/pt-bundle/src/manifest.rs:292-298 | a path that steps up first does not stay inside |
| Manifests.Validate | upstream/crates/pt-bundle/src/manifest.rs:220-309 | the early-return loop yields the version error, else the header's defect, else the first bad entry's, else acceptance |
| Manifests.HeaderRefusals | upstream/crates/pt-bundle/src/manifest.rs:220-274 | each refusal before the entries, with its error, when all before it is in order |
| Manifests.EntryRefusals | upstream/crates/pt-bundle/src/manifest.rs:276-306 | the first entry out of order is refused for its first fault |
| Manifests.BundleManifest.AddFile | upstream/crates/pt-bundle/src/manifest.rs:179-181 | appends the entry and changes nothing else |
| Manifests.BundleManifest.SortFiles | upstream/crates/pt-bundle/src/manifest.rs:312-314 | the entries become their stable sort by path; the header is unchanged |
| Writer.BundleWriter.AddFile | upstream/crates/pt-bundle/src/writer.rs:102-121 | both collections grow by the same file, and entry i still describes file i |
| Writer.BundleWriter.Totals | upstream/crates/pt-bundle/src/writer.rs:187-194 | the writer's file count and byte total equal the manifest's at every step |
| Writer.SortedStayDescribed | upstream/crates/pt-bundle/src/writer.rs:264-265 | after the two separate sorts entry i still has file i's path, checksum and length |
| Writer.AddedAreDescribed | upstream/crates/pt-bundle/src/writer.rs:102-121 | after any sequence of additions entry i describes file i |
| Writer.WriteArchive | upstream/crates/pt-bundle/src/writer.rs:272-292 | writes the manifest and then every file in order, or fails with the first refusal: a container error when a member cannot be started or the archive not finished, an I/O error when its data cannot be written |
| Platform.Libraries.FirstRefusal | upstream/crates/pt-bundle/src/writer.rs:276-292 | the first member refused decides: its name a container error, its data an I/O error |
| Writer.LayoutExactly | upstream/crates/pt-bundle/src/writer.rs:263-289 | `manifest.json` is the first member, then the files sorted by path |
| Writer.WrittenSpelledOut | upstream/crates/pt-bundle/src/writer.rs:258-303 | the errors of writing, in order |
| Writer.EntryOfExactly | upstream/crates/pt-bundle/src/writer.rs:25-50 | an added file's entry: path, checksum, length, and the MIME type of its type or of its ending |
| Writer.BundleWriter.WriteToVec | upstream/crates/pt-bundle/src/writer.rs:258-303 | an empty writer fails; otherwise the archive holds the manifest and the files sorted by path, and the returned manifest is the one written |
| Writer.InsertionOrderIrrelevant | upstream/crates/pt-bundle/src/writer.rs:263-289 | the same files added in two orders give the same sorted manifest and the same archive members in the same order, whether or not writing succeeds, and at the same time the same bytes or error |
| Bundle.RewrittenOpensAlike | upstream/crates/pt-bundle/src/writer.rs:258-303 | written in any order and at any two times, the two bundles open alike |
| Encryption.BigEndianInverse | upstream/crates/pt-bundle/src/encryption.rs:37-40 | the four iteration bytes and the 32-bit count determine each other |
| Encryption.ParseHeader | upstream/crates/pt-bundle/src/encryption.rs:28-55 | succeeds exactly on inputs that are magic, 1 to 10,000,000 iterations, salt, nonce and a rest, returns those, and never slices out of range on any input |
| Encryption.HeaderExact | upstream/crates/pt-bundle/src/encryption.rs:28-55 | parsing inverts printing and printing the parsed header gives the input back |
| Encryption.EnvelopeBytes | upstream/crates/pt-bundle/src/encryption.rs:68-92 | the bytes: PTBENC01, the iterations big-endian, 16 bytes of salt, 12 of nonce, then the sealed text |
| Encryption.HeaderRefusals | upstream/crates/pt-bundle/src/encryption.rs:28-55 | under 40 bytes invalid, another magic not encrypted, iterations outside 1 to 10,000,000 invalid, else the header at these offsets |
| Encryption.EncryptBytes | upstream/crates/pt-bundle/src/encryption.rs:68-92 | fails on an empty passphrase or a cipher failure; otherwise the buffer built step by step is the envelope of the sealed plaintext |
| Encryption.DecryptBytes | upstream/crates/pt-bundle/src/encryption.rs:95-111 | the error cases in order, else what the cipher opens under the key derived from the header |
| Encryption.EncryptedSpelledOut | upstream/crates/pt-bundle/src/encryption.rs:68-92 | the errors, and the text sealed under 100,000 rounds of key derivation |
| Encryption.DecryptedSpelledOut | upstream/crates/pt-bundle/src/encryption.rs:95-111 | the errors in order, and what opens under the header's own salt, iterations and nonce |
| Encryption.DecryptInverts | upstream/crates/pt-bundle/src/encryption.rs:68-111 | decryption inverts encryption for every plaintext and non-empty passphrase, at 56 bytes of overhead |
| Encryption.OnlyEnvelopesDecrypt | upstream/crates/pt-bundle/src/encryption.rs:95-111 | an input decrypts to a plaintext exactly when it is the envelope of that plaintext's own ciphertext under some acceptable header |
| Reader.FetchExact | upstream/crates/pt-bundle/src/reader.rs:170-189 | a read returns the whole content, and does so exactly when declared and actual size are within 100 MiB and the content can be read |
| Reader.VerifiedReadExact | upstream/crates/pt-bundle/src/reader.rs:200-227 | a verified read succeeds exactly when the archived content is readable and hashes to the first manifest entry's checksum |
| Reader.RawReadExact | upstream/crates/pt-bundle/src/reader.rs:164-195 | the content, or which error |
| Reader.VerifiedReadSpelledOut | upstream/crates/pt-bundle/src/reader.rs:200-227 | not listed, the read's own error, a mismatch with both checksums, or the content |
| Reader.BundleReader.ReadRaw | upstream/crates/pt-bundle/src/reader.rs:164-195 | the member's content or the error, with the marks untouched |
| Reader.BundleReader.ReadVerified | upstream/crates/pt-bundle/src/reader.rs:200-227 | the content or the error, and the path is marked exactly on success |
| Reader.BundleReader.VerifyAll | upstream/crates/pt-bundle/src/reader.rs:237-256 | returns the failing manifest paths in order; afterwards a manifest path is verified exactly when it is not returned |
| Reader.FailingExact | upstream/crates/pt-bundle/src/reader.rs:237-256 | a path is reported exactly when it was asked for and its content is not intact |
| Reader.FailingInOrder | upstream/crates/pt-bundle/src/reader.rs:237-256 | failures are reported in the order of the paths |
| Reader.VerifiedInEveryRun | upstream/crates/pt-bundle/src/reader.rs:164-256 | in every run of calls a path is verified exactly when some call checked it and its archived content is intact |
| Reader.VerifiedOnlyGrows | upstream/crates/pt-bundle/src/reader.rs:200-256 | no later call removes a verified mark |
| Reader.FromBytes | upstream/crates/pt-bundle/src/reader.rs:44-125 | opens exactly the archives whose manifest can be read, parsed and validated, with nothing verified yet |
| Reader.OpenedSpelledOut | upstream/crates/pt-bundle/src/reader.rs:71-125 | the errors of opening, in order: container, missing manifest, unreadable, not JSON, refused |
| Reader.OpenedWithSpelledOut | upstream/crates/pt-bundle/src/reader.rs:50-66 | the magic decides whether a passphrase is needed |
| Reader.OpenWithPassphrase | upstream/crates/pt-bundle/src/reader.rs:50-66 | an encrypted input is decrypted first and needs a passphrase; any other input is opened as it is |
| Bundle.WrittenBundleOpens | upstream/crates/pt-bundle/src/reader.rs:71-125 | with distinct paths a written bundle opens exactly when its manifest is well-formed and its JSON within the limit, and then to the manifest and members written |
| Bundle.OpensExactly | upstream/crates/pt-bundle/src/manifest.rs:220-309 | the same condition in terms of what the caller added: header complete, every path safe, JSON small enough |
| Bundle.DottedNameRefused | upstream/crates/pt-bundle/src/manifest.rs:293-298 | a bundle with the one file `notes..txt` is written and does not open |
| Bundle.ReadsBack | upstream/crates/pt-bundle/src/reader.rs:200-227 | the verified read of file i of the sorted list gives exactly its data, or the size error |
| Bundle.RoundTrip | upstream/crates/pt-bundle/src/reader.rs:548-583 | every added file reads back verified as exactly its data, and verifying everything reports exactly the files over the limit |
| Bundle.OversizedInOrder | upstream/crates/pt-bundle/src/reader.rs:237-256 | the files over 104,857,600 bytes, in order |
| Bundle.EncryptedBundleOpens | upstream/crates/pt-bundle/src/reader.rs:584-612 | an encrypted bundle opens with its passphrase to what the plain bundle opens to, and asks for one without it |
| Bundle.Handoff | upstream/crates/pt-bundle/src/reader.rs:584-596 | writing encrypted, opening with the passphrase and verifying goes through exactly when writing succeeds, the manifest is well-formed and its JSON within the limit, and then marks exactly the files within the limit |
| Utf8.CutExists | upstream/crates/pt-common/src/id.rs:114-116 | a string can be cut at a byte offset exactly when the byte test calls the offset a boundary |
| Utf8.EncodingExactly | upstream/crates/pt-common/src/id.rs:100-116 | the bytes of a character are those of UTF-8 |
| Utf8.AfterAscii | upstream/crates/pt-common/src/id.rs:105-116 | in UTF-8 the offsets before and after an ASCII byte are boundaries |
| Utf8.ByteOrderIsTextOrder | upstream/crates/pt-bundle/src/manifest.rs:312-314 | comparing UTF-8 bytes is comparing scalar values, so the sorts by path order as the standard library does |
| Paths.NormalizeExact | upstream/crates/pt-common/src/workspace_evidence.rs:264-271 | normalisation yields a normal form, fixes exactly the normal forms, and is idempotent |
| Paths.SlashesExactly | upstream/crates/pt-common/src/workspace_evidence.rs:264-266 | exactly the backslashes become slashes |
| Paths.SpellingsOf | upstream/crates/pt-common/src/workspace_evidence.rs:259-271 | for every normal form, the paths that have it are exactly its spellings: other separators and final slashes, none for the root, not a single slash for the empty path |
| Paths.RunsOfSlashes | upstream/crates/pt-common/src/workspace_evidence.rs:264-271 | only a lone slash gives the root, and exactly the empty path and the runs of two or more slashes give the empty string |
| Paths.DoubleSlash | upstream/crates/pt-common/src/workspace_evidence.rs:264-271 | a double slash becomes the empty string |
| Paths.AncestryByComponents | upstream/crates/pt-common/src/workspace_evidence.rs:391-404 | the string-prefix test is component ancestry, and the root is above exactly the absolute paths |
| Paths.UnderIsInvariant | upstream/crates/pt-common/src/workspace_evidence.rs:391-404 | the ancestor test does not change when either path is normalised |
| Paths.TreeOrder | upstream/crates/pt-common/src/workspace_evidence.rs:391-404 | the ancestor test is reflexive, transitive, antisymmetric up to normalisation, and the ancestors of a path form a chain |
| Workspace.NormalizeWorkspace | upstream/crates/pt-common/src/workspace_evidence.rs:277-388 | confidence is as many steps below High as there are downgrade reasons, the reasons are exactly the evidence's defects, and Resolved means none |
| Workspace.WithoutWorktree | upstream/crates/pt-common/src/workspace_evidence.rs:285-388 | resolved exactly when the root is canonical, the working directory is known and its components extend the root's (the root directory apart); Medium with one fault, Low with two |
| Workspace.WithWorktree | upstream/crates/pt-common/src/workspace_evidence.rs:322-388 | with a separate worktree that must be canonical too, and the working directory below either; one step of confidence for each of three faults |
| Workspace.SameSpelling | upstream/crates/pt-common/src/workspace_evidence.rs:322-327 | a worktree spelled like the root is as no worktree |
| Workspace.Reported | upstream/crates/pt-common/src/workspace_evidence.rs:277-388 | without a root only the working directory is reported; otherwise the digest of the root's normal form, the root and the head state as given |
| Workspace.ReasonsSpelledOut | upstream/crates/pt-common/src/workspace_evidence.rs:300-372 | the downgrade reasons are exactly those of the root, the separate worktree and the working directory, in this order |
| Workspace.OnlyNormalFormsMatter | upstream/crates/pt-common/src/workspace_evidence.rs:251-388 | without a worktree, id, confidence and status depend only on the normal forms of root and cwd |
| Workspace.WorktreeIdentityRepeats | upstream/crates/pt-common/src/workspace_evidence.rs:322-342 | for any digest, the worktree id repeats the workspace id exactly when the worktree is the root spelled differently or the digest collides on the two normal forms |
| Workspace.RootAsItsOwnWorktree | upstream/crates/pt-common/src/workspace_evidence.rs:322-342 | a trailing slash is such a spelling |
| WorkflowOrigin.StripWrapperLaunchers | upstream/crates/pt-common/src/workflow_origin.rs:307-328 | for any list of names the loop ends in a trimmed suffix of the trimmed line whose tokens are the input's with leading launchers dropped while another token remains; stripping again changes nothing |
| WorkflowOrigin.WrapperLaunchersAreNames | upstream/crates/pt-common/src/workflow_origin.rs:143-164 | the launchers of the source are white-space-free, so the above applies to them |
| WorkflowOrigin.StrippedExact | upstream/crates/pt-common/src/workflow_origin.rs:301-328 | the text-level stripping refines dropping tokens, and is idempotent |
| WorkflowOrigin.SomethingRemains | upstream/crates/pt-common/src/workflow_origin.rs:307-328 | a non-empty line keeps a token, so a lone launcher stays |
| WorkflowOrigin.DropWrappersExactly | upstream/crates/pt-common/src/workflow_origin.rs:307-328 | without recursion: exactly the longest run of leading launchers that leaves a token is dropped |
| WorkflowOrigin.LauncherNames | upstream/crates/pt-common/src/workflow_origin.rs:143-164 | the launchers of the source |
| WorkflowOrigin.SignalNames | upstream/crates/pt-common/src/workflow_origin.rs:189-197 | the signal names the first token, or "unknown" on a blank line |
| Whitespace.WhiteSpaceExactly | upstream/crates/pt-common/src/workflow_origin.rs:307-328 | white space is the Unicode White_Space property |
| Whitespace.TokensExactly | upstream/crates/pt-common/src/workflow_origin.rs:193 | tokens are the words between white space |
| WorkflowOrigin.OrderOfLaunchers | upstream/crates/pt-common/src/workflow_origin.rs:143-164 | the order of the launcher list does not matter |
| WorkflowOrigin.WrapperSignalExact | upstream/crates/pt-common/src/workflow_origin.rs:189-207 | a wrapper signal is recorded exactly when a launcher was stripped or the line was not trimmed |
| WorkflowOrigin.BlankBeforeCommand | upstream/crates/pt-common/src/workflow_origin.rs:189-197 | a blank before a plain command makes the command itself the reported launcher |
| Categories.NormalizeCommandTokens | upstream/crates/pt-common/src/categories.rs:387-423 | category, base name, and the flag names sorted and deduplicated |
| Categories.NormalizedSpelledOut | upstream/crates/pt-common/src/categories.rs:387-423 | category name, the text after the last separator, and the strictly sorted flag names joined by commas |
| Categories.NamesSpelledOut | upstream/crates/pt-common/src/categories.rs:100-114 | the names of the categories |
| Categories.BaseCommandExact | upstream/crates/pt-common/src/categories.rs:394-400 | the base name is what follows the last slash or backslash of the first token |
| Categories.FlagNameExact | upstream/crates/pt-common/src/categories.rs:408-414 | a flag's name is the text before its first equals sign |
| Categories.FlagListLists | upstream/crates/pt-common/src/categories.rs:403-417 | sorting and deduplicating lists exactly the set of flag names, strictly increasing |
| Categories.FlagSetOf | upstream/crates/pt-common/src/categories.rs:403-415 | the flag names are those of the tokens after the first that start with a dash, without values |
| Categories.ArgumentsRearranged | upstream/crates/pt-common/src/categories.rs:403-417 | permuting or repeating arguments leaves the flag set unchanged |
| Categories.SameBaseSameFlags | upstream/crates/pt-common/src/categories.rs:380-423 | for a fixed category the normal form depends only on the base name and the set of flags |
| Signatures.NormalFormInjective | upstream/crates/pt-common/src/categories.rs:387-423 | with no colon-dash in the base names and no comma-dash in the flags, normal forms are equal exactly when category, base name and flag set are |
| Signatures.StandsAloneExactly | upstream/crates/pt-common/src/categories.rs:387-423 | per command: no other category, base name or flag set has its normal form exactly when it has at most one flag, that flag is not two plain flags joined, and neither the base name nor the flags can be cut at a colon into another base name and flags |
| Signatures.EmptyCommandApart | upstream/crates/pt-common/src/categories.rs:388-391 | an empty command shares its normal form with no other |
| Signatures.CommaCollides | upstream/crates/pt-common/src/categories.rs:420-422 | any two flags joined by a comma into one collide with the two |
| Signatures.ColonCollides | upstream/crates/pt-common/src/categories.rs:420-422 | a base name with a colon collides with a base name and a flag |
| Resources.PreimageInjective | upstream/crates/pt-common/src/resource_evidence.rs:214-220 | the digested text determines kind and canonical key |
| Resources.TagsSpelledOut | upstream/crates/pt-common/src/resource_evidence.rs:55-66 | the tag of each kind in the digested text |
| Resources.SameResourceExactly | upstream/crates/pt-common/src/resource_evidence.rs:214-296 | two raw observations are digested alike exactly when the kinds agree and the keys do: up to path normal form for sockets, lockfiles and pidfiles, up to the listener form for listeners, literally otherwise |
| ListenerKeys.SharedKeyExactly | upstream/crates/pt-common/src/resource_evidence.rs:277-284 | raw listener keys without the letter y have the same canonical key exactly when they are equal up to writing the IPv4 wildcard as a star, except before two colons |
| ListenerKeys.SameListenerExactly | upstream/crates/pt-common/src/resource_evidence.rs:214-284 | so exactly then two raw listener observations are digested alike |
| ListenerKeys.AnySpelledOut | upstream/crates/pt-common/src/resource_evidence.rs:277-284 | a key that spells `any:` shares its canonical key with the star wildcard |
| ListenerKeys.LongerAddress | upstream/crates/pt-common/src/resource_evidence.rs:280-284 | the IPv4 wildcard is replaced after any character too |
| ListenerKeys.TailOfLongerAddress | upstream/crates/pt-common/src/resource_evidence.rs:280-284 | `10.0.0.0:80` becomes `1any:80` |
| Resources.PathLikeSpellings | upstream/crates/pt-common/src/resource_evidence.rs:285-292 | a path-like resource is the same under exactly the spellings of its path |
| Resources.NoPatternSurvives | upstream/crates/pt-common/src/resource_evidence.rs:277-284 | neither the IPv4 nor the star wildcard is left in a canonical key, and three colons are left exactly after a run of 5, 8, 11, ... |
| Resources.IdempotentExactly | upstream/crates/pt-common/src/resource_evidence.rs:277-284 | canonicalisation is idempotent exactly on keys without such a run |
| Resources.FiveColonsFail | upstream/crates/pt-common/src/resource_evidence.rs:277-284 | `:::::8080` has such a run and its key changes when canonicalised again |
| Resources.BadRunHasFiveColons | upstream/crates/pt-common/src/resource_evidence.rs:277-284 | such a run has five colons in a row |
| Resources.WildcardsShareKey | upstream/crates/pt-common/src/resource_evidence.rs:280-284 | the IPv4 and star wildcards share a key exactly when the port text does not start with two colons; the IPv6 wildcard has its own |
| Resources.PortKeys | upstream/crates/pt-common/src/resource_evidence.rs:280-284 | for a port of digits the keys are `any:p`, `any:p` and `any6:p` |
| Resources.DocumentedV4Key | upstream/crates/pt-common/src/resource_evidence.rs:280-284 | `0.0.0.0:8080` becomes `any:8080` |
| Resources.DocumentedStarKey | upstream/crates/pt-common/src/resource_evidence.rs:280-284 | `*:8080` becomes `any:8080` |
| Resources.DocumentedV6Key | upstream/crates/pt-common/src/resource_evidence.rs:280-284 | `:::8080` becomes `any6:8080` |
| Ids.ParseStartId | upstream/crates/pt-common/src/id.rs:49-69 | accepts unchanged exactly the strings of three fields with a non-empty first and numerals of 64 and 32 bits |
| Ids.PrintedIsAccepted | upstream/crates/pt-common/src/id.rs:39-69 | a printed id is accepted exactly when the boot id is non-empty and colon-free and the numbers fit |
| Ids.PrintingInjective | upstream/crates/pt-common/src/id.rs:39-46 | different processes print different ids, whatever the boot id contains |
| Ids.AcceptedIsPrinted | upstream/crates/pt-common/src/id.rs:49-69 | an accepted id is the printed id of what it names exactly when its numerals are canonical |
| Ids.PlusSignAccepted | upstream/crates/pt-common/src/id.rs:61-66 | every process has an accepted id other than its printed one |
| SessionIds.NeverPanics | upstream/crates/pt-common/src/id.rs:100-126 | no string makes the parser slice inside a character |
| SessionIds.AcceptsExactly | upstream/crates/pt-common/src/id.rs:81-126 | the byte-level parser accepts exactly the documented form |
| SessionIds.GenerateSuffix | upstream/crates/pt-common/src/id.rs:256-268 | the loop renders the low 20 bits of three random bytes, high group first |
| SessionIds.DecodeInverts | upstream/crates/pt-common/src/id.rs:256-268 | the suffix determines its 20-bit value |
| SessionIds.EverySuffixIsRendered | upstream/crates/pt-common/src/id.rs:119-121 | every suffix the parser accepts renders some 20-bit value |
| SessionIds.GeneratedIsAccepted | upstream/crates/pt-common/src/id.rs:88-126 | every id generated in the years 0 to 9999 is accepted |
| SessionIds.DigitsOfId | upstream/crates/pt-common/src/id.rs:88-98 | the digits of a generated id are year, month, day, hour, minute and second, in this order, then the suffix |
| SessionIds.SuffixDecodes | upstream/crates/pt-common/src/id.rs:256-268 | the suffix decodes to the low 20 bits of the three bytes, the first highest |
| SessionIds.DocumentedId | upstream/crates/pt-common/src/id.rs:100-126 | `pt-20260115-143022-a7xq` is accepted |
| Lineage.ClassifyOwnership | upstream/crates/pt-common/src/lineage_evidence.rs:266-332 | a supervisor, then init, then the nearest recognised ancestor decides; confidence and reasons change exactly when there is neither supervisor nor ancestor |
| Lineage.NormalizeLineage | upstream/crates/pt-common/src/lineage_evidence.rs:224-264 | for all evidence the orphan flag agrees with the ownership, and confidence drops one step exactly when nothing explains the process |
| Lineage.OwnerByName | upstream/crates/pt-common/src/lineage_evidence.rs:292-331 | without supervisor and init, the first ancestor whose lower-cased name contains an agent's or multiplexer's name or is a shell's decides, as an agent before a multiplexer before a shell; unknown exactly when none qualifies |
| Lineage.OwnerBeforeAncestors | upstream/crates/pt-common/src/lineage_evidence.rs:270-290 | a supervisor comes first, then init, orphaned exactly without ancestors |
| Lineage.KnownNames | upstream/crates/pt-common/src/lineage_evidence.rs:213-221 | the shells, agents and multiplexers of the source |
| Lineage.ThreeOwners | upstream/crates/pt-common/src/lineage_evidence.rs:296-323 | Claude, tmux and bash are an agent, a supervisor and a shell |
| Strings.LowerExactly | upstream/crates/pt-common/src/lineage_evidence.rs:294 | lower-casing forgets exactly the ASCII case |
| Strings.ContainsExactly | upstream/crates/pt-config/src/policy.rs:596-630 | a text contains exactly what it can be cut around |
| Strings.ReplaceExactly | upstream/crates/pt-config/src/policy.rs:606-619 | replacing goes from the left, without overlap |
| Lineage.OneOwner | upstream/crates/pt-common/src/lineage_evidence.rs:266-332 | the evidence determines one verdict |
| Lineage.FartherAncestorsIgnored | upstream/crates/pt-common/src/lineage_evidence.rs:292-323 | appending ancestors changes no verdict other than unknown or orphaned |
| Lineage.UnknownIsRevised | upstream/crates/pt-common/src/lineage_evidence.rs:292-331 | an unknown owner is decided by the appended ancestors alone |
| Policy.ProtectionIsMonotone | upstream/crates/pt-config/src/policy.rs:596-630 | more patterns, or any text before or after the command, never lift protection |
| Policy.AnchorsAreDropped | upstream/crates/pt-config/src/policy.rs:606-618 | the pattern `^w$` protects exactly the commands that contain w anywhere |
| Policy.BoundariesAreDropped | upstream/crates/pt-config/src/policy.rs:606-618 | a pattern with word boundaries around w protects exactly the commands that contain w, in both case modes |
| Policy.LiteralExactly | upstream/crates/pt-config/src/policy.rs:599-605 | a literal protects exactly the commands that contain it, in both case modes |
| Policy.AnyPatternSuffices | upstream/crates/pt-config/src/policy.rs:596-597 | one covering pattern protects, and no pattern nothing |
| Policy.StripIsCompleteExactly | upstream/crates/pt-config/src/policy.rs:619-627 | for every glob: each command it matches contains the stripped glob exactly when the glob's literals form a single run |
| Policy.GlobProtectsExactly | upstream/crates/pt-config/src/policy.rs:619-627 | the same for the pattern as evaluated, with and without case folding |
| Policy.TwoRuns | upstream/crates/pt-config/src/policy.rs:619-627 | `a*b` does not protect `axb` |
| Priors.VarianceByMean | upstream/crates/pt-config/src/priors.rs:121-130 | the variance is mean times complement over the weight plus one |
| Priors.VarianceBounds | upstream/crates/pt-config/src/priors.rs:121-153 | an accepted prior has its mean strictly in (0, 1) and variance strictly between 0 and mean times complement, at most a quarter |
| Priors.MoreEvidence | upstream/crates/pt-config/src/priors.rs:121-130 | scaling both parameters up keeps the mean and strictly lowers the variance |
| Priors.MeanExactly | upstream/crates/pt-config/src/priors.rs:120-123 | the mean times the weight is alpha, so raising alpha alone raises it |
| Priors.AcceptedExactly | upstream/crates/pt-config/src/priors.rs:140-153 | accepted when both parameters are positive, with a mode when both are above one |
| Priors.ModeAgainstMean | upstream/crates/pt-config/src/priors.rs:140-153 | a mode is the stationary point of the density, lies strictly in (0, 1), and is at least the mean exactly when alpha is at least beta |
| Plans.PlanTotals | upstream/crates/pt-core/src/decision/goal_optimizer.rs:443-457 | every plan the candidates allow has the totals of some set of their indices, repeated candidates included |
| Plans.EligibleExactly | upstream/crates/pt-core/src/decision/goal_optimizer.rs:400-403 | filtering keeps each candidate that is not blocked and has no negative loss as often as offered, drops all others, and keeps the order |
| Plans.OfferedExactly | upstream/crates/pt-core/src/decision/goal_optimizer.rs:400-457 | the plans the eligible candidates allow are the plans of offered candidates, none blocked or of negative loss |
| Plans.GainIsFirst | upstream/crates/pt-core/src/decision/goal_optimizer.rs:421-471 | the gain is the first contribution |
| Knapsack.Consider | upstream/crates/pt-core/src/decision/goal_optimizer.rs:420-433 | the backward in-place pass keeps every entry backed by its own selection, never raises an entry, and tries the candidate once on each earlier entry |
| Knapsack.LeastLater | upstream/crates/pt-core/src/decision/goal_optimizer.rs:415-433 | after the pass each entry is the least loss of any selection with that many capped steps |
| Knapsack.OptimizeDp | upstream/crates/pt-core/src/decision/goal_optimizer.rs:377-492 | the fallbacks by cause, in terms of the candidates given; otherwise, for a resolution of either sign, a plan of candidates that may be selected, reaching the rounded target at the least loss of all such plans, with its true loss and gain; infeasible means there is none |
| Knapsack.StepsOfExact | upstream/crates/pt-core/src/decision/goal_optimizer.rs:421 | the steps of a candidate are its gain over the resolution, rounded up |
| Knapsack.ReachesRoundedExact | upstream/crates/pt-core/src/decision/goal_optimizer.rs:413-437 | the rounded target is reached exactly when the gains, each rounded up, reach the real one; so reaching the real target implies it |
| Knapsack.NoCheaperPlan | upstream/crates/pt-core/src/decision/goal_optimizer.rs:377-481 | no allowed plan that reaches the target costs less than the plan returned |
| Knapsack.HalvesCountAsOnes | upstream/crates/pt-core/src/decision/goal_optimizer.rs:413-437 | gains of a half, a half and two with target two: every plan the optimizer may return misses the target the third candidate reaches |
| Knapsack.AlwaysMetExactly | upstream/crates/pt-core/src/decision/goal_optimizer.rs:413-481 | whatever the losses and the target, the plan returned reaches the target, exactly when the resolution is positive and every positive gain is a whole number of steps |
| BranchBound.SuffixMax | upstream/crates/pt-core/src/decision/goal_optimizer.rs:535-538 | each entry is the sum of the gains from there on |
| BranchBound.Search.Dfs | upstream/crates/pt-core/src/decision/goal_optimizer.rs:545-612 | the recursion over shared state computes the specified search and restores the selection in progress |
| BranchBound.FoundReaches | upstream/crates/pt-core/src/decision/goal_optimizer.rs:557-612 | whatever the signs of the gains, a selection found is a set of candidates with the recorded loss that reaches the target |
| BranchBound.NothingMissed | upstream/crates/pt-core/src/decision/goal_optimizer.rs:575-612 | without negative gains the three cuts lose nothing: the search costs no more than any completion that reaches the target |
| BranchBound.BothSignsPruned | upstream/crates/pt-core/src/decision/goal_optimizer.rs:579-586 | with gains of both signs there is a reachable target for which the search returns nothing |
| BranchBound.ThreeAndMinusTwo | upstream/crates/pt-core/src/decision/goal_optimizer.rs:579-586 | gains of three and minus two, target three: nothing is found |
| BranchBound.RightExactly | upstream/crates/pt-core/src/decision/goal_optimizer.rs:545-630 | the search returns a least-loss plan, or nothing because none reaches the target, for every target exactly when the gains have one sign |
| BranchBound.OptimizeIlp | upstream/crates/pt-core/src/decision/goal_optimizer.rs:498-674 | the fallbacks by cause, in terms of the candidates given; a plan uses only candidates that may be selected, reaches the target and has its true loss, and with gains of one sign it is optimal among all such plans and none is missed |
| BranchBound.OneSidedExactly | upstream/crates/pt-core/src/decision/goal_optimizer.rs:515-538 | the gains have one sign when those of the candidates that may be selected do |
| BranchBound.FirstOfEquals | upstream/crates/pt-core/src/decision/goal_optimizer.rs:557-566 | of two equal candidates the first is selected |
| BranchBound.EfficiencyExactly | upstream/crates/pt-core/src/decision/goal_optimizer.rs:1082-1094 | the search order's measure: weighted gain per loss, losses up to 1e-12 as free |
| BranchBound.OptimizersAgree | upstream/crates/pt-core/src/decision/goal_optimizer.rs:377-674 | for gains of one sign in whole steps, the two methods' answers agree: both return a plan or neither does, at the same loss, and the plan is optimal |
| Fdr.SelectFdr | upstream/crates/pt-core/src/decision/fdr_selection.rs:104-219 | errors in the order of the source; otherwise the candidates ranked by e-value, of which the first k are selected: level times k times each selected e-value is at least m, no larger set of candidates supports itself so, and every threshold times level times rank is m |
| Fdr.ThresholdTimes | upstream/crates/pt-core/src/decision/fdr_selection.rs:162 | an e-value reaches the threshold of rank k exactly when level times k times it is at least m |
| Fdr.EffectiveTimes | upstream/crates/pt-core/src/decision/fdr_selection.rs:133-146 | the level is alpha, and with the correction alpha over the harmonic number |
| Fdr.CorrectionSpendsAlpha | upstream/crates/pt-core/src/decision/fdr_selection.rs:133-146 | with the correction the differences of inverse thresholds, each over its rank, add up to alpha over m |
| Fdr.LargestSelfConsistent | upstream/crates/pt-core/src/decision/fdr_selection.rs:148-168 | no set of candidates that supports its own size is larger than the selection |
| Fdr.PValueExact | upstream/crates/pt-core/src/decision/fdr_selection.rs:185-189 | the p-value reported is the inverse of the e-value, capped at one |
| Fdr.RankedExactly | upstream/crates/pt-core/src/decision/fdr_selection.rs:178-207 | each ranked candidate has its rank, its own values, and is selected when among the first k |
| Fdr.SelectedFromCounts | upstream/crates/pt-core/src/decision/fdr_selection.rs:148-168 | how many of a set are among the first k |
| Fdr.OrderStatistic | upstream/crates/pt-core/src/decision/fdr_selection.rs:159-168 | in descending order the value of rank k reaches a threshold exactly when at least k values do |
| Fdr.LastSupported | upstream/crates/pt-core/src/decision/fdr_selection.rs:159-168 | the scan over the ranks ends with the largest k such that k candidates reach m / (alpha k) |
| Fdr.SelectedByThreshold | upstream/crates/pt-core/src/decision/fdr_selection.rs:171-207 | a candidate is selected exactly when its e-value reaches the boundary threshold, so equal e-values are treated alike |
| Fdr.SelectionIsMonotone | upstream/crates/pt-core/src/decision/fdr_selection.rs:143-168 | raising e-values or alpha never lowers the number selected |
| Fdr.CorrectionIsConservative | upstream/crates/pt-core/src/decision/fdr_selection.rs:134-146 | the harmonic correction never selects more |
| Fdr.SelectionIgnoresOrder | upstream/crates/pt-core/src/decision/fdr_selection.rs:124-207 | permuting the input changes neither the number selected nor who is |
| Fdr.AboveByRank | upstream/crates/pt-core/src/decision/fdr_selection.rs:151-157 | without control the first k are exactly those with an e-value above one |
| Fdr.FalseSelectionsAreBacked | upstream/crates/pt-core/src/decision/fdr_selection.rs:148-168 | for every set of candidates, each selected member is backed by m / (alpha k) of the e-values in the set |
| Fdr.FalseShareIsBounded | upstream/crates/pt-core/src/decision/fdr_selection.rs:148-168 | so m times the number selected from the set is at most alpha k times the sum of its e-values |
| DescendingSort.Unique | upstream/crates/pt-core/src/decision/fdr_selection.rs:124-131 | the ranking is the only descending order that keeps ties as they were |
| Probes.CoverageUtility | upstream/crates/pt-core/src/decision/submodular.rs:64-80 | each feature of the probes counts once, at its weight |
| Probes.CoverageMarginalGain | upstream/crates/pt-core/src/decision/submodular.rs:83-95 | the weights of the uncovered features listed, repetitions included |
| Probes.OneFeatureMore | upstream/crates/pt-core/src/decision/submodular.rs:64-80 | one more feature adds its weight when listed and not negative, nothing when negative, and one when not listed |
| Probes.WorthWithoutWeights | upstream/crates/pt-core/src/decision/submodular.rs:213-219 | without weights the utility is the number of features covered |
| Probes.CoveredExactly | upstream/crates/pt-core/src/decision/submodular.rs:64-80 | covered is what some probe lists |
| Probes.GainOfOneMore | upstream/crates/pt-core/src/decision/submodular.rs:83-95 | one more listed feature gains nothing when covered, else its weight, or one when not listed |
| Probes.GainBounds | upstream/crates/pt-core/src/decision/submodular.rs:64-95 | the gain computed is never below the increase of the coverage, and equals it when no feature is repeated |
| Probes.DiminishingReturns | upstream/crates/pt-core/src/decision/submodular.rs:83-95 | the more is covered, the less any probe gains |
| Probes.GreedySelectK | upstream/crates/pt-core/src/decision/submodular.rs:167-211 | in each of at most k rounds the first remaining probe of the highest positive gain, with the total cost and the gains summed |
| Probes.GreedySelectWithBudget | upstream/crates/pt-core/src/decision/submodular.rs:101-164 | in each round the first remaining probe that fits with the highest gain per cost, free ones first, until none fits and gains |
| Probes.GreedyGuarantee | upstream/crates/pt-core/src/decision/submodular.rs:167-211 | without repeated features the selection covers at least 1 - (1 - 1/k)^k of what any k probes cover |
| Probes.ThreeFifths | upstream/crates/pt-core/src/decision/submodular.rs:167-211 | whatever k, the utility reported is at least three fifths of what any k probes cover |
| Probes.ReportsCoverageExactly | upstream/crates/pt-core/src/decision/submodular.rs:83-95 | for all weights and numbers of rounds the utility reported is the coverage, exactly when no probe repeats a feature |
| Probes.GuaranteesExactly | upstream/crates/pt-core/src/decision/submodular.rs:167-211 | the guarantee holds whatever plain probes are added, exactly when no probe repeats a feature |
| Probes.RepeatsMislead | upstream/crates/pt-core/src/decision/submodular.rs:83-95 | a probe listing one feature twice is taken over a probe that covers more |
| ProbeBudget.WithinBudget | upstream/crates/pt-core/src/decision/submodular.rs:118-122 | what is selected costs at most the budget |
| ProbeBudget.EqualCosts | upstream/crates/pt-core/src/decision/submodular.rs:101-211 | when all probes cost the same, selecting within a budget is selecting by gain as many as the budget pays for |
| ProbeBudget.EqualCostsGuarantee | upstream/crates/pt-core/src/decision/submodular.rs:101-164 | and then reports at least three fifths of what any affordable probes cover |
| ProbeBudget.MissingAtRate | upstream/crates/pt-core/src/decision/submodular.rs:118-141 | while the others fit, what they still miss is to the budget at most what the chosen probe gains is to its cost |
| ProbeBudget.BudgetGuarantee | upstream/crates/pt-core/src/decision/submodular.rs:101-164 | when no plain probe costs more than d < 1 of the budget, free probes included, the selection reports at least (1 - d) / (2 - d) of what any affordable probes cover |
| ProbeBudget.SureShareExactly | upstream/crates/pt-core/src/decision/submodular.rs:101-164 | some positive share is sure for all plain probes costing at most d of their budget, exactly when d < 1 |
| ProbeBudget.NoConstantShare | upstream/crates/pt-core/src/decision/submodular.rs:101-164 | for every positive share there are two plain probes, one costing the whole budget, for which the selection falls short of it |

## Left out

- Policy.Covers: `?` and bracket classes are literals to the code and to the glob matcher used here, and the regular-expression fallback is related to regex meaning only for anchored literals.
- Priors.VarianceBounds: is over the reals, so rounding, infinities and NaN of `f64` are not modelled.
- Lineage.Recognized: lower-cases ASCII letters only; so does `Policy.Covers`.
- Bundle.RoundTrip: assumes pairwise distinct paths other than `manifest.json`, because what the container does with repeated names is not decided by this repository.
- Byte totals are unbounded; the 64-bit sum of the source cannot overflow for data held in memory.
- `write` to a file, the temporary-file rename of `write_encrypted`, and the unencrypted `open`: the same bytes through file I/O.
- The named helpers of writer and reader (`add_summary`, `read_plan`, `telemetry_files` and the like) and the builder setters: one call or one field each.
- Manifest fields that no modelled operation reads (section lists, counts, compatibility notes) and the manifest's self checksum.
- Messages of errors and downgrade reasons: kept as constructors with the data they mention.
- The rest of `classify_workflow_origin` after the wrapper signal, and `normalize_resource` beyond key and id: small finite case tables.
- Fdr.SelectFdr: does not repeat alpha, method, count and correction factor in its result, which the source copies there from the input.
- Knapsack.OptimizeDp: does not model a resolution of zero, which makes the source divide by zero and ask for a table of unbounded size; the order of the selected actions, which the source takes from a hash set, is the candidates' own; the table size is not bounded by the machine's integers; as for BranchBound.OptimizeIlp, an eligible candidate without contributions, on which the source panics, is excluded, and the greedy plan of a fallback and the log events are not part of the result.
- Probes.GreedyGuarantee: states the share for each k and not its limit 1 - 1/e, which has no closed form in real arithmetic; `ThreeFifths` bounds it for all k.
- The clamping of negative costs in `ProbeProfile::new`: costs of either sign are allowed.
- The greedy plan optimizer, its local search and re-optimisation, and the rest of `pt-core`.
- The regex category tables, display forms, redaction, configuration lookup and provenance budgets.
