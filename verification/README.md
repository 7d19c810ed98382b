# Paratix: a verified model of its hard kernels

Paratix runs playbooks of modules over SSH. This project models, in Dafny 4.11, the parts of it whose
correctness is not visible in any single function, and proves what its documentation, comments and tests
promise of them, for every input, every run or every interleaving.

| file | models |
|---|---|
| `Text.dfy`, `Wrappers.dfy` | JavaScript string operations shared by the other models: `replaceAll`, `includes`, `split`, `trimEnd`, decimal printing; absent values |
| `Redaction.dfy`, `RedactionPieces.dfy`, `Preemption.dfy` | masking of secrets in a whole text: what it changes, and when it can be done piece by piece |
| `StreamMasker.dfy`, `StreamExact.dfy`, `Capture.dfy` | masking of a stream, against the whole text; byte-capped capture behind it |
| `UriComponent.dfy`, `SecretVariants.dfy` | the list of variants that the maskers receive, percent-encoding and order included |
| `PlaceholderLeaks.dfy`, `SecretLeaks.dfy`, `StreamLeaks.dfy` | exactly which secrets the maskers can be made to let through |
| `HostPatterns.dfy` | OpenSSH host patterns: the loop with one remembered star, and pattern lists |
| `Meta.dfy`, `Engine.dfy`, `EngineLoops.dfy` | the orchestration engine in apply mode: recipes, `when` blocks, signal lists, the top-level loop |
| `EngineLedger.dfy`, `EngineSignals.dfy`, `EngineStops.dfy`, `EngineVisits.dfy`, `EngineAsks.dfy`, `EngineEnvironments.dfy`, `EngineRecord.dfy` | what holds of every run of it: control-plane entries, signals, the end of a run, the order of visits, what comes before an apply, the environment a module sees, and what the reports stand for |
| `ByteStrings.dfy`, `BitStrings.dfy`, `OpenSshWire.dfy`, `Totp.dfy` | mpints and ssh-rsa blobs; Base32 and HOTP truncation |
| `SessionChannels.dfy` | the cap on SSH session channels, a semaphore with direct hand-over |
| `SecretSink.dfy`, `SecretLedger.dfy` | the reference-counted secret registry and who holds registrations in it |
| `PlaybookLock.dfy` | playbook imports serialised by promise chains in a pruned map |
| `KnownHosts.dfy`, `KnownHostsStore.dfy`, `KnownHostsLock.dfy` | the `known_hosts` parser, the read-check-append of accepted keys, and the promise chain that all access to the store goes through |
| `HostKeyBinding.dfy`, `Reconnect.dfy` | the host-key binding over all handshakes of a connection; the reconnect loop |
| `Template.dfy`, `TemplateRender.dfy` | the template tokenizer, the simple and the phased renderer |
| `DotEnv.dfy`, `ShellQuote.dfy` | dotenv escapes; shell quoting, environment prefixes and the sudo wrapper against a POSIX lexer |

How it is modelled. Objects whose methods update fields are classes; loops that reassign variables are
methods with invariants. Both are proved equal to a specification function, and the theorems are lemmas
about that function. Protocols are state machines over the code between two awaits, with any enabled step
allowed next. Modules, guards, the shutdown getter, clocks, random numbers, Unicode tables and codecs are
arbitrary functions given from outside; the engine's are functions of the whole trace so far, so its
theorems cover stateful modules and a shutdown at any moment. JavaScript's 32-bit operators, UTF-16 code
units and UTF-8 lengths are written out where they matter.

## What the proofs brought to light

- The guard at `sshHelpers.ts:262` (a secret must not contain the placeholder) does not make masking safe.
  A secret that is part of `[REDACTED]`, that begins like it ends, or that ends like it begins can be put
  together by the replacement itself. Batch masking of one secret is safe for all texts exactly if the
  secret is `LeakFree` (`SecretLeaks.SafeInBatchExactly`, for the list with the quoted and encoded forms);
  streaming one secret without a quote is safe for all chunkings exactly if it is `ClashFree`
  (`StreamLeaks.SafeInStreamExactly`), which is stricter: `[[` is safe in a whole text and leaks from a
  stream (`StreamLeaks.StreamIsStricter`). Both can be checked on the secret; "no character in common with the placeholder" is enough
  (`StreamMasking.NoCommonUnit`), and carries over to all forms of all secrets
  (`StreamLeaks.FormsClashFree`).
- Streaming and batch masking agree for all chunkings exactly if no variant can be completed while an
  overlapping earlier one is incomplete (`StreamExactness.StreamsLikeBatchExactly`). No list of clash-free
  variants with a secret in it that has no quote is like that, because its quoted and its plain form overlap
  (`SecretVariants.PlainSecretDiffers`). What is written is a redaction of the input with no variant in it
  either way (`StreamExactness.StreamRedacts`).
- A recipe runs its signals after a failure when the failed child itself asks for a flush
  (`EngineSignals.SignalAfterFailedFlush`); `EngineSignals.RecipeSignals` says that this is the only case.
  The repository's own `signals.flush` (`builtins.ts:293-299`) always returns "ok", so it takes a hand-written
  module to get there. The top-level loop has no such case.
- The host-pattern loop decides the glob relation exactly for needles without `*`
  (`HostPatterns.AgreesExactlyWithoutStar`); validated host labels have none.
- Caching a sudo password that contains the placeholder throws between replacing the old one and
  releasing its registration, which is then never released (`SecretLedger.RefusedRotationOrphans`); so
  does, with the roles reversed, a password with a lone surrogate. `SecretLedger.StepBalance` has the
  exact condition.
- An accepted host key is lost when its label starts with `#` or `@`, and found but not recognised when
  it starts with `|1|` (`KnownHostsStore.SecondAcceptance`).
- A captured stream is the capped text exactly when no chunk boundary splits a surrogate pair
  (`Capture.CaptureExact`).
- The simple template renderer accepts modifier names that its registry object merely inherits; the
  phased one rejects them (`TemplateRender.InheritedModifierSplitsPaths`).

## Model

| member | source | states |
|---|---|---|
| Redaction.MaskText | packages/paratix/src/sshHelpers.ts:287-303 | the masking loop computes the batch mask, variant after variant |
| Redaction.ReplaceAllSnoc | packages/paratix/src/sshHelpers.ts:295-302 | one left-to-right pass over a text with one more unit is the pass over the text, completed at its end |
| Redaction.MaskAround | packages/paratix/src/sshHelpers.ts:295-302 | a placeholder splits a text: what stands before it and behind it is masked as if it stood alone |
| Redaction.PassCreatesNothing | packages/paratix/src/sshHelpers.ts:295-302 | a pass creates no occurrence of any variant and leaves none of its own |
| Redaction.MaskIsClean | packages/paratix/src/sshHelpers.ts:287-303 | the masked text contains no variant |
| Redaction.MaskOfClean | packages/paratix/src/sshHelpers.ts:287-303 | a text without variants is not touched |
| RedactionPieces.PassRedacts | packages/paratix/src/sshHelpers.ts:295-302 | a pass over a text in which occurrences of variants are already covered covers further, disjoint occurrences and changes nothing else |
| RedactionPieces.MaskIsRedaction | packages/paratix/src/sshHelpers.ts:287-303 | the masked text is the text with disjoint occurrences of variants replaced and every other unit kept |
| Preemption.InsideDiffers | packages/paratix/src/sshHelpers.ts:276-302 | if a variant ends inside an earlier, longer one, masking the front of the longer one first shows in the result |
| Preemption.BeginningDiffers | packages/paratix/src/sshHelpers.ts:276-302 | if a variant ends with the start of an earlier one, masking it before the rest of the earlier one arrives shows in the result |
| Preemption.LawsExactly | packages/paratix/src/sshHelpers.ts:276-302 | for lists in the order of the source: masking unit by unit, continuing from any point, and masking a front first each give the batch result for all texts if and only if no variant preempts an earlier one |
| StreamMasking.StreamMasker.PushChunk | packages/paratix/src/sshHelpers.ts:342-361 | a push writes and buffers what the specified push does, in all branches: no window, window not full, masked text shorter than the window, or written up to the window |
| StreamMasking.OverlapMeaning | packages/paratix/src/sshHelpers.ts:322-335 | the window is one unit less than the longest variant, and none if no variant has two units |
| StreamMasking.PushTwice | packages/paratix/src/sshHelpers.ts:347-350 | until the window is full, two pushes are one push of both chunks |
| StreamMasking.BoundaryHidden | packages/paratix/src/sshHelpers.ts:322-363 | so a chunk boundary in front of which no more than the window has come shows in no session |
| StreamMasking.WindowBounded | packages/paratix/src/sshHelpers.ts:350-360 | after every push, for every chunking, no more than the window is buffered, and without one nothing is |
| StreamMasking.PushFills | packages/paratix/src/sshHelpers.ts:347-361 | a push that overfills the window masks all that there is, loses nothing of it, and buffers its end: the window, or all if that is shorter |
| StreamMasking.StreamMasker.FlushPending | packages/paratix/src/sshHelpers.ts:336-341 | a flush writes the masked rest once and empties the buffer |
| StreamMasking.RunSession | packages/paratix/src/sshHelpers.ts:322-363 | pushing every chunk and flushing gives the session that the theorems are about |
| StreamMasking.SealedPass | packages/paratix/src/sshHelpers.ts:350-357 | a replacement in the pending part, also one that shortens it, cannot complete a variant that begins in what is written |
| StreamMasking.PushKeepsSafe | packages/paratix/src/sshHelpers.ts:342-361 | after every push no variant that begins in the written text can be completed by anything to come |
| StreamMasking.StreamIsClean | packages/paratix/src/sshHelpers.ts:322-363 | for every chunking of every input, the concatenation of all writes contains no variant |
| StreamExactness.PushEffect | packages/paratix/src/sshHelpers.ts:342-361 | every branch of a push appends the chunk to all there is, written and buffered, and masks the whole of it or leaves it |
| StreamExactness.StreamRedacts | packages/paratix/src/sshHelpers.ts:322-363 | for every chunking of every input, the writes make up the input with disjoint occurrences of variants replaced, nothing else changed and no variant left |
| StreamExactness.BoundaryShows | packages/paratix/src/sshHelpers.ts:350-360 | behind a full window, a chunk boundary shows in the output if and only if masking the text before it shows |
| StreamExactness.StreamsLikeBatchIffAbsorbs | packages/paratix/src/sshHelpers.ts:322-363 | streaming gives the batch result for all chunkings if and only if masking a front first never shows, for clash-free lists in any order |
| StreamExactness.StreamsLikeBatchExactly | packages/paratix/src/sshHelpers.ts:276-363 | streaming gives the batch result for all chunkings if and only if no variant preempts an earlier one |
| StreamExactness.TwoStreamLikeBatchExactly | packages/paratix/src/sshHelpers.ts:276-363 | the same for two variants, in terms of the two |
| StreamMasking.NoCommonUnit | packages/paratix/src/sshHelpers.ts:251-264 | a variant that shares no character with the placeholder meets the hypothesis of the safety theorem |
| PlaceholderLeaks.RedactsExactly | packages/paratix/src/sshHelpers.ts:262-264 | a pass for a secret that meets the guard leaves the secret in no text if and only if it is leak-free: not part of the placeholder, not beginning like it ends, and ending like it begins only where the pass never gets to |
| SecretVariants.GetSecretVariants | packages/paratix/src/sshHelpers.ts:257-277 | the loop collects the forms of every secret in an insertion-ordered set, rejects the placeholder and unencodable secrets, and sorts by length |
| SecretVariants.ByLengthSorts | packages/paratix/src/sshHelpers.ts:276 | falling length, the same elements, and those of one length in their old order |
| SecretVariants.GuardsExactly | packages/paratix/src/sshHelpers.ts:261-269 | a list comes out if and only if no secret contains the placeholder or a lone surrogate |
| SecretVariants.GetVariantsGives | packages/paratix/src/sshHelpers.ts:257-277 | the list has exactly the three forms of the secrets that are not empty, each once, longer ones first |
| UriComponent.DecodeInvertsEncode | packages/paratix/src/sshHelpers.ts:268-269 | the percent-encoding of every text without lone surrogates decodes, by UTF-8 and UTF-16, to that text, so no two texts share one |
| SecretVariants.PlainSecretDiffers | packages/paratix/src/sshHelpers.ts:272-276 | in the list of any secrets, one without a quote makes a chunk boundary before its closing quote show |
| SecretLeaks.ListLeaks | packages/paratix/src/sshHelpers.ts:295-302 | in any list, a text on which one variant leaks and that the others do not touch leaks |
| SecretLeaks.SafeInBatchExactly | packages/paratix/src/sshHelpers.ts:257-303 | the list of one secret hides it in every text if and only if it is leak-free |
| StreamLeaks.BatchLeakReachesStream | packages/paratix/src/sshHelpers.ts:322-363 | what the batch masker leaves in some text, some session writes |
| StreamLeaks.FormsClashFree | packages/paratix/src/sshHelpers.ts:257-277 | the list of clash-free secrets, quotes or not, is clash-free in all forms |
| StreamLeaks.SafeInStreamBetween | packages/paratix/src/sshHelpers.ts:257-363 | for every accepted secret, clash-free is enough for every session and leak-free is necessary |
| StreamLeaks.SafeInStreamExactly | packages/paratix/src/sshHelpers.ts:257-363 | a session hides a secret without a quote for every chunking if and only if it is clash-free |
| StreamLeaks.StreamIsStricter | packages/paratix/src/sshHelpers.ts:350-360 | the secret `[[` is safe in every text and leaks from some session |
| Capture.FitIsLongest | packages/paratix/src/sshHelpers.ts:83-93 | the prefix is whole characters, fits, and no longer whole-character prefix fits |
| Capture.ByteLengthIsUtf8 | packages/paratix/src/sshHelpers.ts:83-93 | the byte length of a text without lone surrogates is the number of bytes that its percent-encoding spells |
| Capture.FitUtf8Prefix | packages/paratix/src/sshHelpers.ts:83-93 | the loop cuts the text there |
| Capture.CapturedOutput.AppendChunk | packages/paratix/src/sshHelpers.ts:110-127 | ignored once truncated, taken whole if it fits, else its longest fitting prefix and the marker |
| Capture.CaptureIsCapped | packages/paratix/src/sshHelpers.ts:103-136 | if no pair is split, the capture of all chunks is the capped whole text, with the truncation flag |
| Capture.CaptureExact | packages/paratix/src/sshHelpers.ts:103-136 | that holds for every limit if and only if no chunk boundary splits a surrogate pair |
| Capture.PipelineRedacts | packages/paratix/src/sshHelpers.ts:103-136 | masker and capture together hold, for every chunking of a text without surrogates, the capped form of a clean redaction of the text |
| Capture.PipelineLikeBatchExactly | packages/paratix/src/sshHelpers.ts:276-363 | that is the capped batch result for all limits and chunkings if and only if no variant preempts an earlier one |
| Capture.CapturePipeline | packages/paratix/src/sshHelpers.ts:322-363 | running both objects over the chunks computes that |
| HostPatterns.StarIsAnyRun | packages/paratix/src/knownHostPatterns.ts:67-74 | a star matches any run: what follows it matches some tail |
| HostPatterns.MatchesHostPattern | packages/paratix/src/knownHostPatterns.ts:45-56 | the two loops terminate and, for a needle without a star, decide the glob relation |
| HostPatterns.StepCharacter | packages/paratix/src/knownHostPatterns.ts:63-66 | matching one character keeps what the state stands for |
| HostPatterns.StepStar | packages/paratix/src/knownHostPatterns.ts:67-74 | so does taking a new star: everything before it was matched as early as possible |
| HostPatterns.StepBack | packages/paratix/src/knownHostPatterns.ts:75-82 | so does going back to the star: the position given up could not match; without a star nothing is left |
| HostPatterns.RunKeepsPromise | packages/paratix/src/knownHostPatterns.ts:45-83 | from every state the loop reaches, its answer is whether the rest matches from here or from a later start behind the last star |
| HostPatterns.RunIsGlob | packages/paratix/src/knownHostPatterns.ts:45-56 | the matcher returns true exactly when the pattern matches, for every needle without a star |
| HostPatterns.StarredNeedleFails | packages/paratix/src/knownHostPatterns.ts:63-66 | every needle with a star has a pattern that matches it and that the loop rejects |
| HostPatterns.AgreesExactlyWithoutStar | packages/paratix/src/hostValidation.ts:1-24 | loop and relation agree on all patterns if and only if the needle has no star |
| HostPatterns.MatchesKnownHostPatternList | packages/paratix/src/knownHostPatterns.ts:12-29 | some positive pattern matches and no negated one does, whatever the order |
| HostPatterns.NegatedBehind | packages/paratix/src/knownHostPatterns.ts:12-24 | one more negated pattern only takes away the matches it hits, and a lone `!` none |
| HostPatterns.PositiveBehind | packages/paratix/src/knownHostPatterns.ts:12-24 | one more positive pattern adds the matches it hits, but none that a negated one hits |
| HostPatterns.LowerCaseExactly | packages/paratix/src/knownHostPatterns.ts:26-29 | A to Z become the small letter at the same place of the alphabet, and nothing else changes |
| Meta.MergeEnvironmentFromMeta | packages/paratix/src/meta.ts:313-339 | the loop merges the environment entries in order, or throws on a name that is not allowed |
| Meta.MergeConcat | packages/paratix/src/meta.ts:313-339 | merging two lists one after the other is merging their concatenation |
| Meta.MergeEnvironmentOnly | packages/paratix/src/meta.ts:313-339 | control-plane entries do not change the merged environment |
| Meta.ControlPlaneConcat | packages/paratix/src/meta.ts:179-189 | the control-plane part of a concatenation is the concatenation of the parts |
| Meta.LastEntryWins | packages/paratix/src/meta.ts:313-339 | in a merge the last entry for a name wins, and a name without one keeps what it had |
| Meta.PartsAreExact | packages/paratix/src/meta.ts:313-339 | every entry of a list is in its control-plane or its environment part, as often as in the list |
| Meta.NamesAllowedExactly | packages/paratix/src/meta.ts:247-269 | accepted are the names whose segments between dots are all identifiers, but for three that objects inherit |
| EngineLoops.ExecuteModules | packages/paratix/src/recipe.ts:397-450 | the loop over a recipe's children computes the specified state and trace |
| EngineLoops.ApplyRecipe | packages/paratix/src/recipe.ts:509-559 | the recipe with its signals at the end, and the status that they overwrite |
| EngineLoops.RunSignalModules | packages/paratix/src/signalOrchestration.ts:126-158 | the signal loop threads the environment, stops at the first failure and at a shutdown |
| EngineLoops.RunConditionalModuleLoop | packages/paratix/src/conditionalExecution.ts:184-229 | the loop of a `when` block |
| EngineLoops.RunModuleLoop | packages/paratix/src/runner.ts:1048-1119 | the runner's loop over the top-level modules |
| EngineRecord.SignalsAreCounted | packages/paratix/src/signalOrchestration.ts:126-158 | with the hooks of the runner every signal that a list starts is announced and its result counted |
| EngineStops.NothingRunsBehindTheEnd | packages/paratix/src/runner.ts:413-415 | over every run of every list of trees: behind a leaf that failed, or asked for a stop, nothing outside signal lists is checked or applied; behind a failure that was counted nothing is |
| EngineStops.RecipeStops | packages/paratix/src/recipe.ts:350-395 | the same from any state of any recipe, and what ended it shows in its result |
| EngineStops.GuardedStops | packages/paratix/src/conditionalExecution.ts:184-275 | the same for the rest of a `when` block |
| EngineVisits.RunVisits | packages/paratix/src/runner.ts:1048-1119 | over every run the modules are visited in order, each at most once, none behind a failure or stop-run, and all of them if nothing failed, stopped or was shut down |
| EngineVisits.RecipeVisits | packages/paratix/src/recipe.ts:397-450 | the same for the children of every recipe |
| EngineVisits.BlockVisits | packages/paratix/src/conditionalExecution.ts:184-229 | the same for the children of every `when` block |
| EngineVisits.RecipeReports | packages/paratix/src/recipe.ts:144-169 | a recipe reports failed if and only if a child or a signal list failed, else changed if and only if a child changed, and a stop if and only if a child asked for one |
| EngineVisits.BlockReports | packages/paratix/src/conditionalExecution.ts:94-111 | the same for a `when` block, the flush request included |
| EngineAsks.AppliesAreAskedFor | packages/paratix/src/recipe.ts:193-236 | over every run, at every depth: a leaf is applied only right behind its own check, which asked for it, and a shutdown question answered with no (a signal needs the question alone); behind the first yes nothing is checked or applied |
| EngineRecord.CheckIsSurvey | packages/paratix/src/conditionalModules.ts:13-30 | checking a tree is asking its guards, abort signals and leaves depth first, up to the first answer that is not ok |
| EngineRecord.RunRecord | packages/paratix/src/runner.ts:1048-1119 | over every run each reported module is backed by a stretch of the trace: all its leaves were ok, or it was applied there and then and is reported as it ended; a block whose guard failed was skipped without another word |
| EngineRecord.RecipeRecord | packages/paratix/src/recipe.ts:193-299 | the same for every child that a recipe passed over or reports |
| EngineRecord.BlockRecord | packages/paratix/src/conditionalExecution.ts:231-275 | the same for every child of a `when` block |
| EngineEnvironments.EveryCallSeesTheReplay | packages/paratix/src/meta.ts:313-339 | over every run, whatever is checked or applied outside signal lists, at every depth, is given the initial environment after the entries of all leaves applied before, each once and in order, as long as no shutdown is announced |
| EngineEnvironments.SignalsSeeTheReplay | packages/paratix/src/signalOrchestration.ts:126-158 | in a list without lists of its own each signal is given what the list started with, after the entries of the signals before it |
| EngineLedger.ApplyGrows | packages/paratix/src/recipe.ts:248-299 | over every tree, no failure that happened is forgotten |
| EngineLedger.ApplySettles | packages/paratix/src/recipe.ts:144-169 | over every tree, what leaves reported is acted on or handed up, with and without the hook |
| EngineLedger.GuardedSettles | packages/paratix/src/conditionalExecution.ts:94-145 | the same for the rest of a `when` block |
| EngineLedger.RecipeLoopSettles | packages/paratix/src/recipe.ts:350-450 | the same for the rest of a recipe |
| EngineLedger.SignalsSame | packages/paratix/src/signalOrchestration.ts:57-106 | a signal list acts on no control-plane entry and contributes none |
| EngineLedger.ActsExactlyOnce | packages/paratix/src/runner.ts:582-622 | over every run of every list of trees, the runner acts on exactly the control-plane entries of the successfully applied leaves, each once and in order |
| EngineLedger.HookedContainerHandsUpNoControlPlane | packages/paratix/src/recipe.ts:144-169 | with the hook, a container that has not failed returns environment entries only |
| EngineLedger.PlainContainerHandsUpEverything | packages/paratix/src/conditionalExecution.ts:94-111 | without it, and without failures, a container returns exactly its leaves' entries, and nobody has acted on them |
| EngineLedger.RecipeMetaReplays | packages/paratix/src/recipe.ts:144-169 | the returned meta of a recipe that has not failed replays to the environment its last child left |
| EngineLedger.GuardedMetaReplays | packages/paratix/src/conditionalExecution.ts:94-111 | the same for a `when` block that ran to its end |
| EngineLedger.RunnerContinuesWithChildEnvironment | packages/paratix/src/runner.ts:594-622 | behind a recipe the run goes on with the environment its last child left |
| EngineSignals.SignalRunMeaning | packages/paratix/src/signalOrchestration.ts:126-158 | a list that neither failed nor was interrupted started every signal; a failed one is counted as a failure |
| EngineSignals.RecipeSignals | packages/paratix/src/recipe.ts:472-559 | no list runs without a change since its previous run; none runs after a failure, except for a failed child that asks for a flush; without failure every change is followed by a run |
| EngineSignals.SignalAfterFailedFlush | packages/paratix/src/recipe.ts:472-484 | the exception happens |
| EngineSignals.RunSignalsAtTopLevel | packages/paratix/src/runner.ts:887-999 | at top level there is no exception, and a run without failure or shutdown has signalled every change, also one before a stop-run |
| OpenSshWire.RemoveMpintSignPadding | packages/create-paratix/src/openSshPublicKeyWire.ts:100-106 | leading zero bytes go, the last byte stays |
| OpenSshWire.MpintToBigInt | packages/create-paratix/src/openSshPublicKeyWire.ts:108-115 | the loop computes the number that the bytes denote |
| OpenSshWire.GetMpintBitLength | packages/create-paratix/src/openSshPublicKeyWire.ts:117-123 | the result is the bit length of that number, zero included |
| OpenSshWire.CanonicalIsTheEncoding | packages/create-paratix/src/openSshPublicKeyWire.ts:79-98 | bytes that pass both checks are the one mpint encoding of section 5 of RFC 4251 of a positive number |
| OpenSshWire.EncodingIsCanonical | packages/create-paratix/src/openSshPublicKeyWire.ts:79-98 | the encoding of every positive number passes both checks and denotes it |
| OpenSshWire.ReadIffEncoded | packages/create-paratix/src/openSshPublicKeyWire.ts:38-57 | a wire string is read if and only if its encoding stands there |
| OpenSshWire.ValidateRsaWireKey | packages/create-paratix/src/openSshPublicKeyWire.ts:125-156 | the checks in their order decide what the theorem below is about |
| OpenSshWire.RsaBlobsExactly | packages/create-paratix/src/openSshPublicKeyWire.ts:230-236 | accepted exactly: string("ssh-rsa"), mpint e, mpint n, nothing trailing, e odd and at least 3, n of at least 2048 bits |
| OpenSshWire.RsaBlobUnique | packages/create-paratix/src/openSshPublicKeyWire.ts:134-156 | a blob determines exponent and modulus |
| BitStrings.OctetsInvertByteBits | packages/paratix/src/totp.ts:88-105 | cutting the bits of a byte string into bytes gives the byte string back |
| Totp.AccumulateBase32Bytes | packages/paratix/src/totp.ts:88-105 | for every length the never-masked 32-bit accumulator yields the whole bytes of the mathematical bit string, or the first bad character is reported |
| Totp.ShiftInHolds | packages/paratix/src/totp.ts:97-98 | shifting in keeps the accumulator equal to all bits so far modulo 2^32, sign and all |
| Totp.WrapInvisible | packages/paratix/src/totp.ts:99-102 | the wrap never shows in the byte that is read |
| Totp.DecodeInvertsEncode | packages/paratix/src/totp.ts:88-105 | decoding inverts the encoder of section 6 of RFC 4648 |
| Totp.DecodeBase32 | packages/paratix/src/totp.ts:107-118 | the limit, the stripping, the error, and the inverse of the standard's padded text |
| Totp.EncodedTextStrips | packages/paratix/src/totp.ts:116-117 | stripping leaves exactly the characters that carry the bytes |
| Totp.TruncationMeaning | packages/paratix/src/totp.ts:127-137 | with the offset taken from the last byte, exactly `digits` decimal digits of the 31-bit big-endian number there, as section 5.3 of RFC 4226 has it; bytes that a short digest does not have count as zero |
| SessionChannels.SessionChannelSlots.AcquireSessionChannel | packages/paratix/src/ssh.ts:1029-1042 | claimed at once below the cap with nobody waiting, queued otherwise |
| SessionChannels.SessionChannelSlots.ReleaseSessionChannel | packages/paratix/src/ssh.ts:2417-2424 | handed to the first waiter with the counter kept, given back otherwise |
| SessionChannels.StepKeepsConsistent | packages/paratix/src/ssh.ts:2017-2033 | every step keeps: claimed = running + granted, at most 4, waiters only at 4, nobody in two places, FIFO |
| SessionChannels.EveryRunIsConsistent | packages/paratix/src/ssh.ts:2054-2065 | so does every interleaving |
| SessionChannels.CapHolds | packages/paratix/src/ssh.ts:1029-1042 | never more than four channels between claim and release, and slots handed over in order of arrival |
| SessionChannels.WaitsOnlyForFour | packages/paratix/src/ssh.ts:1029-1036 | over every run, whoever waits does so while four channels are claimed, and a caller who finds fewer gets one at once |
| SessionChannels.NothingIsLost | packages/paratix/src/ssh.ts:2417-2424 | when all have left, all slots are free; while anyone waits, somebody can move |
| SessionChannels.RankFalls | packages/paratix/src/ssh.ts:2417-2424 | over every run a waiter's rank falls by one with each release and with nothing else |
| SecretSink.Sink.RegisterSecret | packages/paratix/src/secretSink.ts:142-146 | short secrets ignored, those with the placeholder refused, others counted |
| SecretSink.Sink.UnregisterSecret | packages/paratix/src/secretSink.ts:187-196 | unknown secrets ignored, the last registration deletes the entry |
| SecretSink.Sink.OpenScope | packages/paratix/src/secretSink.ts:219-233 | nothing registered when one secret is refused, else each long secret counted once for each time it is in the list |
| SecretSink.LongOnesMultiplicity | packages/paratix/src/secretSink.ts:219-221 | the list that a scope registers has every secret of eight units or more as often as the given one, and no other |
| SecretSink.LongOnesInOrder | packages/paratix/src/secretSink.ts:219-221 | and in the same order |
| SecretSink.Sink.CloseScope | packages/paratix/src/secretSink.ts:238-242 | exactly the registered ones are released |
| SecretSink.Sink.CloseRun | packages/paratix/src/secretSink.ts:261-267 | each entry of the run's map is released as often as it was registered |
| SecretSink.RegisterAllCount | packages/paratix/src/secretSink.ts:230-233 | opening a scope raises the count of each secret by its occurrences |
| SecretSink.UnregisterAllCount | packages/paratix/src/secretSink.ts:238-242 | closing it lowers the count by as much |
| SecretSink.AddEntryTally | packages/paratix/src/secretSink.ts:158-164 | a run-scoped registration adds one to the run's own tally of that secret |
| SecretSink.ReleaseRunCount | packages/paratix/src/secretSink.ts:261-267 | closing a run lowers every count by the run's tally |
| SecretLedger.SudoPasswordCache.CacheSudoPassword | packages/paratix/src/ssh.ts:1247-1272 | the cached value is replaced, then registered (or the call throws), then the previous one released |
| SecretLedger.CacheAnswers | packages/paratix/src/ssh.ts:1247-1259 | caching is refused exactly for a line break, before anything is touched, or for the placeholder in a long password, after the new value has been cached |
| SecretLedger.SudoPasswordCache.ClearCachedPassword | packages/paratix/src/ssh.ts:1488-1503 | the cached value is dropped and released |
| SecretLedger.StoredIffWellFormed | packages/paratix/src/ssh.ts:1257-1258 | a password survives the buffer if and only if it has no lone surrogate |
| SecretLedger.ConnectConserves | packages/paratix/src/ssh.ts:577-591 | when creating a connection keeps every count equal to the live registrations |
| SecretLedger.CacheConserves | packages/paratix/src/ssh.ts:1247-1297 | when caching a password does |
| SecretLedger.StepBalance | packages/paratix/src/secretSink.ts:142-268 | the same for every step: if and only if it is a conserving one |
| SecretLedger.RegistrationsConserved | packages/paratix/src/secretSink.ts:215-268 | over every interleaving of conserving steps each count is the number of live registrations, and the sink is empty when all are closed |
| SecretLedger.RefusedRotationOrphans | packages/paratix/src/ssh.ts:1257-1266 | after a refused rotation the previous password stays registered for good |
| PlaybookLock.PlaybookImportLocks.Enter | packages/paratix/src/cli.ts:523-529 | the promise to wait for is read, then replaced by the caller's own |
| PlaybookLock.PlaybookImportLocks.Leave | packages/paratix/src/cli.ts:555-557 | the entry goes only if it is still the caller's own |
| PlaybookLock.StepKeepsInv | packages/paratix/src/cli.ts:511-559 | every step keeps, for every key, one chain of unfinished calls with the last one in the map |
| PlaybookLock.BodiesNeverOverlap | packages/paratix/src/cli.ts:539-551 | bodies of one playbook never overlap |
| PlaybookLock.BodiesBeginInOrder | packages/paratix/src/cli.ts:531-545 | they begin in order of arrival, also behind rejections |
| PlaybookLock.PruningIsExact | packages/paratix/src/cli.ts:551-557 | a key is absent exactly when no call for it is queued or running |
| PlaybookLock.KeysAreIndependent | packages/paratix/src/cli.ts:519-524 | a playbook with queued calls can always move by a step of its own |
| PlaybookLock.KeysTellFilesApart | packages/paratix/src/cli.ts:519-523 | two named files share a key if and only if they are the same, and a call without a file has the default key |
| KnownHosts.ParseKnownHosts | packages/paratix/src/knownHosts.ts:198-206 | the loop parses line by line, blank lines and comments skipped |
| KnownHosts.ParseConcat | packages/paratix/src/knownHosts.ts:198-206 | behind a terminated store a text is parsed on its own |
| KnownHosts.LineParses | packages/paratix/src/knownHosts.ts:168-187 | an appended line parses to exactly its own entry, unless its label reads as a comment or a marker |
| KnownHosts.StrictBase64Exactly | packages/paratix/src/knownHosts.ts:114 | a key field is accepted if and only if it is one or more alphabet characters and then nothing but padding |
| KnownHosts.ListLineParses | packages/paratix/src/knownHosts.ts:168-187 | a line with or without a marker and with a list of hosts gives one entry for every host, each with the whole list and the marker |
| KnownHostsStore.TrustStore.AppendHostKey | packages/paratix/src/knownHosts.ts:400-464 | invalid requests, trusted keys and mismatches leave the store alone; otherwise one line is appended; each answer written out in terms of the parsed store |
| KnownHostsStore.DecideMeaning | packages/paratix/src/knownHosts.ts:441-454 | trusted already if and only if an unmarked matching entry has this algorithm and key; a mismatch if and only if there is none and some unmarked matching entry has another key; appended if and only if neither |
| KnownHostsStore.AcceptableExactly | packages/paratix/src/knownHosts.ts:400-424 | of all the checks in front of the lock, those on the host label and on the algorithm in the key decide |
| KnownHostsStore.LabelsTellApart | packages/paratix/src/knownHosts.ts:218-220 | two hosts with ports have one label if and only if they are the same, or one, on the default port, is spelt like the other's label |
| KnownHostsStore.AppendParses | packages/paratix/src/knownHosts.ts:427 | the store then parses to what it was, and the new entry |
| KnownHostsStore.AppendKeepsOneKey | packages/paratix/src/knownHosts.ts:441-454 | an append keeps all unmarked, unhashed entries of every label at one key |
| KnownHostsStore.AppendKeepsNoDuplicates | packages/paratix/src/knownHosts.ts:444-450 | an append adds no entry that is there already |
| KnownHostsLocking.KnownHostsLock.Enter | packages/paratix/src/knownHosts.ts:38-43 | a call waits for the promise in the module variable and leaves its own |
| KnownHostsLocking.StepKeepsOrder | packages/paratix/src/knownHosts.ts:38-45 | every step keeps one chain, in which a call has begun only if all before it have settled |
| KnownHostsLocking.OneAtATime | packages/paratix/src/knownHosts.ts:38-45 | in every run, at most one call is between its first and its last step |
| KnownHostsLocking.FirstComeFirstServed | packages/paratix/src/knownHosts.ts:38-45 | in every run, calls begin in the order of arrival, also behind rejected ones |
| KnownHostsLocking.RunsKeepStoreGood | packages/paratix/src/knownHosts.ts:432-463 | in every interleaving of loads and acceptances, lines written in pieces: but for the line in progress the store has one key per label and no duplicates, and so has whatever a call has read |
| KnownHostsLocking.LaterReadsSeeTheKey | packages/paratix/src/knownHosts.ts:390-394 | whoever reads after an earlier acceptance has appended sees its entry, whole |
| KnownHostsLocking.AnswersAreRight | packages/paratix/src/knownHosts.ts:441-463 | over every run, when a call is told that its key is trusted, an unmarked entry with that key is in the store, and when it is told of a mismatch, one with another key is |
| KnownHostsLocking.NobodyIsStuck | packages/paratix/src/knownHosts.ts:38-45 | the first call that has not settled can always go on |
| KnownHostsStore.SecondAcceptance | packages/paratix/src/knownHosts.ts:440-462 | a second acceptance finds the first exactly when the label is neither comment, marker nor hash |
| HostKeyBinding.Connection.AssertReconnectHostKey | packages/paratix/src/ssh.ts:1092-1108 | the key is admitted if it equals the required one, or none is required |
| HostKeyBinding.HostKeyAttempt.HostVerifier | packages/paratix/src/ssh.ts:1635-1648 | refusal, key change or acceptance, and what the attempt remembers; the connection is not touched |
| HostKeyBinding.VerdictExactly | packages/paratix/src/ssh.ts:1635-1648 | refused if and only if the verifier refuses; else compared with the pin, or without one with the verified key unless both sides are certificate-only, and a key change exactly if it differs |
| HostKeyBinding.AcceptedWhenItShould | packages/paratix/src/ssh.ts:1092-1108 | an unbound connection accepts every accepted offer, and a bound one its own key |
| HostKeyBinding.HostKeyAttempt.CommitAttempt | packages/paratix/src/ssh.ts:1630-1634 | verified key and evidence replaced, the pin set only if there was none |
| HostKeyBinding.BindingReflects | packages/paratix/src/ssh.ts:1625-1650 | over every sequence of handshakes the binding reflects the committed offers |
| HostKeyBinding.PinStays | packages/paratix/src/ssh.ts:1630-1634 | one handshake never moves a pin, and one that does not commit changes nothing |
| HostKeyBinding.PinStaysOverRuns | packages/paratix/src/ssh.ts:1092-1108 | once set, the pin never changes and every later committed leaf equals it |
| HostKeyBinding.LeafChangesOnlyUnderCertificates | packages/paratix/src/ssh.ts:332-334 | consecutive committed leaves differ only if both, and all before, are certificate-only |
| Reconnect.SleptAtLeast | packages/paratix/src/ssh.ts:288-291 | n uncut sleeps take at least 22500 (n - 4) ms |
| Reconnect.DelayRange | packages/paratix/src/ssh.ts:808-811 | a sleep asks for three to five quarters of a backoff that doubles from a second up to thirty, or for what is left of the window |
| Reconnect.RequestSleep | packages/paratix/src/ssh.ts:808-813 | the requested sleep is the jittered backoff cut at the deadline, ends by the deadline, and leaves fewer rounds |
| Reconnect.Reconnect | packages/paratix/src/ssh.ts:790-820 | a window of T ms sees fewer than 5 + T / 22500 attempts, even without a cap; no sleep passes the deadline; the loop ends; it succeeds if and only if the last attempt connected, and throws if and only if that was fatal or its sleep aborted |
| Template.MatchesGrammar | packages/paratix/src/template.ts:103-115 | the sticky match finds a placeholder exactly when the text starts with one in the grammar, and finds that one |
| Template.TemplateTokenizer.Tokenize | packages/paratix/src/template.ts:133-142 | the loop gives the token list of the specification, or fails where it does |
| Template.TemplateTokenizer.ConsumeEscapedBrace | packages/paratix/src/template.ts:144-150 | taken exactly at an escaped brace, the remaining work unchanged |
| Template.TemplateTokenizer.ConsumePlaceholder | packages/paratix/src/template.ts:152-170 | taken exactly at a placeholder, malformed syntax reported in strict mode |
| Template.TemplateTokenizer.FlushLiteral | packages/paratix/src/template.ts:172-177 | a non-empty buffer becomes one literal |
| Template.JoinSplit | packages/paratix/src/template.ts:161-167 | joining the split modifiers gives the modifier text back |
| Template.TokensPrintBack | packages/paratix/src/template.ts:191-204 | printing the tokens gives back every template that is accepted |
| Template.TokensWellShaped | packages/paratix/src/template.ts:191-204 | no literal is empty and no two are adjacent |
| Template.TokensExactly | packages/paratix/src/template.ts:133-177 | the tokens are the only list that prints as the template, has no empty or adjacent literals, and no literal in which an escaped brace or a placeholder begins, nor in strict mode a double brace; refused are exactly the templates without one |
| TemplateRender.ApplyModifiers | packages/paratix/src/template.ts:214-222 | the chain is applied left to right, failing at the first modifier that fails |
| TemplateRender.ModifierMeaning | packages/paratix/src/template.ts:86-92 | raw changes nothing, and shell makes the value one word of a command line if and only if it has no NUL |
| TemplateRender.FillOrdinary | packages/paratix/src/template.ts:256-264 | exactly the ordinary slots are filled, each with its value |
| TemplateRender.FillKey | packages/paratix/src/template.ts:266-274 | exactly the slots of one key are filled, all from one value read |
| TemplateRender.ResolvePhasedPlaceholders | packages/paratix/src/template.ts:250-276 | every slot gets the reference value; per-access keys are read once, in order, after all ordinary ones; nothing is read of an invalid template |
| TemplateRender.ResolveTemplatePlaceholders | packages/paratix/src/template.ts:278-297 | phased with per-access values, simple without |
| TemplateRender.Concatenate | packages/paratix/src/template.ts:353-369 | the concatenation is the simple renderer's output |
| TemplateRender.SlotsDecide | packages/paratix/src/template.ts:353-369 | rendering succeeds exactly when every slot has a value |
| TemplateRender.RenderTemplate | packages/paratix/src/template.ts:338-370 | output and success of the whole renderer equal the simple renderer's under one valuation, and which keys were read |
| TemplateRender.InheritedModifierSplitsPaths | packages/paratix/src/template.ts:217-218 | where the two paths part: a modifier that the registry only inherits |
| DotEnv.PassesAreOneDecoder | packages/paratix/src/environment.ts:247-255 | the four passes equal one left-to-right decoder on every text without NUL |
| DotEnv.DecodeInvertsEncode | packages/paratix/src/environment.ts:247-255 | decoding inverts the matching escaper, on every text |
| DotEnv.QuotedRoundTrip | packages/paratix/src/environment.ts:220-256 | a quoted value is read back, or rejected, exactly when it contains NUL or a carriage return |
| DotEnv.SingleQuoted | packages/paratix/src/environment.ts:256-259 | what stands between single quotes is taken as it is |
| DotEnv.Unquoted | packages/paratix/src/environment.ts:260-263 | an unquoted value ends, trimmed, in front of the first number sign behind white space |
| DotEnv.UnquotedAsIs | packages/paratix/src/environment.ts:260-263 | and is taken as it is if there is none |
| ShellQuoting.QuoteLexes | packages/paratix/src/sshHelpers.ts:30-32 | wherever it stands outside quotes, a quoted text adds exactly its characters to the current word |
| ShellQuoting.QuoteIsOneWord | packages/paratix/src/sshHelpers.ts:30-32 | it is the one word `s` if and only if `s` has no NUL |
| ShellQuoting.AssignmentReadBack | packages/paratix/src/ssh.ts:1158-1163 | a quoted assignment is read back as its name and value |
| ShellQuoting.PrefixAssigns | packages/paratix/src/ssh.ts:1156-1165 | the prefix in front of any command lexes to one assignment per entry and then to the command |
| ShellQuoting.SudoHandsOverTheCommand | packages/paratix/src/ssh.ts:2712-2745 | whichever way sudo is called, `bash -c` gets exactly prefix and command as one argument |
| ShellQuoting.SudoModes | packages/paratix/src/ssh.ts:2712-2745 | root gets prefix and command as they are; who has a cached password and no input is asked for it; input with a password needs primed or passwordless sudo; all else is non-interactive |

## Left out

- Dry runs, spinners, diffs and summaries: user interface, and dry runs aggregate differently.
- Signal lists of recipes nested in a `when` block are run without hooks there, so the ledger of acted entries says of them only that they do not move it.
- The runner's control-plane handling is one event that does not throw: port changes, reboots and reconnects behind it are not part of the engine model, nor is a hook that throws.
- `RunStats` appears as the events that update it; its counters are not kept.
- EngineAsks.AppliesAreAskedFor: supposes that a pending shutdown is not taken back, as `runner.ts:183-215` never does.
- EngineEnvironments.EveryCallSeesTheReplay: speaks of what is asked before a shutdown is announced; behind that nothing is asked (`EngineAsks.AppliesAreAskedFor`).
- EngineEnvironments.SignalsSeeTheReplay: lists whose members have no signal lists of their own.
- The bodies of conditional dry-run steps, `Promise.race` against shutdown, and the text of errors and reports.
- Secrets given as functions are taken as resolved (`sshHelpers.ts:253-255`).
- SecretLeaks.SafeInBatchExactly: one secret; for lists of several, `SecretLeaks.ListLeaks` gives the leak and clash-freedom of all the safety, and what lies between depends on how their forms mask each other.
- StreamLeaks.SafeInStreamExactly: for a secret with a quote, `StreamLeaks.SafeInStreamBetween` decides all but those that are leak-free and yet end like the placeholder begins.
- Capture.PipelineLikeBatchExactly: texts and variants without surrogates; `Capture.CaptureExact` says what splitting a pair does.
- Host patterns: lower-casing is ASCII, `?` is one character of the model; the salted hash of hashed entries is a function given from outside.
- OpenSshWire.RsaBlobsExactly: covers the ssh-rsa branch; base64, elliptic curves and Ed25519 lengths are left out as cryptography or as easy.
- Totp.DecodeBase32: Unicode case mapping and white space are given tables; HMAC, the clock and the URI parser are left out.
- SessionChannels.NothingIsLost: says that some step is possible, not that a remote command ends.
- SecretLedger.RegistrationsConserved: `clearRegisteredSecrets` is left out, and a registration by work that outlives its run scope counts as one outside all scopes.
- PlaybookLock.KeysAreIndependent: outermost calls only; nested imports bypass the lock by design.
- KnownHostsLocking.RunsKeepStoreGood: one process; other writers, a write that fails half-way and the size limit are left out. The store must end in a line end.
- HostKeyBinding.LeafChangesOnlyUnderCertificates: one key offer a handshake, as the transport makes it, and evidence that does not change between verification and commit.
- Reconnect.Reconnect: arithmetic over the reals; the clock does not run backwards, and a sleep lasts at least as long as requested.
- Template.MatchesGrammar: the text of the error for malformed syntax is left out.
- TemplateRender.FillOrdinary: the source reads ordinary values concurrently; they do not depend on each other, so one order stands for all.
- DotEnv.QuotedRoundTrip: double-quoted values; keys, size limits and the validation of decoded values are left out as easy.
- ShellQuoting.SudoHandsOverTheCommand: the lexer knows blanks, single quotes and backslashes and stops at everything else unquoted; aliases and the meaning of the command itself are outside.
- Transport, SFTP, timers, the file system and `create-paratix` scaffolding.
