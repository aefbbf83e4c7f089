# Verified models of the CI and operations scripts

Ten of the repository's scripts hold an algorithm behind a thin shell of file, git and network
calls. This project models those algorithms in Dafny and proves what the scripts rely on, for
every input, every run and, where calls can fail, every pattern of failing calls.

| file | script | what it decides |
|---|---|---|
| `Palette.dfy` | `scripts/generate_platform_palettes.py` | a token ladder that meets contrast floors for any three colours |
| `CommentMasker.dfy` | `scripts/check_model_name_literals.py` | which characters of a JavaScript source are comment |
| `ReviewPass.dfy` | `scripts/review_pass_filter.py` | which change requests are outstanding; which lines can carry a verdict |
| `D1Sync.dfy` | `scripts/d1_sync.py` | how rows are published under two caps while search keeps working |
| `AuthzPolicies.dfy` | `scripts/gen_d1_authz_policies.py` | which predicate class stands for a table's SQL row policies |
| `RestartGuard.dfy` | `scripts/branch_restart_check.py` | whether a new branch repeats work in flight |
| `RepoActivity.dfy` | `scripts/fetch_repo_activity.py` | a year of activity, fetched in pieces and bucketed by day |
| `ConfigRegions.dfy` | `scripts/render_config_contract.py` | how a marked region of a file is re-rendered |
| `VaultPrune.dfy` | `scripts/sync_onboard_vault.py` | which remote notes a synchronisation deletes |
| `Provenance.dfy` | `scripts/package_r5_image_inputs.py` | whether packaged inputs match the working tree |

`Ordering.dfy` is Python's order on strings, which two of the scripts sort by, and `Collections.dfy`
what several of the models share.

Code that works in place is a method over an array or an object, with a loop where the script has
one; code made of expressions is functions. What the scripts cannot see into is a parameter that
the theorems hold for, whatever it is: the shape of the transfer curve, `str.isalnum`, `str.strip`,
what a regular expression recognises, serialised sizes, digests, and the answers of git, GitHub and
the databases. A remote call may fail before or after it has taken effect. `dafny verify dfyconfig.toml` checks the whole project.

## Where the code and its comments differ

The models follow the code.

- **Comment masker.** The docstring says that `${` re-enters code. It enters a state of its own in
  which no comment, string or regex is recognised, and whose brace counter starts at 0, so a nested
  `{}` ends the interpolation early. `InterpolationEndsAtItsBrace` gives the exact condition and
  `NestedBracesLeaveEarly` an input.
- **Comment masker, look-behind.** The docstring calls a slash after an identifier a division. The
  look-behind reads the unmasked source, so after a comment that follows an identifier a slash opens
  a regex, and a comment after it may stay. `LookbehindsAgreeIff` gives the exact condition,
  `DivisionAfterComment` an input, and `MaskingIsIdempotentIff` what it means for masking twice.
- **Palette.** The second surface is not checked against the surface floor. With ink on one side
  of the background it keeps the floor exactly when the mix with one percent of background does; with
  ink on both sides it can lose it, as cyan on dark red does.
- **Repo activity, commits.** The docstring calls every window complete and the joins exact. The
  windows keep the time of day of the run, so the first day of the heatmap misses the commits before
  it. The merged pulls and closed issues are only asked for from 365 days back, while the heatmap has
  371 days, so its first five days have none. `HeatmapIsCompleteIff` gives the exact condition and
  `MorningCommitIsMissed` an input.
- **Repo activity, cap.** The search is said to fail past a thousand results. It already fails at
  exactly a thousand, as only a page that is not full ends it.
- **Policy translation.** The comment on the privilege table reads the most privileged class as the
  union of a table's policies. That holds exactly when the class contains the others; a table with
  one system-only and one own-workspace policy loses its system rows. Within one policy, a term
  that the classifier does not recognise is dropped beside one that it does.
- **Policy translation, errors.** The module docstring calls a policy of undecidable class a hard
  error. The code reports it in the list of unsupported policies and goes on;
  `AuthzPolicies.EveryPolicyIsAccountedFor` states what is then still guaranteed.
- **Provenance.** The docstring says that a full record satisfies the stack's check. The full path
  set has no key for the tenant seeds, so the check refuses a full record, even a fresh one, unless a
  package manifest carries that key as its name.
- **Palette, hairline cap.** Lines 132-138 compute a cap that nothing reads.
- **Restart guard.** The comment on the protected prefixes means the integration branches. Any name
  that starts with `main` or `develop` counts, so `maintenance` does, and a push that repeats its work
  is allowed (`MaintenanceMayBeRepeated`).

## Model

| member | source | states |
|---|---|---|
| Palette.ChannelsAdd | scripts/generate_platform_palettes.py:68-70 | a luminance is the sum of its three single-channel colours, each the curve of its channel times its primary |
| Palette.PrimariesOnBlack | scripts/generate_platform_palettes.py:68-77 | on black red contrasts 5.252, green 15.304 and blue 2.444, whatever the curve |
| Palette.ContrastIsSymmetric | scripts/generate_platform_palettes.py:73-77 | the contrast of two colours is the same both ways |
| Palette.PolesMultiplyTo21 | scripts/generate_platform_palettes.py:73-77 | the contrasts of any background with white and with black multiply to 21 |
| Palette.BetterPoleClears | scripts/generate_platform_palettes.py:115-117 | black or white, whichever contrasts more, always reaches 4.5, so the on-accent adjustment is unreachable |
| Palette.RoundHalfEven | scripts/generate_platform_palettes.py:82 | rounding is to within a half, and at exactly a half to the even neighbour |
| Palette.MixChannel | scripts/generate_platform_palettes.py:80-82 | a mixed channel lies between its two sources and is exact at 0 and at 1 |
| Palette.MixIsNearest | scripts/generate_platform_palettes.py:80-82 | each channel of a mix is the integer nearest to the exact mix of its own two channels, the even one of two nearest |
| Palette.MixChannelMonotone | scripts/generate_platform_palettes.py:80-82 | more foreground moves a channel, after rounding, only toward the foreground |
| Palette.ContrastMonotone | scripts/generate_platform_palettes.py:73-82 | with ink channelwise on one side of the background, more ink never lowers the contrast |
| Palette.PortionFor | scripts/generate_platform_palettes.py:85-92 | returns the least percentage from the start on that clears the target, or 100 when none does |
| Palette.StartPercentIs | scripts/generate_platform_palettes.py:87 | the search starts at the percentage nearest to the start, kept between 0 and 100 |
| Palette.LeastClearingIsThreshold | scripts/generate_platform_palettes.py:85-92 | for one-sided ink that percentage is a threshold: a percentage clears iff it is at least that |
| Palette.TowardPole | scripts/generate_platform_palettes.py:95-112 | returns the source iff it clears, else the mix with the better pole that keeps the most of the source |
| Palette.TowardPoleClears | scripts/generate_platform_palettes.py:95-112 | for any target up to 4.5 the result clears it, and the percentage is under 100 iff the source failed |
| Palette.LeastClearingOrdered | scripts/generate_platform_palettes.py:127-142 | a looser floor searched from an earlier start never needs more ink, which orders the rungs |
| Palette.InkReaches | scripts/generate_platform_palettes.py:127-142 | since ink clears 4.5, every rung's search finds a clearing percentage |
| Palette.DeriveRungs | scripts/generate_platform_palettes.py:127-149 | every rung is the least clearing one, surface <= hair <= mute <= soft, and neither repair branch ever changes a rung |
| Palette.Adjusted | scripts/generate_platform_palettes.py:156-165 | lists exactly the roles whose percentage fell under 100, in order, then on-accent iff its ratio fails |
| Palette.DeriveMode | scripts/generate_platform_palettes.py:120-209 | for all colours and both themes every role meets its floor, and a role is listed as adjusted iff its source failed |
| Palette.RungsMeetTheirFloors | scripts/generate_platform_palettes.py:127-149 | the floors 4.5, 3.0, 1.5 and 1.08 and the least percentages 78, 58, 16 and 5 of the four rungs, and the eight and four percent more of the second ones |
| Palette.ModeMeetsItsFloors | scripts/generate_platform_palettes.py:120-165 | the floors 4.5 of ink and on-accent, and 3.0 of accent and danger |
| Palette.AdjustedIff | scripts/generate_platform_palettes.py:156-165 | ink, accent and danger are listed iff their source misses its floor, and on-accent never is |
| Palette.KeptOrPulled | scripts/generate_platform_palettes.py:95-112 | a source that clears its floor is kept at 100 percent, and one that does not is mixed with the better pole below 100 |
| Palette.GreenAndBlueInk | scripts/generate_platform_palettes.py:120-165 | on black, green ink is kept at 100 percent and blue ink is listed as adjusted |
| Palette.SecondRungsKeepFloors | scripts/generate_platform_palettes.py:139-149 | for one-sided ink hair-2 keeps its floor, and surface-2 keeps its floor iff the mix with one percent of background clears it |
| Palette.SurfaceTwoCanLoseItsFloor | scripts/generate_platform_palettes.py:142-149 | for two-sided ink it fails: cyan on dark red finds its surface at 13 percent and surface-2 at 17 is under the floor |
| CommentMasker.CommentRun | scripts/check_model_name_literals.py:409-420 | inside a comment the scanner stays in it exactly as far as the comment reaches |
| CommentMasker.CommentIffInSpan | scripts/check_model_name_literals.py:401-464 | a character is a comment character iff it lies in the span of an opener that was met in code |
| CommentMasker.OpenerOf | scripts/check_model_name_literals.py:401-420 | every comment character has such an opener |
| CommentMasker.NewlinesStay | scripts/check_model_name_literals.py:380-383 | the masked text has its newlines at the same positions, so line numbers are exact |
| CommentMasker.CodeRun | scripts/check_model_name_literals.py:401-444 | a stretch of code without quotes and slashes is code and not blanked |
| CommentMasker.CodeGoesOn | scripts/check_model_name_literals.py:421-444 | code goes on after a character that is no quote and no slash but a division |
| CommentMasker.AfterValueIff | scripts/check_model_name_literals.py:385-399 | a slash is a division iff the last character before it that is no blank or tab is alphanumeric, an underscore, a dollar or a closing bracket |
| CommentMasker.TextSurvives | scripts/check_model_name_literals.py:440-463 | the text of a literal survives up to its first unescaped quote or, in a template, interpolation; the one leads back to code and the other into the interpolation |
| CommentMasker.StringLiteralSurvives | scripts/check_model_name_literals.py:440-463 | a quoted literal survives up to its first unescaped quote, whatever stands in it, and the scanner is in code after it |
| CommentMasker.OpenTextSurvives | scripts/check_model_name_literals.py:440-463 | a literal without an unescaped closing quote survives to the end of the source |
| CommentMasker.EveryLiteralSurvives | scripts/check_model_name_literals.py:421-463 | any literal, regexes and templates with escapes, classes and interpolations included, survives whole |
| CommentMasker.RegexLiteralSurvives | scripts/check_model_name_literals.py:421-439 | from a slash that follows no value, a regex survives up to its first unescaped slash outside a class, escapes and classes included, and the scanner is in code after it |
| CommentMasker.OpenRegexSurvives | scripts/check_model_name_literals.py:421-439 | a regex that neither an unescaped slash outside a class nor a newline ends survives to the end of the source |
| CommentMasker.DocLineSurvives | scripts/check_model_name_literals.py:364-370 | on a line like the docstring's, whose regex holds an escaped double slash, nothing is blanked, so the model name after it is found |
| CommentMasker.ClassOfSlashesSurvives | scripts/check_model_name_literals.py:421-439 | a class that holds a slash and a star hides no text |
| CommentMasker.DepthIsNesting | scripts/check_model_name_literals.py:449-460 | inside an interpolation the brace counter is the nesting of unescaped braces |
| CommentMasker.InterpolationEndsAtItsBrace | scripts/check_model_name_literals.py:449-460 | the scanner is still inside at the closing brace iff no brace is opened before it |
| CommentMasker.InterpolationLeavesIff | scripts/check_model_name_literals.py:449-460 | the scanner leaves an interpolation at the first unescaped closing brace that brings the nesting to zero or below |
| CommentMasker.NestedBracesLeaveEarly | scripts/check_model_name_literals.py:449-460 | on a template with a pair of braces in its interpolation the scanner is back in the template before the closing brace |
| CommentMasker.MaskedAt | scripts/check_model_name_literals.py:380-383 | masking blanks the comment characters that are no newline and keeps every other |
| CommentMasker.LooksTheSame | scripts/check_model_name_literals.py:385-399 | looking back from code, the source and the masked text look the same unless a block comment comes first |
| CommentMasker.LookbehindsAgreeIff | scripts/check_model_name_literals.py:385-399 | a slash in code is judged alike on both iff it does not follow a block comment before which the masked text ends a value |
| CommentMasker.CommentIsLookedThrough | scripts/check_model_name_literals.py:385-420 | on the masked text a block comment is looked through to what comes before it iff it has no newline |
| CommentMasker.DivisionAfterComment | scripts/check_model_name_literals.py:385-399 | a concrete source whose division after a comment is taken for a regex, so that a line comment stays until the text is masked again |
| CommentMasker.ScansAlike | scripts/check_model_name_literals.py:401-464 | up to the first slash judged differently, scanning the masked text is scanning the source with code for comments |
| CommentMasker.MaskingIsIdempotentIff | scripts/check_model_name_literals.py:351-464 | masking twice is masking once iff, scanned from that slash on, the masked text has no comment left |
| CommentMasker.AgreementIsIdempotent | scripts/check_model_name_literals.py:351-464 | so it is when no slash is judged differently |
| CommentMasker.DisagreementMatters | scripts/check_model_name_literals.py:385-399 | any text with a slash judged differently can go on so that masking twice differs |
| CommentMasker.OpensRegex | scripts/check_model_name_literals.py:385-399 | a slash opens a regex iff the last character before it that is no blank ends no value |
| CommentMasker.FindNewline | scripts/check_model_name_literals.py:410-411 | the first newline from a position on, or the length |
| CommentMasker.FindBlockEnd | scripts/check_model_name_literals.py:416-417 | the end of the first closer after a block comment's opener, or the length |
| CommentMasker.Blank | scripts/check_model_name_literals.py:380-383 | overwrites exactly the characters of the span that are no newline, and nothing else in the buffer |
| CommentMasker.SkipClass | scripts/check_model_name_literals.py:434-436 | passes over a character class without meeting a comment, to its bracket or newline |
| CommentMasker.SkipRegex | scripts/check_model_name_literals.py:421-439 | passes over a regex literal without meeting a comment and is back in code after it |
| CommentMasker.StepInString | scripts/check_model_name_literals.py:445-463 | one step in a string or an interpolation agrees with the automaton and meets no comment |
| CommentMasker.PassCode | scripts/check_model_name_literals.py:421-444 | one step in code where no comment opens agrees with the automaton |
| CommentMasker.MaskLineComment | scripts/check_model_name_literals.py:409-414 | blanks a whole line comment in the buffer and is back in code at its newline |
| CommentMasker.MaskBlockComment | scripts/check_model_name_literals.py:415-420 | blanks a whole block comment in the buffer and is back in code after it |
| CommentMasker.StepInCode | scripts/check_model_name_literals.py:403-444 | one step in code keeps the buffer masked up to the position reached |
| CommentMasker.MaskJsComments | scripts/check_model_name_literals.py:351-464 | ends on every input, with the same length, and with exactly the comment characters that are no newline blanked |
| ReviewPass.OutstandingChangeRequests | scripts/review_pass_filter.py:484-508 | the fold returns, in log order, exactly the requests that no later event of the login re-requests or clears |
| ReviewPass.StandsIff | scripts/review_pass_filter.py:461-508 | a request under a name stands until its login acts under that name again; one under none until the login requests or dismisses under none, or approves or comments under some name |
| ReviewPass.ListIs | scripts/review_pass_filter.py:484-508 | the list has the login, name, place and time of the requests that stand, each once, in log order |
| ReviewPass.OneMoreEvent | scripts/review_pass_filter.py:497-507 | one more event changes the declarative answer as one step of the fold changes the list |
| ReviewPass.OnePerLoginAndIdentity | scripts/review_pass_filter.py:498-502 | no two listed requests have the same login and identity |
| ReviewPass.OtherLoginsDoNotMatter | scripts/review_pass_filter.py:493-507 | a login's requests are those of its own events alone |
| ReviewPass.UnnamedActClearsNothing | scripts/review_pass_filter.py:471-481 | an approval or comment that names no seat leaves the list as it is |
| ReviewPass.StripFencedBlocks | scripts/review_pass_filter.py:249-277 | the loop replaces by a bare newline exactly the lines that are not kept, and keeps the line count |
| ReviewPass.StrippedIs | scripts/review_pass_filter.py:249-277 | a kept line stays as it is, and any other becomes a bare newline |
| ReviewPass.HeadsExist | scripts/review_pass_filter.py:249-277 | there is a set of opening lines such that each is shaped as an opener and held by no earlier block |
| ReviewPass.HeadsAreUnique | scripts/review_pass_filter.py:249-277 | that set of opening lines is the only one |
| ReviewPass.KeptIffHeldByNone | scripts/review_pass_filter.py:249-277 | a line is kept iff no block, from its opening to its closing line or the end of the text, holds it |
| ReviewPass.StripIsIdempotent | scripts/review_pass_filter.py:249-277 | stripping a stripped text changes nothing |
| ReviewPass.FencedTextDoesNotMatter | scripts/review_pass_filter.py:249-277 | two texts with the same fence shape and the same text outside are stripped to the same text |
| ReviewPass.OnlyItsOwnMarkCloses | scripts/review_pass_filter.py:262-268 | a closing line is all the opening character, at least as many as opened, and blanks |
| ReviewPass.OpensIff | scripts/review_pass_filter.py:245-273 | a line opens a fence iff, stripped, it starts with three or more backticks or tildes, and the fence is the whole run |
| ReviewPass.ClosesIff | scripts/review_pass_filter.py:262-268 | a line closes a fence iff, stripped, it is a run of three or more of its marks, no shorter than the opener, and then blanks |
| ReviewPass.MarkdownRuleNewline | scripts/review_pass_filter.py:269-275 | a removed line opens no fence of its own |
| ReviewPass.ReadVerdict | scripts/review_pass_filter.py:375-379 | the first decisive phrase decides, and the text is a comment iff none is decisive |
| ReviewPass.VerdictIff | scripts/review_pass_filter.py:294-358 | which words block and which approve, whole or, of three, the first two; in any case and with a hyphen for an underscore |
| ReviewPass.InSessionVerdictState | scripts/review_pass_filter.py:361-379 | the verdict is that of the first decisive phrase outside the fences |
| ReviewPass.VerdictIgnoresFencedText | scripts/review_pass_filter.py:361-379 | two bodies that differ only inside their fences get the same verdict |
| D1Sync.ChunkStatements | scripts/d1_sync.py:107-120 | refuses iff the parameter count is not positive; else the batches rebuild the rows in order and only the last is short |
| D1Sync.PerBatch | scripts/d1_sync.py:118 | as many rows a batch as the parameter cap allows, and one where it allows none |
| D1Sync.SplitRebuilds | scripts/d1_sync.py:137-152 | the halves of halves, joined, are the batch in order, for any size function |
| D1Sync.SplitFits | scripts/d1_sync.py:137-152 | no piece is empty, and every piece is under the cap when every row alone is |
| D1Sync.SplitOnlyWhenOver | scripts/d1_sync.py:137-152 | a batch that fits, or has one row, is sent as it is; any other is cut in the middle |
| D1Sync.AssertRowsWithinByteCap | scripts/d1_sync.py:155-183 | passes iff every row is at most 2,000,000 bytes and a statement of its own at most 100,000 |
| D1Sync.EnsureUniqueVaultPaths | scripts/d1_sync.py:186-205 | passes iff no two rows have the same path |
| D1Sync.UpsertAllConcat | scripts/d1_sync.py:454-464 | the table depends on the rows sent in order and not on how they were cut into statements |
| D1Sync.UpsertsKeepRowids | scripts/d1_sync.py:80-99 | upserts keep every present path on its row id, and an index that joined still joins |
| D1Sync.FinalContent | scripts/d1_sync.py:93-99 | the last row with a path decides its columns; a path no row has keeps its note |
| D1Sync.ReadBackCount | scripts/d1_sync.py:466-482 | with unique paths the read-back count is the row count plus the untouched orphans |
| D1Sync.ReplaceOrphansTheIndex | scripts/d1_sync.py:80-92 | replacing instead of updating leaves the old row id joined to no note |
| D1Sync.RebuiltFindsAll | scripts/d1_sync.py:104 | a rebuilt index finds every note under its own row id, and still joins |
| D1Sync.FindingIndexIsUnique | scripts/d1_sync.py:104 | there is only one index that joins and finds every note |
| D1Sync.Database.ExecuteUpsert | scripts/d1_sync.py:461-462 | applies one statement, leaves the index alone and keeps every index entry joined |
| D1Sync.Database.RebuildIndex | scripts/d1_sync.py:104 | afterwards search finds every note of the table under its own row id, and every entry joins |
| D1Sync.Send | scripts/d1_sync.py:457-463 | sends the next stretch of the rows in one acceptable statement |
| D1Sync.WriteBatch | scripts/d1_sync.py:456-464 | sends a batch's pieces in order and stops at the first call that fails, with at most that piece in the table beyond what is counted |
| D1Sync.WriteLoop | scripts/d1_sync.py:454-464 | has written every row unless a call failed; if one did, a prefix of the rows is in the table, at least what is counted |
| D1Sync.RebuildAndCount | scripts/d1_sync.py:466-475 | rebuilds, then counts; a failure, before or after the call took effect, leaves the table as written and the index old or rebuilt |
| D1Sync.Guard | scripts/d1_sync.py:413-433 | passes iff there are rows, their paths are unique and each is under both caps |
| D1Sync.SentWithinTheCaps | scripts/d1_sync.py:63-72 | every statement sent has at most nine rows of eleven parameters and at most 100,000 bytes |
| D1Sync.Publish | scripts/d1_sync.py:413-486 | wherever a run stops, and whether or not the failing call took effect, the table holds a prefix of the rows, every statement was within both caps, every old path kept its row id and every index entry joins; a finished run wrote every row, and search then finds every note |
| AuthzPolicies.DepthCounts | scripts/gen_d1_authz_policies.py:88-95 | the depth is the number of opening minus the number of closing parentheses before a position |
| AuthzPolicies.ScanUsing | scripts/gen_d1_authz_policies.py:194-202 | a balanced body with its closing parenthesis is read exactly |
| AuthzPolicies.PartsRebuild | scripts/gen_d1_authz_policies.py:85-103 | the parts joined by the removed separators, in their own case, rebuild the body |
| AuthzPolicies.SeparatorsAreOrs | scripts/gen_d1_authz_policies.py:96-100 | what is removed between the parts is OR between two blanks, in any case |
| AuthzPolicies.PartsBalanced | scripts/gen_d1_authz_policies.py:85-103 | the parts of a balanced body are balanced and hold no top-level OR |
| AuthzPolicies.SplitTopLevel | scripts/gen_d1_authz_policies.py:85-103 | returns exactly those parts, stripped, without the blank ones |
| AuthzPolicies.NonBlankIs | scripts/gen_d1_authz_policies.py:103 | what is left of the parts is their stripped text where it is not blank, and nothing else |
| AuthzPolicies.NonBlankConcat | scripts/gen_d1_authz_policies.py:103 | parts are dropped one by one, so the order of the others stays |
| AuthzPolicies.TermsAre | scripts/gen_d1_authz_policies.py:106-127 | the terms of an expression are exactly its non-blank parts, stripped and normalised |
| AuthzPolicies.Unique | scripts/gen_d1_authz_policies.py:124-127 | keeps each term once |
| AuthzPolicies.SameFlags | scripts/gen_d1_authz_policies.py:122-147 | dropping repeated terms changes none of the classifier's flags |
| AuthzPolicies.Classify | scripts/gen_d1_authz_policies.py:115-159 | finds the class that means what the expression means, if there is one; for the member's own rows iff there is one distinct term |
| AuthzPolicies.ClassFromKinds | scripts/gen_d1_authz_policies.py:129-159 | which class each combination of recognised terms gives, whatever unrecognised terms stand beside them |
| AuthzPolicies.ClassIsFound | scripts/gen_d1_authz_policies.py:129-159 | if any class means what the terms mean, it is the one found; for the member's own rows iff there is one distinct term |
| AuthzPolicies.MeaningCovers | scripts/gen_d1_authz_policies.py:129-159 | a class that means what the terms mean covers every one of them |
| AuthzPolicies.TermsAreNotPublic | scripts/gen_d1_authz_policies.py:129-159 | no list of terms means that every row is granted |
| AuthzPolicies.NeverWidensIff | scripts/gen_d1_authz_policies.py:129-159 | the class grants no row the expression does not iff, when it names the system workspace, a literal of the expression is that workspace |
| AuthzPolicies.SameMeaningIff | scripts/gen_d1_authz_policies.py:129-159 | the class means exactly what the expression means iff it covers every term |
| AuthzPolicies.ClassifiedPolicy | scripts/gen_d1_authz_policies.py:205-227 | a class is only given to a readable SELECT policy that is not for anon, and grants only what its SQL grants iff, when it names the system workspace, the SQL does |
| AuthzPolicies.FoldStep | scripts/gen_d1_authz_policies.py:229-231 | keeping the more privileged class keeps, per table, the most privileged so far |
| AuthzPolicies.PrivilegesAscend | scripts/gen_d1_authz_policies.py:38-52 | the privileges ascend from the member's own rows over system, own workspace, workspaces row and own or system to public |
| AuthzPolicies.ParseMigrations | scripts/gen_d1_authz_policies.py:178-233 | each table with a supported policy gets the most privileged of its classes; every other policy is reported, in order |
| AuthzPolicies.EveryPolicyIsAccountedFor | scripts/gen_d1_authz_policies.py:205-231 | a policy is reported iff it has no class; any other has its table in the result, under a class at least as privileged |
| AuthzPolicies.FoldIgnoresOrder | scripts/gen_d1_authz_policies.py:229-231 | the result depends neither on the order of the policies nor on repetitions |
| AuthzPolicies.KeptIsUnionIff | scripts/gen_d1_authz_policies.py:38-52 | the kept class never exceeds the union of a table's classes, and is that union iff it contains each of them |
| AuthzPolicies.UnionIsKept | scripts/gen_d1_authz_policies.py:229-231 | when one supported class of a table contains all its others, it is the one kept |
| AuthzPolicies.SystemRowsAreLost | scripts/gen_d1_authz_policies.py:38-52 | a table with a system-only and an own-workspace policy keeps the latter and loses its system rows |
| AuthzPolicies.TableNeverWidensIff | scripts/gen_d1_authz_policies.py:115-233 | from SQL to table: the kept class grants only what the table's expressions grant iff, when it names the system workspace, some expression does |
| AuthzPolicies.TableSameMeaningIff | scripts/gen_d1_authz_policies.py:115-233 | from SQL to table: the kept class means exactly what the expressions mean iff it is public or covers all their terms |
| RestartGuard.LstripIs | scripts/branch_restart_check.py:119-132 | what is taken off the front of a name is white space, and all of it |
| RestartGuard.RstripIs | scripts/branch_restart_check.py:119-132 | what is taken off its end is white space or slashes, and all of them |
| RestartGuard.SpellingsAgree | scripts/branch_restart_check.py:119-132 | a reported branch name comes back from each of its spellings |
| RestartGuard.ProtectedIff | scripts/branch_restart_check.py:135-140 | a remote branch is protected iff its name starts with main, develop, module/, release/, release-please--branches-- or bot/ |
| RestartGuard.MaintenanceIsProtected | scripts/branch_restart_check.py:135-140 | so a branch named maintenance is |
| RestartGuard.ProtectedWorkMayBeRepeated | scripts/branch_restart_check.py:262-298 | a push that shares enough work only with protected branches is never refused |
| RestartGuard.MaintenanceMayBeRepeated | scripts/branch_restart_check.py:262-298 | so the work of a branch named maintenance may be repeated |
| RestartGuard.PatchIdsAreCarried | scripts/branch_restart_check.py:227-259 | a branch's unmerged patches are those of the commits that it reaches and the base does not |
| RestartGuard.RefusedIff | scripts/branch_restart_check.py:322-425 | a push is refused iff it creates a branch, gives no reason, is not merged, and some branch that is not protected, pushed or resumed shares at least three patches with it |
| RestartGuard.OverlapIsAtMostAhead | scripts/branch_restart_check.py:272-275 | shared patches never outnumber a branch's unmerged commits |
| RestartGuard.ReachableHoldsNothing | scripts/branch_restart_check.py:209-224 | a branch that the base reaches shares nothing |
| RestartGuard.SiblingsAreTheHolders | scripts/branch_restart_check.py:401-411 | there is a sibling iff some branch holds the same work |
| RestartGuard.SiblingsAre | scripts/branch_restart_check.py:401-411 | the siblings are those branches, in listing order, each with its number of shared patches |
| RestartGuard.ResumingNeverRefuses | scripts/branch_restart_check.py:386-408 | naming a branch to resume never turns an allowed push into a refused one |
| RestartGuard.SortedIsOrdered | scripts/branch_restart_check.py:416 | the report lists every sibling, the largest overlap first and then by name |
| RestartGuard.SortedReport | scripts/branch_restart_check.py:416 | every sibling is reported once, a larger overlap before a smaller, and of equal ones the smaller name first |
| RestartGuard.PrunesIff | scripts/branch_restart_check.py:262-298 | a branch is kept iff it is not protected, is at least three commits ahead of the base and is not reachable from it |
| RestartGuard.UnmergedRemoteBranches | scripts/branch_restart_check.py:262-298 | returns, in listing order, the branches that are not pruned; fails iff the listing does, or the query about a branch at least three commits ahead |
| RestartGuard.FindSiblings | scripts/branch_restart_check.py:401-411 | finds every sibling among the branches; fails iff the query about one that is compared does |
| RestartGuard.PruningChangesNothing | scripts/branch_restart_check.py:272-298 | on any commit graph the pruned listing has the same siblings in the same order |
| RestartGuard.Check | scripts/branch_restart_check.py:322-425 | refuses iff no escape applies, some branch holds the same work, and no query that the refusal rests on fails; it names the siblings in order |
| RestartGuard.UndecidedIff | scripts/branch_restart_check.py:355-425 | a failing query matters iff it is about the push itself, the listing, a branch at least three commits ahead, or one compared |
| RepoActivity.BetweenSplits | scripts/fetch_repo_activity.py:522-524 | the two halves of a span hold its results, each once |
| RepoActivity.SearchSpan | scripts/fetch_repo_activity.py:504-524 | succeeds only if no day has a thousand items, with every stamp of the span appended once; reports the cap only for such a day, and another failure only if a request failed |
| RepoActivity.SearchDates | scripts/fetch_repo_activity.py:471-501 | gives every stamp from the start to today once; with no request failing it fails iff some single day has a thousand items |
| RepoActivity.BlocksIffOverCap | scripts/fetch_repo_activity.py:504-524 | a day blocks every search that spans it iff it alone has a thousand items |
| RepoActivity.SearchPages | scripts/fetch_repo_activity.py:436-449 | fails if a page asked for fails; else reports the cap iff there are a thousand items or more, with or without stamps, and otherwise gives every stamp in order |
| RepoActivity.AskIs | scripts/fetch_repo_activity.py:436-449 | from a thousand items on eleven pages are asked for and the cap is reported; below it, one page more than there are full ones, and every stamp is given |
| RepoActivity.PageIs | scripts/fetch_repo_activity.py:440-448 | page p holds the items from 100(p-1) up to 100p, or what there is of them |
| RepoActivity.ExactlyAThousand | scripts/fetch_repo_activity.py:436-449 | with exactly a thousand items the search fails although its ten pages hold them all |
| RepoActivity.PresentCounts | scripts/fetch_repo_activity.py:445 | every stamp is found as often as there are items with it |
| RepoActivity.YearCommits | scripts/fetch_repo_activity.py:259-279 | windows of at most a month, at the time of day of the end, tile the time from the start to a day after the end, and every commit in it is in once |
| RepoActivity.Tally | scripts/fetch_repo_activity.py:407-419 | adds each stamp to its day in the bucket and in the counts |
| RepoActivity.ToDaily | scripts/fetch_repo_activity.py:389-433 | one row for each of the days up to the day of the end, ascending, with the exact count of every source |
| RepoActivity.DailyConserves | scripts/fetch_repo_activity.py:404-433 | each bucket over all rows is the number of its stamps in the window, and the counts are all of them |
| RepoActivity.CheckDaily | scripts/fetch_repo_activity.py:774-803 | passes iff there are 371 ascending rows with non-negative counts and splits that sum |
| RepoActivity.PassesIff | scripts/fetch_repo_activity.py:774-803 | what passes, in numbers: 371 rows in date order, no number negative, and a full split adding up to its count |
| RepoActivity.GeneratedPasses | scripts/fetch_repo_activity.py:774-803 | what the generator writes for a year always passes the validator |
| RepoActivity.HeatmapPasses | scripts/fetch_repo_activity.py:774-803 | so does every heatmap the script writes |
| RepoActivity.StampsOnDay | scripts/fetch_repo_activity.py:385-413 | the count of a day is that of the instants within it |
| RepoActivity.FetchedOnDay | scripts/fetch_repo_activity.py:259-279 | of the commits of a day of the heatmap, all are fetched, except on the first day those before the time of day of the end |
| RepoActivity.MergesFound | scripts/fetch_repo_activity.py:471-524 | the search brings in the merged pulls from its first day to today and no others |
| RepoActivity.ClosedSince | scripts/fetch_repo_activity.py:579-583 | keeps the stamped issues from the first day searched on |
| RepoActivity.MergedAndClosed | scripts/fetch_repo_activity.py:568-591 | with no request failing, stops iff some day has a thousand merged pulls, or nothing was merged or nothing closed |
| RepoActivity.Heatmap | scripts/fetch_repo_activity.py:553-651 | what every row of the heatmap holds of the commits, merged pulls and closed issues there are |
| RepoActivity.HeatmapIsCompleteIff | scripts/fetch_repo_activity.py:553-651 | every row holds all of its day iff nothing was committed on the first day before the time of day of the run and nothing merged or closed on the first five days |
| RepoActivity.FirstDayIsCut | scripts/fetch_repo_activity.py:259-279 | how many commits the first row misses |
| RepoActivity.FirstDayIsWholeIff | scripts/fetch_repo_activity.py:259-279 | the first row holds all its commits, whatever they are, iff the script runs at midnight |
| RepoActivity.MorningCommitIsMissed | scripts/fetch_repo_activity.py:259-279 | at 14:00 a commit of 09:00 on the first day is not in its row |
| ConfigRegions.ContainsIff | scripts/render_config_contract.py:68-73 | a line contains a marker iff it is some text, the marker and some text |
| ConfigRegions.RegionIff | scripts/render_config_contract.py:68-74 | a region runs from the first line with a BEGIN to the first later line with an END, and there is none iff no END follows the first BEGIN |
| ConfigRegions.ContractMarkersApart | scripts/render_config_contract.py:36-38 | the script's own markers can be told apart wherever they stand |
| ConfigRegions.RegionInstalled | scripts/render_config_contract.py:64-77 | the body stands between the markers and everything outside the region is as it was |
| ConfigRegions.TrimmedIs | scripts/render_config_contract.py:66 | what is cut off a body is empty lines at its end, and all of them but a first line |
| ConfigRegions.TrimmedKeeps | scripts/render_config_contract.py:66 | every line of a body that is not empty is kept, in order |
| ConfigRegions.BodyInstalled | scripts/render_config_contract.py:64-77 | with a whole region or no BEGIN, every line of the body that is not empty stands in the region of the rendered text, in order |
| ConfigRegions.BlockAppended | scripts/render_config_contract.py:75-77 | without a region the block is appended after an empty line, and nothing else changes |
| ConfigRegions.ReplaceIsIdempotentIff | scripts/render_config_contract.py:64-77 | rendering twice is rendering once iff the text has a whole region or no BEGIN marker |
| ConfigRegions.StrayBegin | scripts/render_config_contract.py:64-77 | with a BEGIN and no END after it the second rendering loses text |
| ConfigRegions.VarsIdempotent | scripts/render_config_contract.py:80-106 | rendering the [vars] block twice is rendering it once when no BEGIN is left up to the block; one further down does no harm |
| ConfigRegions.StrayVarsChange | scripts/render_config_contract.py:80-106 | with a BEGIN and no END between it and the block, rendering again changes the file |
| ConfigRegions.VarsIdempotentIff | scripts/render_config_contract.py:80-106 | so, unless a second whole region stands before the block, rendering is idempotent iff no BEGIN is left up to the block |
| ConfigRegions.RenderedBegins | scripts/render_config_contract.py:92-102 | a rendering strips one region and brings in one block: the BEGINs are those of the stripped file and of the block |
| ConfigRegions.StrippedIs | scripts/render_config_contract.py:92-94 | stripping takes out the region, from the first BEGIN on its line to the end of the END line, and nothing else |
| ConfigRegions.SqueezeIs | scripts/render_config_contract.py:102 | squeezing leaves no two empty lines together and takes out only empty lines |
| ConfigRegions.SqueezeKeepsSingles | scripts/render_config_contract.py:102 | a text without two empty lines together stays as it is |
| ConfigRegions.RenderingKeepsLines | scripts/render_config_contract.py:92-102 | a rendering keeps every non-empty line of the stripped file, in order, with the block, and every non-empty line of its body, before the first header after [vars] |
| ConfigRegions.VarsAssertionHolds | scripts/render_config_contract.py:103-106 | the closing assertion never fails, whatever markers the file holds |
| ConfigRegions.VarsHoldsTheBlock | scripts/render_config_contract.py:92-106 | with no BEGIN left up to the block, the block is the region that the next rendering finds, between [vars] and the next header, and the only one if none stood further down |
| ConfigRegions.VarsBodyInstalled | scripts/render_config_contract.py:80-106 | then every line of the body that is not empty stands in the region that the next rendering finds, in order |
| ConfigRegions.WrittenFile | scripts/render_config_contract.py:174-176 | a run leaves in every target what was collected for it |
| ConfigRegions.WrittenFileHolds | scripts/render_config_contract.py:169-176 | after a run a well-formed file holds its body in its region, and a whole file its content |
| ConfigRegions.OthersUntouched | scripts/render_config_contract.py:174-176 | a run leaves every file alone that is no target |
| ConfigRegions.RenderThenCheckIff | scripts/render_config_contract.py:169-185 | rendering and then checking reports no drift iff no file has a stray BEGIN where it hurts |
| ConfigRegions.VarsHeaderIsHeader | scripts/render_config_contract.py:95 | the pattern for the [vars] header matches only headers |
| ConfigRegions.ContractVarsIdempotentIff | scripts/render_config_contract.py:80-106 | idempotence of the [vars] block with the script's own markers and pattern |
| ConfigRegions.ContractAssertionHolds | scripts/render_config_contract.py:103-106 | the closing assertion with the script's own markers and pattern |
| ConfigRegions.ContractRenderThenCheckIff | scripts/render_config_contract.py:169-185 | rendering and then checking with the script's own markers and pattern |
| VaultPrune.DirectoryIs | scripts/sync_onboard_vault.py:51 | a directory is what stands before the last slash, and empty if there is none |
| VaultPrune.UpsertedNote | scripts/sync_onboard_vault.py:127 | after the upsert a local path holds the note of a local row and any other path its own |
| VaultPrune.LastDecides | scripts/sync_onboard_vault.py:127 | of several rows with a path the last decides |
| VaultPrune.HubStale | scripts/sync_onboard_vault.py:64-70 | deleting what is now stale under the next hub deletes what was stale under it from the start, and nothing twice |
| VaultPrune.PruneHub | scripts/sync_onboard_vault.py:48-78 | deletes what is stale under one hub, unless a call failed before it took effect |
| VaultPrune.PruneStaleChildren | scripts/sync_onboard_vault.py:34-79 | what is gone is what was stale under a hub reached, and no other row is touched, wherever a call fails, before or after it took effect; a finished run names each path once |
| VaultPrune.GoneIff | scripts/sync_onboard_vault.py:38-70 | a path is gone iff its note names the slug of a row without a parent, in the same directory, and no local row has that path, parent and directory |
| VaultPrune.LocalRowsAreNotStale | scripts/sync_onboard_vault.py:52-70 | no local row is ever stale |
| VaultPrune.ChildrenAreTheLocalOnes | scripts/sync_onboard_vault.py:34-79 | under every hub the remote ends with exactly the local children |
| VaultPrune.SecondRunDeletesNothing | scripts/sync_onboard_vault.py:126-136 | a second run upserts the same table and finds nothing stale |
| VaultPrune.Sync | scripts/sync_onboard_vault.py:107-137 | exits 0 iff nothing failed and there were rows, and even a failing run deletes no local row |
| Provenance.ManifestPaths | scripts/package_r5_image_inputs.py:249-258 | covers the name of every manifest that exists, by a directory that carries that name |
| Provenance.LaterManifestCounts | scripts/package_r5_image_inputs.py:249-258 | of two manifests with one name the later directory counts |
| Provenance.PayloadIff | scripts/package_r5_image_inputs.py:268-275 | a payload key is there iff its source is listed and exists, and names that source |
| Provenance.InputsAre | scripts/package_r5_image_inputs.py:238-275 | the inputs stop iff a packed workspace has no manifest; else each name has its payload source, its manifest directory or its package, in that order |
| Provenance.R5StackSeeds | scripts/package_r5_image_inputs.py:638-651 | with the script's own names the stack's inputs hold the tenant seeds by their source |
| Provenance.PassesIff | scripts/package_r5_image_inputs.py:337-420 | a full check passes iff the record is the current digests; a scoped one iff the record is full or of that scope and holds each input with its digest |
| Provenance.ExitCodes | scripts/package_r5_image_inputs.py:337-420 | the check gives 2 iff the record is missing or of another version, and otherwise 0 or 1 |
| Provenance.PathsRoundTrip | scripts/package_r5_image_inputs.py:297-420 | for any path set and scope, a written record passes its own check iff no digest changed |
| Provenance.RoundTrip | scripts/package_r5_image_inputs.py:297-420 | writing a record for a scope and checking that scope passes iff no input of it changed |
| Provenance.OtherScopeRefuses | scripts/package_r5_image_inputs.py:381-386 | a record of one image's inputs never passes another image's check |
| Provenance.PartialNeverPassesFull | scripts/package_r5_image_inputs.py:347-353 | a partial record never passes the full check, whatever the trees and the manifests' names |
| Provenance.TenantSeedsIsNotAnInput | scripts/package_r5_image_inputs.py:238-275 | the full path set has a key for the tenant seeds iff a manifest is named like it |
| Provenance.FullPassesStackIff | scripts/package_r5_image_inputs.py:638-651 | a full record passes the stack's check iff a manifest is named like that key and the record holds every stack digest |
| Provenance.FreshFullRecordFailsStack | scripts/package_r5_image_inputs.py:347-353 | so packaging everything and checking the stack at once refuses, against the docstring |
| Provenance.PackedTreeFailsStack | scripts/package_r5_image_inputs.py:347-353 | a concrete tree, with the script's own names, on which it refuses |
| Provenance.R5IsSound | scripts/package_r5_image_inputs.py:36-122 | the script's own names meet what the theorems need |
| Provenance.R5PartialRecordsRefused | scripts/package_r5_image_inputs.py:347-353 | so a partial record of these images passes neither the full check nor another image's |
| Provenance.SubsetServes | scripts/package_r5_image_inputs.py:381-400 | a record of more inputs passes the scoped check of fewer iff none of these changed |
| Provenance.FullServesNpm | scripts/package_r5_image_inputs.py:347-353 | a full record passes the npm check iff no npm input changed |
| Provenance.NpmNamesAreManifestNames | scripts/package_r5_image_inputs.py:634-635 | the npm inputs are manifests and nothing else |
| Provenance.NpmSeesEveryManifest | scripts/package_r5_image_inputs.py:619-635 | with distinct names the npm check notices a change in every manifest directory, and in nothing else |
| Provenance.MergeLine | scripts/package_r5_image_inputs.py:470-478 | one line adds its pin, or stops the merge on a malformed line or a second version |
| Provenance.SortedItems | scripts/package_r5_image_inputs.py:480 | lists the chosen pins once each, by name and marker |
| Provenance.MergedAscends | scripts/package_r5_image_inputs.py:480 | a merged list ascends by name, and by marker where names are equal |
| Ordering.LessIff | scripts/package_r5_image_inputs.py:480 | strings are ordered by their first difference, and a start before what it starts |
| Provenance.Merge | scripts/package_r5_image_inputs.py:465-485 | fails iff a line is malformed or one name and marker has two versions; else lists exactly the pins, sorted |
| Provenance.MergeIgnoresOrder | scripts/package_r5_image_inputs.py:465-485 | the result depends only on which lines there are |
| Provenance.FileOrderDoesNotMatter | scripts/package_r5_image_inputs.py:465-485 | so the exports may be merged in any order |

## Left out

- Palette: floating-point rounding; contrasts are exact reals, with the scripts' 1e-9 slack. The transfer curve is any non-decreasing table from 0 to 1; only the counterexample uses sRGB values.
- Palette: reading hex colours, and rendering CSS and TypeScript.
- CommentMasker: the pattern that looks for model names in the masked text, and the files it is applied to.
- ReviewPass: the regular expressions that find a verdict phrase and take its words are one arbitrary function of the stripped text; splitting a text into lines is not modelled.
- ReviewPass: near-duplicate reviews and their on-disk corpus, seat and session markers, thread resolution, push timing.
- D1Sync: reading notes from a vault or from Supabase, row conversion, credentials, dry runs and `--init`; an update timestamp is one of a row's columns.
- D1Sync: the error texts, which name the first offending rows.
- AuthzPolicies: the regular expressions for statements, comments and terms. What a term is recognised as is an arbitrary function, and what an unrecognised term grants is unknown. `d1_authz.py` is not part of this model; a class means what the list of classes in the script says.
- AuthzPolicies: the generated module's text and its `--check` mode.
- RestartGuard: the refusal text, and the pattern that finds a restart reason in a commit message.
- RestartGuard: `git patch-id` is an arbitrary function from commits to patches; a failing query is any set of queries.
- RepoActivity: time zones, fractions of a second and pauses between requests; GitHub's data do not change during a run, a merged pull has the same merge and closing time, and a day's requests for commits are not paged; the listed features, issues and pull requests, and the other clauses of the validator.
- RepoActivity: the validator's test that a row has no other keys and that its numbers are integers; the row type says so.
- ConfigRegions: YAML loading and the bodies of the regions. A file is its lines, and white space after `[vars]` is an arbitrary predicate on characters.
- ConfigRegions.VarsIdempotentIff: does not cover a file with a second whole region between its start and the block, because what that becomes depends on what the region holds. It and ConfigRegions.ReplaceIsIdempotentIff are about bodies without the END marker.
- VaultPrune: mapping notes to rows, the refusal of confidential trees, and values of a parent that are not strings. The order in which stale paths are deleted is not modelled.
- Provenance: building wheels, exports, tarballs and the payload; how a digest is computed (it is an arbitrary function of a source); the combined digest, head and time of a record, which no check reads.
- Provenance: how an export line is parsed, and the text of a merged line; a line is blank, malformed or a pin.
- Single-pass checkers elsewhere in `scripts/`, whose properties are a reading of one branch.
