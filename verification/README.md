# Verified models of the governance gates

The repository is a set of small gates, written in Python under `tools/`, that decide whether
a change may land. This project models the algorithms inside fifteen of them and proves what a
maintainer relies on when a gate stays silent.

| files | gate | what is modelled |
|---|---|---|
| `SourceLexer`, `TemplateSplitter` | `tools/l10n_extract.py` | comment stripper, literal scanner and template splitter, each against a recursive tokenizer |
| `BraceExpansion` | `tools/doc_reference_check.py` | innermost-first brace expansion against the meaning of nested alternatives |
| `DocMerge`, `DictMerge` | `tools/gen_server_spec_rs.py` | the recursive merge, as a function on documents and as it runs on nested mutable dictionaries |
| `InPlace` | `tools/inplace.py` | one rewrite call against a failing file system, and any number of calls racing on one path |
| `Barrier` | `tools/neg_interference_repro.py` | two runs of the case body, step by step, in every schedule |
| `GuardLint` | `tools/blink_guard_lint.py` | the guard counter against the real stack of open conditionals |
| `BidiSafety`, `Placeholders` | `tools/grdp_check.py` | isolate balance, the removal scan, and the placeholder checks |
| `IdentityRows`, `CardReader`, `MarkedBlock`, `IdentityCard` | `tools/identity_card.py` | rows from executed cells, rendering and reading back, splicing, write and check |
| `DepClosure` | `tools/dev_deps_closure_check.py` | markers, the pin file and the one-step closure check |
| `EvidenceFinality` | `tools/evidence_finality.py` | append-only corrections and the final vocabulary |
| `LedgerTable`, `LedgerCheck` | `tools/exception_ledger_check.py` | the table parser with its inverse, the scope grammar, both scope ledgers |
| `UrlSplit`, `Redaction` | `tools/observatory_export.py` | target splitting, redaction and export |
| `Coverage` | `tools/coverage_check.py` | claims, tab and section inventories |
| `Registry` | `tools/gen_registry.py`, `tools/gen_registry_docs.py` | plan parser, count tables, drift comparison |

`Text` holds the string operations that several gates share.

A loop of the source is a `method` with the same branches, proved equal to a specification
function or to a statement about its input; the lemmas then say what that specification means.
Objects that the source updates in place are classes (`InPlace.Directory`,
`IdentityCard.Repository`, `DictMerge.Dict`). Processes that interleave are state machines whose
schedules are arbitrary sequences of steps. Regular expressions that only classify a line, word
lists and library calls are parameters or constructors of a datatype.

## Where the code does less than it says

Each of these is proved: a family of inputs for which the stated law fails, and the exact
condition, or the strongest law, under which it holds.

- Exporting an export is not always exporting once (`tools/observatory_export.py:83`, `:105-141`).
  The credential pattern asks for a scheme in front, and the exported target has one even when
  the given target had none, so a host with user information is accepted first and refused the
  second time (`Redaction.SecondExportIsRefused`). The law holds exactly when no exported host
  has user information (`Redaction.ExportsCompose`).
- Credentials are to be refused, never published (`tools/observatory_export.py:16-19`, `:124-126`). For the
  same reason a target without a scheme, such as `//user:pw@host/`, is exported with the scheme put
  in front. What is exported matches the credential pattern exactly when the host of the given
  target has user information (`Redaction.ExportCarriesCredentialsExactly`).
- A row whose target is null is not refused for having no host: it is exported as
  `https://None/` (`Redaction.NullTargetIsExported`).
- A token of the card may end in a line feed, because the pattern's `$` allows one
  (`tools/identity_card.py:47`, `:90`). A row stands on one line of the table exactly when neither of
  its tokens does (`IdentityCard.RowIsOneLineExactly`); a reader that goes by the field marks still
  gets every accepted row back (`IdentityCard.BlockReadsBack`).
- Two targets that differ only after `?` or `#` can be exported differently, because `//` is
  looked for in the whole raw text while `urlsplit` drops tabs and line breaks
  (`Redaction.TabChangesTheExport`). They are exported alike exactly when both contain `//` or
  neither does (`Redaction.DroppedPartsDoNotMatter`), which is always so when no tab or line
  break stands before the tail (`Redaction.CleanBaseAgrees`).
- The documentation says that the later row's status is the effective one
  (`tools/evidence_finality.py:32-34`, `:118`). A second correction of a row has no effect, a
  corrected corrector is not followed, and the correcting row need not be the later one
  (`EvidenceFinality.SecondCorrectionIsIgnored`, `EvidenceFinality.CorrectedCorrectorIsNotFollowed`,
  `EvidenceFinality.EarlierRowCorrects`). Among rows with distinct ids the last row that names an id
  decides its status exactly when it is the only one that names it and no earlier row names its own
  id (`EvidenceFinality.LaterRowDecidesExactly`).
- A cosmetic row has to exist word for word in the shield ledger according to
  `tools/exception_ledger_check.py:39-41`; the code compares the scope id only
  (`LedgerCheck.CosmeticRowMayDiffer`). When no two shield rows have one scope id, the cosmetic rows
  of a text that passes stand there word for word exactly when rows of the two ledgers with one
  scope id agree in every cell (`LedgerCheck.WordForWordExactly`).
- A marker is to be judged out of scope only if no supported interpreter can satisfy it
  (`tools/dev_deps_closure_check.py:73-75`); with `or` that fails (`DepClosure.OrMarkersAreMisjudged`).
  A marker is judged out of scope exactly when it names an extra or an impossible comparison stands
  alone in it, with neither `or` nor a parenthesis beside it (`DepClosure.OutOfScopeIsDrops`). That
  is wrong exactly when the marker also holds on a supported interpreter where every comparison
  unknown to the gate does (`DepClosure.MisjudgedExactly`), which takes an `or`
  (`DepClosure.OutOfScopeIsUnsatisfiable`).
- Tabs and allowlist entries are to be a bijection, and sections and entries too
  (`tools/coverage_check.py:33-40`); the code compares sets of names, so two tabs with one id pass
  against one entry (`Coverage.TabsMayShareAnId`). What passes is a bijection of entries exactly
  when no id and no entry's name occurs twice (`Coverage.BijectionsExactly`).
- A clean report does not mean balanced hunks: a file header forgets an open guard
  (`GuardLint.FileHeaderForgetsAnOpenGuard`), and a foreign conditional left open is not seen
  (`GuardLint.ForeignLeftOpenIsNotSeen`). With a clean report every hunk is balanced exactly when
  none opens a foreign conditional and none before a file header leaves an XR one open
  (`GuardLint.CleanReportBalancesExactly`).
- The removal scan refuses some isolated text: behind the closer of an inner isolate, and where a
  line end separates the character from the marks of its isolate (`BidiSafety.ClosedInsideIsRefused`,
  `BidiSafety.LineEndBehindIsRefused`, `BidiSafety.LineEndAheadIsRefused`). A safe text is refused
  exactly for such a character (`BidiSafety.SafeIsRefusedExactly`); nesting alone is not refused.
- Merging is not associative when a leaf separates two mappings
  (`DocMerge.LeafInTheMiddleSeparates`, `DocMerge.AssociativeExactly`).

## Model

| member | source | states |
|---|---|---|
| `SourceLexer.ScanQuoteIsFirstUnescaped` | tools/l10n_extract.py:66-76 | a literal ends at the first quote with an even number of backslashes before it, and nowhere earlier |
| `SourceLexer.SkipString` | tools/l10n_extract.py:66-76 | returns the index just past that quote, or the end of the text |
| `SourceLexer.TokensCoverSource` | tools/l10n_extract.py:79-105 | the tokens put back in order are the source |
| `SourceLexer.StripCommutesWithTokens` | tools/l10n_extract.py:79-105 | the tokens of the stripped text are the source's tokens with block comments erased and terminated line comments turned into a newline |
| `SourceLexer.StripIsIdempotent` | tools/l10n_extract.py:79-105 | a stripped text has no comment token, and stripping it again changes nothing |
| `SourceLexer.StripComments` | tools/l10n_extract.py:79-105 | the index loop computes that stripped text |
| `SourceLexer.StrippedByPieces` | tools/l10n_extract.py:79-105 | however a source is cut into literals, line comments, block comments and single characters, the stripped text is what is left of these: literals and characters whole, a newline of a line comment, nothing of a block comment; and it can be so cut |
| `SourceLexer.OneSourcePiece` | tools/l10n_extract.py:66-105 | where a piece starts decides where it ends and what is left of it |
| `SourceLexer.LiteralsOfCommentFree` | tools/l10n_extract.py:190-228 | in comment-free text without a backtick outside strings the scanner sees exactly the quoted tokens |
| `SourceLexer.StrippedTextHasTheSourceLiterals` | tools/l10n_extract.py:274-276 | the scanner run on the stripped text yields exactly the source's string literals outside comments, in order |
| `SourceLexer.TemplateEndsAtFreeBacktick` | tools/l10n_extract.py:201-213 | the scan ends at the first backtick outside all expressions: no stretch before it opens more `${` than it closes |
| `SourceLexer.SkipTemplate` | tools/l10n_extract.py:201-213 | the depth loop returns that backtick, or the end of the text |
| `SourceLexer.StartsAscend` | tools/l10n_extract.py:197-228 | the places where literals are found ascend |
| `SourceLexer.CutsArePieces` | tools/l10n_extract.py:190-228 | every text is cut into pieces: whole literals, whole template literals, single other characters |
| `SourceLexer.PiecesAreUnique` | tools/l10n_extract.py:190-228 | there is only one way to cut it |
| `SourceLexer.QuoteLiterals` | tools/l10n_extract.py:190-228 | all literals among the pieces of the text, those behind template literals included, in order, each with the up to 80 characters directly before its own opening quote |
| `SourceLexer.ScanCc` | tools/l10n_extract.py:274-280 | the findings are exactly the visible literals among the pieces of the stripped text; without backticks, those of the source outside comments |
| `TemplateSplitter.SplitIsLossless` | tools/l10n_extract.py:131-187 | every template, terminated or not, is cut into text nodes, tags and expressions that cover it and rebuild it; text nodes are non-empty and maximal |
| `TemplateSplitter.PartitionIsUnique` | tools/l10n_extract.py:131-187 | there is only one such partition |
| `TemplateSplitter.ExpressionIsBalanced` | tools/l10n_extract.py:169-178 | an expression span ends at the first place where its braces balance, or at the end |
| `TemplateSplitter.PlainTagEndsAtFirstAngle` | tools/l10n_extract.py:142-165 | a tag without quotes, braces or dollars ends at its first closing angle |
| `TemplateSplitter.TagEndsAtFirst` | tools/l10n_extract.py:142-165 | a tag ends at the first angle or closing brace outside quotes and expressions, quote state and nesting counted from its start |
| `TemplateSplitter.SkipTag` | tools/l10n_extract.py:142-165 | the quote and depth loop stops there |
| `TemplateSplitter.SkipExpression` | tools/l10n_extract.py:169-178 | the depth loop ends where the expression span does |
| `TemplateSplitter.SplitTemplate` | tools/l10n_extract.py:131-187 | the buffer loop returns the text nodes of the unique partition |
| `TemplateSplitter.PlainTextIsOneNode` | tools/l10n_extract.py:131-187 | text without `<` and `$` is one text node |
| `TemplateSplitter.TagIsNotText` | tools/l10n_extract.py:142-168 | a tag, opened by `<` with a letter or one of `/ ! ? #`, separates the text before it from the text nodes of what follows |
| `TemplateSplitter.ExpressionIsNotText` | tools/l10n_extract.py:169-182 | so does an expression, up to its own closing brace |
| `BraceExpansion.ExpansionShrinks` | tools/doc_reference_check.py:75-83 | each step leaves one opening brace fewer, so the recursion ends |
| `BraceExpansion.Expand` | tools/doc_reference_check.py:75-83 | no result holds a group that could still be expanded, for any token |
| `BraceExpansion.FillingsCover` | tools/doc_reference_check.py:80-82 | a token means what it means with the innermost group replaced by each of its alternatives |
| `BraceExpansion.ExpandIsMeaning` | tools/doc_reference_check.py:75-83 | the results are exactly the strings the nested alternatives mean, at any depth |
| `BraceExpansion.BalancedTokensExpandToTheirMeaning` | tools/doc_reference_check.py:75-83 | every balanced whitespace-free token has a reading as nested alternatives, every reading means the results, and no result keeps a brace |
| `BraceExpansion.BalancedExactly` | tools/doc_reference_check.py:75-83 | balanced means that no beginning closes more groups than it opens and the whole closes all |
| `BraceExpansion.TrimmedExactly` | tools/doc_reference_check.py:52 | trimming takes exactly the sentence's punctuation off the end |
| `BraceExpansion.Citations` | tools/doc_reference_check.py:86-107 | exactly the trimmed expansions that are citations, each once |
| `DocMerge.SourceLeavesWin` | tools/gen_server_spec_rs.py:36-41 | every leaf of the source is in the result at its path |
| `DocMerge.UntouchedPathsSurvive` | tools/gen_server_spec_rs.py:36-41 | a path about which the source says nothing keeps what it had |
| `DocMerge.SourceMappingsJoin` | tools/gen_server_spec_rs.py:36-41 | where the source has a mapping the result has the keys of both sides |
| `DocMerge.NothingBelowSourceLeaf` | tools/gen_server_spec_rs.py:36-41 | nothing of the destination is left below a source leaf |
| `DocMerge.CoveredIsAbsorbed` | tools/gen_server_spec_rs.py:36-41 | merging into a document leaves no trace of it exactly when the source has all its keys |
| `DocMerge.MergeIsIdempotent` | tools/gen_server_spec_rs.py:36-41 | merging the same source twice is merging it once |
| `DocMerge.AssociativeExactly` | tools/gen_server_spec_rs.py:36-41 | associative exactly when no leaf of the middle document separates two mappings of which the outer does not cover the inner |
| `DocMerge.AgreementAssociates` | tools/gen_server_spec_rs.py:36-41 | associative on documents that agree about which paths are mappings |
| `DocMerge.LeafInTheMiddleSeparates` | tools/gen_server_spec_rs.py:36-41 | three documents for which the order of merging matters |
| `DictMerge.Merge` | tools/gen_server_spec_rs.py:36-41 | the in-place recursion turns the destination into the merged document, for any two disjoint dictionary trees |
| `DictMerge.MergeKey` | tools/gen_server_spec_rs.py:37-41 | one iteration changes the destination at that key only, and nothing of the source |
| `DictMerge.DeepCopy` | tools/gen_server_spec_rs.py:57 | a copy with the same document and no shared dictionary |
| `DictMerge.RenderVariants` | tools/gen_server_spec_rs.py:54-61 | every row is the base merged with its variant, and the base and all variants are what they were |
| `InPlace.Directory.RewriteInPlace` | tools/inplace.py:46-84 | a call succeeds exactly when mkstemp, write, chmod and rename do, and publishes exactly the text under the override, else the former mode, else the default; a failed call changes nothing but its temporary file, which is left exactly when removing it failed too |
| `InPlace.Directory.NaiveRewrite` | tools/inplace.py:109-115 | a naive call succeeds exactly when no step fails, and has the ambient mode then; a failed one may have removed the target or left any part of the text in its place |
| `InPlace.StepKeepsInv` | tools/inplace.py:46-84 | every step of every call, failures, failed removals and crashes included, keeps the invariant |
| `InPlace.TargetIsAlwaysWhole` | tools/inplace.py:46-84 | in every reachable state of any number of racing calls the target is the original file, or the whole text of the last call that published under its override or else the mode it had read; so the mode is the original one or an override |
| `InPlace.OnlyCrashOrFailedRemovalLeavesTemp` | tools/inplace.py:81-83 | a call that is over has a temporary file only if it crashed or could not remove it, and one that returned did publish |
| `InPlace.ACallCanPublish` | tools/inplace.py:46-84 | wherever the other calls stand, a call that has not begun can go through and publish its whole text under the right mode |
| `InPlace.ACallCanFail` | tools/inplace.py:81-83 | a call may fail at any system call behind mkstemp; its temporary file is then removed, or left when removing it fails, and nothing else changes |
| `InPlace.ACallCanCrash` | tools/inplace.py:46-84 | a call that is not over may crash and leave all files as they are |
| `InPlace.AWriteCanBePartial` | tools/inplace.py:69-74 | while a call writes, any beginning of its text may stand in its temporary file |
| `InPlace.NaiveRewriteLosesTheTarget` | tools/inplace.py:109-115 | the naive rewrite passes through a state without the target, a crash leaves it there or with any part of the text, and completion loses the mode |
| `Barrier.StepKeepsInv` | tools/neg_interference_repro.py:39-55 | every step of either run keeps the invariant, which ties ready files, owner files and exit codes |
| `Barrier.SharedDirectoryAlwaysCollides` | tools/neg_interference_repro.py:39-55 | in one directory, if both pass the barrier and finish, one read the other's marker and the other its own; every finished schedule is judged a collision |
| `Barrier.OwnDirectoriesNeverCollide` | tools/neg_interference_repro.py:39-55 | with distinct directories nobody reads a foreign marker, and a collision is reported exactly when a run failed its setup or its barrier |
| `Barrier.PollWhenReadyPasses` | tools/neg_interference_repro.py:44-48 | a run that looks while the other one is ready gets past the barrier |
| `Barrier.FailureHasACause` | tools/neg_interference_repro.py:40-48 | in every schedule, a run exits with 3 only if its mkdir failed or it looked 2001 times for a ready file that was not there |
| `Barrier.MetRunsAreJudged` | tools/neg_interference_repro.py:39-55 | in every finished schedule without such causes the codes are 0 and 0 in separate directories, and 0 and 1 in some order in a shared one |
| `Barrier.RunsCanMeet` | tools/neg_interference_repro.py:39-55 | for both kinds of directories there is such a schedule |
| `Barrier.StepLowersRank` | tools/neg_interference_repro.py:44-48 | every step, polls included, lowers a rank |
| `Barrier.SchedulesEnd` | tools/neg_interference_repro.py:39-55 | every schedule is finite, and one that cannot be continued has both runs finished |
| `Barrier.Verdict` | tools/neg_interference_repro.py:81-87 | the pair collides exactly when some exit code is not zero |
| `GuardLint.ScanPatch` | tools/blink_guard_lint.py:109-214 | the flag and counter loop is the fold the lemmas speak about |
| `GuardLint.CounterIsSound` | tools/blink_guard_lint.py:132-179 | the counter never exceeds the number of XR frames on the real stack, however foreign conditionals interleave |
| `GuardLint.CounterIsExactWithoutForeign` | tools/blink_guard_lint.py:132-179 | without foreign conditionals it is the stack height |
| `GuardLint.GuardedIsUnderXr` | tools/blink_guard_lint.py:184-203 | a call counted as guarded lies inside an XR conditional of its hunk, after a comment naming a patch in its file |
| `GuardLint.ReportAccountsForEveryCall` | tools/blink_guard_lint.py:184-211 | every call is counted, and is guarded or reported |
| `GuardLint.CleanReportMeansGuarded` | tools/blink_guard_lint.py:109-214 | without violations every call is guarded, the two counts agree and nothing spans a hunk |
| `GuardLint.HunkSpansExactly` | tools/blink_guard_lint.py:132-179 | the lines of a hunk count as spanning exactly when some #endif finds no XR conditional open; otherwise the counter is XR opens less #endifs |
| `GuardLint.BalancedHunkSpansIffForeign` | tools/blink_guard_lint.py:132-179 | a balanced hunk is reported as spanning exactly when it opens a foreign conditional |
| `GuardLint.HunksCoverThePatch` | tools/blink_guard_lint.py:132-152 | the stretches are the patch from its first file header on, cut at the headers |
| `GuardLint.PatchSpansExactly` | tools/blink_guard_lint.py:132-211 | a patch is reported as spanning exactly when some stretch has an #endif too many, or leaves an XR conditional open before a hunk header or the end |
| `GuardLint.CleanReportBalancesExactly` | tools/blink_guard_lint.py:109-214 | with a clean report every stretch is balanced exactly when none opens a foreign conditional and none before a file header leaves an XR one open |
| `GuardLint.FileHeaderForgetsAnOpenGuard` | tools/blink_guard_lint.py:134-139 | patch text without findings that ends inside a guard is reported when the patch ends there and not when another file begins |
| `GuardLint.OpenGuardExample` | tools/blink_guard_lint.py:134-139 | such a patch, with a guarded call |
| `GuardLint.ForeignLeftOpenIsNotSeen` | tools/blink_guard_lint.py:171-179 | a hunk that spends its #endifs on XR conditionals and leaves foreign ones open is not reported, and as many conditionals stay open |
| `GuardLint.Check` | tools/blink_guard_lint.py:217-264 | no failure exactly when every patch is accepted; then hooks equal guarded and every call is under an XR conditional |
| `GuardLint.IdsAreNamed` | tools/blink_guard_lint.py:159-162 | the reported ids are exactly those that comments on added lines of the patch's files name |
| `GuardLint.AcceptedExactly` | tools/blink_guard_lint.py:109-264 | a patch is accepted exactly when it has a call, names its own id, has no spanning stretch, and every call stands where more XR conditionals were opened than conditionals closed, behind a comment naming a patch in its file |
| `BidiSafety.IsolateFindings` | tools/grdp_check.py:179-190 | the stack counter reports nothing exactly when isolates never close below zero and end at zero |
| `BidiSafety.DeepMeansIsolated` | tools/grdp_check.py:178-190 | in balanced text, positive depth is being inside a matched pair of isolates |
| `BidiSafety.ScanIsExact` | tools/grdp_check.py:191-197 | the removal scan is silent exactly when every strong-RTL character stands between an opener and the next closer with no line end between |
| `BidiSafety.BetweenIsDeep` | tools/grdp_check.py:191-197 | such a character lies inside an isolate, although the scan does not nest |
| `BidiSafety.RemovedIsDeep` | tools/grdp_check.py:191-197 | a strong-RTL character that a silent scan has removed has positive depth |
| `BidiSafety.SafeIsRefusedExactly` | tools/grdp_check.py:191-197 | a safe text is refused exactly when some strong-RTL character meets a closer or a line end looking back before any opener, or a line end looking ahead before any closer |
| `BidiSafety.ScanIsSound` | tools/grdp_check.py:191-197 | balanced text that passes the scan has every strong-RTL character inside a matched pair |
| `BidiSafety.ScanIsExactOnFlatText` | tools/grdp_check.py:191-197 | the converse holds on text whose isolates neither nest nor cross a line end |
| `BidiSafety.CheckBidi` | tools/grdp_check.py:172-197 | the three checks together: silent texts are safe, safe texts are refused exactly as stated, flat safe texts are silent |
| `BidiSafety.ClosedInsideIsRefused` | tools/grdp_check.py:193 | an isolated character behind the closer of an inner isolate is refused |
| `BidiSafety.LineEndBehindIsRefused` | tools/grdp_check.py:193 | an isolated character behind a line end of its isolate is refused |
| `BidiSafety.LineEndAheadIsRefused` | tools/grdp_check.py:193 | an isolated character whose line ends before its isolate is refused |
| `BidiSafety.NestedIsolateIsRefused` | tools/grdp_check.py:193 | a safe nested text that is refused |
| `BidiSafety.NestedBehindTheCharacterIsAccepted` | tools/grdp_check.py:193 | a nested text that is accepted |
| `BidiSafety.IsolateOverLineEndIsRefused` | tools/grdp_check.py:193 | a safe text over a line end that the scan refuses |
| `Placeholders.TokensAround` | tools/grdp_check.py:148 | a token takes nothing from its surroundings |
| `Placeholders.PhNameExactly` | tools/grdp_check.py:51 | the placeholder name pattern, written out, with the line feed its `$` lets through |
| `Placeholders.MessageParts` | tools/grdp_check.py:69-94 | the assembled text and names of a well-formed message; every other message fails |
| `Placeholders.TokensOfAssembled` | tools/grdp_check.py:69-94 | the tokens of the text are the placeholders' own, in order, and those of the stretches outside |
| `Placeholders.ChecksLeaveNothingOutside` | tools/grdp_check.py:148-171 | by counting, the checks leave no token outside the placeholder elements |
| `Placeholders.AcceptedPassesChecks` | tools/grdp_check.py:148-171 | a message of that form passes every check |
| `Placeholders.CheckUse` | tools/grdp_check.py:148-171 | silent exactly when tokens and names are the same distinct strings |
| `Placeholders.CheckPlaceholders` | tools/grdp_check.py:148-171 | accepts exactly the messages with no token outside distinct, well-named placeholders, and then the tokens are the names in order |
| `IdentityRows.BuildRows` | tools/identity_card.py:56-77 | one row for each mechanism, as its executed cells justify |
| `IdentityRows.RowsConserveCells` | tools/identity_card.py:56-77 | the pairs of all rows sum to the executed cells of declared mechanisms |
| `IdentityRows.StatesMeanWhatTheySay` | tools/identity_card.py:61-73 | holds means some cell and every cell passed; violated means some cell failed |
| `IdentityRows.RowSaysExactly` | tools/identity_card.py:56-77 | the whole row in terms of how often each cell was executed: id, numbers, state, and method path |
| `IdentityRows.TokenExactly` | tools/identity_card.py:47 | the token pattern, written out |
| `IdentityRows.ValidateRows` | tools/identity_card.py:80-106 | no refusal exactly when every row is acceptable |
| `IdentityRows.BuiltRowsAccepted` | tools/identity_card.py:80-106 | built rows are acceptable exactly when there are mechanisms, their ids are tokens, and so is the own method path of every browser mechanism whose cells decide nothing |
| `IdentityCard.RenderedIsBlock` | tools/identity_card.py:116-127 | a block of acceptable rows starts with the begin marker and has the end marker at its end only |
| `MarkedBlock.BlockOfBody` | tools/identity_card.py:116-127 | text without an angle bracket between two suitable markers is a block |
| `MarkedBlock.SpliceIsIdempotent` | tools/identity_card.py:130-135 | splicing the same block into any text a second time changes nothing |
| `MarkedBlock.SpliceExactly` | tools/identity_card.py:130-135 | splicing puts the block in the place of the first marked one and keeps everything else; it fails exactly when the page has no marked block |
| `IdentityCard.BlockReadsBack` | tools/identity_card.py:116-127 | a reader of the rendered block gets the accepted rows back in order, with states and numbers, and the five numbers of the summary |
| `IdentityCard.RowIsOneLineExactly` | tools/identity_card.py:124-125 | an accepted row is one line exactly when neither of its tokens ends in a line feed |
| `IdentityCard.CleanPageShowsRows` | tools/identity_card.py:138-169 | a page written without failures tells its reader the rows |
| `IdentityCard.WriteThenCheckIsClean` | tools/identity_card.py:138-169 | a check after a write without failures reports nothing, for every matrix, cell list and page |
| `IdentityCard.CheckCleanIsFixpoint` | tools/identity_card.py:138-169 | a check reports nothing exactly when a write would report and change nothing |
| `IdentityCard.StoppedWriteIsCaught` | tools/identity_card.py:164-168 | a write that stopped after the card is caught by the next check unless the page was already right, and writing again completes it |
| `IdentityCard.Repository.Emit` | tools/identity_card.py:138-169 | a check changes nothing; a write without failures writes the card and then the page, or stops between; the failures are the stated ones; without failures the page tells its reader the rows the cells justify |
| `IdentityCard.Repository.WriteAndCheck` | tools/identity_card.py:138-169 | a write without failures and the check after it: the check reports nothing; after a stopped write it reports nothing exactly when the page was already right |
| `IdentityCard.Repository.CheckAndWrite` | tools/identity_card.py:138-169 | a check and the write after it: a clean check means that the write, stopped or not, changes nothing, and a write that finished and changed nothing means that the check was clean |
| `DepClosure.MarkerInScope` | tools/dev_deps_closure_check.py:72-101 | the flag loop computes the judgement the lemmas speak about |
| `DepClosure.OutOfScopeIsUnsatisfiable` | tools/dev_deps_closure_check.py:72-101 | an or-free marker judged out of scope holds on no supported interpreter |
| `DepClosure.OutOfScopeExactly` | tools/dev_deps_closure_check.py:72-101 | without or and parentheses, out of scope exactly when one comparison alone is impossible |
| `DepClosure.OrMarkersAreMisjudged` | tools/dev_deps_closure_check.py:80 | markers with or that are dropped although they hold |
| `DepClosure.SplitIsParts` | tools/dev_deps_closure_check.py:80 | splitting the text of any marker at `and` gives the parts its structure says, `or` and parentheses glued to their neighbours |
| `DepClosure.LoneComparisonVerdicts` | tools/dev_deps_closure_check.py:80-97 | for which numbers each of the six comparisons of `python_version` is out of scope by itself |
| `DepClosure.OtherLoneVerdicts` | tools/dev_deps_closure_check.py:76-101 | `win32` and extras are out of scope, unknown comparisons and a missing marker are in scope |
| `DepClosure.ComparisonMeans` | tools/dev_deps_closure_check.py:86-94 | what the six comparisons say about an interpreter, in numerals |
| `DepClosure.OutOfScopeIsDrops` | tools/dev_deps_closure_check.py:72-101 | any marker is judged out of scope exactly when it names an extra or has an impossible comparison with neither `or` nor a parenthesis beside it |
| `DepClosure.MisjudgedExactly` | tools/dev_deps_closure_check.py:73-75 | a marker is out of scope and yet holds on a supported interpreter exactly when that is so and it holds on one where every comparison unknown to the gate does |
| `DepClosure.ParseRequirements` | tools/dev_deps_closure_check.py:104-129 | every pinned name with the version of its last pin line and exactly the hashes given for it |
| `DepClosure.Check` | tools/dev_deps_closure_check.py:141-172 | no finding exactly when something is pinned and every in-scope requirement is pinned with a hash |
| `DepClosure.ReachableIsHashed` | tools/dev_deps_closure_check.py:141-172 | with a fixture that covers the pins, everything any chain of in-scope requirements reaches is pinned with a hash |
| `DepClosure.CleanSaysNothingMore` | tools/dev_deps_closure_check.py:150-172 | a pin nobody requires may lack a hash, and an uncovered pin hides its requirements |
| `EvidenceFinality.EffectiveRows` | tools/evidence_finality.py:104-123 | the two loops compute the effective statuses and the superseded ids |
| `EvidenceFinality.TargetExactly` | tools/evidence_finality.py:116-118 | a row corrects the id its field holds between blanks, and nothing when the field is blank or missing |
| `EvidenceFinality.LastTextCounts` | tools/evidence_finality.py:113-115 | the text an id starts with is that of the last row with this id |
| `EvidenceFinality.SupersededExactly` | tools/evidence_finality.py:119-121 | superseded are exactly the ids of rows that some row names |
| `EvidenceFinality.RememberedIsFirstNaming` | tools/evidence_finality.py:113-118 | an id has a correction exactly when some row names it, and it is by the first row that does |
| `EvidenceFinality.EffectiveStatusExactly` | tools/evidence_finality.py:104-123 | the effective status in terms of the rows: the own text if nobody names the id, else the text of the row which the first naming row passes on |
| `EvidenceFinality.LaterRowDecidesExactly` | tools/evidence_finality.py:32-34 | among distinct ids, the last row naming an id gives it its own text for every choice of texts exactly when it is the only one naming it and no earlier row names its id |
| `EvidenceFinality.CorrectedStatus` | tools/evidence_finality.py:119-122 | one application: the effective status of the fixing row if that was corrected by then, its raw text otherwise |
| `EvidenceFinality.UncorrectedStatus` | tools/evidence_finality.py:104-123 | a row nobody corrects keeps its text |
| `EvidenceFinality.AppendChangesAtMostTheTarget` | tools/evidence_finality.py:104-123 | appending a row with a fresh id changes at most that id and the id it corrects, chains included, and says to what |
| `EvidenceFinality.AppendedStatus` | tools/evidence_finality.py:113-122 | the appended row has its own status unless its id is already corrected |
| `EvidenceFinality.SecondCorrectionIsIgnored` | tools/evidence_finality.py:118 | a second correction of one row has no effect |
| `EvidenceFinality.CorrectedCorrectorIsNotFollowed` | tools/evidence_finality.py:119-122 | correcting the corrector leaves the first row behind |
| `EvidenceFinality.EarlierRowCorrects` | tools/evidence_finality.py:113-122 | a row can correct one that comes after it |
| `EvidenceFinality.VocabularyFindings` | tools/evidence_finality.py:182-202 | the two finding lists are exactly the ids whose effective status is pending or foreign, and both are empty exactly when every effective status is final |
| `EvidenceFinality.UnfinishedTextIsSuperseded` | tools/evidence_finality.py:182-202 | in a bundle without findings only superseded rows keep unfinished text |
| `EvidenceFinality.AppendedCorrectionSettlesItsTarget` | tools/evidence_finality.py:32-36 | one appended final correction takes exactly its target off the list, and no text is edited |
| `LedgerTable.ScopeLedgerRows` | tools/exception_ledger_check.py:180-199 | the flag loop over the lines of a text reads the rows of the first table under the heading, and says whether the heading exists |
| `LedgerTable.RowRoundTrip` | tools/exception_ledger_check.py:193-198 | rendering a row with legal cells and reading the line gives the row |
| `LedgerTable.LineReadsExactly` | tools/exception_ledger_check.py:193-198 | a table line of any number of legal cells: a row from four or more, the owner empty when there are four; none when there are fewer or the first is empty |
| `LedgerTable.OtherLinesAreNoRows` | tools/exception_ledger_check.py:191-192 | the header, the separator and lines without a leading bar are no rows |
| `LedgerTable.SectionRoundTrip` | tools/exception_ledger_check.py:180-199 | reading the joined text gives exactly the legal rows its section lists, whatever stands before, between and after them |
| `LedgerTable.ReadRowsAreLegal` | tools/exception_ledger_check.py:193-198 | every row read from any text has legal cells, free of line breaks among others |
| `LedgerTable.ReprintReadsTheSame` | tools/exception_ledger_check.py:180-199 | printing what was read from any text and reading it again gives the same rows |
| `LedgerCheck.ParseScopeCell` | tools/exception_ledger_check.py:95-113 | accepted exactly when every dimension is a known key with a value and no key repeats; otherwise the first faulty part is reported |
| `LedgerCheck.AcceptedScopeIsAMap` | tools/exception_ledger_check.py:95-113 | an accepted cell denotes a map of at most five known dimensions, one entry for each part |
| `LedgerCheck.WrittenScopeExactly` | tools/exception_ledger_check.py:95-113 | a cell written from keys and values, blanks around them, is accepted exactly when the keys are among the five and distinct and no value is empty; then it denotes them |
| `LedgerCheck.ToggleRowExactly` | tools/exception_ledger_check.py:156-163 | a toggle row for a site is canonical exactly when its scope is that site and its reason the toggle's own |
| `LedgerCheck.CheckShieldRows` | tools/exception_ledger_check.py:131-163 | the findings are exactly the faults the rows have |
| `LedgerCheck.CheckShield` | tools/exception_ledger_check.py:116-170 | passes exactly when the section exists and every row is valid, canonical and not expired |
| `LedgerCheck.CleanUntilFirstExpiry` | tools/exception_ledger_check.py:148-155 | a valid ledger is clean exactly below its earliest expiry, hence at all earlier times |
| `LedgerCheck.CheckCosmetic` | tools/exception_ledger_check.py:202-267 | passes exactly when the section exists, every row is valid and not expired, and its scope id is in the shield ledger |
| `LedgerCheck.CosmeticRowMayDiffer` | tools/exception_ledger_check.py:223-230 | a text for which both gates pass while the cosmetic row is not in the shield ledger |
| `LedgerCheck.WordForWordExactly` | tools/exception_ledger_check.py:39-41 | when scope ids tell the shield rows apart, the cosmetic rows of a passing text are all in the shield ledger exactly when rows with one scope id agree; agreement is always enough |
| `LedgerCheck.CosmeticRowIsNamed` | tools/exception_ledger_check.py:223-230 | a passing cosmetic row shares its scope id with a shield row |
| `UrlSplit.TargetIsRegular` | tools/observatory_export.py:96-102 | the parts of a target with a host: a lower-case scheme, a host without `/?#`, a path from `/` |
| `UrlSplit.WrittenTargetReads` | tools/observatory_export.py:96-102 | a target written with a scheme has the parts written, the scheme in lower case, a missing path read as `/`, controls and blanks before it ignored |
| `UrlSplit.SchemelessTargetReads` | tools/observatory_export.py:98-100 | one that starts with `//`, and one without any, has scheme https |
| `UrlSplit.UnsafeIsDropped` | tools/observatory_export.py:98 | a tab, a carriage return or a line feed inside a URL changes nothing |
| `UrlSplit.SplitRedacted` | tools/observatory_export.py:96-102 | splitting a redacted target gives the parts it was built from |
| `UrlSplit.TailIsDropped` | tools/observatory_export.py:96-102 | what follows the first `?` or `#` has no part in scheme, host and path |
| `UrlSplit.ReadingsDiffer` | tools/observatory_export.py:98 | one text read with its `//` and read as a host never has the same path |
| `Redaction.RedactRow` | tools/observatory_export.py:105-141 | refuses by field class, credentials, authority and missing host, and else changes the target only |
| `Redaction.FieldClassExactly` | tools/observatory_export.py:108-121 | a row is refused by class exactly when a field other than the target has a refused name or a text of a refused class |
| `Redaction.ExportedTextIsHarmless` | tools/observatory_export.py:105-155 | no exported text other than the target is of a refused class |
| `Redaction.ExportIsHarmless` | tools/observatory_export.py:152-155 | the same for every row of an export, one for each given row |
| `Redaction.ExportedColumns` | tools/observatory_export.py:144-155 | the thirteen columns, each the row's own value, its `type` for a missing `request_class`, or null |
| `Redaction.CredentialsExactly` | tools/observatory_export.py:83 | the credential pattern, written out |
| `Redaction.NoTargetIsRefused` | tools/observatory_export.py:123-134 | a row without a target is refused |
| `Redaction.NullTargetIsExported` | tools/observatory_export.py:123-140 | a null target is exported as the host `None` |
| `Redaction.ExportedTargetIsBare` | tools/observatory_export.py:136-140 | no fragment is exported, and no query unless it was asked for |
| `Redaction.WrittenTargetIsExported` | tools/observatory_export.py:132-140 | what is exported of a written target: scheme in lower case, host, path, and the query if it was asked for |
| `Redaction.CredentialsOfRedacted` | tools/observatory_export.py:83 | a redacted target matches the credential pattern exactly when its host has user information |
| `Redaction.ExportCarriesCredentialsExactly` | tools/observatory_export.py:124-140 | the target of an accepted row is exported with what the credential pattern refuses exactly when its host has user information |
| `Redaction.ExportsCompose` | tools/observatory_export.py:105-155 | exporting an export is exporting once, the query kept only if kept both times, exactly when no host has user information; else it is refused |
| `Redaction.SecondExportIsRefused` | tools/observatory_export.py:105-141 | targets that are exported once, match the credential pattern then, and are refused the second time |
| `Redaction.SameRowsAccepted` | tools/observatory_export.py:105-141 | what is accepted does not depend on keeping the query |
| `Redaction.DroppedPartsDoNotMatter` | tools/observatory_export.py:96-155 | accepted rows that differ only in query, fragment or fields not exported are exported alike exactly when both targets contain `//` or neither does |
| `Redaction.CleanBaseAgrees` | tools/observatory_export.py:96-102 | without tabs and line breaks before the tail an accepted target meets that condition |
| `Redaction.TabHidesTheAuthority` | tools/observatory_export.py:98 | one text before the tail that is read with two hosts |
| `Redaction.TabChangesTheExport` | tools/observatory_export.py:96-155 | two accepted rows that differ only in the query and are exported differently |
| `Coverage.ReadAllowlist` | tools/coverage_check.py:171-190 | the findings about entries, and for every path as many owners as there are claims |
| `Coverage.CheckFiles` | tools/coverage_check.py:192-208 | a finding for exactly the unclaimed and the twice claimed landed sources and the claims of missing files |
| `Coverage.TabInventory` | tools/coverage_check.py:115-146 | the tabs, and exactly the faults of the inventory, equal integer orders included |
| `Coverage.CheckUnits` | tools/coverage_check.py:210-236 | exactly the differences of the two inventories, sections only when the schema is readable |
| `Coverage.CleanIsExactCover` | tools/coverage_check.py:161-237 | no fault exists exactly when the cover is exact |
| `Coverage.Check` | tools/coverage_check.py:161-237 | reports exactly the faults, and nothing exactly when every landed source is claimed once, every claim exists, orders are distinct and the inventories are equal |
| `Coverage.OneClaimExactly` | tools/coverage_check.py:171-190 | a path is claimed once in all exactly when it is one source of one complete entry and no other |
| `Coverage.CoveredExactly` | tools/coverage_check.py:192-208 | the files are covered exactly when each landed path is claimed at one place and whatever is claimed is in the tree |
| `Coverage.SilentExactly` | tools/coverage_check.py:161-237 | what an input of which the gate says nothing looks like, written out |
| `Coverage.ClaimedOnceHasOneOwner` | tools/coverage_check.py:171-190 | a path claimed once in all is named by exactly one entry |
| `Coverage.BijectionsExactly` | tools/coverage_check.py:33-40 | for an input that passes, every tab, section and entry belongs to exactly one of the other side exactly when no id and no name occurs twice |
| `Coverage.TabsMayShareAnId` | tools/coverage_check.py:210-221 | two tabs with one id and one entry pass and are no bijection |
| `Registry.ParseBody` | tools/gen_registry.py:103-143 | numbered rows in line order, each with its 1-based plan line and its nearest preceding heading, none left out; fails exactly on a malformed data line |
| `Registry.RowsAreUnique` | tools/gen_registry.py:103-143 | the plan decides its rows: only one list satisfies this |
| `Registry.ParsePlan` | tools/gen_registry.py:92-146 | the same for the lines between the two chapter headings, with the reserved interfaces; their absence and a failure of the reserved-interface parser are the only other failures |
| `Registry.BuildCounts` | tools/gen_registry_docs.py:57-84 | each of the five tables counts every row under its key and sums to total_rows |
| `Registry.StatusRestatesDecisions` | tools/gen_registry.py:123 | dropped and deferred rows are those of the two decision classes, all others are active |
| `Registry.CellReads` | tools/gen_registry.py:73-77 | a cell's value is read through blanks and emphasis; a dash is none |
| `Registry.CellKeyExactly` | tools/gen_registry_docs.py:65-69 | a row is counted under its cell's value, and under `none` when it has none |
| `Registry.DiffRows` | tools/gen_registry_docs.py:102-121 | silent exactly on equal lists, and otherwise names exactly the differing positions |
| `Registry.DiffCounts` | tools/gen_registry.py:226-237 | silent exactly on equal tables |
| `Registry.DiffFields` | tools/gen_registry.py:216-224 | silent exactly when every compared field reads the same, a missing one as null |
| `Registry.RunCheck` | tools/gen_registry.py:193-237 | silent exactly when committed rows, interfaces, compared fields and counts are the regenerated ones |

## Left out

- Reading files, git, subprocesses, argument parsing, printing and exit codes: contents and parsed JSON or YAML are given values. Except in the ledger modules a text comes as its lines.
- Message wording, reported line numbers and the order of findings: findings are kinds with the entry they are about.
- Sibling checkouts and helper modules (`xr_sibling`, `permission_iso_cells`, `wfrun`, `runner_caps`, `isolation.sh`, `evidence_closure`) are not part of this model; the fixed mode of the interference reproduction is modelled by distinct directories.
- `_extract_html`, the rules R1 to R3 of `_scan_ts` and `_looks_visible` (tools/l10n_extract.py): regular expressions without further structure; what counts as visible is a parameter.
- `CITE_RE` (tools/doc_reference_check.py:50): the path-like tokens of a text are given.
- `rewrite_bytes_in_place` (tools/inplace.py:87-106): the same steps as `rewrite_in_place` with bytes for text. Creating the parent directory is not modelled. In the single call a failure does not come between the rename and the return; among racing calls it may.
- Barrier.SharedDirectoryAlwaysCollides: the owner and ready files always accept a write once their directory exists, and the driver waits for both runs.
- GuardLint: which macros are XR-owned, what a call is and what a comment names are kinds of lines; `#else` and `#ifndef` are treated as the code treats them.
- DepClosure.MarkerInScope: a marker is a sequence of tokens, so text inside a quoted string is not split at `and`; `parse_pep508`, name normalisation and the network ceremony are left out or parameters.
- EvidenceFinality.EffectiveRows: a row without an id has already been given its positional one.
- EvidenceFinality.VocabularyFindings: how a status reads (pending, final or foreign) is a parameter; the state, head, workflow and report conditions of a final bundle are membership tests and are left out.
- LedgerTable: the older exception ledger (`ledger_rows`, `check`) has the same parser and wall-clock dates, and is left out. How Python's `int` reads a cell is a parameter.
- Redaction.RedactRow: refused names and values, `str` of values that are not text, and what `urlsplit` refuses as an authority are parameters; the JSON and CSV writers are left out.
- Coverage.Check: which files land, and the command roster, are given.
- Registry.ParsePlan: lines come classified with their cells; `parse_reserved` is a parameter; the columns of a row that are not counted, the plan pin and the YAML writer are left out.
- IdentityCard.WriteThenCheckIsClean: reading back JSON that was written gives the same rows, as an assumption on the codec.
- DictMerge.RenderVariants: the loop over a variant's top-level documents is the merge of the two outer dictionaries; a variant that names no document of the base is an error in the code and is excluded.
- Gates that only test membership or existence, heuristic scanners, fuzzers, benches and the floating-point contrast check: they have no algorithm with a law to prove, or their result depends on randomness, external backends or rounding.
- IdentityCard.Repository.Emit: a file that is itself written only in part is not modelled, only a stop between the two files.
