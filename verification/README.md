# learnie-plugin, the rules underneath

A Dafny model of the string and list rules at the core of the learnie
Obsidian plugin:

- **Note revisions.** A tracked note keeps one revision file per day, named
  `<id>_<yyyy-MM-dd>.md` under `_learnie/Note Revisions`. The latest revision
  is the match with the greatest date segment in string order.
- **`handleNoteChange`.** Its decision table says what happens when a note
  changes: ignore the change, create the first revision, keep today's
  revision, or roll over to a new revision and trash the stale one.
- **Converting a file into a note.**
- **The "changed today" test.**
- **Garbage collection by backlinks.** Generated files nothing links to are
  trashed.
- **File helpers.** The unique-name search, path construction, stripping a
  leading frontmatter block, and the shallow frontmatter merge.
- **The question bank.** One file per note, holding a `questions` list.
- **Diff rendering.** Three generations of the code that turns a unified
  patch into HTML lines.
- **Link rewriting.** `[[X]]` becomes an anchor to the file's `obsidian://`
  URI, and the link builders and `encodeURIComponent` are modelled with it.
- **The diff view.** Its `$…$` codespan tokenizer and its "reviewed"
  checkbox handler.
- **The legacy id header.**
- **The daily reminder's delay arithmetic.**

The host is modelled as plain values:

- The vault is a sequence of `File` records. Each record holds the path, the
  text, the frontmatter the metadata cache parsed, the backlinks and the
  modification time.
- Creating a file fails when the path is taken, or when a `hostOk` flag is
  false.
- "Today", "now", the fresh uuid and the vault name are parameters.

Modules follow the source files:

| module | source |
|---|---|
| `Optional` | shared option type |
| `Strings` | `split`, `join`, `trim`, string order |
| `Seqs` | `filter` |
| `Frontmatter` | frontmatter values |
| `Vault` | the host's file store |
| `FileUtils` | `src/utils/file.ts` |
| `Dates` | `src/utils/date.ts` |
| `NoteRevisions` | `src/utils/noteRevisions.ts` |
| `Uri` | `encodeURIComponent` |
| `ObsidianUtils` | `src/utils/obsidian-utils.ts` |
| `Questions` | `src/utils/questions.ts` |
| `Note` | `src/utils/note.ts` |
| `MdUtils` | `src/utils/md-utils.ts` |
| `DiffUtils` | `src/utils/diff-utils.ts` |
| `LegacyDiff` | `utils/diff-utils.ts` and `modals/diff-modal.ts` |
| `LegacyNote` | `utils/note.ts` |
| `DiffView` | `src/views/diff-view.tsx` |
| `Notifications` | `src/utils/notifications.ts` |

## Model

| member | source | states |
|---|---|---|
| Dates.ParseFormat | src/utils/date.ts:3-6 | reading back a `yyyy-MM-dd` date part written for a valid day gives that day again |
| Dates.FormatOrder | src/utils/date.ts:3-6 | for valid days, one written date part sorts before another exactly when its day is earlier |
| FileUtils.GetUniqueFileName | src/utils/file.ts:7-15 | the search stops at the first free candidate; every earlier candidate exists, and there are at most as many collisions as existing paths; the result is that candidate without its last `.`-segment, i.e. `base` when `base.ext` is free, else `base_k` for the least free `k` |
| FileUtils.CandidateInjective | src/utils/file.ts:9-12 | two collision counts that produce the same candidate name are equal, so the loop never retries a name and must end |
| FileUtils.FilePathName | src/utils/file.ts:25-26 | for a file name without `/`, the file at `folder/filename.md` is named `filename.md` |
| FileUtils.GetFile | src/utils/file.ts:23-29 | a vault file at exactly `folder/filename.md` is found, and nothing is found exactly when no file has that path |
| FileUtils.CreateNewFile | src/utils/file.ts:31-50 | a file at `folder/filename.md` holding the content is added exactly when the host succeeds and the path is free; otherwise the result is null and the vault is unchanged; unique paths stay unique |
| FileUtils.ReadFrontmatter | src/utils/file.ts:64-68 | the cached frontmatter, or the empty map when the cache has none |
| FileUtils.FrontmatterBlockEnd | src/utils/file.ts:62 | the block matches exactly when the text opens with `---` and a newline and some `\n---` occurs at or after index 4; it closes at the first such occurrence |
| FileUtils.ReadContentWithoutFrontmatter | src/utils/file.ts:70-79 | without a match the text is returned unchanged; with one, the text after the first closing marker, trimmed |
| FileUtils.StripBuiltBlock | src/utils/file.ts:62-75 | a block whose YAML holds no earlier closing marker is removed whole, and the body comes back trimmed |
| Frontmatter.Merge | src/utils/file.ts:95-100 | the keys are the union of both maps; keys of the update take its values, and every other key keeps its old value |
| Frontmatter.MergeIdempotent | src/utils/file.ts:95-100 | writing the same update twice is the same as writing it once |
| FileUtils.ModifyFrontmatter | src/utils/file.ts:95-100 | only the file at the path changes, and only its cached frontmatter, which becomes the shallow merge of the old frontmatter with the update; the YAML block in its text is not rewritten (see Left out) |
| FileUtils.CreateWithFrontmatter | src/utils/questions.ts:45-58 | a create followed by a frontmatter write: on success exactly one new file is appended, with the given path, content and frontmatter and no backlinks; on failure nothing changes |
| FileUtils.UnusedFiles | src/utils/file.ts:104-109 | exactly the given files that no file links to |
| FileUtils.DeleteUnused | src/utils/note.ts:124-129 | a vault file survives exactly when it is not one of the listed files without backlinks |
| Vault.GetFileByPath | src/utils/file.ts:27 | a result is a vault file at that path, and there is none exactly when no file has the path |
| Vault.Create | src/utils/file.ts:42 | succeeds exactly when the host succeeds and the path is free, then adds only the new file; unique paths stay unique |
| Vault.Trash | src/utils/file.ts:52-60 | the files that remain are exactly the old ones at other paths |
| NoteRevisions.CheckIfNoteRevisionMeans | src/utils/noteRevisions.ts:8-15 | a file is a revision exactly when it has frontmatter holding a `reviewed` key |
| NoteRevisions.RevisionDateRoundTrip | src/utils/noteRevisions.ts:38-47 | for an id without `_` and a date part without `_` or `.`, reading the date from the revision file name gives the date part back |
| NoteRevisions.RevisionDayRoundTrip | src/utils/noteRevisions.ts:38-47 | the day a revision file name was written on is read back from the name |
| NoteRevisions.RevisionNameOfPath | src/utils/noteRevisions.ts:38-41 | the name at the end of a revision's path is `id_datePart.md` |
| NoteRevisions.CreateNoteRevision | src/utils/noteRevisions.ts:17-36 | a file is returned exactly when `isNew` holds, the host succeeds and the path is free; it holds the content with its frontmatter block stripped and has frontmatter `{id, reviewed: false}`; without `isNew` a file is created but nothing returned; a failed create changes nothing |
| NoteRevisions.MatchingRevisions | src/utils/noteRevisions.ts:50-55 | exactly the vault files under `_learnie` whose name starts with the id, in vault order |
| NoteRevisions.RevisionPathIsRevisionOf | src/utils/noteRevisions.ts:51-55 | a file at a note's revision path passes both filters for that note |
| NoteRevisions.GetLatestNoteRevision | src/utils/noteRevisions.ts:49-70 | null exactly when no file passes both filters; otherwise one of the matched files |
| NoteRevisions.LatestIndexBySegments | src/utils/noteRevisions.ts:62-67 | the reduce's choice depends on the files' date segments alone |
| NoteRevisions.LatestSegmentIsFirstMaximum | src/utils/noteRevisions.ts:62-67 | when the first segment is defined, the reduce keeps a defined segment that no defined segment exceeds, and every defined segment before it is strictly smaller; undefined segments are passed over |
| NoteRevisions.LatestIndexIsFirstMaximum | src/utils/noteRevisions.ts:62-67 | when the first match has a date segment, the chosen match has one too, at least every other dated match's in string order, with ties going to the earliest in vault order |
| NoteRevisions.LatestRevisionIsMaximal | src/utils/noteRevisions.ts:49-70 | when the first match has a date segment, the latest revision is the first maximum of the dated matches by date segment, and undated matches never win; when the first match has none, it is the result |
| NoteRevisions.UndatedFirstWins | src/utils/noteRevisions.ts:63-66 | comparisons with an undefined segment are false, so a first match without `_` in its name is never replaced |
| NoteRevisions.RevisionSegmentOrder | src/utils/noteRevisions.ts:63-66 | for revision files the plugin wrote, comparing date segments as strings compares the days they were written on |
| NoteRevisions.SoleRevisionIsLatest | src/utils/noteRevisions.ts:49-70 | a note with a single revision file gets that file as its latest |
| NoteRevisions.AppendedSoleRevision | src/utils/noteRevisions.ts:49-70 | a note's first revision file, once added, is its latest |
| NoteRevisions.LatestSamePaths | src/utils/noteRevisions.ts:49-70 | the lookup reads paths only: two vaults with the same paths in the same order give the same answer |
| Note.ReadNoteId | src/utils/note.ts:87-92 | an id is read exactly when the frontmatter holds a non-empty string under `id` |
| Note.CheckIfReviewed | src/utils/note.ts:49-53 | the stored `reviewed` value, or false when it is absent or null; truthy exactly when the stored value is truthy |
| Note.DecideNoteChange | src/utils/note.ts:15-46 | the change is ignored exactly when there is no file, no id, or the file is a revision. Otherwise: create the first revision exactly when there is no latest revision; fail exactly when the latest name has no `_`; roll over exactly when the latest revision is dated strictly before today, and then the stale one is that latest revision. The reviewed notice shows exactly when the latest revision is reviewed |
| Note.ApplyNoteChangeAsWritten | src/utils/note.ts:24-44 | as written: ignoring, keeping and failing leave the vault as it was; the first revision and today's roll-over revision are in the result whenever their create succeeds, and nothing else is added; every other file is kept; a failed first create changes nothing; a roll-over always removes the stale revision's path, created or not |
| Note.AsWrittenAgreesWhenCreated | src/utils/note.ts:36-44 | whenever a roll-over's create succeeds, the as-written effect is exactly the intended one |
| Note.ApplyNoteChange | src/utils/note.ts:24-44 | ignoring, keeping and failing leave the vault as it was; creating adds only the new revision, or changes nothing when the create fails; a roll-over whose create succeeds also removes the stale revision, and every file at another path is kept; unique paths stay unique |
| Note.RollOver | src/utils/note.ts:38-44 | on a successful create the new revision is added and the stale one removed, and every other file stays; a failed create changes nothing |
| Note.DecisionReadsPathsOnly | src/utils/note.ts:24-44 | what happens to the vault depends on the vault's paths alone, not on other files' contents or frontmatter |
| Note.ReviewedFlagNeverDecides | src/utils/note.ts:31-44 | setting any file's `reviewed` flag either way never changes what the change does to the vault |
| Note.FirstRevisionCreated | src/utils/note.ts:24-29 | with no revision yet, creating the first one succeeds at today's revision path, and that file counts as the note's revision |
| Note.FirstRevisionIsLatest | src/utils/note.ts:24-29 | after the first revision is created, it is the note's latest |
| Note.NewRevisionDay | src/utils/note.ts:36-38 | today's revision reads back as dated today |
| Note.SameDayAfterFirstRevision | src/utils/note.ts:24-44 | a second change on the day of the first revision keeps that revision |
| Note.AsWrittenRollOverLosesRevision | src/utils/note.ts:38-44 | as written, when the create fails during a roll-over, a note whose only revision was the stale one is left with no revision |
| Note.RollOverKeepsRevision | src/utils/note.ts:38-44 | with the correction, a note keeps a revision through a roll-over whether or not the create succeeds |
| Note.TruncDiv | src/utils/note.ts:114 | the quotient rounds toward zero: for a non-negative dividend it is the greatest multiple at or below it, for a negative one the least multiple at or above it, as `differenceInDays` drops the fraction |
| Note.NoteIsChangedAsWrittenWindow | src/utils/note.ts:106-116 | as written, a note counts as changed exactly when it is unreviewed and was modified after the instant one day before the start of today |
| Note.NoteIsChangedAsWrittenYesterday | src/utils/note.ts:114 | a note last modified at 23:00 yesterday counts as changed today |
| Note.NoteIsChangedMeansToday | src/utils/note.ts:106-116 | the intended test holds exactly for unreviewed notes modified at or after the start of today; it is the same day difference with the fraction rounded down; it agrees with the source except on the day before today, and a reviewed note never counts |
| Note.ExtractAfterThreeLines | src/utils/note.ts:94-100 | the text after the third newline is kept exactly |
| Note.ExtractShortNote | src/utils/note.ts:94-100 | text with fewer than three newlines extracts to the empty string |
| Note.QuestionsLinkCloses | src/utils/note.ts:81 | the `questionsLink` closes only at its end, whatever the question file's path |
| Note.ConvertToNote | src/utils/note.ts:56-85 | no revision means no change; a revision without a question file adds only the revision; with both, the two files are added in that order, and only the note's frontmatter is then merged with `{id, questionsLink}` |
| Note.WriteAfterCreates | src/utils/note.ts:77-84 | the metadata write after both creates touches only the note, and merges the metadata into its frontmatter |
| Note.ConvertedNoteHasId | src/utils/note.ts:56-85 | after a conversion in which both files were created, the note reads back the fresh id, so its later changes are tracked |
| Note.MergedIdReads | src/utils/note.ts:102-104 | writing metadata that carries a non-empty `id` makes the file read back that id |
| Note.DeleteAllUnusedNoteRevisionFiles | src/utils/note.ts:118-130 | a vault file survives exactly when it is not one of the listed revision files without backlinks |
| Questions.QuestionFilePathInjective | src/utils/questions.ts:9-11 | different note ids get different question files |
| Questions.QuestionFileName | src/utils/questions.ts:9-11 | a note's question file is named `<id>_question.md` |
| Questions.GetAllQuestionFiles | src/utils/questions.ts:13-18 | exactly the files under `_Learnie_Questions`, in vault order |
| Questions.GetQuestions | src/utils/questions.ts:27-39 | null exactly when the note has no question file; otherwise what that file stores under `questions` |
| Questions.InitialQuestions | src/utils/questions.ts:51-54 | the single pair when both question and answer are non-empty, and the empty list otherwise |
| Questions.CreateQuestion | src/utils/questions.ts:41-60 | on success exactly one empty file is added at `_Learnie_Questions/<id>_question.md`, holding the initial list; a failed create changes nothing |
| Questions.AppendedQuestions | src/utils/questions.ts:79-80 | a missing or null list counts as empty; a stored list gets the pair at its end; any other stored value cannot be pushed to |
| Questions.AddQuestion | src/utils/questions.ts:62-82 | an invalid note path changes nothing; without a question file it is `createQuestion`; otherwise only that file's `questions` key changes, to the old list plus the new pair, and no other file changes |
| Questions.AddThenGetQuestions | src/utils/questions.ts:77-81 | after adding to an existing list, reading it gives the old list, in order, with the new pair at the end, even an empty one |
| Questions.AddFirstThenGetQuestions | src/utils/questions.ts:71-75 | adding to a note without a question file leaves exactly the initial list in the new file |
| Questions.DeleteAllUnusedQuestionFiles | src/utils/questions.ts:84-95 | a vault file survives exactly when it is not a question file without backlinks |
| DiffUtils.EnsureNewline | src/utils/diff-utils.ts:6-8 | the result ends with a newline and extends the input by at most one character; it equals the input exactly when the input already ends with a newline |
| DiffUtils.EnsureNewlineIdempotent | src/utils/diff-utils.ts:6-8 | applying it twice is the same as once |
| DiffUtils.Classify | src/utils/diff-utils.ts:38-47 | a `+` line becomes an insert paragraph, a `-` line a delete div, and any other line a plain div; the line can be rebuilt from its element |
| DiffUtils.ClassifyAll | src/utils/diff-utils.ts:38-46 | one element per line, in place, each the line's classification, and the lines come back from the elements |
| DiffUtils.BodyElements | src/utils/diff-utils.ts:27-48 | one element per line that is not a header, in line order: a `+` line a paragraph of class `diff-insert`, a `-` line a div of class `diff-delete`, any other line a plain `diff-line` div; the lines come back from the elements, so markers are stripped and the rest kept verbatim |
| DiffUtils.HeaderLinesDropped | src/utils/diff-utils.ts:28-36 | header lines contribute no output |
| DiffUtils.FileNameAsWrittenTruncates | src/utils/diff-utils.ts:20-22 | as written, for the one-line patch `Index: x y` the file name is lost entirely, while the corrected name is `x y` |
| DiffUtils.FileNameAgrees | src/utils/diff-utils.ts:20-22 | the source's file name equals the corrected one whenever the patch has at least as many lines as its first line has words |
| DiffUtils.FileNameOfIndexLine | src/utils/diff-utils.ts:20-22 | the corrected file name of an `Index:` line is the whole name, whatever the number of lines |
| DiffUtils.IndexLineTitle | src/utils/diff-utils.ts:20-24 | for a patch starting with `Index: base.ext`, the title is `base` |
| DiffUtils.FormatDiffContent | src/utils/diff-utils.ts:15-51 | after the links are rewritten, the output is exactly the title heading followed by the body lines' elements |
| DiffUtils.FormatDiffContentAsWritten | src/utils/diff-utils.ts:15-51 | as written: exactly the heading, with its file name cut at the patch's line count, followed by the body lines' elements |
| DiffUtils.FormatDiffContentAgrees | src/utils/diff-utils.ts:20-23 | the as-written and the corrected rendering are equal when the patch has at least as many lines as its first line has words |
| DiffUtils.FormatPatch | src/utils/diff-utils.ts:15-51 | a link-free patch for `base.ext` renders as the heading `base` followed by its body lines |
| LegacyDiff.ClassifyVerbatim | utils/diff-utils.ts:17-23 | every line becomes a div holding the whole line, classed insert for `+`, delete for `-`, plain otherwise |
| LegacyDiff.VerbatimAll | utils/diff-utils.ts:13-24 | one div per line, in order, each holding its line and classed by its first character |
| LegacyDiff.LegacyElements | utils/diff-utils.ts:9-27 | exactly the lines not starting with `#`, in order, each verbatim in a div: `diff-insert` exactly for a leading `+`, `diff-delete` exactly for a leading `-`, plain `diff-line` exactly otherwise |
| LegacyDiff.LegacyDropsTitleLine | utils/diff-utils.ts:14-16 | a leading `#` line is dropped and the rest renders as before |
| LegacyDiff.StyledElements | modals/diff-modal.ts:23-38 | one div per newline plus one; joining their texts with newlines gives the diff text back, so no line is dropped; `diff-insert` exactly for a leading `+`, `diff-delete` exactly for a leading `-`, plain `diff-line` exactly otherwise |
| LegacyDiff.EmptyStyledDiff | modals/diff-modal.ts:23-38 | an empty diff still shows one empty plain line |
| MdUtils.LinkClose | src/utils/md-utils.ts:16 | a match at the start is `[[`, a non-empty run without `]`, then `]]` |
| MdUtils.TransformLinks | src/utils/md-utils.ts:14-19 | the rewritten text is never shorter than the input |
| MdUtils.TransformNoLinks | src/utils/md-utils.ts:16 | text without a match is returned unchanged |
| MdUtils.TransformGrows | src/utils/md-utils.ts:16-18 | text with a match anywhere comes back strictly longer |
| MdUtils.TransformIdentity | src/utils/md-utils.ts:16 | the text is unchanged exactly when it holds no match |
| MdUtils.LinkCloseOf | src/utils/md-utils.ts:16 | `[[X]]` with `X` non-empty and free of `]` is a match ending at its `]]` |
| MdUtils.TransformPlainPrefix | src/utils/md-utils.ts:16 | text at whose positions no match starts, such as `a[b ` or `[[]]`, is copied unchanged, whatever follows it |
| MdUtils.NoBracketNoLink | src/utils/md-utils.ts:16 | no match starts in text without `[` |
| MdUtils.TransformLinkFirst | src/utils/md-utils.ts:16-18 | a leading link becomes the anchor to `X`'s URI, and the scan resumes right after it |
| MdUtils.TransformOneLink | src/utils/md-utils.ts:16-18 | text in which no match starts, then a link: the text is copied and the link replaced by its anchor |
| MdUtils.EmptyLinkKept | src/utils/md-utils.ts:16 | `[[]]` is left as it is |
| ObsidianUtils.RelativeLinkRoundTrip | src/utils/obsidian-utils.ts:13-16 | a path without `|`, and any alias, come back out of the wiki link |
| ObsidianUtils.ObsidianLinkRoundTrip | src/utils/obsidian-utils.ts:18-21 | splitting the built URI after its prefix at the first `&file=` gives back the encoded vault name and the encoded path |
| ObsidianUtils.LinkRoundTrip | src/utils/obsidian-utils.ts:3-6 | a caption without `]`, and the file's URI, come back out of the Markdown link |
| Uri.EncodeChar | src/utils/obsidian-utils.ts:20 | an unreserved character is kept; any other becomes `%`-escapes |
| Uri.EncodeUriComponent | src/utils/obsidian-utils.ts:20 | the output is at least as long as the input, holds only unreserved characters and `%`, and never contains `&`, `]`, `|` or `/` |
| Uri.Utf8RoundTrip | src/utils/obsidian-utils.ts:20 | the UTF-8 bytes that are escaped determine the character |
| Uri.EncodeAppend | src/utils/obsidian-utils.ts:20 | encoding works character by character, so it distributes over concatenation |
| Uri.EncodeIdentity | src/utils/obsidian-utils.ts:20 | a text is left unchanged exactly when all its characters are unreserved |
| LegacyNote.AddUniqueIdToNote | utils/note.ts:29-38 | content starting with `---` is kept; any other gets the id header in front; afterwards it is a note and ends with the original content |
| LegacyNote.ConvertToNote | utils/note.ts:20-26 | the result is a note and ends with the original content |
| LegacyNote.AddUniqueIdIdempotent | utils/note.ts:29-38 | a second conversion, with any id, changes nothing |
| LegacyNote.IdHeaderLines | utils/note.ts:34-35 | the converted text's lines are the fence, ` id:` with the id, the fence again, then the original lines |
| LegacyNote.LegacyHandleNoteChange | utils/note.ts:4-9 | the vault is never changed; without a file nothing is reported, otherwise whether it is a note |
| DiffView.CodespanRuns | src/views/diff-view.tsx:125 | a match needs a leading `$`, and its opening run, capture and closing run are all non-empty and fit in the input |
| DiffView.Codespan | src/views/diff-view.tsx:124-137 | no token unless the input starts with `$`; a token's raw text is a prefix of the input |
| DiffView.CodespanMatch | src/views/diff-view.tsx:125-130 | a whole `$` run, a non-empty run without `$` or newline, and the whole following `$` run make up `raw`, and `text` is that inner run trimmed |
| DiffView.CodespanUnclosed | src/views/diff-view.tsx:125-136 | a newline or the end of the input before any closing `$` gives no token |
| DiffView.HandleReviewed | src/views/diff-view.tsx:26-33 | only the revision file changes; its text field is left as it was (see Left out) and its cached frontmatter is merged with the rendered frontmatter, `reviewed` set to the checkbox |
| DiffView.HandleReviewedOnlyReviewed | src/views/diff-view.tsx:26-33 | when the revision is still as rendered, only `reviewed` changes, to the checkbox state; the file stays a revision and every other key keeps its value |
| DiffView.DiffInputs | src/views/diff-view.tsx:118-121 | both compared texts are read without frontmatter and end with a newline; each is passed on unchanged exactly when it already ended with one, and otherwise gets that one newline |
| Notifications.StartOfDay | src/utils/notifications.ts:19-24 | the day boundary at or before now, less than a day back |
| Notifications.NextNotificationTime | src/utils/notifications.ts:18-29 | today at the configured time when that is not before now, else exactly one day later |
| Notifications.Delay | src/utils/notifications.ts:31 | for a valid time the delay is at least zero and less than a day, and it lands on the configured time of day |
| Notifications.DelayIsLeast | src/utils/notifications.ts:26-31 | no shorter non-negative wait lands on the configured time of day |
| Notifications.DelayAtTarget | src/utils/notifications.ts:26-31 | at the configured instant itself the delay is zero |
| Notifications.ScheduleDailyNotification | src/utils/notifications.ts:12-37 | a pending timeout is cleared before the one new timeout is set for the delay, and the new id is kept |
| Notifications.ScheduleSetsOneTimeout | src/utils/notifications.ts:14-36 | exactly one timeout is set, as the last effect, and only clears come before it |
| Notifications.Fire | src/utils/notifications.ts:33-42 | when the timeout fires, the notice and the changed-notes view come first, then the same time is scheduled again |

## Left out

- The host's file API is modelled as a value. `vault.getFiles()` is the vault sequence. `vault.create`, `vault.trash` and `processFrontMatter` are pure functions on it. A create's failure for reasons other than a taken path is a `hostOk` flag.
- Folder creation in `createNewFile` (src/utils/file.ts:34-37) is not modelled, because folders are not files of the vault.
- Notices and console output are not modelled, because they change no state.
- `deleteFile`'s caught errors are not modelled: a trash in the model always succeeds.
- `addMetadataToNote` (src/utils/note.ts:102-104) does not await `modifyFrontmatter`. The model performs the write in sequence. The final vault is the same, because nothing else in `convertToNote` follows the write.
- The garbage-collection loops run their deletions as unawaited `forEach(async …)` callbacks. They are modelled as sequential trashes, because concurrency is not modelled.
- `getAllNoteRevisions` is imported by src/utils/note.ts but is not defined in src/utils/noteRevisions.ts. The list of revision files is therefore a parameter of `Note.DeleteAllUnusedNoteRevisionFiles`.
- `isValidNotePath` is not part of this model. `Questions.AddQuestion` takes its answer as a boolean parameter.
- The uuid generator, the vault name and the clock are parameters.
- The two `moment()` calls of `scheduleDailyNotification` are treated as one `now`.
- Time zones and daylight saving are not modelled: days are 24 hours of milliseconds, and "today" is a parameter.
- `new Date(str)` in `getNoteRevisionDate` is replaced by a strict `yyyy-MM-dd` reader (`Dates.ParseDatePart`). Any other string is an invalid date. An invalid date compares as neither before nor after, so the revision is kept.
- Dates outside years 0-9999 are not covered by the round-trip lemmas, because `format` writes them with more than four digits.
- src/utils/noteRevisions.ts:20 calls `createNewFile` with three arguments, against the four parameters at src/utils/file.ts:31. `NoteRevisions.CreateNoteRevision` models the evidently intended four-argument call, in `_learnie/Note Revisions`.
- `readFrontmatter` takes a file, but src/utils/note.ts:50 and :89 and src/utils/questions.ts:36 and :78 pass it the file's text. The model reads the file's frontmatter in each of these places.
- Note.ReadNoteId: only a non-empty string is an id. A truthy id of another type (a number, say) is treated as no id.
- Note.ConvertToNote: requires the converted file to be a vault file, as a `TFile` handed in by the host always is.
- FileUtils.ModifyFrontmatter: the merged frontmatter is stated only for a vault with unique paths. The host keeps paths unique; the model allows duplicates.
- FileUtils.ModifyFrontmatter, DiffView.HandleReviewed, Note.ConvertToNote, Vault.Create: a file's text and its cached frontmatter are independent fields. The host's `processFrontMatter` also rewrites the YAML block inside the text, and the host's cache reads a created file's text; the model does neither. So after `Note.ConvertToNote` the note's text still lacks the `{id, questionsLink}` block, and a later roll-over's `ReadContentWithoutFrontmatter` of it returns the untrimmed text where the host returns the trimmed body. Keeping the two in sync would need a YAML writer and parser.
- FileUtils.DeleteUnused, Note.DeleteAllUnusedNoteRevisionFiles, Questions.DeleteAllUnusedQuestionFiles: exact survival is stated only for unique paths and listed files that are vault files, which the host guarantees.
- Strings.LexLess compares code points, not the UTF-16 code units JavaScript compares. The two orders agree on the ASCII date segments that matter here.
- Uri.EncodeUriComponent: the host's error for lone surrogates cannot arise, because Dafny characters are Unicode scalar values.
- HTML escaping is not modelled, because the source performs none.
- `sanitize`, `marked`, `MarkdownRenderer` and the `diff` library's `createPatch` and `diffLines` are not modelled, because they are outside libraries. Patch text is an input of `DiffUtils.FormatDiffContent`.
- `getDiff` (src/utils/diff-utils.ts:10-13 and utils/diff-utils.ts:4-7) only calls `createPatch`, so it is not modelled.
- src/views/diff-view.tsx:144 calls `formatDiffContent(changes)` with a signature unlike the function at src/utils/diff-utils.ts:15. Only each function's own contract is modelled.
- `replaceAllMdLinks` (src/utils/md-utils.ts:9-13) has an empty body and returns nothing, so there is nothing to model.
- DiffUtils.FormatDiffContent: uses the corrected file name, not the line-bounded slice (see Findings). The as-written rendering is DiffUtils.FormatDiffContentAsWritten.
- The tokenizer's token is `DiffView.Token`, whose `capture` holds the untrimmed group. The token's `text` is `Token.Text()`, the trimmed capture.
- The view's rendering is not modelled, nor its guards before `handleReviewed` is wired up (src/views/diff-view.tsx:147-151).

## Findings

| source | as written | input that shows it | evidently intended | confidence | as-written member | corrected member |
|---|---|---|---|---|---|---|
| src/utils/note.ts:114 | `differenceInDays(lastModified, startOfToday) >= 0` truncates toward zero, so any change less than a day before the start of today counts | a note modified at 23:00 yesterday and not reviewed is reported as changed today | changed at or after the start of today | not executed | Note.NoteIsChangedAsWrittenYesterday | Note.NoteIsChangedMeansToday |
| src/utils/note.ts:38-44 | the stale revision is trashed after `createNoteRevision`, whether or not the create succeeded | a roll-over for a note whose only revision is yesterday's, with the create failing: the note is left with no revision | trash the stale revision only once its replacement exists | not executed | Note.AsWrittenRollOverLosesRevision | Note.RollOverKeepsRevision |
| src/utils/diff-utils.ts:22 | `indexTitle.slice(1, diffLines.length)` bounds the file name's words by the number of lines of the patch | the one-line patch `Index: my note.md` gives an empty title | all words after `Index:` | not executed | DiffUtils.FileNameAsWrittenTruncates | DiffUtils.FileNameOfIndexLine |
