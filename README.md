# better-npm-audit: the end of an audit run, verified in Dafny

`handleFinish` is the last step of a `better-npm-audit` run. It takes what the
analysis of the `npm audit` JSON produced: the unhandled advisory ids, the
tabular report, a `failed` flag, and the unused exception ids and modules.
Then it:

- prints the coloured table,
- turns the table into a JSON artifact under `.sast/`,
- reports the unused exceptions,
- ends the process with the verdict.

This project models that step in three modules:

- `AnsiStrip` (`ansi_strip.dfy`) models the colour-code removal that the
  global replace of `ESC '[' digit+ 'm'` performs on each report cell. It is
  written as a hand-written left-to-right scanner, `Strip`. The scanner is
  described independently as a *leftmost cut*: the cell is split into kept
  characters and removed colour codes, and a character is kept only where no
  colour code starts. The lemmas prove that the scanner keeps exactly the
  kept characters of that unique cut.
- `ReportJson` (`report_json.dfy`) models how each row is cleaned and how the
  cleaned rows become records with the keys `id`, `package`, `title`, `path`,
  `severity`, `guide` and `expired`. A key read past the end of a short row is
  `Undefined`, as `item[k]` is in JavaScript.
- `HandleFinish` (`handle_finish.dfy`) models the run itself. The method
  `Finish` builds a trace of effects (error and info lines, the printed
  table, directory creation, the file write, the unused-exception report,
  process exit) and returns the exit code. `SaveJsonReport` does the same for
  the save. Whether the directory exists, and whether creating it or writing
  the file throws, are inputs (`SaveEnv`). Both methods are proved equal to
  specification functions (`FinishTrace`, `SaveEffects`), and the lemmas
  state what every run guarantees.

## Model

| member | source | states |
|---|---|---|
| `AnsiStrip.CodeLength` | src/handlers/handleFinish.ts:36 | the length it returns is at most the text's length; when not 0, that prefix is one whole colour code ESC '[' digit+ 'm' |
| `AnsiStrip.CodeLengthExact` | src/handlers/handleFinish.ts:36 | a prefix of the text is a colour code exactly when its length is `CodeLength`: at most one match starts at a position, so the greedy `\d+` has only one choice |
| `AnsiStrip.Strip` | src/handlers/handleFinish.ts:36 | the stripped cell is never longer than the cell, and a cell with no ESC character is returned unchanged |
| `AnsiStrip.Cut` | src/handlers/handleFinish.ts:36 | the scan, recorded as segments, is a leftmost cut of the cell: every removed piece is a whole colour code taken from the front of what is left, and every kept character sits where no colour code starts |
| `AnsiStrip.LeftmostCutCovers` | src/handlers/handleFinish.ts:36 | the segments of a leftmost cut, put back together, give the original cell |
| `AnsiStrip.LeftmostCutUnique` | src/handlers/handleFinish.ts:36 | a cell has only one leftmost cut, so the non-overlapping matches found left to right are determined by the cell |
| `AnsiStrip.StripKeepsExactlyTheKept` | src/handlers/handleFinish.ts:36 | stripping leaves exactly the kept characters of the leftmost cut, in their original order; only the matched colour codes are removed |
| `AnsiStrip.StripChangesIffCode` | src/handlers/handleFinish.ts:36 | stripping shortens a cell if and only if a colour code starts at some position of it, and leaves the cell unchanged otherwise |
| `AnsiStrip.StripKeepsPlain` | src/handlers/handleFinish.ts:36 | every character other than ESC, '[', 'm' and the digits survives stripping, none is added, and their order is kept |
| `AnsiStrip.StripDropsCode` | src/handlers/handleFinish.ts:36 | a colour code at the front of a cell disappears as a whole, and the rest is stripped as if it stood alone |
| `AnsiStrip.StripKeepsNonEsc` | src/handlers/handleFinish.ts:36 | a leading character other than ESC is always kept, in front of the stripped rest |
| `AnsiStrip.StripAfterOpening` | src/handlers/handleFinish.ts:36 | a colour code right after ESC '[' is removed while the ESC '[' before it stays |
| `AnsiStrip.StripWrappedText` | src/handlers/handleFinish.ts:36 | text without ESC between an opening colour code and a closing one comes back as the bare text |
| `AnsiStrip.StripColouredWord` | src/handlers/handleFinish.ts:36 | ESC "[31m" "high" ESC "[39m" strips to "high" |
| `AnsiStrip.CodeWithoutDigitsKept` | src/handlers/handleFinish.ts:36 | ESC "[m" has no digit, so it is not removed |
| `AnsiStrip.CodeWithSemicolonKept` | src/handlers/handleFinish.ts:36 | ESC "[1;31m" contains ';', so it is left whole |
| `AnsiStrip.StripJoinsCode` | src/handlers/handleFinish.ts:36 | stripping is a single pass: removing a colour code placed between ESC '[' and digits followed by 'm' brings a new colour code together, which only a second strip removes |
| `AnsiStrip.StripNotIdempotent` | src/handlers/handleFinish.ts:36 | for any digit d, ESC '[' ESC '[' d 'm' d 'm' strips to ESC '[' d 'm', which strips to nothing: stripping is not idempotent |
| `ReportJson.CleanRow` | src/handlers/handleFinish.ts:35-37 | a cleaned row is as wide as the row, and cell j is the stripped cell j |
| `ReportJson.CleanReport` | src/handlers/handleFinish.ts:34-38 | cleaning keeps the number of rows and the number of cells in each row, and replaces each cell by its stripped form |
| `ReportJson.CleanReportCells` | src/handlers/handleFinish.ts:34-38 | no cleaned cell is longer than the original, and a cell with no ESC is kept as it was |
| `ReportJson.ToEntry` | src/handlers/handleFinish.ts:41-49 | the record has seven keys, and key k (id, package, title, path, severity, guide, expired) holds cell k, or undefined past the end of the row |
| `ReportJson.ToEntries` | src/handlers/handleFinish.ts:40-50 | there are exactly as many records as rows, and record i is the record of row i, so report order is preserved |
| `ReportJson.RowRoundTrip` | src/handlers/handleFinish.ts:40-50 | reading a row into a record and listing the record's defined values gives back the row's first seven cells, in order |
| `ReportJson.EntryIgnoresExtraCells` | src/handlers/handleFinish.ts:40-50 | cells past the seventh do not change the record |
| `ReportJson.ReportArtifact` | src/handlers/handleFinish.ts:34-52 | the artifact has one record per report row |
| `ReportJson.ReportArtifactFields` | src/handlers/handleFinish.ts:34-50 | key k of record i is the stripped cell k of row i, or undefined when row i has no cell k |
| `ReportJson.EmptyReportArtifact` | src/handlers/handleFinish.ts:55-58 | an empty report gives the empty array |
| `HandleFinish.SaveJsonReport` | src/handlers/handleFinish.ts:80-89 | the effects of a save: mkdir is called when the directory is missing, then the file write is called when the directory is usable, and a thrown error becomes one error line that ends the save |
| `HandleFinish.SaveWritesOnce` | src/handlers/handleFinish.ts:80-89 | a save calls the file write for `.sast/better_npm_report.json` with the given records exactly once when the directory is usable and never otherwise; the records reach the file exactly when, in addition, the write does not throw; it never exits or reports unused exceptions; it logs a failure exactly when a file-system call threw |
| `HandleFinish.StoredAppend` | src/handlers/handleFinish.ts:80-89 | what reaches files through two traces joined together is what reaches them through each, unless a write at the join is followed by the export error line |
| `HandleFinish.StoredInRun` | src/handlers/handleFinish.ts:29-73 | the table before the save and the closing steps after it never put anything in a file: only the save does |
| `HandleFinish.ExitCode` | src/handlers/handleFinish.ts:21-73 | the exit code is 1 exactly when the analysis failed or some advisory is unhandled, and 0 exactly otherwise |
| `HandleFinish.Finish` | src/handlers/handleFinish.ts:13-74 | returns the verdict's exit code, and the steps of the run are those of `FinishTrace`: table, save, unused-exception report, verdict line, exit |
| `HandleFinish.ExitIsLast` | src/handlers/handleFinish.ts:13-74 | every run ends with exactly one exit, the last step, carrying the verdict |
| `HandleFinish.FailedRunOnlyExits` | src/handlers/handleFinish.ts:21-27 | when the analysis failed, the run prints one error line and exits with 1; nothing is written and no unused exception is reported |
| `HandleFinish.SuccessfulRunWritesOnce` | src/handlers/handleFinish.ts:29-59 | after a successful analysis, the write of the cleaned report's records to the report file is attempted exactly once when the directory is usable and never otherwise, and those records reach the file exactly when, in addition, the write does not throw |
| `HandleFinish.SuccessfulRunOrder` | src/handlers/handleFinish.ts:54-73 | after a successful analysis, unused exceptions are reported exactly once, after every file write, and only the verdict line and then the exit with the verdict's code follow |
| `HandleFinish.SaveOutcomeKeepsVerdict` | src/handlers/handleFinish.ts:80-89 | whatever the file system does during the save, the steps after the save, the exit among them, are the same |
| `HandleFinish.EmptyReportStillSaved` | src/handlers/handleFinish.ts:55-59 | with an empty report, no table is printed and the write of the empty array is still attempted when the directory is usable |

## Left out

- `processAuditJson`, `printSecurityReport` and `handleUnusedExceptions` are not part of this model. They are defined in files outside `src/handlers/handleFinish.ts`. The analysis result is an input (`ProcessResult`). Printing the table and reporting unused exceptions are trace effects that carry their arguments.
- Console output is modelled as `ErrorLine`/`InfoLine` effects carrying a `Message` value. The exact text is not built: the number and the comma-joined ids of the unhandled-vulnerabilities line, and the error object printed when the export fails.
- `JSON.stringify(..., null, 2)` is a library call. The artifact is kept as the structured list of records. Its byte layout, the empty array's text `[]` among it, is not modelled. An `Undefined` key stands for the key that `JSON.stringify` drops.
- `fs.existsSync`, `fs.mkdirSync` and `fs.writeFileSync` are modelled only through their outcome. The outcome is the `SaveEnv` input: whether the directory exists, whether creating it throws, and whether writing throws. A partial write is not modelled.
- `process.exit` is the final `Exit` effect. Nothing after it is modelled, which matches the `return` that follows it.
- JavaScript strings are UTF-16 code units, and here they are Dafny characters. The pattern involves only ASCII characters, so this makes no difference to stripping.
- `MakeDir` and `WriteFile` stand for the calls to `fs.mkdirSync` and `fs.writeFileSync`, and a call that throws still appears in the trace. `Writes` and `WrittenFiles` list the write calls made. `Stored` lists the contents that reached a file: a write call followed at once by the export error line did not.
- Only `ESC '[' digit+ 'm'` is removed from a cell. Other terminal escapes, such as `ESC[m` and `ESC[1;31m`, stay: `CodeWithoutDigitsKept` and `CodeWithSemicolonKept` state this.
- When `fs.mkdirSync` throws, `fs.writeFileSync` is never called, because the `catch` is reached first (src/handlers/handleFinish.ts:82-88). `SaveWritesOnce` and `SuccessfulRunWritesOnce` state this.
