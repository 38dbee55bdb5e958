# Psych Report Assistant: a Dafny model of its report generation

PsychReportAssistant is a one-page mail-merge tool. The user uploads a table of
people (CSV or Excel) and a Word template. The tool renders the template once
per row and saves each result in a fresh temporary directory, under a name
built from the row's `FirstName` and `LastName`.

This project models the three parts of the program that hold logic:

- `FileNames` (file_names.dfy) models `clean_filename`. It keeps the
  characters that are alphanumeric, a space, `.` or `_`, in order, and then
  drops trailing whitespace (`str.rstrip()`, with Python's full `isspace`
  set). `str.isalnum` uses Unicode tables, so it is a parameter
  `isAlnum: char -> bool` of every member. Two predicates state the facts
  about it that some lemmas need. `AsciiAlnumIncluded` says every ASCII
  letter and digit is alphanumeric. `SpaceNotAlnum` says no whitespace
  character is.
- `UploadFormat` (upload_format.dfy) models the choice of parser from the
  uploaded file's name: `.csv`, otherwise `.xlsx`, otherwise warn and stop.
- `ReportGenerator` (report_generator.dfy) models the row loop.
  - The loaded template is a class `Template<S>`. Its mutable `state` has an
    opaque type `S`. Its rendering step is a function `engine: (S, Row) -> S`,
    fixed when the template is loaded.
  - The output directory is a class `OutputDir<S>`. Its `files` field is a
    map from file name to saved document.
  - `GenerateReports` is the loop. It is proved against two specification
    functions. `StateAfter` is the template state after rendering a prefix
    of the rows. `Written` is the directory after that prefix: every row's
    file holds the state saved right after that row, and a later row with
    the same name replaces an earlier file.
  - The lemmas describe which files exist, which save each file keeps and
    how many files there are.

The same template object is rendered again for every row, and each save
writes whatever the object holds at that moment. The model says exactly
that and nothing more. `AllReportsIdentical` shows the consequence: if a
second render leaves a rendered template unchanged, every report holds the
first row's document.

Points the proofs make explicit about the code:
- `clean_filename` keeps every character Python calls alphanumeric, which
  includes non-ASCII letters and digits, not only ASCII ones. The model
  therefore leaves the classification open.
- `clean_filename` can return an empty string, but a report name cannot: it
  always ends in `_Report.docx` (`ReportFileNameSuffix`).
- Rows with different first/last name pairs do not always get different
  files. `DifferentRowsCanCollide` shows two different pairs sharing one
  file, and `FileCount` gives the exact condition for one file per row: the
  sanitized names must be pairwise distinct.

## Model

| member | source | states |
|---|---|---|
| FileNames.CleanFilename | PsychReportAssistant.py:8-10 | the sanitized name is no longer than the input, holds only allowed characters (alphanumeric, space, `.`, `_`) and does not end in whitespace |
| FileNames.Keep | PsychReportAssistant.py:10 | the filter's result (generator expression and `join`) holds only allowed characters and is no longer than its input |
| FileNames.RStrip | PsychReportAssistant.py:10 | `rstrip()` returns a prefix that is empty or ends in non-whitespace, and every character it cuts off is whitespace |
| FileNames.KeepIsSubsequence | PsychReportAssistant.py:10 | the filter only deletes characters: its result is a subsequence of its input |
| FileNames.CleanIsSubsequence | PsychReportAssistant.py:10 | the sanitized name is an order-preserving subsequence of the input |
| FileNames.CleanMembership | PsychReportAssistant.py:10 | every character of the sanitized name occurs in the input and is allowed |
| FileNames.KeepAppend | PsychReportAssistant.py:10 | filtering a concatenation is concatenating the filtered parts |
| FileNames.KeepIdentity | PsychReportAssistant.py:10 | the filter returns its input unchanged if and only if every character is allowed |
| FileNames.CleanFixedPoint | PsychReportAssistant.py:10 | clean_filename returns its input unchanged if and only if every character is allowed and the input does not end in whitespace |
| FileNames.CleanIdempotent | PsychReportAssistant.py:10 | sanitizing twice gives the same name as sanitizing once |
| FileNames.RStripRemovesOnlySpaces | PsychReportAssistant.py:10 | when no whitespace character is alphanumeric, `rstrip()` removes only plain spaces from the filtered string |
| FileNames.KeepAsciiName | PsychReportAssistant.py:10 | a string of ASCII letters, digits, spaces, `.` and `_` passes the filter unchanged |
| FileNames.CleanKeepsSuffix | PsychReportAssistant.py:10 | a suffix that the filter keeps and that does not end in whitespace comes through clean_filename untouched; only the part before it is filtered |
| UploadFormat.EndsWithIsConcat | PsychReportAssistant.py:32-34 | the suffix test holds exactly when the name is some string followed by the suffix |
| UploadFormat.EndsWithAppend | PsychReportAssistant.py:32-34 | a string followed by a suffix ends with that suffix |
| UploadFormat.SelectReaderBySuffix | PsychReportAssistant.py:32-38 | the CSV reader is chosen iff the name ends in `.csv`, the Excel reader iff it ends in `.xlsx`, and the tool halts iff it ends in neither; no name ends in both |
| UploadFormat.DoubleExtension | PsychReportAssistant.py:32-35 | `roster.xlsx.csv` is read as CSV and `roster.csv.xlsx` as Excel |
| UploadFormat.UnsupportedNames | PsychReportAssistant.py:36-38 | `data.txt` and `DATA.CSV` halt the tool: the suffix test is case-sensitive |
| ReportGenerator.Template.constructor | PsychReportAssistant.py:46 | the loaded template holds the uploaded document and its rendering step |
| ReportGenerator.Template.Render | PsychReportAssistant.py:12-15 | rendering replaces the template's state by the engine's result for the old state and the row |
| ReportGenerator.Template.Save | PsychReportAssistant.py:64-65 | saving writes the template's current state under the name, replacing a file of that name and leaving the other files as they were |
| ReportGenerator.OutputDir.constructor | PsychReportAssistant.py:52-53 | each run starts from a new, empty directory |
| ReportGenerator.GenerateReports | PsychReportAssistant.py:56-65 | the loop returns a fresh directory equal to `Written` for all rows, and leaves the template rendered against every row in turn |
| ReportGenerator.ProcessUpload | PsychReportAssistant.py:32-65 | the run halts iff the upload name selects no reader, and then the template is unchanged and no directory exists; otherwise the run produces the loop's directory |
| ReportGenerator.NameShape | PsychReportAssistant.py:61 | sanitizing `first + "_" + last + suffix`, for a suffix that survives sanitizing whole, gives the filtered first name, `_`, the filtered last name and the suffix |
| ReportGenerator.ReportFileNameShape | PsychReportAssistant.py:61 | a report name is the filtered first name, `_`, the filtered last name and `_Report.docx` |
| ReportGenerator.ReportFileNameSuffix | PsychReportAssistant.py:61 | every report name ends in `_Report.docx`, so none is empty |
| ReportGenerator.ReportSuffixKept | PsychReportAssistant.py:61 | the filter leaves `_Report.docx` unchanged |
| ReportGenerator.UnderscoreKept | PsychReportAssistant.py:61 | the filter leaves the `_` between the two names unchanged |
| ReportGenerator.DifferentRowsCanCollide | PsychReportAssistant.py:61 | two different rows (`Ann_Lee`/`Kim` and `Ann`/`Lee_Kim`) get the same report name |
| ReportGenerator.WrittenKeys | PsychReportAssistant.py:56-65 | the directory's file names are exactly the report names of the rows |
| ReportGenerator.LastWriteWins | PsychReportAssistant.py:64-65 | a file holds the template state saved by the last row with that name |
| ReportGenerator.FileCount | PsychReportAssistant.py:56-65 | the number of files is the number of distinct report names; it is at most the number of rows, and equal to it iff the report names are pairwise distinct |
| ReportGenerator.DistinctCount | PsychReportAssistant.py:56-65 | a list of names has at most as many distinct names as entries, and exactly as many iff no name repeats |
| ReportGenerator.DuplicateRowsOneFile | PsychReportAssistant.py:61-65 | two rows with the same first and last name leave a single file, whatever their other columns hold |
| ReportGenerator.StateAfterConsumed | PsychReportAssistant.py:46-58 | if a second render changes nothing, the reused template holds the first row's rendering after any number of rows |
| ReportGenerator.AllReportsIdentical | PsychReportAssistant.py:56-65 | if a second render changes nothing, every saved report holds the first row's rendering |

## Left out

- Streamlit UI (page setup, upload widgets, the button, info/warning/success messages): interactive plumbing. Only the halt of `st.stop()` is kept, as the `Halted` outcome of `ProcessUpload`. The upload widget's own extension filter is not modelled.
- pandas CSV and Excel parsing: a foreign library. The dataset is an already-parsed sequence of rows given to `ProcessUpload`. Failures to parse are not modelled.
- Conversion of cell values to text in the f-string (for example a missing cell printed as `nan`): `FirstName` and `LastName` are taken to be strings already.
- docxtpl internals (loading, placeholder substitution, document text, what `render` returns): the document state is an opaque type, and rendering is an opaque total function. So the claim that a rendered report contains the row's values is not modelled. Exceptions from rendering or saving, which abort the run, are not modelled either.
- The file system: the temporary directory is an in-memory map, created fresh for each run. Paths, disk writes and I/O errors are left out.
- File-name comparison: two names are the same file only when the strings are exactly equal (case-sensitive, no Unicode normalisation). On a case-insensitive file system, such as the default ones of Windows and macOS, rows `Ann`/`Lee` and `ANN`/`LEE` write one file, so `WrittenKeys`, `LastWriteWins` and `FileCount` describe a case-sensitive file system only.
- Missing columns: a table without a `FirstName` or `LastName` column raises `KeyError` when the name is built, after the first render and before any save. The `Row` type always has both fields, so this failure is not modelled.
- Unicode tables of `str.isalnum`: the classification is a parameter. Lemmas that need facts about it state them as requirements (`AsciiAlnumIncluded`, `SpaceNotAlnum`).
- Python strings may hold lone surrogate code points; Dafny `char` values are Unicode scalar values, so such strings are outside the model.
