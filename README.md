# Answer-sheet grader: a Dafny model

This project models the grading core of `corretor_gabarito`. The program
takes photographs of multiple-choice answer sheets and an answer key
typed into a web form. It writes a spreadsheet with one row per student.

The model covers both core files, `corretor.py` and `app.py`. In
`corretor.py`:

- **Locating the sheet.** On the binarised image, keep the bounding boxes
  that fit the registration-marker size window. Give up when fewer than four
  remain. Otherwise sort them into top-left, top-right, bottom-left and
  bottom-right (`find_alignment_rectangles`).
- **Laying the grid.** Lay an 18 x 9 grid of cell centres between the
  markers by linear interpolation, truncated to whole pixels
  (`compute_grid_centers`).
- **Reading the sheet** (`read_binary_value`, `read_answers`,
  `process_gabarito`):
  - the student number is read as six bits from row 4;
  - the exam variant is read as four bits from row 5;
  - ten answers come from rows 7-16, each the darkest of five cells, or "-"
    when no cell is dark enough.
- **Loading the key.** Read the key file, one line
  `variant|question|weight|L1:w1,L2:w2,...|correct` per question, into the
  nested dictionary variant -> question -> entry (`load_gabarito`).
- **Building the workbook** (`export_to_excel`, without the spreadsheet
  library):
  - the header;
  - the key rows, one per variant in string order;
  - one row per graded sheet with its answers and weighted total;
  - the green / yellow / red fill of every answer cell.
- **The batch.** Grade every picture, drop the unreadable ones and export
  (`run_correction`).

In `app.py`:

- the extension filter for uploads;
- the folder name built from the form;
- the writer of the key file;
- the check of the uploaded files.

The writer and the loader are tied together by a round-trip theorem. The
key file the upload handler writes loads back as the very key it was
written from, provided the key's texts stay clear of the file's separators.

The code is organised in one module per file:

| file | module | models |
|---|---|---|
| wrappers.dfy | Wrappers | `None` and exceptions as `Option` / `Result` |
| text.dfy | Text | the `str` methods used: `strip`, `split`, `join`, `replace`, `lower`, `str(int)`, string order |
| sorting.dfy | Sorting | `sorted` with a key, as a stable insertion sort |
| dicts.dfy | Dicts | insertion-ordered `dict` |
| decimals.dfy | Decimals | the weights' numerals, `str` of a number and `float` on such numerals |
| markers.dfy | Markers | `find_alignment_rectangles` |
| grid.dfy | Grid | `compute_grid_centers` |
| sampling.dfy | Sampling | `read_binary_value`, `read_answers` |
| sheet.dfy | Sheet | `process_gabarito` |
| answer_key.dfy | AnswerKey | `load_gabarito` |
| report.dfy | Report | `export_to_excel` |
| batch.dfy | Batch | `run_correction` |
| upload.dfy | Upload | `allowed_file`, folder name, key-file writer, upload check (app.py) |
| roundtrip.dfy | RoundTrip | writer followed by loader is the identity |

The source's loops are Dafny methods. Each is proved equal to a
specification function, and the lemmas state what that function means:

- `FindAlignmentRectangles`, `ComputeGridCenters`, `ReadBinaryValue`,
  `ReadAnswers` and `ProcessSheet`;
- `LoadAnswerKey`, `WriteKeyRows`, `WriteStudentRow`, `ExportToExcel` and
  `RunCorrection`;
- `WriteKeyFile`, `WriteVariant` and `ValidateUploads`.

The source's loop-free helpers are functions: the size test, `allowed_file`, the
folder name and the fill decision.

Modelling choices:

- **Interfaces.** OpenCV is the source of the inputs. A picture is either
  unreadable or a thresholded pixel array (`Sampling.Image`) together with
  the bounding boxes of its outer contours, as `cv2.boundingRect` reports them.
- **Failures.** A Python exception is a `Failure` value naming its cause:
  - a malformed key line gives `WrongFieldCount`, `BadNumber` or
    `WrongPairShape`;
  - an empty key gives `EmptyKey`;
  - a variant lacking a header question gives `MissingQuestion`.
- **Numbers.** Weights are decimal numerals taken exactly. `np.mean` is the
  exact quotient of the window's sum by its size. An empty window's mean is
  NaN, and every comparison with NaN is false. The grid interpolation is exact
  rational arithmetic, truncated toward zero as `astype(int)` truncates.

## Model

Several specification functions have no contract of their own. The rows of
the lemmas and methods about each of them stand for that function:

- `Markers.SelectMarkers`: `SelectMarkersMeaning`, `FindAlignmentRectangles`;
- `Grid.GridCenters`: `GridCorners`, `GridWithinCorners`, `ComputeGridCenters`;
- `Sampling.RowAnswer` and `Sampling.Answers`: `RowAnswerMeaning`, `ReadAnswers`;
- `Sheet.SheetOf`: `SheetOfMeaning`, `ProcessSheet`;
- `AnswerKey.ParseLine`: `ParseLineMeaning`;
- `AnswerKey.LoadKey`: `LoadKeyMeaning`, `LoadAnswerKey`;
- `Report.FillOf`: `FillMeaning`;
- `Report.WorkbookOf`: `WorkbookFailure`, `WorkbookLayout`, `WorkbookKeyRows`, `ExportToExcel`;
- `Batch.Graded`: `KeptMeaning`, `RunCorrection`;
- `Upload.AllowedFile`: `AllowedFileMeaning`;
- `Upload.FolderName`: `FolderNameMeaning`;
- `Upload.KeyFileText`: `WriteKeyFile`, `KeyFileRoundTrip`;
- `Upload.UploadsOf`: `UploadsMeaning`, `ValidateUploads`;
- `Text.Strip`: `StripShape`;
- `Text.Split`: `SplitPiecesFree`, `SplitJoin`, `JoinSplit`;
- `Text.Lower`: `AllowedFileMeaning`, its only use.

| member | source | states |
|---|---|---|
| Markers.PlausibleSizes | corretor.py:27-34 | for whole-pixel sizes the +-20% window around 70 x 46 is exactly 56 <= w <= 84 and 37 <= h <= 55 |
| Markers.CandidatesMeaning | corretor.py:38-41 | the filter keeps a box iff it was found and passes the window, as many times as it was found, in found order |
| Markers.SortedByRowThenColumn | corretor.py:47 | sorting by (y, x) permutes the boxes and orders them by row, then column |
| Markers.ArrangeMeaning | corretor.py:47-50 | the four chosen boxes are kept boxes; the top two come no later in (y, x) order than any other kept box; the bottom two have the smallest x of the rest; each pair is in x order |
| Markers.SelectMarkersMeaning | corretor.py:38-51 | None iff fewer than four boxes pass the window; otherwise four found, plausible boxes arranged as above |
| Markers.FindAlignmentRectangles | corretor.py:25-51 | the filter loop, the early None and the three sorts give the selection above, and None iff fewer than four are kept |
| Sorting.SortPermutes | corretor.py:47-49 | `sorted` permutes its input |
| Sorting.SortSorted | corretor.py:47-49 | `sorted` orders its input for any total preorder |
| Sorting.SortStable | corretor.py:47-49 | `sorted` keeps the order of elements with equal keys |
| Sorting.StableSortIsUnique | corretor.py:47-49 | any sorted, stable rearrangement equals the model's sort, so the algorithm chosen does not matter |
| Grid.GridCorners | corretor.py:53-65 | the grid's four corner points are exactly the marker centres (x + w // 2, y + h // 2) |
| Grid.LerpBetween | corretor.py:62-65 | each interpolation step stays between its two end points |
| Grid.GridWithinCorners | corretor.py:59-67 | every grid point lies within the range of the four marker centres, coordinate by coordinate |
| Grid.ComputeGridCenters | corretor.py:53-68 | the nested loops return rows rows of cols points, equal to the interpolated grid, with the marker centres at the corners |
| Sampling.SliceBound | corretor.py:73 | a numpy slice bound is clamped into 0..n and an in-range bound is kept |
| Sampling.WindowAround | corretor.py:73 | the window around a point is at most 5 x 5 and contains the point when it lies in the image |
| Sampling.BitMeaning | corretor.py:73-75 | on a 0/255 image a bit is 1 iff 255 x foreground count > 127 x window size, which for windows of at most 255 pixels is "at least half foreground" |
| Sampling.FromBinaryIsWeightedSum | corretor.py:76 | `int(s, 2)` is the sum of bit_k x 2^(n-1-k) |
| Sampling.FromBinaryBound | corretor.py:76 | an n-digit binary numeral is below 2^n |
| Sampling.FromToBinary | corretor.py:76 | reading back the n binary digits of v < 2^n gives v |
| Sampling.ToFromBinary | corretor.py:76 | writing out the value of a bit string gives back the string |
| Sampling.ReadBinaryValue | corretor.py:70-76 | the bit loop returns the weighted sum of the window bits, below 2^n, whose n binary digits are those bits |
| Sampling.Scan | corretor.py:83-91 | the running maximum starts at 0 with no column and only moves to a column whose mean is a positive number |
| Sampling.ScanMeaning | corretor.py:83-91 | no column is picked iff no mean exceeds 0; a picked column holds the first strictly greatest mean |
| Sampling.FirstMaxUnique | corretor.py:89-91 | only one column can be the first strict maximum |
| Sampling.RowAnswerMeaning | corretor.py:83-101 | a row reads "-" iff no mean reaches 10, and letter i iff column i holds the first strictly greatest mean and it is at least 10 |
| Sampling.ReadAnswers | corretor.py:78-106 | the nested loops return ten entries (rows 7-16), each "-" or one of A-E, equal to the row readings above |
| Sheet.SheetOfMeaning | corretor.py:108-131 | a sheet is refused iff the image is unreadable or fewer than four boxes pass; otherwise its student number is below 64, its variant below 16, each spelled by its cells' bits, and it has ten answers |
| Sheet.ProcessSheet | corretor.py:108-131 | the sequence of reading calls gives the sheet reading above, None exactly in the refusal cases |
| Sheet.CellsReadByMajority | corretor.py:70-76 | for markers at non-negative positions every grid cell is read from at most 25 pixels, and reads 1 iff at least half of them are foreground |
| Text.StripShape | corretor.py:139 | `strip` removes only surrounding whitespace and leaves none at either end |
| Text.SplitPiecesFree | corretor.py:142-146 | no piece of a split holds the separator |
| Text.SplitJoin | corretor.py:142-146 | splitting a join of separator-free parts gives the parts back |
| Text.JoinSplit | corretor.py:142-146 | joining the pieces of a split gives the original text |
| Text.ReplaceCharAt | app.py:46 | `replace` keeps the length and changes exactly the replaced character |
| Text.NatToStringDigits | corretor.py:192 | `str(n)` is a non-empty run of digits without a leading zero that reads back as n |
| Text.LessEqTotal | corretor.py:178 | Python's string order compares any two strings |
| Text.LessEqTransitive | corretor.py:178 | Python's string order is transitive |
| Text.LessEqAntisymmetric | corretor.py:178 | strings that are mutually ordered are equal |
| Dicts.Put | corretor.py:148-153 | assignment updates exactly one key, keeps an existing key's place and appends a new key last |
| Dicts.Take | corretor.py:148-153 | the first n keys of a dictionary form a proper dictionary that agrees with it |
| Dicts.TakeNext | corretor.py:148-153 | inserting the next key into a prefix of a dictionary gives the next prefix |
| Dicts.FirstsMeaning | corretor.py:148-153 | inserting names in turn keeps the existing keys first, lists every name, and lists the new ones in the order of their first insertion |
| Decimals.ParseFloat | corretor.py:143 | `float` accepts only well-formed numerals |
| Decimals.ParseFormat | corretor.py:143 | `float` of a written numeral gives the same numeral back |
| Decimals.FormatChars | app.py:56-57 | a written numeral is non-empty and holds only digits, '.' and '-' |
| AnswerKey.ParsePairs | corretor.py:144-147 | the pairs' loop yields a proper dictionary of well-formed numerals |
| AnswerKey.ParsePairsMeaning | corretor.py:144-147 | the pairs load iff every pair has exactly two ':' parts and a number; each letter then has the value of its last pair |
| AnswerKey.ParseLineMeaning | corretor.py:142-147 | a line parses iff it has five '|' fields, a numeric weight and well-formed pairs; variant, question and correct letter are kept as strings |
| AnswerKey.Store | corretor.py:148-154 | storing changes the entry of exactly one (variant, question) and keeps the key proper |
| AnswerKey.StoreOrder | corretor.py:148-153 | a new variant goes after the existing ones and a new question after its variant's existing ones; an existing variant or question keeps its place, and no other variant's questions move |
| AnswerKey.StoreInTwoSteps | corretor.py:148-154 | creating the variant when missing, then assigning the question, is Store |
| AnswerKey.StepMeaning | corretor.py:139-154 | one line succeeds iff it is blank or parses; a failure carries the line's parse error |
| AnswerKey.LoadFromSucceeds | corretor.py:138-154 | loading succeeds iff every line is blank or parses |
| AnswerKey.LoadFromFailure | corretor.py:138-154 | a failed load reports the error of the first line that is neither blank nor parses |
| AnswerKey.LoadFromLookup | corretor.py:138-154 | a successful load is a proper key whose entry for (v, q) is that of the last line for (v, q), or the previous one |
| AnswerKey.LoadFromOrder | corretor.py:138-154 | after a successful load the variants are the earlier ones, then those of the accepted lines in order of first appearance; each variant's questions likewise |
| AnswerKey.LoadKeyMeaning | corretor.py:135-155 | a file loads iff each of its lines is blank or parses; the key is proper and holds, for every (v, q), the last line's entry; the variants are listed in the order the lines first name them, and each variant's questions in the order its lines first name them |
| AnswerKey.BlankLinesIgnored | corretor.py:139-141 | a blank line anywhere changes nothing |
| AnswerKey.LoadAnswerKey | corretor.py:135-155 | the nested loops return what the specification loader returns, errors included |
| Report.EntryOf | corretor.py:195-201 | a looked-up entry of a loaded key is valid |
| Report.VariantsInKey | corretor.py:178-179 | every sorted variant id is a variant of the key |
| Report.SortedVariantsMeaning | corretor.py:178 | the key rows' variants are all the variants, each once, in string order |
| Report.ColumnsFromFile | corretor.py:167 | for a key loaded from a file, the header questions are those of the variant the file names first, in the order the file first names them |
| Report.KeyCellsMeaning | corretor.py:181-183 | a variant's correct letters are listed for every header question, or the first missing question is reported |
| Report.KeyRowsMeaning | corretor.py:178-185 | the key rows exist iff every variant has every header question, and each is GABARITO_P{id}, "", the letters, "" |
| Report.WorkbookFailure | corretor.py:167-185 | the export fails with EmptyKey iff the key is empty, and otherwise fails (with MissingQuestion) iff some variant lacks a header question |
| Report.WorkbookLayout | corretor.py:167-215 | a successful export has the header Aluno, Prova, the first variant's questions, Total; one key row per variant in string order; one student row per result, in order |
| Report.WorkbookKeyRows | corretor.py:178-185 | the key rows of a successful export, one per variant in string order, with that variant's correct letters |
| Report.StudentRowMeaning | corretor.py:190-215 | a student row is the student number, `str` of the variant, per question the answer or "-" (no entry or no answer), then the total |
| Report.TotalBounds | corretor.py:196-207 | with non-negative weights and partial credits in [0, 1], the total lies between 0 and the sum of the weights |
| Report.FullMarks | corretor.py:196-207 | full credit on every question with an entry gives the sum of the weights |
| Report.PointsBounds | corretor.py:204-206 | one answer earns between 0 and its question's weight |
| Report.FillMeaning | corretor.py:218-242 | green iff correct letter with partial within 1e-6 of 1; yellow iff correct with 0.1 < p <= 1 - 1e-6 or another letter with p > 0; red otherwise, and red without an entry or correct letter |
| Report.WriteKeyRows | corretor.py:178-185 | the key rows' nested loops give the key rows above, stopping at the first missing question |
| Report.WriteStudentRow | corretor.py:190-242 | one pass of the students' loop gives the student row and fills above |
| Report.ExportToExcel | corretor.py:162-244 | the export returns the workbook above, errors included |
| Batch.KeptAppend | corretor.py:261-264 | filtering two runs in turn is filtering them together |
| Batch.KeptMeaning | corretor.py:261-264 | every readable result is kept, nothing else is, and no result at all iff every sheet was unreadable |
| Batch.RunCorrection | corretor.py:251-269 | the batch exports the results of the readable sheets, in picture order |
| Batch.NothingReadStillExports | corretor.py:260-268 | a batch with no readable sheet still exports the header and key rows, with no student rows |
| Upload.LastDot | app.py:21-22 | the position found is that of the last '.', and there is none iff the name has no '.' |
| Upload.AllowedFileMeaning | app.py:20-22 | a name is allowed iff it has a '.' and the text after the last '.', lower-cased, is png, jpg or jpeg |
| Upload.FolderNameMeaning | app.py:46 | the folder name has no ' ' and no '/', is as long as the joined fields, and keeps every other character in place |
| Upload.TerminatedAppend | app.py:58 | writing two runs of lines in turn writes them together |
| Upload.WriteVariant | app.py:55-58 | the inner loop writes the variant's lines, each ended by a newline, in question order |
| Upload.WriteKeyFile | app.py:52-58 | the outer loop writes the file text: every variant's lines, in variant order |
| Upload.FirstBad | app.py:62-69 | every file before the first bad one is acceptable, and that one is not |
| Upload.UploadsMeaning | app.py:60-72 | accepted iff there is at least one file and each is acceptable, then kept in order; no images iff the upload is empty; a refusal names the first bad file |
| Upload.ValidateUploads | app.py:60-72 | the loop with its early returns gives the outcome above |
| RoundTrip.SafeKeyValid | app.py:52-58 | a key fit for the round trip is one the loader can build and the writer can write |
| RoundTrip.PairSplits | app.py:57 | a written pair splits at ':' into its letter and numeral, and the numeral reads back |
| RoundTrip.PairsFieldReadsBack | app.py:57 | the written pair field reads back as the same partial-credit dictionary |
| RoundTrip.LineSplits | app.py:56-58 | a written line splits at '|' into its five fields |
| RoundTrip.ParseWrittenLine | app.py:56-58 | a written line survives stripping, is not blank and parses back into its variant, question and entry |
| RoundTrip.NoAlternativesRefused | app.py:57 | a question with no alternatives is written with an empty pair field, which the loader refuses with WrongPairShape |
| RoundTrip.StepWrittenLine | app.py:56-58 | loading one written line stores its entry |
| RoundTrip.LoadVariant | app.py:55-58 | the lines of variant n load the first n variants into the first n + 1 |
| RoundTrip.LoadAllChunks | app.py:54-58 | all the variants' lines load into the key they were written from |
| RoundTrip.SplitTerminated | app.py:58 | text made of lines ending in newlines splits back into those lines |
| RoundTrip.FileTextChunks | app.py:53-58 | the file text is the variants' lines, each ending in a newline |
| RoundTrip.KeyFileLines | app.py:53-58 | the file's text-mode lines are the written lines followed by one empty line |
| RoundTrip.KeyFileRoundTrip | app.py:52-58 | loading the written key file (the `load_gabarito` call of app.py:75) returns exactly the key it was written from, for keys clear of the separators |

## Left out

- OpenCV is not part of this model. The image is an input. Left out:
  - `imread` and its failure, `resize`, `threshold`, `findContours` and
    `boundingRect`;
  - the debug drawing and image of `read_answers` and `process_gabarito`.
- openpyxl is not part of this model. Rows are sequences of cells and fills
  are an enumeration. The workbook object, its styles, `save` and the
  printed message are left out.
- Flask and the file system are not part of this model. Left out:
  - routing, form and JSON decoding, and `makedirs`;
  - the file handle, encodings, `file.save`, `send_file` and logging.
  The key file is its text, and the uploads are their file names.
- `secure_filename` (app.py:64) is a library call outside this model. The
  upload check stops at the name test.
- `run_correction_parallel`, which app.py imports and calls, is not defined
  in corretor.py. The model has the sequential `run_correction`.
- Floating point is not modelled. Weights, totals, window means and the grid
  interpolation are exact. A weight is kept as the numeral `str` wrote and
  `float` read.
- `Decimals.ParseFloat` models `float` only on plain decimal numerals:
  surrounding whitespace, a sign, and digits with at most one point. It does
  not accept exponents, `inf`, `nan`, underscores or non-ASCII digits.
  `Decimals.Format`, standing for `str` of a number, writes no exponent form.
- `Text.Lower` lowers ASCII letters only.
- `Sampling.ReadBinaryValue` requires at least one point, because
  `int("", 2)` raises. Its callers pass six and four points.
- `Grid.ComputeGridCenters` requires rows, cols >= 2, because numpy would
  divide by zero otherwise. The caller uses 18 x 9.
- `Batch.RunCorrection` and `Report.ExportToExcel` require a key the loader
  can build (`ValidKey`). It is the only kind of key the program passes them.
- `Upload.WriteKeyFile` requires only that every listed key has an entry
  (`Writable`). A JSON object always meets this.
- `RoundTrip.KeyFileRoundTrip` holds only for keys that meet all of these:
  - no text holds '|' or a line break;
  - no letter holds ',' or ':';
  - no variant name starts with whitespace;
  - no correct letter ends with whitespace;
  - every variant has a question;
  - every question has an alternative.
  Otherwise a field is cut apart or stripped, a variant with no questions
  writes no line and vanishes, or the line is refused
  (`RoundTrip.NoAlternativesRefused`).
- Where the documentation and the code differ, the model follows the code:
  - the yellow fill for the correct letter needs 0.1 < p < 1 (corretor.py:230),
    not 0 < p < 1;
  - an empty batch still exports the key (corretor.py:260-268) rather than
    raising an error.
