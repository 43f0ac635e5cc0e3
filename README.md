# LFJC answer-sheet processor, modelled in Dafny

`app.py` is a Streamlit page used by a college to turn photographed exam
answer sheets into one PDF, or into an archive of numbered images. The
teacher adds uploaded images to a session list in batches of ten. The
sidebar holds the settings:

- the exam type and date;
- up to three "strip" groups, each a list of question numbers and a ratio;
- a numbering-override text such as `1-5:1, 6-10:41`;
- a skip text such as `2,4-5,7`.

The PDF button sorts the list naturally by file name and numbers each image.
Ordinarily an image takes the next number. An override position takes its
override instead. A skipped position is left out altogether. The button then
flows the scaled images down A4 pages of 2481 × 3507 pixels.

- Page margins are 125 rows at the top of the first page, 110 at the top of
  later pages, and 105 at the bottom.
- Images are 20 rows apart.
- An image that does not fit is cut at the bottom margin. Its next part
  starts on a new page and repeats the last 25 rows of the part before.

The first page carries a two-line header. Every part of an image with a strip
ratio is masked on the left. The image's number is printed on its first part.
Every page gets a rotated "LFJC" watermark. Every page but the first gets its
page number. The archive button walks the list in its current order with the
same numbering rule and saves each numbered image as `<number>.png`. An image
with a positive strip ratio is cropped by that ratio first. Both downloads are
named from the exam type and date, cleaned by `sanitize_filename`.

The project has one module per file:

- `Base`: option and result types, `range`.
- `PyText`: Python's `split`, `strip`, `int()`, `str()` and ASCII `lower`.
- `Parsers`: the three text parsers and the strip mapping.
- `NatSort`: the natural sort key and Python's stable `list.sort`.
- `Numbering`: the numbering decision of both loops.
- `Pagination`: cutting an image and spreading it over pages.
- `Pdf`: the PDF loop.
- `Layout`: where header, labels, watermark and page numbers are drawn.
- `Sanitize`: `sanitize_filename` and the download names.
- `Archive`: the archive loop.
- `Batches`: the session list as a class, and the buttons.

Each loop of the source is a Dafny method with a loop. It is proved equal to
a specification function, and the properties are proved about that function.
The session list is a class field changed by the button methods.

Some things the model cannot compute are parameters:

- pixels;
- font measurements, each an `Option<Box>` where measuring can raise;
- the scaled height of each image;
- whether an image opens;
- Python's `\w` class.

## Model

| member | source | states |
|---|---|---|
| PyText.Split | app.py:191 | `str.split` gives at least one piece, and no piece contains the separator |
| PyText.JoinSplit | app.py:191 | joining the pieces of a split with the separator gives back the text |
| PyText.SplitJoin | app.py:191 | splitting a join of separator-free pieces gives back the pieces |
| PyText.StripLeftShape | app.py:192 | `strip` drops exactly the leading whitespace run: the result is a suffix starting with a non-space |
| PyText.StripRightShape | app.py:192 | `strip` drops exactly the trailing whitespace run: the result is a prefix ending with a non-space |
| PyText.ParseIntToString | app.py:194 | `int(str(n)) == n` for every integer, negative ones included |
| PyText.LowerFolds | app.py:185 | lowering twice is lowering once; with that, the per-character facts that no ASCII capital is left and every other character is kept |
| Base.RangeMembers | app.py:195 | `x` is in `range(a, b + 1)` exactly when `a <= x <= b` |
| Parsers.ParseQnos | app.py:187-198 | the loop of `parse_qnos` returns exactly the list, or the error, that the token-by-token definition gives |
| Parsers.ParseToken | app.py:192-197 | one token: `a-b` is the inclusive range, a bare integer is itself, a blank token adds nothing, anything else raises |
| Parsers.ParseSkipImages | app.py:221-232 | `parse_skip_images` is the same parser as `parse_qnos` |
| Parsers.NumberListFails | app.py:191-197 | a non-empty list fails to parse exactly when one of its tokens is malformed, in both directions |
| Parsers.NumberListRoundTrip | app.py:187-198 | parsing a written-out list of numbers and `lo-hi` ranges gives the numbers they denote, in order, with an empty text giving the empty list |
| Parsers.Numbered | app.py:214-215 | a range override numbers exactly the positions `lo..hi`, position `k` getting `start + (k - lo)` |
| Parsers.Renumber | app.py:214-215 | the `enumerate(range(...))` loop writes exactly the entries of `Numbered` over the map it started from |
| Parsers.WriteTarget | app.py:212-218 | a position part `lo-hi` or `p` writes its entries; a malformed one raises |
| Parsers.ParseOverrideToken | app.py:205-218 | one token: no `:` or a non-integer start number leaves the map alone; more than one `:` raises; otherwise its entries overwrite the map |
| Parsers.ParseMultiNumbering | app.py:200-219 | the loop of `parse_multi_numbering` returns exactly the map, or the error, that the token-by-token definition gives |
| Parsers.OverridesRoundTrip | app.py:200-219 | parsing written-out rules `p:s` and `lo-hi:s` gives the map the rules denote, later rules overwriting earlier ones |
| Parsers.RulesMapKeys | app.py:204-218 | the positions in the rules' map are exactly the positions some rule covers |
| Parsers.RulesMapLastWins | app.py:214-218 | a position's number is the one given by the last rule covering it |
| Parsers.DroppedTokenIsInert | app.py:206-211 | a token with no `:` or with a non-integer start number can be removed from the text without changing the result |
| Parsers.GetStripMapping | app.py:242-253 | the loop over the strip groups returns exactly the mapping, or the error, that the group-by-group definition gives |
| Parsers.ParseGroup | app.py:244-246 | a blank group changes nothing, a group whose list fails raises, and otherwise every listed question gets the group's ratio |
| Parsers.AssignAll | app.py:245-246 | the `mapping[q] = ratio` loop assigns the ratio to exactly the listed questions and keeps the other entries |
| Parsers.AssignListsEntries | app.py:242-253 | a question is mapped exactly when it was mapped before or is listed; it gets the ratio of the last group listing it; unlisted entries survive |
| Parsers.StripMappingLastGroupWins | app.py:242-253 | when every list parses, the mapping holds exactly the listed questions, each with the ratio of the last group listing it |
| Parsers.StripMappingFromFails | app.py:242-253 | the mapping fails with the error of the first group whose list fails |
| NatSort.Runs | app.py:185 | `re.split(r'(\d+)', s)` gives at least one piece |
| NatSort.RunsShape | app.py:185 | the pieces alternate between digit-free text and non-empty digit runs; the runs are maximal, so every text piece but the first and the last is non-empty; concatenated they give back the name |
| NatSort.NaturalKeyAlternates | app.py:185 | the key has odd length, with text at even positions and numbers at odd ones |
| NatSort.NaturalKeysComparable | app.py:331 | two natural keys hold elements of the same kind at every shared position, so comparing them never raises `TypeError` |
| NatSort.NaturalKeyIgnoresCase | app.py:185 | lower-casing a name first does not change its key |
| NatSort.KeyLessTransitive | app.py:331 | Python's list `<` on comparable keys is transitive |
| NatSort.KeyLessTotal | app.py:331 | comparable keys that differ are ordered one way or the other |
| NatSort.KeyLessIrreflexive | app.py:331 | no key is less than itself |
| NatSort.BeforeTransitive | app.py:331 | the sort's order on uploads is transitive |
| NatSort.BeforeTotal | app.py:331 | uploads with different keys are ordered one way or the other |
| NatSort.SortBySorted | app.py:331 | `list.sort(key=...)` leaves the list sorted by the key |
| NatSort.SortByPermutes | app.py:331 | the sorted list is a permutation of the input |
| NatSort.SortByStable | app.py:331 | uploads with the same key keep their input order |
| NatSort.SortByNameCorrect | app.py:330-331 | sorting by `natural_sort_key` of the name is sorted, a permutation, and stable |
| NatSort.NumbersCompareAsIntegers | app.py:184-185 | two names that differ only in one digit run, between digit-free text, sort by the runs' integer values |
| NatSort.TwoBeforeTen | app.py:184-185 | `p2` sorts before `p10`, although as plain strings `p10 < p2` |
| Numbering.PdfOutcomes | app.py:333-399 | the PDF loop gives one outcome per upload |
| Numbering.PdfAutoLabelsConsecutive | app.py:327-342 | the automatic labels handed out are consecutive from 1: skips and overrides take no number, and a failed image uses one up |
| Numbering.PdfPlainNumbering | app.py:327-342 | with no override, no skip and every image placeable, the uploads are labelled 1, 2, 3, ... in order |
| Numbering.ZipDecisionsClosed | app.py:498-509 | the archive loop's decision for the `k`-th upload depends on its position alone: its override if it has one, otherwise, when not skipped, one more than the number of earlier positions that took an automatic number, and otherwise a skip |
| Numbering.ZipDecisions | app.py:498-530 | the archive loop gives one decision per upload |
| Numbering.PdfMatchesZip | app.py:498-530 | when every image can be placed, the archive loop's decisions agree upload by upload with the PDF loop's outcomes |
| Numbering.FailureShiftsPositions | app.py:395-399 | an example: after a failed image the PDF loop retries the same position for the next upload, so it labels an image the archive loop skips |
| Pagination.Cuts | app.py:354-363 | an image is cut into at least one part; the first starts at the cursor and at the image's top row |
| Pagination.CutsShape | app.py:354-363 | every part but the last fills the room and overruns it by 25 rows, and the next part starts at row 110 and 25 rows above the cut; the last part fits and ends at the image's foot |
| Pagination.CutsWhole | app.py:356 | an image is cut exactly when it is taller than the room left |
| Pagination.CutsHeights | app.py:360-363 | the parts' heights add up to the image's height plus 25 rows per cut |
| Pdf.RunStrips | app.py:365-371 | every part drawn carries the strip that `strip_mapping` gives its image's number, an unnumbered image's parts repeating the strip of the part before |
| Pagination.SpreadDone | app.py:390-393 | the pages pushed before an image stay unchanged, and one page is pushed per cut |
| Pagination.SpreadCursor | app.py:388 | the cursor ends 20 rows below the image's last part |
| Pagination.SpreadFragments | app.py:354-393 | the document's fragments gain exactly the image's parts, in order |
| Pagination.SpreadNewPages | app.py:390-393 | every page an image starts opens with that image's next part at row 110 |
| Pagination.SpreadPageOpens | app.py:390-393 | an image started on an empty later page at row 110 leaves that page opening with its first part |
| Pagination.CutsInPage | app.py:354-393 | every part of an image cut from a cursor on the page lies between row 110 and 25 rows below the bottom margin |
| Pagination.SpreadInPage | app.py:354-393 | spreading an image keeps every part on its page and the cursor at or below row 110 |
| Pagination.FragsNumbers | app.py:373-385 | an image's parts carry its number exactly once |
| Pagination.NumbersAppend | app.py:387 | the numbers drawn in two runs of fragments are those of each, in order |
| Pdf.Turn | app.py:333-399 | one upload advances the counters as the numbering decision says, and only a placed image changes the pages |
| Pdf.Run | app.py:333-399 | the loop keeps the cursor where the next part can be placed |
| Pdf.RunNumbers | app.py:333-399 | the numbers drawn are those of the placed uploads, in upload order, each once |
| Pdf.DocumentNumbers | app.py:296-401 | the whole document's numbers are those of the placed uploads, from the cursor below the header |
| Pdf.RunPageCount | app.py:387-401 | the loop opens one page per cut: the pages it pushes plus the images it places equal the parts it draws |
| Pdf.DocumentShape | app.py:327-401 | a whole document has one page plus one per part, less one per placed image, and every part carries its image's strip |
| Pdf.RunInPage | app.py:333-401 | no part of any image is drawn off its page |
| Pdf.RunKeepsPages | app.py:333-399 | the loop only appends pages: the pages pushed before it stay as they are |
| Pdf.NothingPlaced | app.py:333-401 | when nothing is placed the document is the header page alone |
| Pdf.PlaceImage | app.py:354-393 | the `while img_to_process` loop ends in exactly the pages and cursor of spreading the image |
| Pdf.CreateDocument | app.py:327-401 | the `for file_info in files` loop and the final push give exactly the pages of the loop's definition |
| Layout.CenterX | app.py:306 | `(A4_WIDTH - w) // 2` centres a width `w` on the page, to within the pixel floor division drops |
| Layout.HeaderLayout | app.py:296-325 | the college name at row 125, centred when measured, else at `W // 4` with 80 rows; the exam line 10 rows below it, centred when measured, else at `W // 3` with 60 rows; the images start 40 rows below it when measured |
| Layout.HeaderBelowLines | app.py:296-325 | the images start below both header lines, and at row 265 when neither line can be measured |
| Layout.LabelText | app.py:375 | the label is the number's text followed by a dot |
| Layout.LabelReadsBack | app.py:375-380 | dropping the dot, the label reads back as its number |
| Layout.LabelOnStrip | app.py:373-384 | with a strip at least 10 pixels wider than the label, the label lies wholly on the strip: it starts at or right of its left edge and ends 10 pixels short of its right edge; without a strip or a measurement it is 10 pixels in; it reads back as its number |
| Layout.Watermark | app.py:404-427 | the rotated watermark is centred, turned by 45 degrees, in black ink of alpha 51; when measuring or rotating raises it is drawn unrotated at (827, 1753) with fill (200, 200, 200, 100), straight onto the RGB page, where the alpha does not blend |
| Layout.PageNumber | app.py:429-443 | page `i` carries `str(i + 1)` exactly when `i > 0`, centred across the page and in the bottom band, or at (1240, 3457) when not measured |
| Layout.MarkPages | app.py:403-444 | the marks loop gives one set of marks per page, page `i`'s being its watermark and page number |
| Layout.PagesNumbered | app.py:403-444 | every page but the first is numbered, page `i` reads back as `i + 1`, and every page has the same watermark |
| Sanitize.SanitizeFilename | app.py:234-240 | the cleaned name is never empty |
| Sanitize.SanitizeClean | app.py:234-240 | the result has no whitespace, does not start or end with `_`, and holds only allowed characters |
| Sanitize.SanitizeFixes | app.py:234-240 | a name already clean is returned unchanged |
| Sanitize.SanitizeIdempotent | app.py:234-240 | sanitising twice is sanitising once, with the class as written and with the class as intended |
| Sanitize.ReplaceKeeps | app.py:235 | after the first substitution every character is allowed |
| Sanitize.CollapseKeeps | app.py:236 | collapsing whitespace runs leaves no whitespace and brings in nothing but `_` |
| Sanitize.TrimLeftShape | app.py:237 | `strip('_')` on the left drops exactly the leading underscores: the result is a suffix not starting with `_`, and every character dropped is `_` |
| Sanitize.TrimRightShape | app.py:237 | `strip('_')` on the right drops exactly the trailing underscores: the result is a prefix not ending with `_`, and every character dropped is `_` |
| Sanitize.OutsideReplaced | app.py:235-239 | a single disallowed character becomes `untitled` |
| Sanitize.SanitizeAsWritten | app.py:235 | the class exactly as written also never gives an empty name |
| Sanitize.PrivateUseKept | app.py:235 | U+E000 survives the class as written, but becomes `untitled` under the intended class |
| Sanitize.OutputStemClean | app.py:473 | the download name, here and for the archive at line 539, is the clean stem `type_date` followed by the extension, and sanitising that stem changes nothing, with the class as written and with the class as intended |
| Archive.EntryNameReadsBack | app.py:522 | an entry's name ends in `.png`, and what comes before reads back as its number |
| Archive.ZipEntries | app.py:501-530 | the archive never has more files than the list has uploads |
| Archive.ZipEntriesSelect | app.py:501-530 | the archive holds, in list order, one entry for each upload that opens and whose decision shows a nonzero number |
| Archive.ZipMatchesPdf | app.py:501-530 | when every image can be placed and no override is 0, the archive's files are numbered exactly as the PDF's questions, in the same order |
| Archive.ZeroOverrideDropped | app.py:509 | an override to 0 is drawn as `0.` in the PDF but writes no archive file |
| Archive.ZipExport | app.py:498-530 | the archive loop gives exactly the entries of its definition |
| Batches.AddOneFacts | app.py:137-142 | one add keeps the list in place and grows it by at most one upload; it keeps the batches in tens by position and the names distinct; afterwards the picked name is in the list and no other name is new |
| Batches.AddedKeeps | app.py:135-142 | adding keeps what was there in place, adds at most one upload per picked file, and numbers the new ones in tens by position |
| Batches.AddedNames | app.py:135-142 | afterwards every picked name is in the list, and every name in it was there before or was picked |
| Batches.AddedDistinct | app.py:137 | the duplicate-name check keeps the names distinct |
| Batches.AddKeepsBatches | app.py:141 | on a list with distinct names and batches in tens by position, adding keeps both |
| Batches.WithoutMembers | app.py:171 | removing a batch keeps exactly the uploads of the other batches |
| Batches.WithoutDistinct | app.py:171 | removing a batch keeps the names distinct |
| Batches.InsertDistinct | app.py:331 | inserting an upload whose name is not in a list of distinct names keeps the names distinct |
| Batches.SortByDistinct | app.py:331 | sorting keeps the names distinct |
| Batches.DocumentFacts | app.py:464-482 | a generated PDF numbers the placed uploads of the sorted list in order; it has one set of marks per page, at least one page, and page numbers on every page but the first; no part is off its page; it has one page plus one per part, less one per placed image; every part carries its image's strip; its file name's stem is clean |
| Batches.Session.constructor | app.py:62-63 | the session starts with an empty list |
| Batches.Session.AddToBatch | app.py:134-142 | the add button's loop leaves the list of the add definition and keeps the names distinct |
| Batches.Session.Clear | app.py:147-149 | the clear button empties the list |
| Batches.Session.RemoveBatch | app.py:170-171 | the remove button keeps exactly the other batches' uploads and the names distinct |
| Batches.Session.GeneratePdf | app.py:465-473 | the PDF button gives the document of its definition, or nothing when a detail is missing or a text fails to parse; the list is left naturally sorted exactly when a document is made; a list with distinct names keeps them |
| Batches.Session.ExportZip | app.py:487-539 | the archive button gives the archive of its definition, or nothing when a text fails to parse, and leaves the list alone |

## Left out

- Pixels are not modelled. This covers PIL and OpenCV decoding, enhancement, resizing, masking, pasting, cropping, rotation, PDF encoding and ZIP writing. An upload records whether it opens and its scaled height at 70% of the content width.
- Each font measurement (`textbbox`) is a parameter that is `None` where it raises. Font loading is left out.
- The label's strip width `int(img_part.width * fraction)` is a parameter of `Layout.Label`.
- Strip ratios are opaque reals. The only comparison with them is the archive's `> 0`. The archive crop `int(width * (1 - ratio))` is recorded as the ratio, not computed.
- The uploaded-files display (lines 153-167) and the grouping of names by batch for that display are left out.
- Streamlit's `rerun`, spinner, success and error messages, and the download buttons are left out.
- The "GENERATE BOTH" button only shows a message, so it is left out.
- The buttons appear only when the list is non-empty. The model allows any list.
- Python's `str.isdigit`, `\d` and `lower` are modelled for ASCII only.
- Python's `int()` is modelled without underscore separators and without non-ASCII digits.
- `\w` is a parameter. Only that it holds of `_` and the ASCII letters and digits is assumed.
- The three strip groups of the sidebar are a sequence of groups of any length, applied in order.
- Two archive entries of the same number overwrite the same file. The model keeps both entries.
- An exception raised mid-way through an image is not modelled, for example a failing crop after some parts are pasted. The model's failure happens when the image is opened, enhanced or resized, before any part is pasted.
- An exception after the sort, such as a failing PDF save, is I/O and is left out. It would leave the list sorted without a document.
- `Pdf.CreateDocument`: requires the start cursor to be at most 20 rows below the top of the bottom margin. Every header whose measured heights are not huge gives one. What the source does from a lower cursor is not modelled.
- `Sanitize.SanitizeFilename`: uses the allowed class as intended, with the third range from U+F900. The program's class starts at U+8C48 (see Findings), so for a name holding a private-use character from U+E000 to U+F8FF the model's download names differ from the program's. `Sanitize.SanitizeAsWritten` and `Sanitize.OutputNameWith` with `AsWrittenStart` give the names as written.
- `Batches.Session.GeneratePdf`: requires the header to leave the cursor on the first page (`HeaderFits`), for the same reason.
- After a batch is removed, the batch numbers handed out later can repeat those of remaining uploads, because they come from the list's length. The model reproduces this. `Batches.AddKeepsBatches` only states the "tens by position" shape for lists no batch was removed from.

Four behaviours of the code a reader may not expect:

- A failed image does not advance the PDF loop's position, because `image_index += 1` is inside the `try`. The archive loop does advance it. See `Numbering.FailureShiftsPositions`.
- In the override text, a token is dropped in two ways only: it has no `:`, or its start number is not an integer. A malformed position or a second `:` raises, and the PDF or archive is not made.
- The strip mask is painted on every part of an image, not only the first.
- The fallback watermark is drawn unrotated. The archive uses the list in its current order, which is the natural order only after a PDF has been made.

## Findings

| source | as written | input that shows it | evidently intended | confidence | as-written member | corrected member |
|---|---|---|---|---|---|---|
| app.py:235 | the third allowed range starts at U+8C48 (the canonical form of U+F900), so it takes in U+8C48 to U+F8FF, including the private-use area | the exam type `"\uE000"` is kept as `"\uE000"` | the range of XML name characters, from U+F900, which would replace U+E000 and give `untitled` | medium; not executed | Sanitize.SanitizeAsWritten, Sanitize.PrivateUseKept | Sanitize.SanitizeFilename, Sanitize.OutsideReplaced |
