# URL size reporter — a verified model of its core

The tool reads a list of URLs from one of two inputs: a column of an Excel
workbook (`.xlsx`), found by its header, or a WordPress export (WXR, `.xml`).
It sends a HEAD request to each URL, falling back to a one-byte ranged GET, to
learn its HTTP status and size. The results go into a new workbook with one
row per URL: the URL as a link, the file name without extension and its
length, the extension, the size in MB and the status. While it runs, a
watcher probes the network. It holds back new requests while the network is
down and, after repeated failures, asks the user whether to retry or cancel.

This Dafny project models that core in six modules. Each module follows one
source file or one part of one.

- `Writer` (`writer.dfy`) models `src/writer.py`:
  - the URL helpers;
  - `excel_quote` and `xml_sanitize`;
  - XML text escaping;
  - the `XlsxBuilder` class, whose worksheet is laid out as rows of typed
    cells (references, styles, escaped texts, formulas) and whose hyperlink
    records and relationships part are built from the same list.
- `Reader` (`reader.dfy`) models `src/reader.py`:
  - the extension tests;
  - column letters;
  - cell text selection;
  - header lookup and column extraction on an opened workbook;
  - the WXR item scan, the `http`/`https` filter and the order-keeping
    de-duplication.
- `Probe` (`probe.dfy`) models `src/internet_connection.py`:
  - the connectivity check over its four endpoints;
  - `_safe_url`;
  - the status and size decision of `status_and_size_mb`, over the outcomes
    of its HEAD and GET requests.
- `Run` (`run.dfy`) models the run bookkeeping of `src/gui.py`:
  - the free save path;
  - the ETA text and the percentage;
  - `fetch_one`;
  - the dispatch loop with its in-flight set, result slots and counter;
  - handing the results to the builder.
- `NetWatch` (`netwatch.dfy`) models the connectivity watcher `net_watch` of
  `src/gui.py` as a state machine driven by probe outcomes, dialog answers and
  the cancel button.
- `Text`, `UrlParse` and `Wrappers` model the parts of Python's library that
  the core relies on:
  - `str.lower`, `str.strip` and `str.isdigit`, decimal rendering;
  - `os.path.splitext` and `posixpath.basename`;
  - `urllib.parse.quote` and `unquote` over UTF-8;
  - an `Option`/`Result` pair for `None` and raised errors.

Requests, answers and file contents are inputs to the model. The model does
no I/O.

## Model

| member | source | states |
|---|---|---|
| Writer.UrlExtension | src/writer.py:17-24 | `url_extension`: the lower-cased extension of the last path segment without its dot, `""` when `urlparse` raised |
| Writer.UrlExtensionShape | src/writer.py:17-24 | the extension has no leading dot, no other dot or slash, and no upper-case letter |
| Writer.UrlExtensionOfName | src/writer.py:17-24 | for a path ending in `stem.ext` the result is `ext` lower-cased; query and fragment play no part |
| Writer.UrlExtensionNoDot | src/writer.py:17-24 | the result is `""` when the last path segment has no dot |
| Writer.UrlFilenameNoExt | src/writer.py:26-35 | `url_filename_no_ext`: the percent-decoded last path segment without its extension, `""` when `urlparse` raised |
| Writer.FilenameText | src/writer.py:26-35 | the file name is a prefix of the percent-decoded last path segment |
| Writer.FilenameDecodesSegment | src/writer.py:26-35 | when the last segment is the percent-encoding of `seg`, the file name is `seg` without its extension, so decoding happens before the extension is removed |
| Writer.ExcelQuote | src/writer.py:39-42 | `None` gives `""`, and the length grows by exactly the number of quotes |
| Writer.CollapseDoubleQuotes | src/writer.py:39-42 | reading each `""` back as `"` recovers the input |
| Writer.XmlSanitize | src/writer.py:44-52 | the loop's output keeps only tab, LF, CR and the BMP ranges 0x20–0xD7FF and 0xE000–0xFFFD; it is a subsequence of the input and equals the filter function |
| Writer.Sanitized | src/writer.py:44-52 | the characters `xml_sanitize` keeps, in their order: tab, LF, CR and the ranges 0x20–0xD7FF and 0xE000–0xFFFD |
| Writer.SanitizedValid | src/writer.py:44-52 | every character kept is a valid XML character |
| Writer.SanitizedSubsequence | src/writer.py:44-52 | the result is a subsequence of the input |
| Writer.SanitizedClean | src/writer.py:44-52 | a clean string is left as it is |
| Writer.SanitizedIdempotent | src/writer.py:44-52 | sanitizing twice is sanitizing once |
| Writer.XmlEscape | src/writer.py:11 | the escaped text holds no `<` or `>` and is no shorter than the input |
| Writer.UnescapeEscape | src/writer.py:11 | unescaping the escaped text (`&amp;`, `&lt;`, `&gt;`) gives the text back |
| Writer.XmlEscapeAttr | src/writer.py:161-165 | the escape for attribute values also leaves no `"` |
| Writer.UnescapeEscapeAttr | src/writer.py:161-165 | the attribute escape round-trips too |
| Writer.AttrValueEscapeAttr | src/writer.py:161-165 | an attribute written with the attribute escape reads back as the text |
| Writer.AttrValueEscapeCut | src/writer.py:161-165 | with the text escape, an attribute value holding `"` reads back cut at the quote |
| Writer.PixelsToColWidth | src/writer.py:54-55 | the width is never negative, is 0 exactly for 5 pixels or fewer, and otherwise is `(pixels - 5) / 7` |
| Writer.CellRef | src/writer.py:120-140 | a cell reference is the column letter followed by the row number in decimal |
| Writer.CellRefInjective | src/writer.py:120-140 | distinct cells get distinct references |
| Writer.Rid | src/writer.py:150 | a hyperlink id is `rIdHL` followed by its number |
| Writer.RidInjective | src/writer.py:150 | distinct numbers give distinct ids |
| Writer.SheetColumns | src/writer.py:74-96 | six column definitions, the i-th covering column i |
| Writer.HeaderRow | src/writer.py:99-109 | the header row is row 1 with six cells in A1..F1 |
| Writer.DataRows | src/writer.py:111-142 | one sheet row per stored row |
| Writer.LayoutStep | src/writer.py:111-142 | the loop over stored rows adds one sheet row, and that row's hyperlink records, per step |
| Writer.DataRowRefs | src/writer.py:111-142 | data row `idx` has six cells in columns A..F of row `idx` |
| Writer.UrlCell | src/writer.py:114-124 | column A of row `idx`: a style-2 cell showing the escaped URL, with a `HYPERLINK` formula when the URL is non-empty and at most 255 characters long |
| Writer.DataRow | src/writer.py:111-142 | the sheet row of one stored row: the URL cell, then the name, its length, the extension, the size and the status |
| Writer.RowLinks | src/writer.py:121-124 | one hyperlink record `(A{idx}, url)` for a non-empty URL over 255 characters, none otherwise |
| Writer.LinksFrom | src/writer.py:111-124 | the hyperlink records of the rows, in row order |
| Writer.SheetOf | src/writer.py:70-155 | the worksheet: `A1:F{n+1}` as dimension and filter, the column widths, the header row and the data rows, and the `<hyperlink>` list |
| Writer.SheetShape | src/writer.py:70-145 | stored row k is sheet row k+2; every cell's reference matches its row and column; `dimension` and `autoFilter` both read `A1:F{n+1}` |
| Writer.UrlLinkedOnce | src/writer.py:114-124 | a non-empty sanitized URL is linked in exactly one way: by a `HYPERLINK` formula or by a hyperlink record; an empty one in neither |
| Writer.FormulaTargetOf | src/writer.py:116-118 | the `HYPERLINK("…")` formula built from the quoted URL names the URL |
| Writer.ReadBackUrl | src/writer.py:114-122 | column A shows the sanitized URL, and its formula, when present, links to that URL |
| Writer.ReadBackRow | src/writer.py:111-142 | columns B, D and F read back as the sanitized name, extension and status; C holds the length; E is an empty style-3 cell exactly when the size is unknown |
| Writer.LinkedRowsSpec | src/writer.py:121-124 | the rows given a hyperlink record are, in increasing order, exactly those whose sanitized URL is longer than 255 characters |
| Writer.LinksFromRows | src/writer.py:111-124 | the i-th hyperlink record is `(A{row}, url)` for the i-th such row |
| Writer.LinkRefsDistinct | src/writer.py:121-124 | no two hyperlink records share a cell |
| Writer.HyperlinkRefs | src/writer.py:147-152 | one `<hyperlink>` per record |
| Writer.Relationships | src/writer.py:157-168 | one relationship per record, with the attribute escape (corrected) |
| Writer.RelationshipsAsWritten | src/writer.py:157-168 | one relationship per record, with the text escape as written |
| Writer.RidsAgree | src/writer.py:147-168 | the i-th `<hyperlink>` and the i-th relationship share the id `rIdHL{i}` (with either escape of the target), ids are distinct, and each `<hyperlink>` points at its record's cell |
| Writer.RelationshipTargets | src/writer.py:157-168 | each relationship target reads back as its URL |
| Writer.RelationshipsAsWrittenCut | src/writer.py:161-165 | as written, a long URL holding `"` is cut in its relationship target |
| Writer.XlsxBuilder.constructor | src/writer.py:63-65 | a new builder has no rows and no hyperlink records |
| Writer.XlsxBuilder.AddRow | src/writer.py:67-68 | appends exactly one row, with `None` or empty fields as `""` and length 0; earlier rows and the hyperlink records are unchanged |
| Writer.XlsxBuilder.SheetXml | src/writer.py:70-155 | builds the sheet from the rows, leaves the rows alone and appends the new hyperlink records to those already kept |
| Writer.XlsxBuilder.Save | src/writer.py:258-270 | writes the fixed parts and the sheet, plus the sheet's relationships part exactly when there are hyperlink records; the relationships are built from the same records with the text escape, as `_sheet_rels_xml` writes them |
| Reader.ExtOf | src/reader.py:21-22 | `_ext_of`: the lower-cased extension, dot included, and `""` for `None` |
| Reader.IsExcel | src/reader.py:24-25 | a workbook path is one whose extension is `.xlsx` |
| Reader.IsXml | src/reader.py:27-28 | an export path is one whose extension is `.xml` |
| Reader.ExtCaseInsensitive | src/reader.py:21-28 | the extension tests ignore letter case |
| Reader.ExtOfName | src/reader.py:21-22 | for `dir/stem.ext` the extension is `.ext` lower-cased |
| Reader.NeverBoth | src/reader.py:24-28 | no path is both a workbook and an XML file |
| Reader.ExcelName | src/reader.py:24-25 | any `stem.xlsx`, in any case, is a workbook |
| Reader.XmlName | src/reader.py:27-28 | any `stem.xml`, in any case, is an XML file |
| Reader.LettersValue | src/reader.py:30-35 | the bijective base-26 value of the capital letters of a string, other characters skipped |
| Reader.LettersToIndex | src/reader.py:30-35 | the loop computes the bijective base-26 value of the letters A–Z, ignoring other characters |
| Reader.LetterDigit | src/reader.py:33-34 | a letter's digit lies in 1..26 |
| Reader.LettersOfIndex | src/reader.py:30-35 | every column number is the value of exactly one letter string |
| Reader.IndexOfLetters | src/reader.py:30-35 | every string of capital letters is the letters of its own value |
| Reader.LettersExamples | src/reader.py:30-35 | `""`=0, `A`=1, `Z`=26, `AA`=27, `AZ`=52, `BA`=53 |
| Reader.DigitsIgnored | src/reader.py:30-35 | trailing row digits do not change the value |
| Reader.AlphaOnly | src/reader.py:96 | keeping only letters never lengthens the reference |
| Reader.LettersIgnoreFilter | src/reader.py:96-97 | dropping non-letters before the conversion changes nothing |
| Reader.ColumnOfRef | src/reader.py:95-97 | the column of a reference like `C12` is its letter's number |
| Reader.SharedTable | src/reader.py:60-67 | one shared string per `si` item, its texts concatenated |
| Reader.CellText | src/reader.py:77-90 | `cell_text`: a shared-string cell reads its entry, an inline string its text, any other cell its value, each `""` when missing |
| Reader.SharedCell | src/reader.py:79-83 | a shared-string cell with index i reads entry i, or `""` when there is none |
| Reader.SharedCellBad | src/reader.py:79-84 | a shared-string cell with a missing or non-numeric value reads `""` |
| Reader.HeaderKeys | src/reader.py:94-99 | one comparison key per header cell |
| Reader.HeaderColumn | src/reader.py:92-103 | the column number of the first header cell whose key is the name's, or the error naming the header |
| Reader.HeaderColumnAt | src/reader.py:93-103 | the header is the first header-row cell whose stripped, lower-cased text is the name's; a missing reference reads as `A1`; no match is the named error |
| Reader.FindHeader | src/reader.py:93-103 | the loop stops at that first match and otherwise raises |
| Reader.RowColumns | src/reader.py:109-112 | one column number per cell of a data row |
| Reader.RowValue | src/reader.py:107-119 | the stripped text of a data row's first cell in the header's column, or `""` |
| Reader.RowValueAt | src/reader.py:107-119 | a data row contributes the stripped text of its first cell in the header's column, or `""` when there is none |
| Reader.CellUnder | src/reader.py:108-119 | the inner loop finds that value |
| Reader.ColumnValues | src/reader.py:106-119 | one value per data row, in row order |
| Reader.ColumnValuesStep | src/reader.py:106-119 | each data row appends exactly its own value |
| Reader.NonEmpty | src/reader.py:120 | the final filter leaves no empty string and never lengthens the list |
| Reader.NonEmptyKeeps | src/reader.py:120 | the filter keeps order and every non-empty value |
| Reader.ExtractColumn | src/reader.py:105-120 | the extraction loop returns the non-empty column values in row order |
| Reader.RelIds | src/reader.py:50-53 | one id per workbook relationship |
| Reader.SheetPath | src/reader.py:56 | the sheet's part name starts with `xl/`, and an `xl/` target is kept as it is |
| Reader.ReadXlsx | src/reader.py:37-120 | what `read_urls_from_xlsx` returns or raises for an opened workbook and a header name |
| Reader.ReadUrlsFromXlsx | src/reader.py:37-120 | the reading method returns exactly the value of the workbook specification: missing sheet, missing relationship, missing part and missing header are errors; no rows gives `[]` |
| Reader.ReadXlsxUrls | src/reader.py:37-120 | every URL read from a workbook is non-empty and stripped |
| Reader.Accept | src/reader.py:129-134 | `add`: nothing for `None` or `""`, else the stripped text when it starts with `http://` or `https://` in any case |
| Reader.AcceptAll | src/reader.py:159-161 | `add` applied to each value in turn |
| Reader.AcceptSpec | src/reader.py:129-134 | `add` keeps at most one value: the stripped text, exactly when it starts with `http://` or `https://` in any case |
| Reader.AcceptAllIdempotent | src/reader.py:129-134 | filtering accepted URLs again changes nothing |
| Reader.AcceptKeeps | src/reader.py:129-134 | an accepted URL passes the filter again unchanged |
| Reader.AcceptAllAppend | src/reader.py:159-161 | filtering two lists of links is filtering each |
| Reader.AcceptAllAccepted | src/reader.py:159-161 | everything the filter keeps is a stripped web URL |
| Reader.TagFieldAsWritten | src/reader.py:151-156 | the tag test as written: `post_type`, `attachment_url`, then any tag ending in `encoded` is the content |
| Reader.TagField | src/reader.py:151-156 | the corrected tag test: only a tag ending in `/content/}encoded` is the content |
| Reader.TagFieldNarrower | src/reader.py:155 | the two tests differ exactly on tags ending in `encoded` but not in `/content/}encoded`, which the source takes for content and the corrected test ignores |
| Reader.ScanFields | src/reader.py:146-156 | the last post type (stripped), attachment URL (stripped) and content text among an item's children, for a given tag test |
| Reader.ScanItem | src/reader.py:146-156 | the loop over an item's children, with the source's `endswith("encoded")` test, records the last post type, attachment URL and content |
| Reader.FieldUrls | src/reader.py:157-161 | the URLs one item adds: its accepted attachment URL when it is an attachment, then the accepted links of its content |
| Reader.ItemUrls | src/reader.py:146-161 | the URLs one item adds under a given tag test |
| Reader.AttachmentFirst | src/reader.py:157-161 | an attachment's accepted URL comes before its content links; any other item adds its content links only |
| Reader.EncodedTags | src/reader.py:155 | the tag test as written takes `excerpt:encoded` for content; the corrected one takes only `content:encoded` |
| Reader.ExcerptFields | src/reader.py:149-156 | as written, a post's empty excerpt overwrites its content |
| Reader.ExcerptHidesContent | src/reader.py:149-161 | as written, a post with content and an empty excerpt yields no URLs |
| Reader.ContentFields | src/reader.py:149-156 | with the corrected test the content is kept |
| Reader.ContentKept | src/reader.py:149-161 | with the corrected test the post yields the accepted links of its content |
| Reader.AllItemUrls | src/reader.py:143-161 | the URLs of every element whose tag ends in `item`, in document order |
| Reader.AllItemUrlsAccepted | src/reader.py:143-161 | every URL gathered from the items is a stripped web URL, under either tag test |
| Reader.Dedup | src/reader.py:166-173 | the de-duplicated list is no longer than its input and has the same members |
| Reader.Deduplicate | src/reader.py:166-173 | the loop with its `seen` set computes exactly that list |
| Reader.DedupDistinct | src/reader.py:166-173 | no URL appears twice |
| Reader.DedupSubsequence | src/reader.py:166-173 | the URLs keep their relative order |
| Reader.DedupOrder | src/reader.py:166-173 | the URLs appear in the order of their first occurrence |
| Reader.ReadWxr | src/reader.py:122-173 | what `read_urls_from_wxr` returns or raises for a path and the parse of the file, under a given tag test |
| Reader.ReadUrlsFromWxr | src/reader.py:122-173 | a non-`.xml` path and a parse error raise their messages; otherwise the result is the de-duplicated URLs of every item in document order, with the source's tag test |
| Reader.ReadWxrUrls | src/reader.py:122-173 | every URL read from an export is a stripped `http`/`https` URL, and none appears twice, under either tag test |
| Reader.PostLost | src/reader.py:143-173 | as written, an export holding one ordinary post yields no URLs |
| Reader.PostKept | src/reader.py:143-173 | with the corrected tag test, the same export yields the accepted links of the post, each once |
| Probe.Answered | src/internet_connection.py:49 | an endpoint answers when its request gives a status from 200 to 399 |
| Probe.FirstAnswer | src/internet_connection.py:44-53 | the first endpoint that answers 2xx/3xx, with none before it answering |
| Probe.FirstAnswerAt | src/internet_connection.py:44-53 | the first answering endpoint is the one with none answering before it |
| Probe.IsInternetOk | src/internet_connection.py:32-53 | true exactly when some endpoint answers 2xx/3xx; it stops right after the first that does, and tries all four otherwise |
| Probe.SafeUrlOf | src/internet_connection.py:56-64 | scheme, host, params and fragment are kept; the input is returned unchanged when parsing raised |
| Probe.SafeUrlDecodes | src/internet_connection.py:60-61 | decoding the encoded path and query gives them back |
| Probe.SafeUrlDelimiters | src/internet_connection.py:60-62 | the encoded path and query are ASCII without spaces; the path has no `?` or `#`, the query no `#` or `/` |
| Probe.SafeUrlKeepsSeparators | src/internet_connection.py:60-61 | `/` stays in the path and `=`, `&`, `?` stay in the query, splitting the encoding around them |
| Probe.DigitHeader | src/internet_connection.py:82-83 | a byte count is read exactly when the header is all digits, and it renders back to the header |
| Probe.DigitHeaderValue | src/internet_connection.py:82-83 | a digit string without a leading zero is the decimal form of its value |
| Probe.RangeTotal | src/internet_connection.py:104-107 | the total is read only from an all-digit text after the last `/` of `Content-Range` |
| Probe.RangeTotalExample | src/internet_connection.py:103-107 | `bytes 0-0/12345` gives 12345 |
| Probe.StatusAndSize | src/internet_connection.py:67-121 | the status text and byte count `status_and_size_mb` decides from the outcomes of its HEAD and its GET |
| Probe.StatusText | src/internet_connection.py:119 | `OK` exactly for code 200, `ERR` exactly when there is no code, otherwise the code as text |
| Probe.StatusAndSizeMb | src/internet_connection.py:67-121 | the step-by-step method returns exactly the decision specification |
| Probe.HeadCodeWins | src/internet_connection.py:77-119 | a HEAD code, an error code included, decides the status; the GET's code counts only when HEAD produced none |
| Probe.GetOnlyWithoutSize | src/internet_connection.py:94-112 | the GET is sent exactly when HEAD gave no size, and only then can the size come from `Content-Range` |
| Probe.GetLengthIgnored | src/internet_connection.py:108-112 | the GET's `Content-Length` never affects the result |
| Probe.SizeFound | src/internet_connection.py:81-120 | the size is unknown exactly when neither byte count was found |
| Probe.SizeMb | src/internet_connection.py:120 | the size in MB is the byte count divided by 1048576, and is `None` exactly without a byte count |
| Run.Candidate | src/gui.py:627-629 | the n-th candidate path is `root_n` followed by the extension |
| Run.Taken | src/gui.py:627 | a path is taken when it or its `.tmp` companion exists |
| Run.CandidateInjective | src/gui.py:627-629 | distinct counters give distinct candidate paths |
| Run.UniqueSavePath | src/gui.py:623-630 | the path returned is free (neither it nor its `.tmp` exists); it is the initial path exactly when that one is free, and otherwise `root_n+ext` for the least n ≥ 2 that is free |
| Run.EtaText | src/gui.py:840-846 | `--:--:--` before anything completed, otherwise `h:mm:ss` of the remaining seconds, negative estimates read as 0 |
| Run.Pad2 | src/gui.py:845 | a two-digit zero-padded rendering of a number below 100 |
| Run.EtaRoundTrip | src/gui.py:840-846 | once something has completed, the text reads back as hours, minutes and seconds below 60 that add up to the remaining seconds |
| Run.EtaUnknown | src/gui.py:838-841 | before anything completed the text is `--:--:--`, which is not a time |
| Run.Percent | src/gui.py:938-945 | 0..100; 100 exactly when total > 0 and completed ≥ total; otherwise the integer part of the percentage |
| Run.PercentMonotone | src/gui.py:938-945 | more completed never shows a smaller percentage |
| Run.FetchOne | src/gui.py:784-798 | the record carries its index, URL, file name, name length and extension; it is `ERR` with no size when cancelled or when probing raised, and otherwise the probe's status and size |
| Run.Filled | src/gui.py:850-856 | the number of filled slots is at most the number of slots |
| Run.FilledUpdate | src/gui.py:825-827 | storing into an empty slot fills exactly one more |
| Run.Seed | src/gui.py:801-808 | the first `min(workers, total)` indices are started |
| Run.Record1 | src/gui.py:818-835 | recording one finished fetch stores `fetch_one`'s record for its own URL in its own slot and counts it; the next URL is started exactly when the cancel flag is off, the network is not being waited for and a URL is left, and at most one is started |
| Run.Record1Bookkept | src/gui.py:818-835 | recording keeps the bookkeeping invariant (slots, in-flight set, counter) and leaves less work pending |
| Run.HandleDone | src/gui.py:818-835 | one round of finished fetches keeps the bookkeeping and makes progress unless cancelled |
| Run.Dispatch | src/gui.py:800-835 | only the first `submitted` URLs are ever started, at least `min(workers, total)`; each filled slot holds exactly the record `fetch_one` returned for its own URL; `completed` counts the filled slots; without cancellation every started URL is recorded |
| Run.WaitingEndsRun | src/gui.py:810-835 | as written, when the last fetch in flight is recorded while the network is being waited for, the loop stops uncancelled with URLs never started |
| Run.TwoUrlsOneWorker | src/gui.py:800-835 | with one worker and two URLs, that happens after the first fetch: the second slot stays empty |
| Run.TopUpKept | src/gui.py:829-835 | when the wait only postpones the next start, the pool stays full, so the loop can stop uncancelled only after every URL was started |
| Run.RowsOf | src/gui.py:850-854 | one builder row per filled slot |
| Run.OkCount | src/gui.py:856-857 | the `OK` results are at most the processed ones |
| Run.RowsOfOrder | src/gui.py:850-854 | the rows keep index order, with empty slots skipped |
| Run.Collect | src/gui.py:850-857 | the builder gets the rows of the filled slots appended in slot order, its hyperlink records untouched; `processed` and `ok_count` are the filled and `OK` counts |
| Run.CountResults | src/gui.py:856-857 | `processed` counts the filled slots and `ok_count` those among them whose status is `OK` |
| NetWatch.Step | src/gui.py:693-774 | one step of `net_watch` on a probe outcome, a dialog answer or the cancel button |
| NetWatch.Run | src/gui.py:693-774 | the watcher's state after a sequence of events |
| NetWatch.Inv | src/gui.py:693-774 | what holds in every state one watcher reaches from the start of its run |
| NetWatch.StartInv | src/gui.py:612-613 | the watcher starts with every flag cleared, which satisfies its invariant |
| NetWatch.StepInv | src/gui.py:693-774 | every step keeps the invariant; cancellation is never undone, and a stopped watcher stays stopped |
| NetWatch.RunInv | src/gui.py:693-774 | the invariant holds after any sequence of events |
| NetWatch.RetryModeOnlyAtDialog | src/gui.py:714-717 | for the watcher of one run, started with the flags cleared, retry mode is on only around the dialog, so that watcher's main loop never sees it set unless another watcher sets it |
| NetWatch.OnlineResets | src/gui.py:699-707 | an online probe clears the failure count, the waiting flag and retry mode |
| NetWatch.OfflineCounts | src/gui.py:709-722 | an offline probe counts one more failure and sets waiting; the countdown starts exactly at the third failure |
| NetWatch.DialogEntry | src/gui.py:714-757 | the dialog opens only after all ten countdown probes failed with three failures counted outside retry mode, or again after a failed retry probe |
| NetWatch.EscalationTimeline | src/gui.py:709-757 | from the start, three failed probes start the countdown and ten more open the dialog |
| NetWatch.CountdownExhausts | src/gui.py:724-747 | a countdown with c probes left opens the dialog after c failed probes |
| NetWatch.CountdownRecovers | src/gui.py:729-745 | a probe that succeeds during the countdown goes back to the main loop with the count and waiting cleared |
| NetWatch.Answers | src/gui.py:758-774 | "cancel" stops the watcher and sets both cancel flags; "retry" enters retry mode with the count cleared, and a successful probe then clears waiting and retry mode |
| NetWatch.NetWatch | src/gui.py:687-774 | the watcher's loop over events ends in the state the step function gives, and that state satisfies the invariant |
| NetWatch.LingeringDialog | src/gui.py:693-777 | as written, a finished run's watcher that is re-probing after "retry" when the next run starts fails its probe and asks again; answering "retry" puts retry mode on under the new watcher's main loop, so three failed probes no longer start its countdown; answering "cancel" cancels the new run |
| NetWatch.StoppedWatcherInert | src/gui.py:693-777 | when the earlier watcher has stopped, the current one runs exactly as a single watcher on its own events and keeps its invariant |
| Text.Lower | src/reader.py:22 | `str.lower` on ASCII: same length, each letter mapped on its own |
| Text.LowerIdempotent | src/reader.py:99 | lower-casing twice is lower-casing once |
| Text.Strip | src/reader.py:132 | `str.strip`: the middle part of the input, with no white space at either end and only white space removed |
| Text.StripIdempotent | src/reader.py:132 | stripping twice is stripping once |
| Text.SplitExt | src/writer.py:21 | `os.path.splitext`: the two parts concatenate to the path, and the extension is empty or a dot followed by no dot or slash |
| Text.SplitExtName | src/gui.py:625 | `dir/stem.ext` splits into `dir/stem` and `.ext` |
| Text.Basename | src/writer.py:20 | the last path segment: no slash, and a suffix of the path |
| Text.AfterLast | src/internet_connection.py:105 | the text after the last separator: no separator, and a suffix of the input |
| Text.Decimal | src/writer.py:112 | the decimal rendering is all digits with no leading zero |
| Text.DecimalRoundTrip | src/writer.py:112 | reading the rendering back gives the number |
| Text.DigitsDecimal | src/internet_connection.py:82-83 | a digit string without a leading zero is the rendering of its value |
| UrlParse.Quote | src/internet_connection.py:60-61 | percent-encoding gives plain ASCII |
| UrlParse.Encode | src/internet_connection.py:60-61 | the UTF-8 encoding `quote` applies first: never shorter than the text |
| UrlParse.Decode | src/writer.py:31 | UTF-8 decoding of the bytes `unquote` collects |
| UrlParse.Unquote | src/writer.py:31 | `unquote`: each run of `%XX` escapes is decoded as UTF-8, other characters are kept |
| UrlParse.DecodeEncode | src/writer.py:31 | UTF-8 decoding of the encoding gives the text back |
| UrlParse.UnquoteQuote | src/writer.py:31 | decoding the percent-encoding gives the text back |
| UrlParse.QuoteAppend | src/internet_connection.py:60-61 | encoding works character by character |
| UrlParse.QuoteAvoids | src/internet_connection.py:60-61 | an ASCII punctuation mark outside the safe set never appears in the encoding |

## Left out

- Networking, threads, sleeping, `after` callbacks and all Tk widgets are not modelled. Request outcomes, dialog answers, the cancel button and the order in which fetches finish are inputs, or are chosen nondeterministically.
- `src/error_checking.py` and the UI parts of `src/gui.py` (layout, windows, message boxes, opening Explorer) are not part of this model.
- ZIP and file I/O are not modelled. This covers reading the archive and the export, writing the workbook, `os.makedirs`, the `.tmp` file and `os.replace`. `Writer.XlsxBuilder.Save` returns the list of parts and their content as values.
- The fixed XML templates (styles, workbook, content types, properties) are not modelled. The UTC timestamp in `docProps/core.xml` is also left out.
- `Writer.XlsxBuilder.SheetXml`: the sheet is modelled as rows of typed cells holding escaped texts, not as one concatenated markup string.
- XML parsing (`ElementTree`, `iterparse`) is not modelled. The href/src regular expression is an input function `hrefs`, and `urlparse` is an input (`Option<UrlParts>`, `None` when it raised).
- `Probe.SafeUrlOf`: `urlunparse`'s reassembly of the parts is not modelled. The result is the parts themselves, with the path and query encoded.
- `Text.Lower`: folds ASCII capitals only. Python's `str.lower()` folds every cased letter of Unicode. `Text.Strip` covers all of Python's Unicode white space.
- `Probe.DigitHeader`, `Text.IsDigits`: only `0`–`9` count as digits. Python's `isdigit` also accepts other Unicode digits.
- `Reader.AlphaOnly`: only ASCII letters count as letters. Python's `isalpha` also accepts other Unicode letters.
- `Text.SplitExt`: only `/` separates path segments. Windows' `\` and drive letters are not modelled.
- `Probe.SizeMb`: the size is exact (a `real`). It is not rounded to two decimals.
- `Writer.PixelsToColWidth`: the width is exact. It is not rounded to two decimals.
- `Run.Percent`: computes `completed * 100 / total` exactly. The source's `int((completed / total) * 100)` goes through a float and can be one lower for some inputs.
- `Run.EtaRoundTrip`: the remaining seconds are an input. The source's float average per item is not modelled.
- `Probe.StatusAndSizeMb`: a HEAD that raised after its status was read counts as `HeadFailed` (no code). The source resets `code` to `None` in that case too; headers that raise while being read are not modelled separately.
- `Run.Dispatch`: `urlparse` and the outcome of each fetch's probe are inputs (`parse`, `probe`), and a recorded slot is `Run.FetchOne` of them for a run that was not cancelled. Several things follow from this:
  - the `net_waiting` pause inside `fetch_one` and at the head of the dispatch loop is not modelled; only the check after each record (`Run.Record1`'s `waiting`) is, as a nondeterministic choice;
  - a round handles at least one finished fetch, because the 50 ms time-out rounds that finish nothing do not change the state;
  - the `i is None` and out-of-range guards of the loop are not modelled, because every result carries its own index in range.
- `Run.Dispatch`: in-flight never exceeds `workers` and indices start in increasing order. Both are kept as loop invariants (`Run.Bookkept`); the method's own `ensures` does not state them.
- `RetryModeOnlyAtDialog`: holds for one watcher only. Watchers that outlive their run are modelled only as a pair (`NetWatch.LingeringDialog`, `NetWatch.StoppedWatcherInert`): one earlier watcher and the current one, with the events of each given separately. Three or more watchers are not modelled. Nor is the sharing of `reconnect_event` and `reconnect_choice`, through which one answer wakes every watcher waiting on a dialog.
- The `max_workers` computation from the CPU count is not modelled; `workers` is an input of at least 1.

## Findings

| source | as written | input that shows it | evidently intended | confidence | as-written member | corrected member |
|---|---|---|---|---|---|---|
| src/writer.py:161-165 | the relationship `Target` attribute is escaped with `xml_escape`, which leaves `"` alone | a URL longer than 255 characters that contains `"`: the quote ends the attribute, so the target read back is cut short (and the part is not well-formed) | escape `"` as `&quot;` in attribute values, so the target reads back as the URL | not executed; high | Writer.RelationshipsAsWrittenCut | Writer.RelationshipTargets |
| src/reader.py:149-161 | any child tag ending in `encoded` is taken as the item's content, and the last one wins | a WordPress post whose `content:encoded` holds `<a href="http://x/a.jpg">` followed by the usual empty `excerpt:encoded`: the excerpt replaces the content and the post yields no URLs | only `content:encoded` is the content, so the post yields `http://x/a.jpg` | not executed; high | Reader.ExcerptHidesContent | Reader.ContentKept |
| src/gui.py:810-835 | a URL is started only when a recorded fetch finds the network not being waited for, and the loop stops once nothing is in flight | one worker, two URLs: the network drops while the first fetch is being recorded, after the check at the loop's head and before the check at 830. Nothing is started, the in-flight set is empty, and the run ends uncancelled without ever fetching the second URL | a wait postpones the next start rather than skipping it, so an uncancelled run starts every URL | not executed; medium (needs the wait flag set in the short window between the checks at 811 and 830) | Run.TwoUrlsOneWorker | Run.TopUpKept |
| src/gui.py:693-777 | a run's watcher stops only on the cancel flag, so after a run that ends normally it goes on probing, sharing the flags with the next run's watcher | after a run ends normally the network drops; its watcher, still probing, opens its dialog and the user answers "retry"; during the re-probe (up to 2.5 s, 765-768) the user starts a new run, which clears the flags at 610-613; the probe fails and the old watcher asks again. Answering "retry" sets retry mode under the new watcher's main loop (the branch at 714-717); answering "cancel" cancels the new run | each run's watcher ends with its run | not executed; low (needs a new run started during the old watcher's re-probe) | NetWatch.LingeringDialog | NetWatch.StoppedWatcherInert |
