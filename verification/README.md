# Deed-record scraper: a verified model of its decision core

`scraper.py` reads a spreadsheet of parcels (a TMS identifier and a county
per row). For each parcel it makes an output folder and drives a browser
through the Charleston or Berkeley county web sites. It captures the
property card, the tax documents and one image per deed reference found in
the parcel's transaction table. Almost all of the file is browser driving.
This project models the part that decides what happens:

- which deed tokens the two extractors take from the transaction table;
- how a token is cut into a book and a page;
- how the page is padded, and what the captures are named;
- what identifier is typed into each search form;
- which downloaded `.pdf` is kept when a page is captured;
- how the batch dispatches rows by county;
- which exception, if any, ends a parcel.

Modules, in dependency order:

- `Results` (results.dfy): `Option`, `Result` and the three faults of the
  deed handling: `BadBookNumber` is the `int()` ValueError, `NoSpaceInToken`
  is the `index` ValueError, `NotTwoParts` is the unpacking ValueError.
- `PyStr` (pystr.dfy): models of the Python operations the core uses:
  `strip()`, `lower()`, `replace('-', '')`, `index`, `split()`, `zfill`,
  `endswith` and POSIX `os.path.join`, with their laws.
- `PyInt` (pyint.dfy): `int(text)` in base 10. It ignores surrounding
  whitespace other than the separators \x1c..\x1f, accepts an optional
  sign, and allows single underscores between digits.
- `DeedTable` (deedtable.dfy): both extractors. Each is a specification
  function (a left fold over the rows) plus the loop as written, proved
  equal to it.
- `DeedRef` (deedref.dfy): the two token splits, `zfill(3)` and the
  `DB {book} {page}` label.
- `Capture` (capture.dfy): `save_current_page`: the polling loop, the `.pdf`
  filter, the newest-by-creation-time choice and the rename target.
- `Navigator` (navigator.dfy): one parcel's observable steps and the fault
  its catch-all ends it with.
- `Batch` (batch.dfy): the `__main__` loop.

### Behaviour of the code worth knowing

- **An `int()` error ends a Charleston parcel.** `int(book_page[1:])`
  (scraper.py:104) raises out of the row loop. The per-parcel `except`
  (scraper.py:145-146) then ends the parcel, so the rows after the failing
  one are never read. Take a table listing `"A285 112"` and `"A100 004"`:
  `int("285 112")` raises, and the parcel ends right after its property
  card, with no tax info and no lookup
  (`Navigator.CharlestonLetterBookScenario`). Berkeley, given the same
  table, looks up book `A285`, page `112`, and captures `DB A285 112`
  (`Navigator.BerkeleyScenarioSplit`, `Navigator.BerkeleyScenarioSteps`).
- **A kept Charleston token that starts with a letter never reaches the
  registry with its book number.** This holds for any such token that ends
  in a non-space. For `int(t[1:])` to succeed, everything after the letter
  must be one number without whitespace, possibly with whitespace in front.
  So either the token has no space and `index(" ")` raises, or the book cut
  at the first space is the letter followed only by whitespace, such as
  `"A"` or `"A\t"` (`Navigator.KeptLetterTokenLosesBookNumber`).
- **Unknown counties still get a folder.** The folder is made before the
  county is looked at (scraper.py:242-243), so a row with an unknown county
  leaves an empty folder behind (`Batch.EveryRowGetsFolder`).

## Model

| member | source | states |
|---|---|---|
| PyStr.Strip | scraper.py:100 | model of `strip()`: the result is empty or begins and ends with a non-space; its properties are in `PyStr.StripIdempotent`, `PyStr.StripIgnoresPadding` and `PyStr.StripOfTrimmed` |
| PyStr.StripIdempotent | scraper.py:100 | stripping a cell twice is stripping it once, so extracted tokens are already stripped |
| PyStr.StripIgnoresPadding | scraper.py:239-240 | whitespace around a cell never changes what `strip()` returns |
| PyStr.StripOfTrimmed | scraper.py:169 | text that begins and ends with a non-space is its own strip |
| PyStr.Lower | scraper.py:240 | `lower()`: same length, and each character is the character of the input with an upper-case ASCII letter replaced by its lower-case form; see `PyStr.LowerMatchesLiteral` |
| PyStr.LowerMatchesLiteral | scraper.py:240 | `s.lower()` equals an all-lower-case literal exactly when `s` equals it up to letter case |
| PyStr.Index | scraper.py:120 | `index(" ")` fails exactly when there is no space; otherwise it is the position of the first space |
| PyStr.Split | scraper.py:197 | model of `split()`: every word is non-empty and whitespace-free; where the words are cut is fixed by `PyStr.SplitWordFirst`, `PyStr.SplitSkipsSpace` and `PyStr.SplitOfBlank`; see also `PyStr.SplitLosesOnlySpace` and `PyStr.SplitTwoWords` |
| PyStr.SplitWordFirst | scraper.py:197 | a word ending at whitespace or at the end of the text is the first word of `split()`, followed by the words of the rest |
| PyStr.SplitSkipsSpace | scraper.py:197 | whitespace in front of the text adds no word |
| PyStr.SplitOfBlank | scraper.py:197 | text that is all whitespace has no words |
| PyStr.SplitLosesOnlySpace | scraper.py:197 | the words of `split()`, concatenated, are exactly the input's non-whitespace characters in order |
| PyStr.SplitTwoWords | scraper.py:197 | two whitespace-free words joined by any run of whitespace split into exactly those two words |
| PyStr.ZFill | scraper.py:121 | `zfill(w)` has length max(w, original); a string already that long is unchanged; otherwise zeros go in front, after a leading sign |
| PyStr.PathJoin | scraper.py:58-60 | model of POSIX `os.path.join` of two parts; its property is in `PyStr.PathJoinRelative` |
| PyStr.PathJoinRelative | scraper.py:242 | joining a relative name under a directory with no trailing '/' gives directory + "/" + name, ending in the name |
| PyInt.ParseInt | scraper.py:104 | model of `int()`: it accepts only text whose strip is non-empty and free of inner whitespace, and that holds none of the separators \x1c..\x1f, which `isspace` counts but `int()` does not skip; its values are in `PyInt.ParseIntOfDigits`, `PyInt.ParseIntOfSigned`, `PyInt.ParseIntIgnoresPadding`, `PyInt.ParseIntOfGrouped`, and what it rejects in `PyInt.ParseIntRejectsForeign`, `PyInt.ParseIntRejectsSeparator` and `PyInt.ParseIntRejectsTwoNumbers` |
| PyInt.ParseIntOfDigits | scraper.py:104 | `int()` of a plain digit string is its decimal value, leading zeros allowed |
| PyInt.ParseIntOfSigned | scraper.py:104 | a sign before a digit string negates or keeps its value |
| PyInt.ParseIntIgnoresPadding | scraper.py:104 | the whitespace `int()` skips (every `isspace` character except \x1c..\x1f) around the number does not change `int()` |
| PyInt.ParseIntRejectsSeparator | scraper.py:104 | a separator \x1c..\x1f anywhere in the text, padding included, makes `int()` raise |
| PyInt.ParseIntOfGrouped | scraper.py:104 | a single underscore between two digit groups is accepted and dropped: `int("2_85")` is 285 |
| PyInt.ParseIntRejectsForeign | scraper.py:104 | a character that is not a digit, a sign, an underscore or whitespace, anywhere in the text, makes `int()` raise |
| PyInt.ParseIntRejectsTwoNumbers | scraper.py:104 | two digit groups separated by whitespace make `int()` raise |
| DeedTable.CharlestonVerdict | scraper.py:103-109 | model of the filter for one token: it keeps only tokens starting with a digit or a letter, and raises exactly on a letter-first token whose rest `int()` rejects; see `DeedTable.CharlestonLeadingCharacter` |
| DeedTable.CharlestonLeadingCharacter | scraper.py:103-109 | a digit-first token is always kept; an empty token, or one starting with neither a letter nor a digit, is dropped; a letter-first token is kept iff `int` of the rest parses and is at least 280 |
| DeedTable.LetterBookThreshold | scraper.py:103-106 | a letter followed by digits is kept iff the number is at least 280, and dropped otherwise |
| DeedTable.LetterBookWithPageRaises | scraper.py:104 | a letter, a digit book, whitespace and a digit page make the filter raise |
| DeedTable.TwoLettersRaise | scraper.py:103-104 | a letter followed by another letter makes the filter raise: `int()` of the rest fails |
| DeedTable.LetterThenSeparatorRaises | scraper.py:103-104 | a letter followed by a separator \x1c..\x1f makes the filter raise, whatever follows |
| DeedTable.CharlestonScan | scraper.py:97-109 | model of the Charleston row loop: at most one token per row, and any fault is the `int()` fault; its properties are in `DeedTable.CharlestonMembership`, `DeedTable.CharlestonOkIffNoRaise` and `DeedTable.CharlestonFirstRaise` |
| DeedTable.CharlestonScanAppend | scraper.py:97-109 | scanning two blocks of rows is scanning each in turn: table order and duplicates are kept, and the first fault wins |
| DeedTable.CharlestonOkIffNoRaise | scraper.py:97-109 | the Charleston scan succeeds iff no data row raises |
| DeedTable.CharlestonFirstRaise | scraper.py:104 | the first raising row ends the scan with its token's fault, whatever follows |
| DeedTable.CharlestonMembership | scraper.py:97-109 | a token is in a successful scan's output iff some data row's stripped second cell is that token and the filter keeps it |
| DeedTable.CharlestonDeeds | scraper.py:95-109 | model of the Charleston extraction: no more tokens than data rows, and a fault only from a present table and only the `int()` fault; see `DeedTable.CharlestonSkipsHeader` and `DeedTable.ExtractCharleston` |
| DeedTable.CharlestonSkipsHeader | scraper.py:96 | the first row of the table is never read |
| DeedTable.ExtractCharleston | scraper.py:93-109 | the loop as written computes the Charleston specification, including the escaping `int()` error and a missing table |
| DeedTable.BerkeleyScan | scraper.py:166-171 | model of the Berkeley row loop: at most one token per row; see `DeedTable.BerkeleyMembership` |
| DeedTable.BerkeleyScanAppend | scraper.py:166-171 | scanning two blocks of rows is scanning each in turn, in table order |
| DeedTable.BerkeleyMembership | scraper.py:166-171 | a token is in the Berkeley list iff some data row's stripped second cell is that token and it is non-empty |
| DeedTable.BerkeleyTokensShape | scraper.py:166-171 | at most one token per row; every token is non-empty and already stripped |
| DeedTable.BerkeleyDeeds | scraper.py:163-171 | model of the Berkeley extraction: no more tokens than data rows; see `DeedTable.BerkeleySkipsHeader` and `DeedTable.ExtractBerkeley` |
| DeedTable.BerkeleySkipsHeader | scraper.py:166 | the first conveyance row is never read |
| DeedTable.ExtractBerkeley | scraper.py:164-171 | the loop as written computes the Berkeley specification |
| DeedTable.CharlestonIsFilteredBerkeley | scraper.py:97-109 | a successful Charleston scan is the Berkeley list of the same rows with the book-number filter applied, in order |
| DeedTable.BookPageCell | scraper.py:98-100 | model of `len(cols) >= 2` and `cols[1].text.strip()`, shared by both extractors (also scraper.py:166-169); its properties are in `DeedTable.ShortRowIgnored` and `DeedTable.OnlySecondCellRead` |
| DeedTable.ShortRowIgnored | scraper.py:99 | a row with fewer than two cells changes neither extractor's result |
| DeedTable.OnlySecondCellRead | scraper.py:100 | replacing a row by one with the same stripped second cell changes neither extractor's result |
| DeedRef.SplitAtFirstSpace | scraper.py:120 | the split succeeds iff the token has a space; then book + " " + page is the token, with no space in the book; otherwise it is the `index` fault |
| DeedRef.SplitInTwo | scraper.py:197 | the unpacking succeeds iff `split()` gives two words; the book is then its first word and the page its second, both non-empty and whitespace-free, together the token's non-space characters; otherwise it is the unpacking fault with the word count |
| DeedRef.SplitInTwoRoundTrip | scraper.py:197 | book, whitespace, page split back into that book and page |
| DeedRef.SplitInTwoRejects | scraper.py:197 | a token without whitespace, or with three or more words, does not unpack |
| DeedRef.PadPage | scraper.py:121 | model of `page.zfill(3)`; its properties are in `DeedRef.PadPageDigits` |
| DeedRef.PadPageDigits | scraper.py:121 | a digit page padded to 3 has length max(3, n), ends with the page, has only '0' before it, keeps its value, and is unchanged when already 3 long |
| DeedRef.DeedLabel | scraper.py:138 | model of the label `f"DB {book} {page}"`; its properties are in `DeedRef.DeedLabelRoundTrip` and `DeedRef.DeedLabelInjective` |
| DeedRef.DeedLabelRoundTrip | scraper.py:138 | the label `DB {book} {page}` reads back into its book and page when the book has no space |
| DeedRef.DeedLabelInjective | scraper.py:222 | two deeds with space-free books get the same label only if they are the same deed |
| Capture.PdfFiles | scraper.py:54 | the filtered listing holds exactly the `.pdf` entries of the listing, and is no longer than it |
| Capture.PdfFilesAppend | scraper.py:54 | filtering two parts of a listing is filtering each in turn, so the `.pdf` files keep their listing order |
| Capture.NewestIndex | scraper.py:58 | `max(key=getctime)` picks a position whose creation time is maximal and is the first one with that time |
| Capture.Newest | scraper.py:57-58 | model of the choice: none iff the listing has no `.pdf`; otherwise a `.pdf` of the listing; see `Capture.NewestIsLatestPdf` |
| Capture.NewestIsLatestPdf | scraper.py:54-58 | there is no choice iff the listing has no `.pdf`; otherwise the choice is a `.pdf` of the listing created no earlier than any other |
| Capture.NewestPicksFreshFile | scraper.py:58 | a `.pdf` created strictly after every other `.pdf` is the one chosen |
| Capture.PdfName | scraper.py:59 | model of `f"{label}.pdf"`; its properties are in `Capture.PdfNameRoundTrip` |
| Capture.PdfNameRoundTrip | scraper.py:59 | the saved name ends in `.pdf` and gives back the label when the suffix is dropped |
| Capture.FirstPdfs | scraper.py:51-55 | model of what `pdf_files` holds when the polling loop ends; its properties are in `Capture.FirstPdfsIsFirstHit` and `Capture.AwaitPdfs` |
| Capture.FirstPdfsIsFirstHit | scraper.py:51-55 | the polling ends empty iff no poll saw a `.pdf`; otherwise it holds the `.pdf` files of the first poll that saw one |
| Capture.AwaitPdfs | scraper.py:51-55 | the polling loop as written computes that first hit |
| Capture.SaveCurrentPage | scraper.py:51-63 | nothing is moved iff no poll saw a `.pdf`; otherwise the file moved is `Capture.Newest` of the first poll that saw one, so `Capture.NewestIsLatestPdf` and `Capture.NewestPicksFreshFile` apply to it, and it goes to `folder/{label}.pdf` |
| Navigator.SearchId | scraper.py:80 | model of `tms.replace('-', '')`: no dash is left and nothing is added; the rest is in `Navigator.SearchIdIsTmsWithoutDashes` |
| Navigator.SearchIdIsTmsWithoutDashes | scraper.py:80 | the typed identifier has no dash, has every other character of the TMS as often as the TMS does, distributes over concatenation, is idempotent, and equals a dash-free TMS |
| Navigator.Splits | scraper.py:119-120 | one split per token, position by position |
| Navigator.LoopOverBounds | scraper.py:119-143 | the deed loop makes at most two steps per token, and its fault is always the fault of a token that did not split |
| Navigator.LoopOverAppend | scraper.py:119-143 | the deed loop over two blocks runs the second block only when the first raised nothing |
| Navigator.LoopOverAllOk | scraper.py:119-143 | when every token splits, the loop raises nothing and makes exactly two steps per token, in token order |
| Navigator.LoopOverFirstErr | scraper.py:119-120 | the first token that does not split ends the loop with its fault, after the steps of the tokens before it |
| Navigator.DeedLoop | scraper.py:196-227 | model of the deed loop: at most two steps per token, and a fault is always the split fault of one of its tokens; see `Navigator.DeedLoopAllSplit` and `Navigator.DeedLoopFirstBad` |
| Navigator.DeedSteps | scraper.py:121-138 | model of one iteration after the split: the lookup with the page padded by `zfill(3)`, then the capture saved as `DB {book} {page}`; its properties are in `Navigator.DeedLoopAllSplit` and `Navigator.DeedLoopOfSplitting` |
| Navigator.DeedLoopAllSplit | scraper.py:119-143 | when every token splits, each token in order gets its lookup with the padded page and then its labelled capture |
| Navigator.DeedLoopFirstBad | scraper.py:196-197 | the first token that does not split ends the deed loop with its fault; earlier lookups are kept |
| Navigator.DeedLoopOfSplitting | scraper.py:196-227 | when every token splits, the deed loop equals the fault-free run of the lookups and captures of its tokens |
| Navigator.RunDeedLoop | scraper.py:119-143 | the deed loop as written computes the deed-loop specification |
| Navigator.CharlestonParcel | scraper.py:66-146 | model of `scrape_charleston`: it always types the PIN and saves the property card first; it saves the tax info iff the table raised nothing; an `int()` fault comes exactly from the table, and any other fault is the `index` fault of the deed loop |
| Navigator.BerkeleyStart | scraper.py:155-191 | the steps before the Berkeley deed loop, in order: the dash-free TMS typed into "tms", the property card, the dash-free TMS typed into "parcelid", the tax bill, then the receipt exactly when its tab is shown |
| Navigator.BerkeleyParcel | scraper.py:149-230 | model of `scrape_berkeley`: the steps before the deed loop are always kept, and any fault is the unpacking fault |
| Navigator.CharlestonParcelOfDeeds | scraper.py:111-143 | when the table raised nothing, a Charleston parcel is the PIN, the card, the tax info and then the deed loop |
| Navigator.NoDeedsCompletes | scraper.py:111-114 | a parcel with no deed tokens completes: Charleston with PIN, property card and tax info; Berkeley with card and bill, and the receipt iff its tab is shown |
| Navigator.CharlestonFaultKeepsCaptures | scraper.py:119-146 | a spaceless Charleston token ends the parcel with the `index` fault, after the card, the tax info and the earlier lookups |
| Navigator.CharlestonAllSplitCompletes | scraper.py:66-146 | a Charleston parcel whose table raises nothing and whose tokens all have a space completes with PIN, card, tax info and each token's lookup and capture |
| Navigator.BerkeleyAllSplitCompletes | scraper.py:149-230 | a Berkeley parcel whose tokens all split in two completes with its start steps followed by each token's lookup and capture |
| Navigator.BerkeleyFaultKeepsCaptures | scraper.py:196-230 | the first Berkeley token that does not split in two ends the parcel with the unpacking fault; the captures before it are kept |
| Navigator.KeptLetterTokenLosesBookNumber | scraper.py:103-120 | a kept letter-first token ending in a non-space either has no space, so `index` raises, or splits to a book that is the letter plus only whitespace |
| Navigator.LetterBookTokenRaises | scraper.py:104 | `"A285 112"` makes the Charleston filter raise |
| Navigator.CharlestonScenarioTable | scraper.py:95-109 | a table listing `"A285 112"` then `"A100 004"` ends the Charleston scan with the fault of `"A285 112"` |
| Navigator.CharlestonLetterBookScenario | scraper.py:66-146 | that parcel ends after the PIN and the property card with the `int()` fault: no tax info, no lookup |
| Navigator.BerkeleyScenarioDeeds | scraper.py:166-171 | Berkeley takes both tokens of the same table, in order |
| Navigator.BerkeleyScenarioSplit | scraper.py:197 | Berkeley splits `"A285 112"` into book `A285` and page `112` |
| Navigator.BerkeleyScenarioSteps | scraper.py:198-222 | that deed is looked up as `A285`/`112` and captured as `DB A285 112` |
| Batch.NormalizeCounty | scraper.py:240 | model of `strip().lower()`: never longer than the cell and free of upper-case letters; see `Batch.NormalizeIgnoresPadding` and `Batch.DispatchIgnoresCase` |
| Batch.ParcelFolder | scraper.py:242 | model of `os.path.join(output_dir, tms)`: it ends with the TMS; see `Batch.FolderUnderOutput` |
| Batch.RowEffects | scraper.py:242-250 | model of one row of the loop; its shape is in `Batch.RowEffectsShape` |
| Batch.Dispatch | scraper.py:245-250 | `"charleston"` selects Charleston, `"berkeley"` selects Berkeley, and exactly the other names select nothing |
| Batch.RunBatch | scraper.py:235-252 | the loop as written makes the output directory, then per row the parcel folder and the scrape or warning, then quits the browser |
| Batch.RowEffectsShape | scraper.py:242-250 | each row makes its folder first, then a scrape iff its county is known, else the warning |
| Batch.RowInRows | scraper.py:238-250 | whatever a row does is part of what the row loop does |
| Batch.EveryRowGetsFolder | scraper.py:242-250 | every row gets its folder, even with an unknown county; a known county gets its scrape and any other gets the warning |
| Batch.RowScrapeCount | scraper.py:245-250 | a row scrapes once if its county is known, otherwise not at all |
| Batch.ScrapesMatchKnownRows | scraper.py:238-252 | the run has exactly as many scrapes as rows with a known county |
| Batch.DispatchIgnoresCase | scraper.py:240-248 | a cell selects Charleston or Berkeley iff, stripped, it equals that name up to letter case |
| Batch.NormalizeIgnoresPadding | scraper.py:240 | whitespace around the county cell changes nothing |
| Batch.FolderUnderOutput | scraper.py:242 | a relative TMS gets the folder `property_records/<tms>` |

## Left out

- Browser driving is not modelled. This covers Selenium, `click_js`, the
  waits, window switching, `driver.get` and `window.print()`
  (scraper.py:29-43, 69-89, 111-117, 122-143, 152-160, 173-227). Those
  calls are assumed to succeed. A `Run` records only the observable steps
  (typed identifiers, captures, registry lookups) and the three deed-handling
  ValueErrors. Other exceptions the catch-alls would swallow are not
  modelled.
- Whether the "View & Print Receipt" tab appears is an input (`receiptShown`),
  because it depends on the web site (scraper.py:186-191).
- `time.sleep` and the 10-second clock bound (scraper.py:48-55) are not
  modelled: the clock only decides how many polls happen. The listings the
  polls see are given as input, and creation times are `real`.
- The file system and spreadsheet I/O are not performed:
  - `os.listdir`, `os.rename` and `os.makedirs` appear only as values,
    either the rename's source and target or a `MakeDir` effect.
  - `pd.read_excel` is replaced by a sequence of rows.
  - `str(row["TMS"])` of a non-string cell, and the crash a non-string
    county cell would cause, are outside the model.
- BeautifulSoup parsing (scraper.py:91-92, 162-163) is not modelled: the
  table is given as its rows' cell texts, and a missing Charleston table is
  `None`.
- The hard-coded "OLD REAL PROPERTY" book type (scraper.py:200-206) is left
  out, since it is a placeholder with no rule.
- The Charleston disclaimer click (scraper.py:131) is left out, since it is
  browser driving.
- Printed messages are not modelled. Only the unknown-county warning
  appears, as an effect.
- Letters and digits are ASCII only. `isalpha`, `isdigit`, `lower` and
  `int` do not model Unicode letters or digits. Whitespace for `strip()` and
  `split()` is Python's full `isspace` set, including the no-break space that
  `&nbsp;` cells become; `int()` skips the same set except \x1c..\x1f.
- PyInt.ParseInt: does not model the limit of 4300 digits that Python 3.11
  and later put on `int()` of a string (`sys.int_max_str_digits`), because
  the code does not fix its Python version; the model parses any number of
  digits.
- PyStr.Strip: its own contract states only that the result begins and ends
  with a non-space. What it returns for padded or already-trimmed text is
  stated by `PyStr.StripIgnoresPadding`, `PyStr.StripOfTrimmed` and
  `PyStr.StripIdempotent`.
