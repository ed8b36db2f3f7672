# Test-vector manifest and web page, modelled in Dafny

This project models the two programs that keep track of the SKA pulsar-search
test vectors:

- **TestVectorDirectoryParser** walks a directory tree. For every file whose
  name ends with one of the configured extensions, it does one of two things:
  - If the file is known to the manifest, it compares the file's live size
    with the size stored for it.
  - If the file is new, it parses the file name, computes the file's size and
    MD5 digest, and appends a 14-column CSV line to the manifest.
  - It counts the files matched, new and changed, and the sizes in GB.
- **PageBuilder** turns the manifest into an HTML page:
  - one table row per manifest line;
  - a popup `<div>` and a registering script per batch description file
    `Batch_<n>.txt`;
  - the number of rows written wherever the template says `@TOTAL@`.

The model is functional throughout. The manifest is a text. The directory
walk is a sequence of `FileEntry` values (directory, name, size in bits). The
manifest dictionary is a `map`. The batch dictionary is a sequence of entries
in insertion order.

The file system, MD5, the bits-to-GB conversion and Python's `str` of a float
are parameters. They are bundled in a `Host` value and in the file contents
passed in.

`parse` is modelled twice:
- `Scanner.Run` is a fold over the matched files.
- `Scanner.Parse` is the nested loop as written.

The method is proved to compute the fold.

Modules:

| module | file | what |
|---|---|---|
| `Wrappers` | wrappers.dfy | `Option`, `Result` |
| `Strings` | strings.dfy | Python's `split`, `join`, `replace`, `readlines`, `str(int)`, `int(str)` on `seq<char>`, and their algebra |
| `Manifest` | manifest.dfy | the CSV line, `getTestVectorEntry`, the manifest load |
| `Grammar` | grammar.dfy | the file-name grammar read by `record` |
| `Scanner` | scanner.dfy | `WriteAsCSV`, `record`, one step of the scan, the scan, `parse` |
| `ScanFacts` | scan_facts.dfy | what a scan amounts to, stated without the loop |
| `Rescan` | rescan.dfy | running `parse` twice over the same tree |
| `PageBuilder` | page_builder.dfy | popups, `processBatchDirectory`, `createTableData`, `build` |

Behaviour of the code worth knowing:

- **A manifest line without 14 fields aborts the run.**
  `getTestVectorEntry` returns `None` for it, and line 135 unpacks that `None`
  into two names. That raises, and nothing catches it, so the whole `parse`
  stops: `Aborted(..., MalformedManifestLine)`. The line is not skipped.
- **A matched file that `record` cannot handle aborts the run too.** This is
  a name with seven or fewer `_` components, or an output format other than 1
  or 2. `record` returns `None`, and unpacking it at line 213 raises. The
  rows already appended stay in the manifest. The file is not skipped.
- **A stored size column that `int` rejects aborts the run.** This happens at
  line 205.
- **A name can be appended twice.** The comment at
  `TestVectorDirectoryParser.py:118` says each file name should be unique,
  but `parse` never adds a new name to its
  dictionary. So a file matched twice is written twice: once for each of two
  extensions it ends with, or when the walk lists the name in two directories
  (`ScanFacts.DuplicateWrittenTwice`).
- **A file whose digest cannot be read is counted, not skipped.** It is
  counted in the total with 0 GB and is neither new nor changed.

## Model

| member | source | states |
|---|---|---|
| Strings.SplitThenJoin | main/src/TestVectorDirectoryParser.py:473 | joining the parts of `line.split(',')` with the separator gives the line back |
| Strings.JoinThenSplit | main/src/TestVectorDirectoryParser.py:473 | splitting a join of separator-free parts gives exactly those parts back |
| Strings.SplitPartsAvoid | main/src/PageBuilder.py:204 | no part of a split holds the separator or any character the text avoids |
| Strings.ReplaceAbsent | main/src/TestVectorDirectoryParser.py:278 | `replace` leaves a text without the pattern unchanged |
| Strings.ReplaceFirst | main/src/PageBuilder.py:253 | when no match starts before the first pattern, `replace` puts the replacement there and carries on after it |
| Strings.ParseIntOfNat | main/src/TestVectorDirectoryParser.py:205 | `int(str(n)) == n` for every size written |
| Strings.ParseIntIgnoresSpace | main/src/TestVectorDirectoryParser.py:205 | `int` reads the same value, or fails the same way, whatever white space is added before and after the text, each side independently |
| Strings.NatToString | main/src/PageBuilder.py:253 | `str` of a count is a non-empty run of digits |
| Strings.ReadLinesSpec | main/src/Common.py:262 | `readlines` pieces concatenate to the text; there are none exactly for the empty text; each piece holds at most a final newline; every piece but the last ends with one |
| Strings.ReadLinesAppend | main/src/Common.py:262 | reading a text that ends with a newline, followed by more text, reads the two parts one after the other |
| Strings.ReadLinesOfConcat | main/src/Common.py:262 | newline-terminated lines read back as the same lines |
| Manifest.GetTestVectorEntry | main/src/TestVectorDirectoryParser.py:450-513 | an entry exactly when the line has 14 comma-separated fields; the key and the 13 values joined by commas are the line |
| Manifest.CsvSplit | main/src/TestVectorDirectoryParser.py:398-400 | a clean record's line splits into its 14 columns, the MD5 column keeping the newline |
| Manifest.CsvLineIsLine | main/src/TestVectorDirectoryParser.py:398-400 | a clean record's line is one line ending with a newline |
| Manifest.CsvRoundTrip | main/src/TestVectorDirectoryParser.py:398-400 | `getTestVectorEntry` of a written line gives the file name and the 13 stored columns; column 10 parses back to the size in bits |
| Manifest.NatTextIsClean | main/src/TestVectorDirectoryParser.py:400 | `str` of the size holds no comma or newline |
| Manifest.LoadFrom | main/src/TestVectorDirectoryParser.py:131-138 | the load fails exactly when some line lacks 14 fields, and reports such a line; keys only grow; every value has 13 columns |
| Manifest.LoadFromSpec | main/src/TestVectorDirectoryParser.py:131-138 | the loaded keys are the old keys and the line keys; a key's value comes from its last line; an untouched key keeps its value |
| Manifest.LoadFromAppend | main/src/TestVectorDirectoryParser.py:131-138 | loading two runs of lines is loading the first, then the second on top, or the first failure |
| Manifest.LoadWrittenLines | main/src/TestVectorDirectoryParser.py:131-138 | loading lines written for clean records stores each record's columns under its file name, in order |
| Manifest.AbsorbKeys | main/src/TestVectorDirectoryParser.py:138 | after storing records, the keys are the old keys and the record names |
| Manifest.AbsorbRecordValue | main/src/TestVectorDirectoryParser.py:138 | a record name maps to the stored columns of the last record of that name, as repeated dictionary assignment leaves it |
| Manifest.AbsorbOtherValue | main/src/TestVectorDirectoryParser.py:138 | a key that no record names keeps its value |
| Manifest.AbsorbWellFormed | main/src/TestVectorDirectoryParser.py:138 | storing written rows keeps every value at 13 columns |
| Manifest.AppendThenLoad | main/src/TestVectorDirectoryParser.py:402 | appending clean rows to a newline-terminated manifest and loading it again gives the old dictionary with the rows stored on top |
| Manifest.StoredSize | main/src/TestVectorDirectoryParser.py:199-205 | the stored columns of a written row are 13, and column 10 parses to the size |
| Grammar.ParseName | main/src/TestVectorDirectoryParser.py:265-269 | no fields exactly when the name has 7 or fewer `_` components |
| Grammar.ParseNameAvoids | main/src/TestVectorDirectoryParser.py:265-320 | every field holds only characters of the name, besides the `_` of the profile id |
| Grammar.StripFilKeeps | main/src/TestVectorDirectoryParser.py:278 | `replace('.fil', '')` keeps a text without a dot |
| Grammar.StripFilSuffix | main/src/TestVectorDirectoryParser.py:278 | `replace('.fil', '')` removes the extension of a dot-free stem |
| Grammar.SplitFileName | main/src/TestVectorDirectoryParser.py:265 | a conventional name splits into its components, the extension glued to the last |
| Grammar.NameRoundTrip | main/src/TestVectorDirectoryParser.py:265-320 | parsing a conventional `.fil` name gives back its fields and the profile id `Pulsar_Freq[_Index]` |
| Grammar.ExtraComponentProfile | main/src/TestVectorDirectoryParser.py:265-320 | a conventional name with one more component after the index (ten in all) gives the pulsar alone as profile id and the eighth component as frequency, other fields as generated |
| Grammar.ForeignExtensionKept | main/src/TestVectorDirectoryParser.py:278 | with an extension other than `.fil`, the frequency column and the profile id keep the extension |
| Scanner.PathJoin | main/src/TestVectorDirectoryParser.py:187 | the joined path ends with the file name |
| Scanner.WriteAsCsv | main/src/TestVectorDirectoryParser.py:382-414 | a row is appended exactly for a positive size and a readable digest, and then `(True, GB of the size)` is returned with a row holding the name, the fields in column order, the path, the parent, the size in bits, `str` of the GB figure and the digest; otherwise the GB figure is 0 |
| Scanner.Record | main/src/TestVectorDirectoryParser.py:245-333 | `None` exactly for 7 or fewer components or a format other than 1 and 2; otherwise `WriteAsCSV`'s outcome, with the row carrying name, size, path and parent, and the GB the host computes |
| Scanner.RecordOfConventionalName | main/src/TestVectorDirectoryParser.py:265-325 | the row written for a conventional `.fil` name carries the vector's columns and profile id |
| Scanner.RecordEntryClean | main/src/TestVectorDirectoryParser.py:398-400 | a row written for a file with clean directory and name is clean |
| Scanner.RecorderOfSound | main/src/TestVectorDirectoryParser.py:213 | `record` writes only for a positive size, names the file, and reports the host's GB |
| Scanner.Step | main/src/TestVectorDirectoryParser.py:181-220 | each matched file adds one to the total. It halts exactly on an unparsable stored size or a `None` from `record`. A known file never writes and counts as changed exactly when its size drifted. A new file never changes and counts as new exactly when a row was appended |
| Scanner.ScanFrom | main/src/TestVectorDirectoryParser.py:172-220 | counters only grow; rows appended equal new files; a completed scan counts every match; no halt is a manifest error |
| Scanner.Filter | main/src/TestVectorDirectoryParser.py:176-181 | the matches are the walk's files that end with the extension |
| Scanner.Matches | main/src/TestVectorDirectoryParser.py:172-181 | a file is matched exactly when it ends with one of the extensions |
| Scanner.Run | main/src/TestVectorDirectoryParser.py:82-241 | it aborts with a manifest error exactly when the load fails, having written nothing; there is no scan exactly for a missing directory; a completed run counts every match, with as many rows as new files |
| Scanner.Parse | main/src/TestVectorDirectoryParser.py:82-241 | the nested loop over extensions and walk computes `Run` |
| ScanFacts.WrittenProvenance | main/src/TestVectorDirectoryParser.py:211-220 | each written row is for a name the manifest did not know, with a positive size, and is the row `record` built for a matched file of that name |
| ScanFacts.StepWrites | main/src/TestVectorDirectoryParser.py:211-220 | a step appends exactly the row its file writes |
| ScanFacts.ScanWrites | main/src/TestVectorDirectoryParser.py:172-220 | a scan appends exactly `Written`, the rows the matched files write, or a prefix of them when it halts |
| ScanFacts.StepGB | main/src/TestVectorDirectoryParser.py:201-220 | a step adds the GB of its row to the new-GB figure, and at least that much to the total |
| ScanFacts.ScanGB | main/src/TestVectorDirectoryParser.py:172-220 | new GB is the sum over the rows appended and, for non-negative sizes, never exceeds the total GB |
| ScanFacts.StepChanges | main/src/TestVectorDirectoryParser.py:190-210 | a step adds its file to the changed entries and the count exactly when it drifted, with the stored columns |
| ScanFacts.ScanChanges | main/src/TestVectorDirectoryParser.py:172-210 | the changed entries are the drifted names with their stored columns, and the count counts every drifted match |
| ScanFacts.RunSummary | main/src/TestVectorDirectoryParser.py:82-241 | a completed run, in full: rows, new count, new GB, changed entries and changed count, each against its loop-free definition |
| ScanFacts.DuplicateWrittenTwice | main/src/TestVectorDirectoryParser.py:172-220 | a new file matched twice, by two extensions or twice in the walk, is written twice |
| ScanFacts.ScanRunsThrough | main/src/TestVectorDirectoryParser.py:190-220 | a scan completes exactly when every matched file proceeds: a known file's stored size parses, and `record` returns for a new file |
| ScanFacts.WrittenNone | main/src/TestVectorDirectoryParser.py:211-220 | no row is written when no matched file writes one |
| ScanFacts.WrittenHas | main/src/TestVectorDirectoryParser.py:211-220 | every new file `record` writes has its row among the written ones |
| ScanFacts.DriftAgrees | main/src/TestVectorDirectoryParser.py:205-210 | two manifests on which the same matches drift give the same count and names |
| Rescan.NewNameStored | main/src/TestVectorDirectoryParser.py:398-402 | a name the first run stored holds the size of every matched file of that name |
| Rescan.KnownNameKept | main/src/TestVectorDirectoryParser.py:190-210 | a name already known keeps its stored columns, since no row is written for it |
| Rescan.RescanFile | main/src/TestVectorDirectoryParser.py:190-220 | against the grown manifest, each matched file proceeds, writes nothing, and drifts exactly as before |
| Rescan.RescanFiles | main/src/TestVectorDirectoryParser.py:190-220 | the same, for every matched file at once |
| Rescan.WrittenRowsClean | main/src/TestVectorDirectoryParser.py:398-400 | rows written for a clean walk and host are clean |
| Rescan.GrownManifestLoads | main/src/TestVectorDirectoryParser.py:131-138 | the manifest a completed run grew loads to the old dictionary with the written rows stored on top |
| Rescan.RescanWritesNothing | main/src/TestVectorDirectoryParser.py:172-220 | a second scan against the grown dictionary completes and writes no row |
| Rescan.RescanSameChanges | main/src/TestVectorDirectoryParser.py:190-210 | a second scan reports the same total, changed count and changed entries |
| Rescan.RescanIsIdempotent | main/src/TestVectorDirectoryParser.py:82-241 | the second run over the same tree completes, appends nothing, leaves the manifest as it is, and reports the same total and changed files |
| PageBuilder.BuildBatchPopup | main/src/PageBuilder.py:431-489 | `''` exactly for a missing name or one without two parts; otherwise it opens the `batch_pop_<n>` div, holds the title and the text in a code block, closes its own popup and ends with `</div>` |
| PageBuilder.BuildBatchPopupScript | main/src/PageBuilder.py:493-537 | `''` under the same condition; otherwise it registers `'#batch_pop_<n>'` with the transition and scroll-lock options |
| PageBuilder.BatchNameRoundTrip | main/src/PageBuilder.py:464-470 | `Batch_<n>.txt` splits to `Batch` and `n`, so it names a batch |
| PageBuilder.ExtraUnderscoreNoPopup | main/src/PageBuilder.py:464-489 | `Batch_a_b.txt` gets neither popup nor script |
| PageBuilder.Lookup | main/src/PageBuilder.py:409 | the entry found has the name; nothing is found exactly when no entry has it |
| PageBuilder.VisitFacts | main/src/PageBuilder.py:400-423 | one file counts when it is a batch file, keeps the names distinct and adds only batch files |
| PageBuilder.GatherFrom | main/src/PageBuilder.py:391-423 | the count is the number of batch files; names stay distinct; only batch files are added |
| PageBuilder.ProcessBatchDirectory | main/src/PageBuilder.py:364-427 | the same, from an empty dictionary |
| PageBuilder.VisitLookup | main/src/PageBuilder.py:409-423 | what one file does to one name: an entry stays; an absent batch file name with text gets its entry |
| PageBuilder.LookupAppend | main/src/PageBuilder.py:423 | adding an entry at the end changes only the lookup of a name that was absent |
| PageBuilder.GatherLookup | main/src/PageBuilder.py:391-423 | gathering, name by name: an entry stays; otherwise a batch file name gets the entry of its first file with text |
| PageBuilder.BatchDirectoryLookup | main/src/PageBuilder.py:364-427 | a name has an entry exactly when it is a batch file name and some file of that name has text; the first such file's popup and script are kept |
| PageBuilder.RowCellsShow | main/src/PageBuilder.py:319-358 | twelve cells, each showing its column's field; the image path is in the profile cell and the path in the file cell; the batch cell is the popup link exactly when the dictionary has `Batch_<b>.txt` |
| PageBuilder.CreateTableData | main/src/PageBuilder.py:271-360 | the row is `<tr>`, the twelve cells in column order (each showing the field `RowCellsShow` names), `</tr>`; it holds every cell and every shown field |
| PageBuilder.LinkOpensPopup | main/src/PageBuilder.py:326-334 | the batch cell's link, the popup and the script agree on the id `batch_pop_<b>` |
| PageBuilder.ReadFile | main/src/Common.py:240-275 | lines exactly for a present, non-empty file; they concatenate to its text |
| PageBuilder.RowsHtmlSnoc | main/src/PageBuilder.py:219-221 | one more line appends its row after the rows so far |
| PageBuilder.BuildRows | main/src/PageBuilder.py:181-224 | no rows exactly when some line lacks 14 fields; otherwise the rows of all lines in order, and their number |
| PageBuilder.Build | main/src/PageBuilder.py:130-267 | a page exactly for a present, non-empty manifest whose every line has 14 fields; the page is the fragments, the rows, the popups and the script with `@TOTAL@` replaced, and the count is the number of lines |
| PageBuilder.TotalShown | main/src/PageBuilder.py:246-253 | the row count appears where the top fragment has its first `@TOTAL@` |
| PageBuilder.WrittenManifestRenders | main/src/PageBuilder.py:165-214 | a manifest written by the parser reads back as its lines; every line has 14 fields; the fields are the record's columns, with the MD5 keeping the newline |

## Left out

- MD5 and `generate_file_md5`'s chunked reading: the digest is `host.md5Of(path)`. `None` stands for the exception `WriteAsCSV` catches.
- `DataConversions.convertBitToByte` and `str` of a float: they are `host.toGB` and `host.showGB`. Floating point is not modelled, and the GB figures are `real`.
- `Common.file_size_bits`: it is the `bits` of each `FileEntry`. That is 0 when the path is not a regular file, as the source returns.
- `os.walk`, `os.path.isfile` and the order of the walk: the walk is an input sequence, in the order the walk yields.
- Printing, timing (`datetime`), and the `iteritems` loop that prints changed files.
- `append_to_file` failing: appends are modelled as succeeding. The text after a run is the old text followed by the appended lines (`Scanner.ManifestAfter`).
- `WriteAsJSON`: it only calls `WriteAsCSV`, so format 2 is modelled as format 1.
- `CreatePulseProfilePng`, the two `App` entry points, and the HTML fragment files. The fragments are a `Fragments` parameter of `Build`. A missing fragment, which the source reads as `None` and concatenates with a `TypeError`, is not modelled.
- Deleting the old page and writing the new one: `Build` returns the page text.
- The order of Python 2 dictionary iteration over `batch_info`: the model uses insertion order.
- `int` on unusual text: `Strings.ParseInt` accepts surrounding whitespace, an optional sign, and one or more ASCII digits. It does not model Python 2 accepting whitespace between the sign and the digits, or non-ASCII digits.
- Rescan.RescanIsIdempotent: it assumes the manifest is empty or ends with a newline. Otherwise the first appended line would merge with the last stored one.
- Rescan.RescanIsIdempotent: it also assumes no directory, file name, digest or GB text holds a comma or newline, and that files of one name have one size.
- PageBuilder.BuildBatchPopup: states the opening div, the title, the code block, the close button's call and the closing tag, not the exact concatenation of its nine pieces.
- PageBuilder.BuildBatchPopupScript: states the first line, both options and the closing line, not the exact text.
