# dr-get-dicom: a Dafny model of its decision rules

`dr-get-dicom` finds the DICOM data collected on one date in the iRODS data repository of the
Donders Institute and downloads one representative file per session into a local tree. Around a
concurrent pipeline of goroutines it makes a handful of sequential decisions, and those are what
this project models and proves things about:

- **Catalogue scan** (`CatalogScan`): of the collection names that `iquest` lists, a name that
  contains a series id (three digits followed by `-`) is passed on only if its parent collection
  has not been seen before; every other name is passed on.
- **File selection** (`FileSelection`): of the rows listed for one collection, "no rows found"
  markers are skipped, every zip file is passed on, and the first other file is passed on and
  ends the scan.
- **Download** (`Download`): the local location of a remote object (the local root, the date,
  and what follows the date in the remote name), the relocation of a DICOM `.IMA` file to the
  session folder, the directory creation and transfer steps, and the companion `cmd.sh` file that
  holds the `irsync` command for fetching the rest of the session.
- **Archive extraction** (`ArchiveExtractor`): the choice of an extractor by suffix, and the
  extraction of the first regular file of a gzipped tar archive into the archive's directory,
  after which the archive is removed.

Two supporting modules stand in for the Go library: `Text` (`strings.Index`, `strings.Split`,
`strings.Join`, `strings.HasSuffix`, the series-id regular expression, shell word splitting,
subsequences) and `Paths` (the Unix behaviour of `filepath.Clean`, `Dir`, `Base`, `Ext` and
`Join`, with `Clean` idempotent and the laws of joining a name onto a directory proved).

The sequential loops of the source are methods with loop invariants, each proved equal to a
function (`Kept`, `Selection`, `FirstRegular` / `TgzOutcome`); the properties are proved as lemmas
about those functions. The external world is passed in as values: the lines `iquest` prints, the
outcome of `os.MkdirAll` and of `iget` (`DownloadIo`), the results of opening the archive and the
gzip reader, the decoded tar headers and the result of the copy (`ArchiveIo`). The file system is
a set of file paths that the download and extraction methods take and return.

Behaviour of the code that the model keeps as written:

- The deduplication key is `filepath.Dir(line)`, the parent collection of the series collection.
- The series-id pattern `[0-9]{3}-.*` is not anchored, so it matches anywhere in the line.
- The forwarded lines stay in input order, because the model runs the loops one after the other.
- The location takes `path[i+8:]`, which assumes an eight-character date. With a longer date,
  part of it is copied into the location. With a date that occurs fewer than eight characters
  before the end of the path, the slice is out of range and the program panics (`SliceOutOfRange`
  / `Panicked`).
- A failed `iget` returns the command's error value. That value can be nil, and then
  `downloadDicom` reports success with an empty path (`Done("")`).
- A tar read error other than end of file makes the loop dereference a nil header and panic
  (`Panicked`). The deferred removal of the archive still runs.
- When opening the archive or the gzip reader fails, `downloadDicom` returns before the removal
  is deferred, so the downloaded file stays. This applies to every location that is neither a zip
  file nor an `.IMA` file, not only to `.tar.gz` archives.

## Model

| member | source | states |
|---|---|---|
| Text.IndexOf | src/dccn.nl/cmd/dr-get-dicom/main.go:249 | the result is -1 or a position where the date occurs, and the date occurs at no earlier position |
| Text.HasSeriesId | src/dccn.nl/cmd/dr-get-dicom/main.go:101 | a line matches `[0-9]{3}-.*` exactly when three digits followed by '-' occur somewhere in it |
| Paths.ExtensionOf | src/dccn.nl/cmd/dr-get-dicom/main.go:221 | for an extension e (a dot, then no dots or slashes), `filepath.Ext(s) == e` exactly when s ends with e |
| Paths.JoinName | src/dccn.nl/cmd/dr-get-dicom/archive-extractor.go:69 | joining a plain name b onto a directory a gives a path whose Base is b, whose Dir is Clean(a), and which ends with b |
| Paths.BaseWithExtension | src/dccn.nl/cmd/dr-get-dicom/main.go:258 | a path ending in an extension of two or more characters has a plain base name that ends in that extension |
| Paths.CleanIdempotent | src/dccn.nl/cmd/dr-get-dicom/main.go:258 | cleaning a cleaned path changes nothing, so a path that Dir returns is already clean |
| CatalogScan.DedupCollections | src/dccn.nl/cmd/dr-get-dicom/main.go:100-113 | the loop forwards exactly Kept(lines), and the map holds true for exactly the parent collections of the lines that carry a series id |
| CatalogScan.Step | src/dccn.nl/cmd/dr-get-dicom/main.go:101-113 | a line without a series id is forwarded and leaves the keys unchanged; a series line is forwarded exactly when its parent is new, and its parent is then recorded |
| CatalogScan.KeptIsSubsequence | src/dccn.nl/cmd/dr-get-dicom/main.go:105-113 | the forwarded lines are a subsequence of the input, in input order |
| CatalogScan.KeysOfLines | src/dccn.nl/cmd/dr-get-dicom/main.go:105-108 | a key is recorded exactly when some line read so far has a series id under that parent |
| CatalogScan.KeysOfKept | src/dccn.nl/cmd/dr-get-dicom/main.go:105-109 | the recorded keys are exactly the parents of the forwarded series lines |
| CatalogScan.KeptDistinctKeys | src/dccn.nl/cmd/dr-get-dicom/main.go:101-111 | no two forwarded series lines share a parent collection |
| CatalogScan.KeptPrefix | src/dccn.nl/cmd/dr-get-dicom/main.go:100-113 | reading more lines only appends to what was already forwarded |
| CatalogScan.FirstOfKeyIsNew | src/dccn.nl/cmd/dr-get-dicom/main.go:105 | when no earlier series line has the same parent, that parent is not yet recorded |
| CatalogScan.FirstOfKeyForwarded | src/dccn.nl/cmd/dr-get-dicom/main.go:105-110 | the first series line of each parent is forwarded, directly after what was forwarded for the lines before it |
| CatalogScan.PlainLinesForwarded | src/dccn.nl/cmd/dr-get-dicom/main.go:113 | every line without a series id is forwarded, in order |
| FileSelection.Selection | src/dccn.nl/cmd/dr-get-dicom/main.go:146-161 | no row with `CAT_NO_ROWS_FOUND` is passed on, and every file passed on except the last is a zip file |
| FileSelection.SelectFiles | src/dccn.nl/cmd/dr-get-dicom/main.go:146-161 | the loop, with its `continue` and `break`, passes on exactly Selection(rows) |
| FileSelection.SelectionIsSubsequence | src/dccn.nl/cmd/dr-get-dicom/main.go:146-161 | the files passed on are a subsequence of the rows, in order |
| FileSelection.StopsAtFirstOther | src/dccn.nl/cmd/dr-get-dicom/main.go:148-160 | with a first row s that is neither a marker nor a zip file, the selection is every non-marker row before s (all zip files) followed by row s, and nothing after s |
| FileSelection.AllZipFilesPassed | src/dccn.nl/cmd/dr-get-dicom/main.go:148-155 | when every row is a marker or a zip file, every non-marker row is passed on |
| Download.IsImaFile | src/dccn.nl/cmd/dr-get-dicom/main.go:220-225 | defined as `Ext(path) == ".IMA"`; its meaning as a suffix test is proved in Download.Classification |
| Download.IsZipFile | src/dccn.nl/cmd/dr-get-dicom/main.go:228-233 | defined as `Ext(path) == ".zip"`; its meaning as a suffix test is proved in Download.Classification |
| Download.Classification | src/dccn.nl/cmd/dr-get-dicom/main.go:220-233 | isZipFile and isImaFile hold exactly for the case-sensitive suffixes ".zip" and ".IMA", never both, and neither for ".tar.gz" |
| Download.ExtractorAgrees | src/dccn.nl/cmd/dr-get-dicom/main.go:275-287 | GetDicomExtractor picks Zip exactly for zip files, picks Tgz only for files that are neither zip nor IMA, and ignores IMA files |
| Download.Relocate | src/dccn.nl/cmd/dr-get-dicom/main.go:258 | defined as `Join([Dir(Dir(loc)), Base(loc)])`; its properties are proved in Download.RelocateIma |
| Download.RelocateIma | src/dccn.nl/cmd/dr-get-dicom/main.go:255-259 | relocating an IMA location keeps its base name and its extension, and its directory becomes the parent of the old directory |
| Download.LocalLocation | src/dccn.nl/cmd/dr-get-dicom/main.go:249-259 | no location exactly when the date does not occur; a panic exactly when it occurs fewer than eight characters before the end; otherwise Join(ddir, date, path[i+8:]), relocated one level up for an IMA file, with the zip and IMA classification unchanged |
| Download.CommandFile | src/dccn.nl/cmd/dr-get-dicom/main.go:357 | the command file is named cmd.sh and sits directly in the cleaned destination directory |
| Download.MakeDownloadCmd | src/dccn.nl/cmd/dr-get-dicom/main.go:354-365 | the file is destDir/cmd.sh and its text ends with a space and the destination |
| Download.CommandWords | src/dccn.nl/cmd/dr-get-dicom/main.go:361 | for paths without spaces the text has exactly the four words irsync, -r, i:<source>, <destination> |
| Download.DownloadDicom | src/dccn.nl/cmd/dr-get-dicom/main.go:246-333 | every exit: unknown path, panic, mkdir error, failed transfer, zip and IMA files kept with their companion file, and otherwise the tar extraction with its result, files and companion file |
| ArchiveExtractor.GetDicomExtractor | src/dccn.nl/cmd/dr-get-dicom/archive-extractor.go:22-30 | Tgz exactly for ".tar.gz" paths, Zip exactly for ".zip" paths, Ignore otherwise |
| ArchiveExtractor.FirstRegular | src/dccn.nl/cmd/dr-get-dicom/archive-extractor.go:59-78 | the index of the first regular header, every header before it not regular, or the number of headers when none is regular |
| ArchiveExtractor.FirstRegularSkips | src/dccn.nl/cmd/dr-get-dicom/archive-extractor.go:64-66 | headers that are not regular files in front of a stream are passed over |
| ArchiveExtractor.FirstRegularIgnoresRest | src/dccn.nl/cmd/dr-get-dicom/archive-extractor.go:67-77 | nothing after the first regular header changes which header is taken |
| ArchiveExtractor.ScanHeaders | src/dccn.nl/cmd/dr-get-dicom/archive-extractor.go:59-78 | the loop stops at the first regular header, with no regular header before it, or at the end of the stream with no regular header at all |
| ArchiveExtractor.ExtractedPathPlacement | src/dccn.nl/cmd/dr-get-dicom/archive-extractor.go:55-69 | the extracted file sits in the archive's directory under the entry's base name |
| ArchiveExtractor.TgzOutcome | src/dccn.nl/cmd/dr-get-dicom/archive-extractor.go:36-79 | the result of the tar extraction: a path exactly when the archive and gzip reader open, a regular entry exists and the copy succeeds; a panic exactly when they open, no regular entry exists and the stream ends in a read error |
| ArchiveExtractor.TgzFiles | src/dccn.nl/cmd/dr-get-dicom/archive-extractor.go:49-53 | once the archive and the gzip reader are open the archive is gone afterwards; before that nothing changes |
| ArchiveExtractor.TgzTakesFirstRegular | src/dccn.nl/cmd/dr-get-dicom/archive-extractor.go:59-76 | with non-regular entries, then a regular one, then anything, the result is the first regular entry's extracted path; for any files present before, the files afterwards are those files plus the extracted one, minus the archive |
| ArchiveExtractor.TgzEmptyArchive | src/dccn.nl/cmd/dr-get-dicom/archive-extractor.go:60-63 | a stream without a regular entry that ends cleanly gives "empty archive: " + path; for any files present before, no file is added and the archive is removed |
| ArchiveExtractor.TgzSameDirectory | src/dccn.nl/cmd/dr-get-dicom/archive-extractor.go:55-76 | a successful extraction lands in the archive's directory |
| ArchiveExtractor.ExtractTgz | src/dccn.nl/cmd/dr-get-dicom/archive-extractor.go:36-79 | the result and the files afterwards are those of TgzOutcome and TgzFiles: open and gzip errors, empty archive, read-error panic, copy errors, the extracted path, and the removal of the archive |
| ArchiveExtractor.Extract | src/dccn.nl/cmd/dr-get-dicom/archive-extractor.go:83-91 | the Ignore and Zip extractors return their input unchanged and never fail; Tgz extracts |

## Left out

- The goroutines, channels, the mutex, `waitWorkers` and the select loop of `getOneDicom`
  (main.go:79-205, 210-217): the model runs each stage sequentially. It does not capture the
  unlocked read of the map at main.go:105, the order in which workers interleave, or completion.
- `iquest` and `iget` are not run: their output lines, exit status and error value are inputs.
  So are the query strings built at main.go:82 and main.go:142 and the namespace joined at
  main.go:63, which only go to `iquest`.
- Gzip decompression and tar decoding: the archive is the sequence of headers the tar reader
  yields and how that sequence ends.
- `copyReaderToPath`, file modes, `os.MkdirAll`: only their success or failure is modelled. The
  file system tracks files, not directories.
- Download.MakeDownloadCmd: models the path and text of `cmd.sh`, not the write itself. The file
  system set does not include `cmd.sh`, the ignored `OpenFile` error at main.go:358 is not
  modelled, and a failed write (only logged by the caller) does not change the model's result.
- ArchiveExtractor.ExtractedPathPlacement and ArchiveExtractor.TgzSameDirectory: these hold only
  when the entry's base name is a plain name. Entry names such as "." or ".." are excluded.
- Command-line flags, the default date from the clock, logging, and the `main` loop over the
  collections (main.go:34-69).
- Strings are sequences of characters, with one character per byte; the paths handled by the
  command are ASCII.
