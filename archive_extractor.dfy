/** archive-extractor.go: the choice of an extractor by the suffix of a downloaded path, and the
    extraction of the first regular file from a gzipped tar archive. The file system is a set of
    file paths; gzip decompression and tar decoding are replaced by their decoded results. */
module ArchiveExtractor {
  import opened Text
  import opened Paths

  /** The type flag of a tar header, as the tar reader reports it. */
  datatype TypeFlag = TypeReg | TypeDir | TypeOther(code: char)

  /** A tar header: its type flag, the entry's name and its permission bits. */
  datatype Header = Header(typeflag: TypeFlag, name: string, mode: int)

  /** How the tar reader ends after the last header: io.EOF, or another read error
      (a truncated or corrupt stream). */
  datatype StreamEnd = EndOfArchive | ReadError(message: string)

  /** The decoded tar stream: the headers that tr.Next() yields in order, then its end. */
  datatype TarStream = TarStream(headers: seq<Header>, end: StreamEnd)

  /** One result of tr.Next(). */
  datatype Next = NextHeader(header: Header) | NextEnd(end: StreamEnd)

  /** tr.Next() after `pos` headers have been read. */
  function NextAt(stream: TarStream, pos: nat): Next
    requires pos <= |stream.headers|
  {
    if pos < |stream.headers| then NextHeader(stream.headers[pos]) else NextEnd(stream.end)
  }

  /** The error result of an operation: nil, or an error with its message. */
  datatype Status = Succeeded | Error(message: string)

  /** copyReaderToPath: the output file could not be opened, it was created but the copy
      failed, or the entry was copied into it. */
  datatype CopyStatus = Copied | CreateFailed(message: string) | WriteFailed(message: string)

  /** What the system does during one extraction: os.Open, gzip.NewReader, the decoded tar
      stream, and the copy of the chosen entry. */
  datatype ArchiveIo = ArchiveIo(open: Status, gzip: Status, stream: TarStream, copy: CopyStatus)

  /** A Go `(string, error)` result: Done for a nil error, Failed for an error; Panicked for a
      run-time panic, which ends the whole program. */
  datatype Outcome = Done(path: string) | Failed(message: string) | Panicked

  // ---- Choosing an extractor ----

  datatype Extractor = Tgz | Zip | Ignore

  /** GetDicomExtractor: Tgz for ".tar.gz", Zip for ".zip", Ignore otherwise. The two suffixes
      exclude each other, so the order of the tests does not matter. */
  function GetDicomExtractor(path: string): (x: Extractor)
    ensures x == Tgz <==> HasSuffix(path, ".tar.gz")
    ensures x == Zip <==> HasSuffix(path, ".zip")
  {
    assert HasSuffix(path, ".tar.gz") ==> path[|path| - 1] == 'z';
    assert HasSuffix(path, ".zip") ==> path[|path| - 1] == 'p';
    if HasSuffix(path, ".tar.gz") then Tgz
    else if HasSuffix(path, ".zip") then Zip
    else Ignore
  }

  // ---- The first regular entry ----

  predicate IsRegular(h: Header) {
    h.typeflag.TypeReg?
  }

  /** The index of the first regular header, or |hs| when there is none. */
  function FirstRegular(hs: seq<Header>): (k: nat)
    ensures k <= |hs|
    ensures forall j :: 0 <= j < k ==> !IsRegular(hs[j])
    ensures k < |hs| ==> IsRegular(hs[k])
  {
    if hs == [] then 0
    else if IsRegular(hs[0]) then 0
    else 1 + FirstRegular(hs[1..])
  }

  /** Headers that are not regular files are passed over. */
  lemma {:induction false} FirstRegularSkips(pre: seq<Header>, hs: seq<Header>)
    requires forall j :: 0 <= j < |pre| ==> !IsRegular(pre[j])
    ensures FirstRegular(pre + hs) == |pre| + FirstRegular(hs)
    decreases |pre|
  {
    if pre != [] {
      assert (pre + hs)[1..] == pre[1..] + hs;
      FirstRegularSkips(pre[1..], hs);
    } else {
      assert pre + hs == hs;
    }
  }

  /** Nothing after the first regular header matters. */
  lemma {:induction false} FirstRegularIgnoresRest(hs: seq<Header>, rest: seq<Header>)
    requires FirstRegular(hs) < |hs|
    ensures FirstRegular(hs + rest) == FirstRegular(hs)
    decreases |hs|
  {
    if !IsRegular(hs[0]) {
      assert (hs + rest)[1..] == hs[1..] + rest;
      FirstRegularIgnoresRest(hs[1..], rest);
    }
  }

  datatype Scan = Regular(index: nat) | Exhausted(end: StreamEnd)

  /** The `for` loop over tr.Next(): directories and other non-regular entries are skipped; the
      loop stops at the first regular entry or at the end of the stream. */
  method ScanHeaders(stream: TarStream) returns (r: Scan)
    ensures r.Regular? ==> r.index < |stream.headers| && IsRegular(stream.headers[r.index])
    ensures r.Regular? ==> forall j :: 0 <= j < r.index ==> !IsRegular(stream.headers[j])
    ensures r.Exhausted? ==> r.end == stream.end
    ensures r.Exhausted? ==> forall j :: 0 <= j < |stream.headers| ==> !IsRegular(stream.headers[j])
  {
    var pos := 0;
    while true
      invariant pos <= |stream.headers|
      invariant forall j :: 0 <= j < pos ==> !IsRegular(stream.headers[j])
      decreases |stream.headers| - pos
    {
      var next := NextAt(stream, pos);
      if next.NextEnd? {
        return Exhausted(next.end);
      }
      var h := next.header;
      pos := pos + 1;
      if h.typeflag.TypeDir? {
        continue;
      }
      if h.typeflag.TypeReg? {
        return Regular(pos - 1);
      }
    }
  }

  // ---- DicomExtractorTgz ----

  /** Where the chosen entry is written: the archive's directory joined with the entry's base name. */
  function ExtractedPath(pathArchive: string, h: Header): string {
    Join([Dir(pathArchive), Base(h.name)])
  }

  /** The extracted file sits in the archive's directory under the entry's base name, as long as
      that base name is an ordinary name (not ".", ".." or "/"). */
  lemma ExtractedPathPlacement(pathArchive: string, h: Header)
    requires IsName(Base(h.name))
    ensures Dir(ExtractedPath(pathArchive, h)) == Dir(pathArchive)
    ensures Base(ExtractedPath(pathArchive, h)) == Base(h.name)
  {
    JoinName(Dir(pathArchive), Base(h.name));
    CleanIdempotent(pathArchive[..LastIndexOf(pathArchive, '/') + 1]);
  }

  /** Both the archive file and the gzip reader were opened. */
  predicate Opened(io: ArchiveIo) {
    io.open.Succeeded? && io.gzip.Succeeded?
  }

  /** The result of DicomExtractorTgz.Extract. */
  function TgzOutcome(pathArchive: string, io: ArchiveIo): (r: Outcome)
    ensures r.Done? <==> Opened(io) && FirstRegular(io.stream.headers) < |io.stream.headers| && io.copy.Copied?
    ensures r.Panicked? <==>
      Opened(io) && FirstRegular(io.stream.headers) == |io.stream.headers| && io.stream.end.ReadError?
  {
    if io.open.Error? then Failed(io.open.message)
    else if io.gzip.Error? then Failed(io.gzip.message)
    else
      var hs := io.stream.headers;
      var k := FirstRegular(hs);
      if k == |hs| then
        if io.stream.end.EndOfArchive? then Failed("empty archive: " + pathArchive) else Panicked
      else
        match io.copy
        case Copied => Done(ExtractedPath(pathArchive, hs[k]))
        case CreateFailed(m) => Failed(m)
        case WriteFailed(m) => Failed(m)
  }

  /** The files present after DicomExtractorTgz.Extract: once the gzip reader is open, the
      deferred os.Remove deletes the archive on every way out, a panic included. */
  function TgzFiles(pathArchive: string, io: ArchiveIo, fs: set<string>): (files: set<string>)
    ensures Opened(io) ==> pathArchive !in files
    ensures !Opened(io) ==> files == fs
  {
    if !Opened(io) then fs
    else
      var hs := io.stream.headers;
      var k := FirstRegular(hs);
      var created := if k < |hs| && !io.copy.CreateFailed? then {ExtractedPath(pathArchive, hs[k])} else {};
      fs + created - {pathArchive}
  }

  /** The first regular entry is extracted, whatever non-regular entries come before it and
      whatever follows it; the files already present stay, apart from the archive. */
  lemma TgzTakesFirstRegular(pathArchive: string, io: ArchiveIo, fs: set<string>, pre: seq<Header>, h: Header, rest: seq<Header>)
    requires Opened(io) && io.copy.Copied?
    requires io.stream.headers == pre + [h] + rest
    requires forall j :: 0 <= j < |pre| ==> !IsRegular(pre[j])
    requires IsRegular(h)
    ensures TgzOutcome(pathArchive, io) == Done(ExtractedPath(pathArchive, h))
    ensures TgzFiles(pathArchive, io, fs) == fs + {ExtractedPath(pathArchive, h)} - {pathArchive}
  {
    assert pre + [h] + rest == pre + ([h] + rest);
    FirstRegularSkips(pre, [h] + rest);
  }

  /** A stream without a regular entry that ends cleanly gives the "empty archive" error and no
      path; no file is created and the archive is removed. */
  lemma TgzEmptyArchive(pathArchive: string, io: ArchiveIo, fs: set<string>)
    requires Opened(io) && io.stream.end == EndOfArchive
    requires forall j :: 0 <= j < |io.stream.headers| ==> !IsRegular(io.stream.headers[j])
    ensures TgzOutcome(pathArchive, io) == Failed("empty archive: " + pathArchive)
    ensures TgzFiles(pathArchive, io, fs) == fs - {pathArchive}
  {
    assert io.stream.headers + [] == io.stream.headers;
    FirstRegularSkips(io.stream.headers, []);
  }

  /** A successful extraction lands next to the archive. */
  lemma TgzSameDirectory(pathArchive: string, io: ArchiveIo)
    requires TgzOutcome(pathArchive, io).Done?
    requires IsName(Base(io.stream.headers[FirstRegular(io.stream.headers)].name))
    ensures Dir(TgzOutcome(pathArchive, io).path) == Dir(pathArchive)
  {
    var hs := io.stream.headers;
    var k := FirstRegular(hs);
    assert Opened(io) && k < |hs| && io.copy.Copied?;
    assert TgzOutcome(pathArchive, io) == Done(ExtractedPath(pathArchive, hs[k]));
    ExtractedPathPlacement(pathArchive, hs[k]);
  }

  /** DicomExtractorTgz.Extract */
  method ExtractTgz(pathArchive: string, io: ArchiveIo, fs: set<string>) returns (r: Outcome, fs': set<string>)
    ensures r == TgzOutcome(pathArchive, io)
    ensures fs' == TgzFiles(pathArchive, io, fs)
  {
    if io.open.Error? {
      return Failed(io.open.message), fs;
    }
    if io.gzip.Error? {
      return Failed(io.gzip.message), fs;
    }
    // From here on the deferred os.Remove(pathArchive) runs on every way out.
    var scan := ScanHeaders(io.stream);
    match scan {
      case Exhausted(end) =>
        assert FirstRegular(io.stream.headers) == |io.stream.headers|;
        r := if end.EndOfArchive? then Failed("empty archive: " + pathArchive) else Panicked;
        fs' := fs;
      case Regular(k) =>
        assert k == FirstRegular(io.stream.headers);
        var fdicom := ExtractedPath(pathArchive, io.stream.headers[k]);
        match io.copy {
          case Copied =>
            r, fs' := Done(fdicom), fs + {fdicom};
          case CreateFailed(m) =>
            r, fs' := Failed(m), fs;
          case WriteFailed(m) =>
            r, fs' := Failed(m), fs + {fdicom};
        }
    }
    fs' := fs' - {pathArchive};
  }

  /** Extractor.Extract: the Ignore and Zip extractors hand back their input and never fail. */
  method Extract(x: Extractor, pathArchive: string, io: ArchiveIo, fs: set<string>) returns (r: Outcome, fs': set<string>)
    ensures x != Tgz ==> r == Done(pathArchive) && fs' == fs
    ensures x == Tgz ==> r == TgzOutcome(pathArchive, io) && fs' == TgzFiles(pathArchive, io, fs)
  {
    match x {
      case Tgz =>
        r, fs' := ExtractTgz(pathArchive, io, fs);
      case Zip =>
        r, fs' := Done(pathArchive), fs;
      case Ignore =>
        r, fs' := Done(pathArchive), fs;
    }
  }
}
