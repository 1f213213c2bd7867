/** The sequential rules of `downloadDicom` in main.go: classifying a path by extension, mapping a
    remote object name to a local location, the companion `cmd.sh` text, and the steps that follow
    the transfer. The `iget` transfer, the directory creation and the archive's input and output
    are given as their outcomes; the file system is a set of file paths. */
module Download {
  import opened Text
  import opened Paths
  import opened ArchiveExtractor

  // ---- isImaFile and isZipFile ----

  predicate IsImaFile(path: string) {
    Ext(path) == ".IMA"
  }

  predicate IsZipFile(path: string) {
    Ext(path) == ".zip"
  }

  /** Both tests amount to a case-sensitive suffix test; a ".tar.gz" path passes neither. */
  lemma Classification(path: string)
    ensures IsZipFile(path) <==> HasSuffix(path, ".zip")
    ensures IsImaFile(path) <==> HasSuffix(path, ".IMA")
    ensures !(IsZipFile(path) && IsImaFile(path))
    ensures HasSuffix(path, ".tar.gz") ==> !IsZipFile(path) && !IsImaFile(path)
  {
    ExtensionOf(path, ".zip");
    ExtensionOf(path, ".IMA");
    if HasSuffix(path, ".tar.gz") {
      assert path[|path| - 1] == 'z';
    }
  }

  /** GetDicomExtractor agrees with the tests downloadDicom makes itself. */
  lemma ExtractorAgrees(path: string)
    ensures GetDicomExtractor(path) == Zip <==> IsZipFile(path)
    ensures GetDicomExtractor(path) == Tgz ==> !IsZipFile(path) && !IsImaFile(path)
    ensures IsImaFile(path) ==> GetDicomExtractor(path) == Ignore
  {
    Classification(path);
  }

  // ---- The local location ----

  /** A DICOM file is moved from the series folder to the session folder. */
  function Relocate(loc: string): string {
    Join([Dir(Dir(loc)), Base(loc)])
  }

  /** Relocation keeps the base name and the ".IMA" extension and moves the file one directory up. */
  lemma RelocateIma(loc: string)
    requires IsImaFile(loc)
    ensures Base(Relocate(loc)) == Base(loc)
    ensures Dir(Relocate(loc)) == Dir(Dir(loc))
    ensures IsImaFile(Relocate(loc))
  {
    Classification(loc);
    BaseWithExtension(loc, ".IMA");
    var b := Base(loc);
    JoinName(Dir(Dir(loc)), b);
    var d := Dir(loc);
    CleanIdempotent(d[..LastIndexOf(d, '/') + 1]);
    SuffixTransitive(Relocate(loc), b, ".IMA");
    Classification(Relocate(loc));
  }

  datatype Location = UnknownPath | SliceOutOfRange | At(loc: string)

  /** The location before relocation: the local root, the date, and what follows the first
      occurrence of the date, which the code takes to be eight characters long. */
  function Destination(path: string, date: string, ddir: string): string
    requires 0 <= IndexOf(path, date) && IndexOf(path, date) + 8 <= |path|
  {
    Join([ddir, date, path[IndexOf(path, date) + 8..]])
  }

  /** Lines 249-259 of downloadDicom. A path without the date has no location; a date that
      occurs fewer than eight characters before the end makes the slice path[i+8:] panic. */
  function LocalLocation(path: string, date: string, ddir: string): (r: Location)
    ensures r.UnknownPath? <==> !Contains(path, date)
    ensures r.SliceOutOfRange? <==> Contains(path, date) && IndexOf(path, date) + 8 > |path|
    ensures |date| == 8 && Contains(path, date) ==> r.At?
    ensures r.At? ==> var d := Destination(path, date, ddir);
      && (!IsImaFile(d) ==> r.loc == d)
      && (IsImaFile(d) ==> Base(r.loc) == Base(d) && Dir(r.loc) == Dir(Dir(d)))
      && IsImaFile(r.loc) == IsImaFile(d)
      && IsZipFile(r.loc) == IsZipFile(d)
  {
    var i := IndexOf(path, date);
    if i < 0 then UnknownPath
    else if i + 8 > |path| then SliceOutOfRange
    else
      var loc := Join([ddir, date, path[i + 8..]]);
      if IsImaFile(loc) then
        RelocateIma(loc);
        Classification(Relocate(loc));
        At(Relocate(loc))
      else At(loc)
  }

  // ---- makeDownloadCmd ----

  /** The companion file that makeDownloadCmd writes: its path and its text. */
  datatype Companion = Companion(file: string, text: string)

  /** The path of the companion file: `cmd.sh` directly inside destDir. */
  lemma CommandFile(destDir: string)
    ensures Base(Join([destDir, "cmd.sh"])) == "cmd.sh"
    ensures Dir(Join([destDir, "cmd.sh"])) == Clean(destDir)
  {
    assert IsName("cmd.sh") by {
      assert "cmd.sh"[0] == 'c' && "cmd.sh"[1] == 'm' && "cmd.sh"[2] == 'd';
      assert "cmd.sh"[3] == '.' && "cmd.sh"[4] == 's' && "cmd.sh"[5] == 'h';
    }
    JoinName(destDir, "cmd.sh");
  }

  /** makeDownloadCmd(sourceDir, destDir): `cmd.sh` in destDir holding one irsync command line,
      with no trailing newline. */
  function MakeDownloadCmd(sourceDir: string, destDir: string): (c: Companion)
    ensures Base(c.file) == "cmd.sh" && Dir(c.file) == Clean(destDir)
    ensures HasSuffix(c.text, " " + destDir)
  {
    CommandFile(destDir);
    var prefix := "irsync -r i:" + sourceDir;
    assert prefix + " " + destDir == prefix + (" " + destDir);
    ConcatSuffix(prefix, " " + destDir);
    Companion(Join([destDir, "cmd.sh"]), "irsync -r i:" + sourceDir + " " + destDir)
  }

  /** A solver aid: the literal prefix of the command line split at its spaces. */
  lemma CommandText(sourceDir: string, destDir: string)
    ensures "irsync -r i:" + sourceDir + " " + destDir == "irsync" + " " + "-r" + " " + ("i:" + sourceDir) + " " + destDir
  {
    assert "irsync -r i:" == "irsync" + " " + "-r" + " " + "i:";
  }

  /** Read by a shell, the command line has exactly four words: the tool, the recursion flag,
      the remote source and the local destination (paths with spaces would be split). */
  lemma CommandWords(sourceDir: string, destDir: string)
    requires sourceDir != "" && ' ' !in sourceDir
    requires destDir != "" && ' ' !in destDir
    ensures Words(MakeDownloadCmd(sourceDir, destDir).text) == ["irsync", "-r", "i:" + sourceDir, destDir]
  {
    var src := "i:" + sourceDir;
    assert ' ' !in src by {
      forall j | 0 <= j < |src| ensures src[j] != ' ' {
        if j >= 2 {
          assert src[j] == sourceDir[j - 2];
        }
      }
    }
    CommandText(sourceDir, destDir);
    FourWords("irsync", "-r", src, destDir);
  }

  // ---- downloadDicom ----

  /** The status of the `iget` command: its exit code and the error value it carries, which
      may be nil (None) even when the exit code is not zero. */
  datatype Fetch = Fetch(exit: int, error: Option<string>)

  /** What the system does during one download: os.MkdirAll, the transfer, and the archive. */
  datatype DownloadIo = DownloadIo(mkdir: Status, fetch: Fetch, archive: ArchiveIo)

  /** downloadDicom: map the remote path to a local location, fetch it, then keep a zip or DICOM
      file as it is or take the first regular file out of the archive. On success with a DICOM
      file or an extracted archive member, the companion command file is written as well. */
  method DownloadDicom(path: string, date: string, ddir: string, io: DownloadIo, fs: set<string>)
    returns (r: Outcome, fs': set<string>, companion: Option<Companion>)
    ensures LocalLocation(path, date, ddir).UnknownPath? ==>
      r == Failed("unknown path: " + path) && fs' == fs && companion == None
    ensures LocalLocation(path, date, ddir).SliceOutOfRange? ==>
      r == Panicked && fs' == fs && companion == None
    ensures LocalLocation(path, date, ddir).At? ==>
      var loc := LocalLocation(path, date, ddir).loc;
      var dir := Dir(loc);
      if io.mkdir.Error? then
        r == Failed("cannot create dir: " + dir) && fs' == fs && companion == None
      else if io.fetch.exit != 0 then
        r == (if io.fetch.error.Some? then Failed(io.fetch.error.value) else Done(""))
        && fs' == fs && companion == None
      else if IsZipFile(loc) then
        r == Done(loc) && fs' == fs + {loc} && companion == None
      else if IsImaFile(loc) then
        r == Done(loc) && fs' == fs + {loc} && companion == Some(MakeDownloadCmd(Dir(Dir(path)), dir))
      else
        r == TgzOutcome(loc, io.archive) && fs' == TgzFiles(loc, io.archive, fs + {loc})
        && companion == (if r.Done? then Some(MakeDownloadCmd(Dir(path), dir)) else None)
  {
    match LocalLocation(path, date, ddir) {
      case UnknownPath =>
        return Failed("unknown path: " + path), fs, None;
      case SliceOutOfRange =>
        return Panicked, fs, None;
      case At(loc) =>
        var dir := Dir(loc);
        if io.mkdir.Error? {
          return Failed("cannot create dir: " + dir), fs, None;
        }
        if io.fetch.exit != 0 {
          r := if io.fetch.error.Some? then Failed(io.fetch.error.value) else Done("");
          return r, fs, None;
        }
        fs' := fs + {loc};
        if IsZipFile(loc) {
          return Done(loc), fs', None;
        }
        if IsImaFile(loc) {
          return Done(loc), fs', Some(MakeDownloadCmd(Dir(Dir(path)), dir));
        }
        r, fs' := ExtractTgz(loc, io.archive, fs');
        companion := if r.Done? then Some(MakeDownloadCmd(Dir(path), dir)) else None;
    }
  }
}
