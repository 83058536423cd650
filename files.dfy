/**
 * The file manager: the canonical output name of an input file, the pairing
 * test between an input file and an output file, and the directory and disk
 * operations the orchestrator drives (listing, removal, and the record of
 * every call made to the disk and to the compressor).
 */
module Files {
  import opened Wrappers
  import opened Numerals
  import opened Paths
  import opened CompressPattern
  import opened Errors

  datatype FileManager = FileManager(inDir: Path, outDir: Path)

  /**
   * The output path for `input` compressed at Unix second `ts`:
   * `outDir` joined with `<stem>_compressed_<ts>.<extension>`.
   * The input must have an extension (which implies a stem).
   */
  function OutputName(outDir: Path, input: Path, ts: U64): Path
    requires HasExtension(input)
  {
    Join(outDir, FileStem(input).value + Marker + Decimal(ts) + "." + Extension(input).value)
  }

  /**
   * The output path lies in `outDir`, its file name is the built name, and
   * splitting it again gives back `<stem>_compressed_<ts>` and the input's extension.
   */
  lemma OutputNameShape(outDir: Path, input: Path, ts: U64)
    requires HasExtension(input)
    ensures outDir <= OutputName(outDir, input, ts)
    ensures FileName(OutputName(outDir, input, ts)) ==
            Some(FileStem(input).value + Marker + Decimal(ts) + "." + Extension(input).value)
    ensures FileStem(OutputName(outDir, input, ts)) == Some(FileStem(input).value + Marker + Decimal(ts))
    ensures Extension(OutputName(outDir, input, ts)) == Extension(input)
  {
    StemAndExtension(input);
    var stem, ext := FileStem(input).value, Extension(input).value;
    var name := stem + Marker + Decimal(ts) + "." + ext;
    OutputNameParts(stem, Decimal(ts), ext);
    FileNameOfJoin(outDir, name);
    JoinExtendsDir(outDir, name);
    SplitBuiltName(stem + Marker + Decimal(ts), ext);
    assert name[..|stem + Marker + Decimal(ts)|] == stem + Marker + Decimal(ts);
  }

  /** The pieces of an output name carry no separator, and the only dot before the extension is the last. */
  lemma OutputNameParts(stem: string, digits: string, ext: string)
    requires stem != "" && '/' !in stem && '/' !in ext && '.' !in ext && AllDigits(digits)
    ensures var name := stem + Marker + digits + "." + ext;
      name != "" && name != "." && name != ".." && '/' !in name && name[0] != '/'
  {
  }

  /**
   * `is_file_pair`: the output file's name is searched for the pattern; the
   * result is whether the input file's name starts with the captured group.
   * Missing file names read as "".
   */
  function IsFilePair(inFile: Path, outFile: Path): (r: bool)
    ensures r <==> exists a: nat, b: nat ::
                     LeftmostLongest(NameOrEmpty(outFile), a, b) &&
                     NameOrEmpty(outFile)[a..b] <= NameOrEmpty(inFile)
  {
    var o := NameOrEmpty(outFile);
    match Capture(o)
    case None => false
    case Some(c) =>
      assert forall a: nat, b: nat, a': nat, b': nat ::
        LeftmostLongest(o, a, b) && LeftmostLongest(o, a', b') ==> a == a' && b == b' by {
        forall a: nat, b: nat, a': nat, b': nat | LeftmostLongest(o, a, b) && LeftmostLongest(o, a', b')
          ensures a == a' && b == b'
        {
          LeftmostLongestUnique(o, a, b, a', b');
        }
      }
      c <= NameOrEmpty(inFile)
  }

  /** Once the output's group is known, pairing is the prefix test of the input's name against it. */
  lemma PairByGroup(inFile: Path, outFile: Path, group: string)
    requires Capture(NameOrEmpty(outFile)) == Some(group)
    ensures IsFilePair(inFile, outFile) <==> group <= NameOrEmpty(inFile)
  {
  }

  /** The generated name's captured group is the input's stem, when the extension begins with `mp4`. */
  lemma {:induction false} OutputNameCapture(outDir: Path, input: Path, ts: U64)
    requires HasExtension(input) && NoNewline(FileStem(input).value)
    requires |Extension(input).value| >= 3 && Extension(input).value[..3] == "mp4"
    ensures Capture(NameOrEmpty(OutputName(outDir, input, ts))) == Some(FileStem(input).value)
  {
    StemAndExtension(input);
    OutputNameShape(outDir, input, ts);
    CaptureOfBuiltName(FileStem(input).value, Decimal(ts), Extension(input).value);
  }

  /**
   * Round trip: an input whose extension begins with `mp4` (in particular `mp4`
   * itself) and whose stem has no newline pairs with the name generated for it,
   * whatever the output directory and the timestamp.
   */
  lemma {:induction false} OutputPairsWithInput(outDir: Path, input: Path, ts: U64)
    requires HasExtension(input) && NoNewline(FileStem(input).value)
    requires |Extension(input).value| >= 3 && Extension(input).value[..3] == "mp4"
    ensures IsFilePair(input, OutputName(outDir, input, ts))
  {
    StemAndExtension(input);
    OutputNameCapture(outDir, input, ts);
  }

  /** Two different timestamps give two different output names for the same input. */
  lemma {:induction false} OutputNamesDistinct(outDir: Path, input: Path, ts1: U64, ts2: U64)
    requires HasExtension(input) && ts1 != ts2
    ensures OutputName(outDir, input, ts1) != OutputName(outDir, input, ts2)
  {
    var s := FileStem(input).value + Marker;
    var x1, x2 := s + Decimal(ts1), s + Decimal(ts2);
    assert x1[|s|..] == Decimal(ts1) && x2[|s|..] == Decimal(ts2);
    assert Value(Decimal(ts1)) != Value(Decimal(ts2));
    OutputNameShape(outDir, input, ts1);
    OutputNameShape(outDir, input, ts2);
    assert FileStem(OutputName(outDir, input, ts1)) == Some(x1);
    assert FileStem(OutputName(outDir, input, ts2)) == Some(x2);
  }

  /** An output name without `_compressed_` pairs with nothing. */
  lemma NoMarkerNoPair(inFile: Path, outFile: Path)
    requires forall j: nat :: !MarkerAt(NameOrEmpty(outFile), j)
    ensures !IsFilePair(inFile, outFile)
  {
  }

  /** An output name without `.mp4` pairs with nothing. */
  lemma NoSuffixNoPair(inFile: Path, outFile: Path)
    requires forall b: nat :: !SuffixAt(NameOrEmpty(outFile), b)
    ensures !IsFilePair(inFile, outFile)
  {
  }

  /** An output name without a digit pairs with nothing. */
  lemma NoDigitNoPair(inFile: Path, outFile: Path)
    requires forall k :: 0 <= k < |NameOrEmpty(outFile)| ==> !IsDigit(NameOrEmpty(outFile)[k])
    ensures !IsFilePair(inFile, outFile)
  {
    var o := NameOrEmpty(outFile);
    forall a: nat, b: nat
      ensures !MatchSpan(o, a, b)
    {
      forall b': nat | b + 12 < b' <= |o| - 4
        ensures !DigitsThenSuffix(o, b, b')
      {
        assert !IsDigit(o[b + 12]);
      }
    }
  }

  /**
   * For an output name without newlines the pairing test is: take the longest
   * prefix of the output name that is followed by `_compressed_`, digits and
   * `.mp4`, and ask whether the input name starts with it.
   */
  lemma PairWithoutNewline(inFile: Path, outFile: Path)
    requires NoNewline(NameOrEmpty(outFile))
    ensures IsFilePair(inFile, outFile) <==>
              exists j: nat :: j <= |NameOrEmpty(outFile)| && TailAt(NameOrEmpty(outFile), j) &&
                (forall j': nat :: j < j' <= |NameOrEmpty(outFile)| ==> !TailAt(NameOrEmpty(outFile), j')) &&
                NameOrEmpty(outFile)[..j] <= NameOrEmpty(inFile)
  {
  }

  /** One entry of a directory listing, or the error reading it produced. */
  datatype EntryRead = Entry(name: string) | EntryFailed(message: string)

  /** What reading a directory gives: its entries, or the error opening it produced. */
  datatype DirectoryRead = Listed(entries: seq<EntryRead>) | OpenFailed(message: string)

  /** The `collect` of the entry paths: the paths in listing order, or the first entry error. */
  function CollectEntries(dir: Path, entries: seq<EntryRead>): (r: Result<seq<Path>, NodeError>)
    ensures r.Success? <==> forall k :: 0 <= k < |entries| ==> entries[k].Entry?
    ensures r.Success? ==> |r.value| == |entries|
    ensures r.Success? ==> forall k :: 0 <= k < |entries| ==> r.value[k] == Join(dir, entries[k].name)
    ensures r.Failure? ==>
              exists k :: (0 <= k < |entries| && entries[k].EntryFailed? &&
                           (forall m :: 0 <= m < k ==> entries[m].Entry?) &&
                           r.error == ReadDirError(entries[k].message))
  {
    if entries == [] then Success([])
    else
      match entries[0]
      case EntryFailed(m) => Failure(ReadDirError(m))
      case Entry(n) =>
        match CollectEntries(dir, entries[1..])
        case Failure(e) =>
          var k :| 0 <= k < |entries[1..]| && entries[1..][k].EntryFailed? &&
                   (forall m :: 0 <= m < k ==> entries[1..][m].Entry?) &&
                   e == ReadDirError(entries[1..][k].message);
          assert entries[k + 1].EntryFailed?;
          Failure(e)
        case Success(ps) => Success([Join(dir, n)] + ps)
  }

  /** `scan_directory`: the paths of the entries of `dir`, or a read error carrying the cause's message. */
  function ScanDirectory(dir: Path, read: DirectoryRead): (r: Result<seq<Path>, NodeError>)
    ensures read.OpenFailed? ==> r == Failure(ReadDirError(read.message))
    ensures r.Failure? ==> r.error.ReadDirError?
  {
    match read
    case OpenFailed(m) => Failure(ReadDirError(m))
    case Listed(entries) => CollectEntries(dir, entries)
  }

  /** What the external compression tool reports for one call. */
  datatype CompressorOutcome = Compressed | CompressorFailed(message: string)

  /** The behaviour of the external tool: its outcome for each input and output path. */
  type Tool = (Path, Path) -> CompressorOutcome

  /** A call the orchestrator issues to the outside world. */
  datatype Call = Compress(input: Path, output: Path) | Remove(path: Path)

  const NotFoundMessage: string := "No such file or directory (os error 2)"
  const PermissionDeniedMessage: string := "Permission denied (os error 13)"

  /** The files that the removals among `calls` take away, given the files whose removal is refused. */
  function RemovedBy(calls: seq<Call>, readOnly: set<Path>): set<Path>
    decreases |calls|
  {
    if calls == [] then {}
    else
      var c := calls[|calls| - 1];
      RemovedBy(calls[..|calls| - 1], readOnly) + (if c.Remove? && c.path !in readOnly then {c.path} else {})
  }

  /** Removals appended one at a time take away one file at a time. */
  lemma RemovedBySnoc(calls: seq<Call>, c: Call, readOnly: set<Path>)
    ensures RemovedBy(calls + [c], readOnly) ==
            RemovedBy(calls, readOnly) + (if c.Remove? && c.path !in readOnly then {c.path} else {})
  {
    assert (calls + [c])[..|calls|] == calls;
  }

  /** A file is taken off the disk by a run of calls exactly when one of them removes it and it may be removed. */
  lemma {:induction false} RemovedByMeans(calls: seq<Call>, readOnly: set<Path>, p: Path)
    ensures p in RemovedBy(calls, readOnly) <==> Remove(p) in calls && p !in readOnly
    decreases |calls|
  {
    if calls != [] {
      var n := |calls| - 1;
      RemovedByMeans(calls[..n], readOnly, p);
      assert calls == calls[..n] + [calls[n]];
    }
  }

  /** Runs of calls issued one after another take away the files of each. */
  lemma {:induction false} RemovedByConcat(a: seq<Call>, b: seq<Call>, readOnly: set<Path>)
    ensures RemovedBy(a + b, readOnly) == RemovedBy(a, readOnly) + RemovedBy(b, readOnly)
    decreases |b|
  {
    if b == [] {
      assert a + b == a;
    } else {
      var n := |b| - 1;
      RemovedByConcat(a, b[..n], readOnly);
      assert (a + b)[..|a + b| - 1] == a + b[..n];
    }
  }

  /**
   * The disk: the files present, the files whose removal the operating system
   * refuses, and the sequence of calls issued to the disk and the tool.
   */
  class Disk {
    var present: set<Path>
    const readOnly: set<Path>
    var calls: seq<Call>

    constructor (files: set<Path>, refused: set<Path>)
      ensures present == files && readOnly == refused && calls == []
    {
      present := files;
      readOnly := refused;
      calls := [];
    }

    /** `remove_file`: succeeds exactly when the file is present and removable. */
    method RemoveFile(p: Path) returns (r: Outcome<NodeError>)
      modifies this
      ensures calls == old(calls) + [Remove(p)]
      ensures r.Pass? <==> p in old(present) && p !in readOnly
      ensures present == old(present) - (if p !in readOnly then {p} else {})
      ensures r.Fail? ==> r.error == RemoveFileError(if p in old(present) then PermissionDeniedMessage else NotFoundMessage)
    {
      calls := calls + [Remove(p)];
      if p !in present {
        r := Fail(RemoveFileError(NotFoundMessage));
      } else if p in readOnly {
        r := Fail(RemoveFileError(PermissionDeniedMessage));
      } else {
        present := present - {p};
        r := Pass;
      }
    }

    /** One invocation of the external tool, recorded; the tool decides the outcome. */
    method RunTool(tool: Tool, input: Path, output: Path) returns (r: CompressorOutcome)
      modifies this
      ensures calls == old(calls) + [Compress(input, output)]
      ensures present == old(present)
      ensures r == tool(input, output)
    {
      calls := calls + [Compress(input, output)];
      r := tool(input, output);
    }
  }
}
