/**
 * The orchestrator (node.rs): construction from the configuration, the
 * extension filter over a directory scan, the buffer and worker cycles and
 * one tick of the polling loop.
 *
 * Each cycle is a method that drives the `Disk` one call at a time; its
 * contract ties the calls it issues to a trace function of the inputs, and
 * the lemmas below state what the source promises about those traces.
 */
module Node {
  import opened Wrappers
  import opened Numerals
  import opened Paths
  import opened Sequences
  import opened Errors
  import opened Files

  datatype Mode = Buffer | Worker

  /** The configuration string that selects each mode. */
  function ModeName(m: Mode): string {
    match m
    case Buffer => "buffer"
    case Worker => "worker"
  }

  /** The mode selection of `Node::new`: only the two exact names are accepted. */
  function ParseMode(name: string): (m: Option<Mode>)
    ensures m.Some? ==> ModeName(m.value) == name
    ensures m.None? <==> forall x: Mode :: ModeName(x) != name
  {
    if name == "buffer" then Some(Buffer)
    else if name == "worker" then Some(Worker)
    else None
  }

  /** Parsing a mode's name gives that mode back. */
  lemma ParseModeName(m: Mode)
    ensures ParseMode(ModeName(m)) == Some(m)
  {
  }

  /** The options of the configuration file. */
  datatype Config = Config(
    mode: string,
    pollingInterval: U64,
    inDir: string,
    outDir: string,
    clearInDir: bool,
    ffmpegPath: string,
    logLevel: string)

  /** The handle on the external tool, built from its path. */
  datatype Compressor = Compressor(ffmpegPath: string)

  datatype Node = Node(
    mode: Mode,
    pollingIntervalSecs: U64,
    clearInDir: bool,
    fileManager: FileManager,
    compressor: Compressor)

  /**
   * The configured interval (minutes) in seconds, as the unsigned 64-bit
   * product `polling_interval * 60`, which wraps around on overflow.
   */
  function IntervalSeconds(minutes: U64): (secs: U64)
    ensures (secs - minutes * 60) % U64Modulus == 0
    ensures secs == minutes * 60 <==> minutes * 60 < U64Modulus
    ensures minutes * 60 < U64Modulus ==> secs / 60 == minutes && secs % 60 == 0
  {
    (minutes * 60) % U64Modulus
  }

  /** The largest interval, in minutes, whose product with 60 does not wrap. */
  lemma IntervalBound()
    ensures 307445734561825860 * 60 < U64Modulus <= 307445734561825861 * 60
  {
  }

  /**
   * `Node::new`: the mode is checked first, then the compressor is built
   * (`compressorInit` is what building it reports); the other fields are
   * copied from the configuration.
   */
  function NewNode(config: Config, compressorInit: Outcome<string>): (r: Result<Node, NodeError>)
    ensures ParseMode(config.mode).None? ==> r == Failure(InvalidModeError(config.mode))
    ensures ParseMode(config.mode).Some? && compressorInit.Fail? ==>
              r == Failure(CompressorInitError(compressorInit.error))
    ensures r.Success? <==> ParseMode(config.mode).Some? && compressorInit.Pass?
    ensures r.Success? ==>
              && ModeName(r.value.mode) == config.mode
              && r.value.pollingIntervalSecs == IntervalSeconds(config.pollingInterval)
              && r.value.clearInDir == config.clearInDir
              && r.value.fileManager == FileManager(config.inDir, config.outDir)
              && r.value.compressor == Compressor(config.ffmpegPath)
  {
    match ParseMode(config.mode)
    case None => Failure(InvalidModeError(config.mode))
    case Some(mode) =>
      match compressorInit
      case Fail(message) => Failure(CompressorInitError(message))
      case Pass =>
        Success(Node(mode, IntervalSeconds(config.pollingInterval), config.clearInDir,
                     FileManager(config.inDir, config.outDir), Compressor(config.ffmpegPath)))
  }

  /** An invalid mode is reported whatever building the compressor would report: it is never built. */
  lemma InvalidModeFirst(config: Config, init1: Outcome<string>, init2: Outcome<string>)
    requires ParseMode(config.mode).None?
    ensures NewNode(config, init1) == NewNode(config, init2)
    ensures NewNode(config, init1).Failure? && NewNode(config, init1).error.InvalidModeError?
  {
  }

  /** `scan_and_filter`: the scanned paths that have an extension, in scan order; a scan error is passed on. */
  function ScanAndFilter(scan: Result<seq<Path>, NodeError>): (r: Result<seq<Path>, NodeError>)
    ensures scan.Failure? ==> r == scan
    ensures scan.Success? ==> r.Success? && |r.value| <= |scan.value|
    ensures scan.Success? ==> forall p :: p in r.value <==> p in scan.value && HasExtension(p)
    ensures r.Success? ==> forall k :: 0 <= k < |r.value| ==> HasExtension(r.value[k])
  {
    match scan
    case Failure(e) => Failure(e)
    case Success(paths) =>
      assert forall p :: p in Filter(paths, HasExtension) <==> p in paths && HasExtension(p) by {
        forall p ensures p in Filter(paths, HasExtension) <==> p in paths && HasExtension(p) {
          FilterMembership(paths, HasExtension, p);
        }
      }
      Success(Filter(paths, HasExtension))
  }

  /** Filtering keeps the scan order: the kept paths of a listing split in two are those of each part, in turn. */
  lemma ScanAndFilterOrder(a: seq<Path>, b: seq<Path>)
    ensures ScanAndFilter(Success(a + b)).value ==
            ScanAndFilter(Success(a)).value + ScanAndFilter(Success(b)).value
  {
    FilterConcat(a, b, HasExtension);
  }

  /** The input files of the node's input directory, as scanned and filtered. */
  function InputFiles(node: Node, inRead: DirectoryRead): Result<seq<Path>, NodeError> {
    ScanAndFilter(ScanDirectory(node.fileManager.inDir, inRead))
  }

  /** The output files of the node's output directory, as scanned and filtered. */
  function OutputFiles(node: Node, outRead: DirectoryRead): Result<seq<Path>, NodeError> {
    ScanAndFilter(ScanDirectory(node.fileManager.outDir, outRead))
  }

  /** Whether `file` pairs with at least one of `outs`. */
  predicate PairsWithAny(file: Path, outs: seq<Path>) {
    exists o :: o in outs && IsFilePair(file, o)
  }

  /** The test the buffer cycle applies to each input file, for a fixed output listing. */
  function PairedWith(outs: seq<Path>): Path -> bool {
    f => PairsWithAny(f, outs)
  }

  /** One removal request per path, in order. */
  function RemoveCalls(ps: seq<Path>): seq<Call> {
    seq(|ps|, k requires 0 <= k < |ps| => Remove(ps[k]))
  }

  /** Removal requests for paths listed one after another follow one another. */
  lemma RemoveCallsConcat(a: seq<Path>, b: seq<Path>)
    ensures RemoveCalls(a + b) == RemoveCalls(a) + RemoveCalls(b)
  {
  }

  /** Removal requests only remove, and remove exactly the listed paths. */
  lemma RemoveCallsMeans(ps: seq<Path>, p: Path)
    ensures forall c :: c in RemoveCalls(ps) ==> c.Remove?
    ensures Remove(p) in RemoveCalls(ps) <==> p in ps
  {
    if Remove(p) in RemoveCalls(ps) {
      var k :| 0 <= k < |ps| && RemoveCalls(ps)[k] == Remove(p);
    }
    if p in ps {
      var k :| 0 <= k < |ps| && ps[k] == p;
      assert RemoveCalls(ps)[k] == Remove(p);
    }
  }

  /** Removing the paths that pass a test removes a path exactly when it is listed and passes. */
  lemma RemovesKept(ins: seq<Path>, keep: Path -> bool, p: Path)
    ensures forall c :: c in RemoveCalls(Filter(ins, keep)) ==> c.Remove?
    ensures Remove(p) in RemoveCalls(Filter(ins, keep)) <==> p in ins && keep(p)
  {
    RemoveCallsMeans(Filter(ins, keep), p);
    FilterMembership(ins, keep, p);
  }

  /**
   * The calls of the buffer cycle: nothing unless clearing is enabled and
   * both scans succeed; then a removal of every input file that pairs with
   * an output file, in input order.
   */
  function BufferTrace(clear: bool, ins: Result<seq<Path>, NodeError>, outs: Result<seq<Path>, NodeError>): seq<Call> {
    if !clear || ins.Failure? || outs.Failure? then []
    else RemoveCalls(Filter(ins.value, PairedWith(outs.value)))
  }

  /** The buffer cycle issues nothing when clearing is disabled or either scan fails. */
  lemma BufferIdle(clear: bool, ins: Result<seq<Path>, NodeError>, outs: Result<seq<Path>, NodeError>)
    requires !clear || ins.Failure? || outs.Failure?
    ensures BufferTrace(clear, ins, outs) == []
  {
  }

  /** The buffer cycle only removes, and removes an input file exactly when it pairs with some output file. */
  lemma BufferRemovesPaired(ins: seq<Path>, outs: seq<Path>, p: Path)
    ensures forall c :: c in BufferTrace(true, Success(ins), Success(outs)) ==> c.Remove?
    ensures Remove(p) in BufferTrace(true, Success(ins), Success(outs)) <==>
            p in ins && exists o :: o in outs && IsFilePair(p, o)
  {
    RemovesKept(ins, PairedWith(outs), p);
  }

  /**
   * The buffer cycle of a node removes `p` exactly when clearing is enabled,
   * both scans succeed and `p` is a filtered input file that pairs with some
   * filtered output file; it never compresses.
   */
  lemma BufferCycleRemoves(node: Node, inRead: DirectoryRead, outRead: DirectoryRead, p: Path)
    ensures forall c :: c in BufferTrace(node.clearInDir, InputFiles(node, inRead), OutputFiles(node, outRead)) ==> c.Remove?
    ensures Remove(p) in BufferTrace(node.clearInDir, InputFiles(node, inRead), OutputFiles(node, outRead)) <==>
            && node.clearInDir
            && InputFiles(node, inRead).Success?
            && OutputFiles(node, outRead).Success?
            && p in InputFiles(node, inRead).value
            && exists o :: o in OutputFiles(node, outRead).value && IsFilePair(p, o)
  {
    var ins, outs := InputFiles(node, inRead), OutputFiles(node, outRead);
    if node.clearInDir && ins.Success? && outs.Success? {
      BufferRemovesPaired(ins.value, outs.value, p);
    }
  }

  /** The removals of a buffer cycle over a listing split in two are those of each part, in turn. */
  lemma BufferOrder(a: seq<Path>, b: seq<Path>, outs: seq<Path>)
    ensures BufferTrace(true, Success(a + b), Success(outs)) ==
            BufferTrace(true, Success(a), Success(outs)) + BufferTrace(true, Success(b), Success(outs))
  {
    FilterConcat(a, b, PairedWith(outs));
    RemoveCallsConcat(Filter(a, PairedWith(outs)), Filter(b, PairedWith(outs)));
  }

  /** Every one of `files` has an extension. */
  predicate AllHaveExtension(files: seq<Path>)
    decreases |files|
  {
    files == [] || (AllHaveExtension(files[..|files| - 1]) && HasExtension(files[|files| - 1]))
  }

  /** The `k`-th of such files has an extension. */
  lemma {:induction false} AllHaveExtensionAt(files: seq<Path>, k: nat)
    requires AllHaveExtension(files) && k < |files|
    ensures HasExtension(files[k])
    decreases |files|
  {
    var n := |files| - 1;
    if k < n {
      AllHaveExtensionAt(files[..n], k);
    }
  }

  /** Files each of which has an extension satisfy `AllHaveExtension`. */
  lemma {:induction false} AllHaveExtensionIntro(files: seq<Path>)
    requires forall k :: 0 <= k < |files| ==> HasExtension(files[k])
    ensures AllHaveExtension(files)
    decreases |files|
  {
    if files != [] {
      var n := |files| - 1;
      AllHaveExtensionIntro(files[..n]);
    }
  }

  /** The output path of each input file of a worker cycle, from the clock reading at its position. */
  function OutputNames(outDir: Path, files: seq<Path>, clock: nat -> U64): (outs: seq<Path>)
    requires AllHaveExtension(files)
    ensures |outs| == |files|
    decreases |files|
  {
    if files == [] then []
    else
      var k := |files| - 1;
      OutputNames(outDir, files[..k], clock) + [OutputName(outDir, files[k], clock(k))]
  }

  /** The `k`-th output name is that of the `k`-th file at the `k`-th clock reading. */
  lemma {:induction false} OutputNamesAt(outDir: Path, files: seq<Path>, clock: nat -> U64, k: nat)
    requires AllHaveExtension(files)
    requires k < |files|
    ensures HasExtension(files[k])
    ensures OutputNames(outDir, files, clock)[k] == OutputName(outDir, files[k], clock(k))
    decreases |files|
  {
    AllHaveExtensionAt(files, k);
    var n := |files| - 1;
    if k < n {
      OutputNamesAt(outDir, files[..n], clock, k);
    }
  }

  /** The calls for one file of a worker cycle: its compression and, after a success with clearing enabled, its removal. */
  function StepCalls(clear: bool, file: Path, out: Path, tool: Tool): seq<Call> {
    [Compress(file, out)] + (if clear && tool(file, out).Compressed? then [Remove(file)] else [])
  }

  /**
   * The calls of the worker cycle over the filtered input files and their
   * output names: the calls for each file, in order.
   */
  function WorkerTrace(clear: bool, files: seq<Path>, outs: seq<Path>, tool: Tool): (t: seq<Call>)
    requires |outs| == |files|
    ensures |files| <= |t| <= 2 * |files|
    decreases |files|
  {
    if files == [] then []
    else
      var k := |files| - 1;
      WorkerTrace(clear, files[..k], outs[..k], tool) + StepCalls(clear, files[k], outs[k], tool)
  }

  /** Extending the files by one extends the worker trace by that file's calls. */
  lemma WorkerTraceSnoc(clear: bool, files: seq<Path>, outs: seq<Path>, tool: Tool, i: nat)
    requires |outs| == |files| && i < |files|
    ensures WorkerTrace(clear, files[..i + 1], outs[..i + 1], tool) ==
            WorkerTrace(clear, files[..i], outs[..i], tool) + StepCalls(clear, files[i], outs[i], tool)
  {
    assert files[..i + 1][..i] == files[..i];
    assert outs[..i + 1][..i] == outs[..i];
  }

  /** The only compression among one file's calls is that of the file to its output name. */
  lemma StepCompresses(clear: bool, file: Path, out: Path, tool: Tool)
    ensures Filter(StepCalls(clear, file, out, tool), (c: Call) => c.Compress?) == [Compress(file, out)]
  {
    var isCompress := (c: Call) => c.Compress?;
    var tail := if clear && tool(file, out).Compressed? then [Remove(file)] else [];
    FilterConcat([Compress(file, out)], tail, isCompress);
    assert Filter([Compress(file, out)], isCompress) == [Compress(file, out)] + Filter([], isCompress);
    assert Filter(tail, isCompress) == [] by {
      if tail != [] {
        assert Filter(tail, isCompress) == [] + Filter(tail[1..], isCompress);
      }
    }
  }

  /** Taking the compressions out of the worker trace leaves one per file, in scan order, to its output name. */
  lemma {:induction false} WorkerCompressesEach(clear: bool, files: seq<Path>, outs: seq<Path>, tool: Tool)
    requires |outs| == |files|
    ensures Filter(WorkerTrace(clear, files, outs, tool), (c: Call) => c.Compress?) ==
            seq(|files|, k requires 0 <= k < |files| => Compress(files[k], outs[k]))
    decreases |files|
  {
    var isCompress := (c: Call) => c.Compress?;
    if files != [] {
      var k := |files| - 1;
      WorkerCompressesEach(clear, files[..k], outs[..k], tool);
      FilterConcat(WorkerTrace(clear, files[..k], outs[..k], tool), StepCalls(clear, files[k], outs[k], tool), isCompress);
      StepCompresses(clear, files[k], outs[k], tool);
      assert seq(|files|, j requires 0 <= j < |files| => Compress(files[j], outs[j])) ==
             seq(k, j requires 0 <= j < k => Compress(files[..k][j], outs[..k][j])) + [Compress(files[k], outs[k])];
    }
  }

  /**
   * The worker cycle removes `p` exactly when clearing is enabled and some
   * compression of `p` in the cycle succeeded; a failed compression leaves
   * its file alone.
   */
  lemma {:induction false} WorkerRemovesCompressed(clear: bool, files: seq<Path>, outs: seq<Path>, tool: Tool, p: Path)
    requires |outs| == |files|
    ensures Remove(p) in WorkerTrace(clear, files, outs, tool) <==>
            clear && exists k :: 0 <= k < |files| && files[k] == p && tool(p, outs[k]).Compressed?
    decreases |files|
  {
    if files != [] {
      var k := |files| - 1;
      WorkerRemovesCompressed(clear, files[..k], outs[..k], tool, p);
      var prefix := WorkerTrace(clear, files[..k], outs[..k], tool);
      assert Remove(p) in prefix <==>
             clear && exists j :: 0 <= j < k && files[j] == p && tool(p, outs[j]).Compressed? by {
        assert forall j :: 0 <= j < k ==> files[..k][j] == files[j] && outs[..k][j] == outs[j];
      }
    }
  }

  /** Every removal of a worker cycle comes right after the successful compression of the same file. */
  lemma {:induction false} WorkerRemovalFollowsCompression(clear: bool, files: seq<Path>, outs: seq<Path>, tool: Tool, j: nat)
    requires |outs| == |files|
    requires j < |WorkerTrace(clear, files, outs, tool)|
    requires WorkerTrace(clear, files, outs, tool)[j].Remove?
    ensures var t := WorkerTrace(clear, files, outs, tool);
            0 < j && t[j - 1].Compress? && t[j - 1].input == t[j].path &&
            tool(t[j - 1].input, t[j - 1].output).Compressed?
    decreases |files|
  {
    var k := |files| - 1;
    var prefix := WorkerTrace(clear, files[..k], outs[..k], tool);
    if j < |prefix| {
      WorkerRemovalFollowsCompression(clear, files[..k], outs[..k], tool, j);
    }
  }

  /** With clearing disabled the worker cycle only compresses. */
  lemma WorkerKeepsInputs(files: seq<Path>, outs: seq<Path>, tool: Tool, p: Path)
    requires |outs| == |files|
    ensures Remove(p) !in WorkerTrace(false, files, outs, tool)
  {
    WorkerRemovesCompressed(false, files, outs, tool, p);
  }

  /** The calls of a worker cycle: nothing when the input scan fails. */
  function WorkerCycleTrace(node: Node, inRead: DirectoryRead, tool: Tool, clock: nat -> U64): seq<Call> {
    match InputFiles(node, inRead)
    case Failure(_) => []
    case Success(files) =>
      AllHaveExtensionIntro(files);
      WorkerTrace(node.clearInDir, files, OutputNames(node.fileManager.outDir, files, clock), tool)
  }

  /** A failed input scan ends the worker cycle before any call: nothing is compressed or removed. */
  lemma WorkerIdle(node: Node, inRead: DirectoryRead, tool: Tool, clock: nat -> U64)
    requires InputFiles(node, inRead).Failure?
    ensures WorkerCycleTrace(node, inRead, tool, clock) == []
  {
  }

  /**
   * After a successful input scan the worker cycle compresses each filtered
   * input file once, in scan order, to its output name at the clock reading
   * of its position.
   */
  lemma WorkerCycleCompresses(node: Node, inRead: DirectoryRead, tool: Tool, clock: nat -> U64, k: nat)
    requires InputFiles(node, inRead).Success? && k < |InputFiles(node, inRead).value|
    ensures var files := InputFiles(node, inRead).value;
            var compressions := Filter(WorkerCycleTrace(node, inRead, tool, clock), (c: Call) => c.Compress?);
            && |compressions| == |files|
            && HasExtension(files[k])
            && compressions[k] == Compress(files[k], OutputName(node.fileManager.outDir, files[k], clock(k)))
  {
    var files := InputFiles(node, inRead).value;
    AllHaveExtensionIntro(files);
    var outs := OutputNames(node.fileManager.outDir, files, clock);
    WorkerCompressesEach(node.clearInDir, files, outs, tool);
    OutputNamesAt(node.fileManager.outDir, files, clock, k);
  }

  /**
   * The worker cycle removes `p` exactly when clearing is enabled, the input
   * scan succeeds and the compression of `p` at some position of the scan succeeds.
   */
  lemma WorkerCycleRemoves(node: Node, inRead: DirectoryRead, tool: Tool, clock: nat -> U64, p: Path)
    ensures Remove(p) in WorkerCycleTrace(node, inRead, tool, clock) <==>
            && node.clearInDir
            && InputFiles(node, inRead).Success?
            && exists k :: 0 <= k < |InputFiles(node, inRead).value| && InputFiles(node, inRead).value[k] == p &&
                 HasExtension(p) && tool(p, OutputName(node.fileManager.outDir, p, clock(k))).Compressed?
  {
    if InputFiles(node, inRead).Success? {
      var files := InputFiles(node, inRead).value;
      AllHaveExtensionIntro(files);
      var outs := OutputNames(node.fileManager.outDir, files, clock);
      WorkerRemovesCompressed(node.clearInDir, files, outs, tool, p);
      forall k | 0 <= k < |files|
        ensures HasExtension(files[k]) && outs[k] == OutputName(node.fileManager.outDir, files[k], clock(k))
      {
        OutputNamesAt(node.fileManager.outDir, files, clock, k);
      }
    }
  }

  /** The calls of one tick: the cycle of the node's mode. */
  function TickTrace(node: Node, inRead: DirectoryRead, outRead: DirectoryRead, tool: Tool, clock: nat -> U64): seq<Call> {
    match node.mode
    case Buffer => BufferTrace(node.clearInDir, InputFiles(node, inRead), OutputFiles(node, outRead))
    case Worker => WorkerCycleTrace(node, inRead, tool, clock)
  }

  /** `compress_file`: run the tool on the file and its output name; a tool failure becomes a compression error. */
  method CompressFile(node: Node, disk: Disk, tool: Tool, file: Path, ts: U64) returns (r: Outcome<NodeError>)
    requires HasExtension(file)
    modifies disk
    ensures disk.calls == old(disk.calls) + [Compress(file, OutputName(node.fileManager.outDir, file, ts))]
    ensures disk.present == old(disk.present)
    ensures r.Pass? <==> tool(file, OutputName(node.fileManager.outDir, file, ts)).Compressed?
    ensures r.Fail? ==> r.error == CompressFileError(tool(file, OutputName(node.fileManager.outDir, file, ts)).message)
  {
    var output := OutputName(node.fileManager.outDir, file, ts);
    var outcome := disk.RunTool(tool, file, output);
    match outcome
    case CompressorFailed(message) => r := Fail(CompressFileError(message));
    case Compressed => r := Pass;
  }

  /** One file of `handle_worker_mode`: compress it and, after a success with clearing enabled, remove it. */
  method WorkerStep(node: Node, disk: Disk, tool: Tool, file: Path, ts: U64)
    requires HasExtension(file)
    modifies disk
    ensures disk.calls == old(disk.calls) + StepCalls(node.clearInDir, file, OutputName(node.fileManager.outDir, file, ts), tool)
    ensures disk.present == old(disk.present) -
              RemovedBy(StepCalls(node.clearInDir, file, OutputName(node.fileManager.outDir, file, ts), tool), disk.readOnly)
  {
    ghost var out := OutputName(node.fileManager.outDir, file, ts);
    var result := CompressFile(node, disk, tool, file, ts);
    if result.Pass? && node.clearInDir {
      var outcome := disk.RemoveFile(file);
    }
    RemovedBySnoc([Compress(file, out)], Remove(file), disk.readOnly);
    RemovedBySnoc([], Compress(file, out), disk.readOnly);
    assert [] + [Compress(file, out)] == [Compress(file, out)];
  }

  /** `handle_buffer_mode`: remove every input file that pairs with an output file; failed removals are skipped over. */
  method HandleBufferMode(node: Node, disk: Disk, inRead: DirectoryRead, outRead: DirectoryRead)
    modifies disk
    ensures disk.calls == old(disk.calls) + BufferTrace(node.clearInDir, InputFiles(node, inRead), OutputFiles(node, outRead))
    ensures disk.present == old(disk.present) -
              RemovedBy(BufferTrace(node.clearInDir, InputFiles(node, inRead), OutputFiles(node, outRead)), disk.readOnly)
  {
    if !node.clearInDir {
      return;
    }
    var inScan := InputFiles(node, inRead);
    if inScan.Failure? {
      return;
    }
    var outScan := OutputFiles(node, outRead);
    if outScan.Failure? {
      return;
    }
    RemoveWhere(disk, inScan.value, PairedWith(outScan.value));
  }

  /** The loop of `handle_buffer_mode`: request the removal of each path that passes the test; a failure does not stop the rest. */
  method RemoveWhere(disk: Disk, ins: seq<Path>, keep: Path -> bool)
    modifies disk
    ensures disk.calls == old(disk.calls) + RemoveCalls(Filter(ins, keep))
    ensures disk.present == old(disk.present) - RemovedBy(RemoveCalls(Filter(ins, keep)), disk.readOnly)
  {
    var i := 0;
    while i < |ins|
      invariant 0 <= i <= |ins|
      invariant disk.calls == old(disk.calls) + RemoveCalls(Filter(ins[..i], keep))
      invariant disk.present == old(disk.present) - RemovedBy(RemoveCalls(Filter(ins[..i], keep)), disk.readOnly)
    {
      if keep(ins[i]) {
        var outcome := disk.RemoveFile(ins[i]);
      }
      RemoveAdvance(old(disk.calls), old(disk.present), disk.readOnly, ins, keep, i, disk.calls, disk.present);
      i := i + 1;
    }
    assert ins[..|ins|] == ins;
  }

  /** The calls and files after the test of path `i` are those of the removals among the first `i + 1` paths. */
  lemma RemoveAdvance(calls0: seq<Call>, present0: set<Path>, readOnly: set<Path>,
                      ins: seq<Path>, keep: Path -> bool, i: nat, calls: seq<Call>, present: set<Path>)
    requires i < |ins|
    requires calls == calls0 + RemoveCalls(Filter(ins[..i], keep)) + (if keep(ins[i]) then [Remove(ins[i])] else [])
    requires present == present0 - RemovedBy(RemoveCalls(Filter(ins[..i], keep)), readOnly) -
                        (if keep(ins[i]) && ins[i] !in readOnly then {ins[i]} else {})
    ensures calls == calls0 + RemoveCalls(Filter(ins[..i + 1], keep))
    ensures present == present0 - RemovedBy(RemoveCalls(Filter(ins[..i + 1], keep)), readOnly)
  {
    RemoveCallsSnoc(ins, keep, i);
    if keep(ins[i]) {
      var done := RemoveCalls(Filter(ins[..i], keep));
      RemovedBySnoc(done, Remove(ins[i]), readOnly);
      assert RemoveCalls(Filter(ins[..i + 1], keep)) == done + [Remove(ins[i])];
    } else {
      assert RemoveCalls(Filter(ins[..i + 1], keep)) == RemoveCalls(Filter(ins[..i], keep));
      var rest := present0 - RemovedBy(RemoveCalls(Filter(ins[..i], keep)), readOnly);
      assert rest - {} == rest;
    }
  }

  /** Testing one more path adds its removal request exactly when it passes. */
  lemma RemoveCallsSnoc(ins: seq<Path>, keep: Path -> bool, i: nat)
    requires i < |ins|
    ensures RemoveCalls(Filter(ins[..i + 1], keep)) ==
            RemoveCalls(Filter(ins[..i], keep)) + (if keep(ins[i]) then [Remove(ins[i])] else [])
  {
    var done := Filter(ins[..i], keep);
    assert ins[..i + 1] == ins[..i] + [ins[i]];
    FilterSnoc(ins[..i], ins[i], keep);
    if keep(ins[i]) {
      RemoveCallsConcat(done, [ins[i]]);
    } else {
      assert done + [] == done;
    }
  }

  /**
   * `handle_worker_mode`: compress every input file in scan order, reading
   * the clock for each; remove a file after its successful compression when
   * clearing is enabled. Failures are skipped over.
   */
  method HandleWorkerMode(node: Node, disk: Disk, inRead: DirectoryRead, tool: Tool, clock: nat -> U64)
    modifies disk
    ensures disk.calls == old(disk.calls) + WorkerCycleTrace(node, inRead, tool, clock)
    ensures disk.present == old(disk.present) - RemovedBy(WorkerCycleTrace(node, inRead, tool, clock), disk.readOnly)
  {
    var inScan := InputFiles(node, inRead);
    if inScan.Failure? {
      return;
    }
    AllHaveExtensionIntro(inScan.value);
    WorkerLoop(node, disk, inScan.value, tool, clock);
  }

  /** The loop of `handle_worker_mode` over the filtered input files; a failure does not stop the remaining files. */
  method WorkerLoop(node: Node, disk: Disk, files: seq<Path>, tool: Tool, clock: nat -> U64)
    requires AllHaveExtension(files)
    modifies disk
    ensures disk.calls == old(disk.calls) +
              WorkerTrace(node.clearInDir, files, OutputNames(node.fileManager.outDir, files, clock), tool)
    ensures disk.present == old(disk.present) -
              RemovedBy(WorkerTrace(node.clearInDir, files, OutputNames(node.fileManager.outDir, files, clock), tool), disk.readOnly)
  {
    ghost var outs := OutputNames(node.fileManager.outDir, files, clock);
    var i := 0;
    while i < |files|
      invariant 0 <= i <= |files|
      invariant disk.calls == old(disk.calls) + WorkerTrace(node.clearInDir, files[..i], outs[..i], tool)
      invariant disk.present == old(disk.present) - RemovedBy(WorkerTrace(node.clearInDir, files[..i], outs[..i], tool), disk.readOnly)
    {
      OutputNamesAt(node.fileManager.outDir, files, clock, i);
      WorkerStep(node, disk, tool, files[i], clock(i));
      WorkerAdvance(old(disk.calls), old(disk.present), disk.readOnly, node.clearInDir, files, outs, tool, i, disk.calls, disk.present);
      i := i + 1;
    }
    assert files[..|files|] == files && outs[..|outs|] == outs;
  }

  /** The calls and files after the step for file `i` are those of the trace of the first `i + 1` files. */
  lemma WorkerAdvance(calls0: seq<Call>, present0: set<Path>, readOnly: set<Path>, clear: bool,
                      files: seq<Path>, outs: seq<Path>, tool: Tool, i: nat, calls: seq<Call>, present: set<Path>)
    requires |outs| == |files| && i < |files|
    requires calls == calls0 + WorkerTrace(clear, files[..i], outs[..i], tool) + StepCalls(clear, files[i], outs[i], tool)
    requires present == present0 - RemovedBy(WorkerTrace(clear, files[..i], outs[..i], tool), readOnly)
                                 - RemovedBy(StepCalls(clear, files[i], outs[i], tool), readOnly)
    ensures calls == calls0 + WorkerTrace(clear, files[..i + 1], outs[..i + 1], tool)
    ensures present == present0 - RemovedBy(WorkerTrace(clear, files[..i + 1], outs[..i + 1], tool), readOnly)
  {
    WorkerTraceSnoc(clear, files, outs, tool, i);
    RemovedByConcat(WorkerTrace(clear, files[..i], outs[..i], tool), StepCalls(clear, files[i], outs[i], tool), readOnly);
  }

  /** One tick of `run`: the cycle of the node's mode; the loop then sleeps for the returned number of seconds. */
  method Tick(node: Node, disk: Disk, inRead: DirectoryRead, outRead: DirectoryRead, tool: Tool, clock: nat -> U64)
    returns (sleepSecs: U64)
    modifies disk
    ensures sleepSecs == node.pollingIntervalSecs
    ensures disk.calls == old(disk.calls) + TickTrace(node, inRead, outRead, tool, clock)
    ensures disk.present == old(disk.present) - RemovedBy(TickTrace(node, inRead, outRead, tool, clock), disk.readOnly)
  {
    match node.mode {
      case Buffer => HandleBufferMode(node, disk, inRead, outRead);
      case Worker => HandleWorkerMode(node, disk, inRead, tool, clock);
    }
    sleepSecs := node.pollingIntervalSecs;
  }
}
