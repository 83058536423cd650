# media-vault: a verified model of the file manager and the node

media-vault moves video files through a pipeline. A node polls an input
directory and an output directory, and only looks at files whose name has an
extension. In **worker** mode it compresses every such input file into the
output directory and, when `clear_in_dir` is set, deletes each input whose
compression succeeded. In **buffer** mode, when `clear_in_dir` is set, it
deletes every input file that already has a compressed counterpart in the
output directory; otherwise it does nothing. A compressed counterpart is
named `<stem>_compressed_<unix seconds>.<extension>`, and an input pairs with
an output whenever the input's name starts with the part of the output's
name before `_compressed_<digits>.mp4`, whatever the input's extension.

The model covers two source files:

- `src/files.rs`, the file manager:
  - the canonical output name;
  - the pairing test between an input file and an output file, including the
    exact semantics of the pattern `(.*)_compressed_\d+\.mp4`;
  - directory listing and file removal, as operations on an abstract disk.
- `src/node.rs`, the orchestrator:
  - mode selection and interval computation in `Node::new`;
  - the extension filter over a directory scan;
  - the buffer and worker cycles;
  - one tick of the polling loop.

Modules, one per file:

| module | file | contents |
|---|---|---|
| `Wrappers` | `wrappers.dfy` | `Option`, `Result`, `Outcome` (Rust's `Result<(), E>`) |
| `Errors` | `errors.dfy` | `NodeError` with its five variants |
| `Sequences` | `sequences.dfy` | order-preserving `Filter` (Rust's `into_iter().filter(..).collect()`) |
| `Numerals` | `numerals.dfy` | unsigned 64-bit integers, decimal rendering and its value |
| `Paths` | `paths.dfy` | `file_name`, `file_stem`, `extension`, `join` as Rust's `std::path` does them on Unix |
| `CompressPattern` | `pattern.dfy` | leftmost-first regex search for `(.*)_compressed_\d+\.mp4` and its capture group |
| `Files` | `files.dfy` | `get_output_name`, `is_file_pair`, `scan_directory`, the `Disk` class with `remove_file` and the compressor call |
| `FileCases` | `file_cases.dfy` | the repository's own test vectors, and the prefix examples, proved for every directory and timestamp |
| `Node` | `node.dfy` | `Node::new`, `scan_and_filter`, the two cycles, `compress_file`, one tick of `run` |

The outside world is modelled as follows:

- **The disk.** `Files.Disk` is a class with three fields:
  - `present`, the set of files on the disk;
  - `readOnly`, the files whose removal the operating system refuses;
  - `calls`, the sequence of every `Compress(input, output)` and `Remove(path)` request.
- **Methods on the disk.**
  - The cycle methods issue their requests one at a time, in loops that mirror the source's `for_each`.
  - Each method's contract gives the new `calls` as the old ones followed by a trace function of the inputs.
  - The new `present` is the old set minus `RemovedBy` of that trace.
  - Lemmas then prove the promised properties of the trace functions.
- **Directory listings** are parameters of type `DirectoryRead`. A listing is either the listed entries, each of which may itself fail to read, or the error from opening the directory.
- **The compressor** is a `Tool`, a function from (input, output) paths to success or a failure message.
- **The clock** is a function from a file's position in the worker cycle to the Unix seconds read when that file is compressed. Each file is named with its own reading.

## Model

| member | source | states |
|---|---|---|
| Numerals.Decimal | src/files.rs:64-67 | the timestamp is written as one or more ASCII digits, without a leading zero unless it is 0, whose decimal value is the timestamp |
| Numerals.DecimalInjective | src/files.rs:64-67 | different timestamps are written differently |
| Paths.LastIndexOf | src/files.rs:66-68 | the result is the last position of the character, or none when it does not occur |
| Paths.TrimTail | src/files.rs:50-51 | dropping trailing separators and trailing `.` components leaves a prefix of the path |
| Paths.LastSegment | src/files.rs:50-51 | the final segment contains no separator |
| Paths.FileName | src/files.rs:50-51 | a file name, when present, is non-empty and contains no separator |
| Paths.NameOrEmpty | src/files.rs:50-51 | `file_name().unwrap_or_default()`: the file name, or "" when the path has none; `FileCases.NameInDir` states it for a plain name in any directory |
| Paths.ExtensionDot | src/files.rs:66-68 | the stem/extension dot is a dot after the first character, and no dot follows it |
| Paths.FileStem | src/files.rs:66 | `file_stem`: the file name up to its stem/extension dot; for a path with an extension, `Paths.StemAndExtension` and `FileCases.PartsInDir` state its contract |
| Paths.Extension | src/files.rs:68 | `extension`: the file name after its stem/extension dot, possibly empty, or none without such a dot; `Paths.StemAndExtension` and `FileCases.PartsInDir` state its contract |
| Paths.HasExtension | src/node.rs:80 | `file.extension().is_some()`: the path has a stem/extension dot; `Paths.StemAndExtension` states what follows from it and `Node.ScanAndFilter` its use as the scan filter |
| Paths.StemAndExtension | src/files.rs:64-69 | a path with an extension has a non-empty, separator-free stem; its file name is stem, dot, extension; the extension has no dot or separator |
| Paths.Join | src/files.rs:71 | `out_dir.join(name)`: an absolute name replaces the directory, otherwise the name is appended after a separator added only when needed; `Paths.JoinExtendsDir` and `Paths.FileNameOfJoin` state its contract |
| Paths.JoinExtendsDir | src/files.rs:71 | joining a relative name onto a directory yields a path that begins with the directory |
| Paths.FileNameOfJoin | src/files.rs:71 | joining a plain name onto any directory yields a path whose file name is that name |
| Paths.LastIndexOfUnique | src/files.rs:66-68 | an occurrence after which the character never reappears is the last occurrence |
| Paths.SplitBuiltName | src/files.rs:64-69 | a name built as stem, dot, dot-free extension splits back at that dot |
| CompressPattern.LastTailIn | src/files.rs:9 | finds the largest position in a range where `_compressed_`, digits and `.mp4` follow, or reports that there is none |
| CompressPattern.LineEnd | src/files.rs:9 | the end of the current line: no newline before it, and a newline or the end of the text at it |
| CompressPattern.LineBoundsMatches | src/files.rs:9 | a match starting within a line ends within that line |
| CompressPattern.SearchFrom | src/files.rs:9 | the match found from a position starts at the leftmost possible start and takes the longest group from there; none means no match starts at or after the position |
| CompressPattern.Search | src/files.rs:53-54 | no match exactly when the pattern matches nowhere; otherwise the leftmost-first match |
| CompressPattern.Capture | src/files.rs:53-55 | the capture group is absent exactly when nothing matches, and otherwise is the group of the leftmost-first match |
| CompressPattern.LeftmostLongestUnique | src/files.rs:9 | the engine's match is unique |
| CompressPattern.CaptureWithoutNewline | src/files.rs:9 | on a name without newlines the group is exactly the longest prefix followed by `_compressed_`, digits and `.mp4` (both directions) |
| CompressPattern.NoTailAfterPrefix | src/files.rs:64-69 | in `<p>_compressed_<digits>.<ext>` with a dot-free extension, no later position starts another `_compressed_<digits>.mp4` |
| CompressPattern.CaptureOfBuiltName | src/files.rs:64-69 | the group of a built name whose extension begins with `mp4` is its stem |
| Files.OutputName | src/files.rs:58-72 | `get_output_name` with the timestamp as a parameter: the output directory joined with `<stem>_compressed_<ts>.<ext>`; it requires an extension, which the source unwraps; `Files.OutputNameShape` states its contract |
| Files.OutputNameShape | src/files.rs:58-72 | the output path lies in the output directory; its file name is `<stem>_compressed_<ts>.<ext>` from the input's stem and extension; splitting it again gives that stem with the marker and timestamp, and the input's extension |
| Files.OutputNameParts | src/files.rs:64-69 | the built name is a plain file name: non-empty, not `.` or `..`, no separator |
| Files.IsFilePair | src/files.rs:49-56 | the pair holds exactly when the out-name matches the pattern and the in-name starts with the group of the engine's match; missing names read as "" |
| Files.PairByGroup | src/files.rs:53-55 | once the out-name's group is known, pairing is exactly a prefix test of the in-name against it, not equality |
| Files.OutputNameCapture | src/files.rs:58-72 | the group of a generated name is the input's stem, for an extension beginning with `mp4` |
| Files.OutputPairsWithInput | src/files.rs:49-72 | round trip: an input with extension `mp4` pairs with the name generated for it, for every output directory and timestamp |
| Files.OutputNamesDistinct | src/files.rs:58-72 | compressing the same input at two different seconds gives two different output paths |
| Files.NoMarkerNoPair | src/files.rs:53-55 | an out-name without `_compressed_` pairs with nothing |
| Files.NoSuffixNoPair | src/files.rs:53-55 | an out-name without `.mp4` pairs with nothing |
| Files.NoDigitNoPair | src/files.rs:53-55 | an out-name without a digit pairs with nothing |
| Files.PairWithoutNewline | src/files.rs:49-56 | for an out-name without newlines, pairing means the in-name starts with the longest prefix of the out-name that is followed by `_compressed_`, digits and `.mp4` |
| Files.CollectEntries | src/files.rs:37-42 | all entries read: their paths in listing order, each joined onto the directory; otherwise the error of the first failed entry |
| Files.ScanDirectory | src/files.rs:34-43 | a directory that cannot be opened gives `ReadDirError` with the cause's message; every failure is a `ReadDirError` |
| Files.RemovedBy | src/files.rs:45-47 | the files a run of requests takes off the disk: those of its removals whose file is not protected; `Files.RemovedByMeans` states its contract |
| Files.RemovedBySnoc | src/files.rs:45-47 | one more removal request takes away its file unless the file is protected |
| Files.RemovedByMeans | src/files.rs:45-47 | a file leaves the disk exactly when some request removes it and it is not protected |
| Files.RemovedByConcat | src/files.rs:45-47 | requests issued one after another take away the files of each |
| Files.Disk.RemoveFile | src/files.rs:45-47 | the request is recorded; it succeeds exactly when the file is present and removable, and the file is then gone; the failure carries the not-found or permission-denied message |
| Files.Disk.RunTool | src/node.rs:147-150 | the compressor call is recorded, leaves the files alone, and its outcome is the tool's |
| FileCases.NameInDir | src/files.rs:50-51 | the file name of a plain name joined onto a directory is that name |
| FileCases.GroupOfOutput | src/files.rs:53-54 | the group of `<group>_compressed_<ts>.mp4` in any directory is `<group>` |
| FileCases.PairsWithGroup | src/files.rs:53-55 | an input whose name begins with the group pairs with that output |
| FileCases.DiffersFromGroup | src/files.rs:53-55 | an input whose name differs from the group at some position does not pair |
| FileCases.CameraFilePairs | src/files.rs:83-85 | `PXL_20240328_160158851.TS.mp4` pairs with `PXL_20240328_160158851_compressed_<ts>.mp4`, for any directories and timestamp |
| FileCases.NeighbourDoesNotPair | src/files.rs:87-88 | `PXL_20240328_160158852.TS.mp4` does not pair with that output |
| FileCases.LongerInputPairs | src/files.rs:53-55 | in-name `ab.mp4` pairs with out-name `a_compressed_<ts>.mp4` |
| FileCases.ShorterInputDoesNotPair | src/files.rs:53-55 | in-name `a.mp4` does not pair with out-name `ab_compressed_<ts>.mp4` |
| FileCases.EmptyGroupPairsWithAll | src/files.rs:53-55 | every input file, whatever its name, pairs with an output named `_compressed_<ts>.mp4` in any directory, because the group is empty |
| FileCases.PartsInDir | src/files.rs:66-68 | `<stem>.<ext>` in any directory has exactly that stem and extension |
| FileCases.OutputNameOfParts | src/files.rs:64-71 | the output name of `<stem>.<ext>` is the output directory joined with `<stem>_compressed_<ts>.<ext>` |
| FileCases.TestVideoOutputPath | src/files.rs:99-100 | `out` joined with the built name is `out/test_video_compressed_<ts>.mp4` |
| FileCases.OutputNameCase | src/files.rs:92-100 | the output name of `test_video.mp4`, in any input directory, is `out/test_video_compressed_<ts>.mp4`: it starts with `out/test_video_compressed_` and ends with `.mp4` |
| Sequences.Filter | src/node.rs:80 | the kept elements are no more than the input and all satisfy the test |
| Sequences.FilterMembership | src/node.rs:80 | an element is kept exactly when it occurs in the input and passes the test |
| Sequences.FilterConcat | src/node.rs:80 | filtering preserves order: filtering two listings in turn is filtering their concatenation |
| Sequences.FilterKeepsAll | src/node.rs:80 | a listing whose every element passes is unchanged |
| Sequences.FilterSnoc | src/node.rs:80 | one more element is appended to the result exactly when it passes |
| Node.ParseMode | src/node.rs:45-49 | a parsed mode has exactly the given name; no mode exactly when no mode has that name |
| Node.ParseModeName | src/node.rs:45-47 | `"buffer"` gives Buffer and `"worker"` gives Worker |
| Node.IntervalSeconds | src/node.rs:58 | the stored interval equals minutes × 60 modulo 2^64; it equals the exact product exactly when that product does not overflow, and then it is a whole number of minutes |
| Node.IntervalBound | src/node.rs:58 | 307445734561825860 is the largest interval in minutes whose product with 60 does not wrap |
| Node.NewNode | src/node.rs:44-63 | an unknown mode gives `InvalidModeError` with that exact string; a valid mode with a failed compressor gives `CompressorInitError`; success exactly when both checks pass, with the node's fields taken from the configuration and the interval in seconds |
| Node.InvalidModeFirst | src/node.rs:45-52 | with an invalid mode the result does not depend on the compressor: the mode is checked first |
| Node.ScanAndFilter | src/node.rs:76-81 | a scan error is passed on unchanged; otherwise the kept paths are exactly the scanned paths with an extension |
| Node.ScanAndFilterOrder | src/node.rs:80 | the filter keeps scan order |
| Node.InputFiles | src/files.rs:26-28 | the scanned, extension-filtered listing of the node's input directory, as `scan_and_filter` over `scan_in_directory` computes it at src/node.rs:89 and src/node.rs:120; `Node.ScanAndFilter` and `Files.ScanDirectory` state its contract |
| Node.OutputFiles | src/files.rs:30-32 | the scanned, extension-filtered listing of the node's output directory, as `scan_and_filter` over `scan_out_directory` computes it at src/node.rs:97; `Node.ScanAndFilter` and `Files.ScanDirectory` state its contract |
| Node.PairsWithAny | src/node.rs:106-108 | `out_files.iter().any(..)`: the file pairs with at least one of the output files; `Node.BufferRemovesPaired` states its use |
| Node.PairedWith | src/node.rs:106-108 | the test the buffer loop applies to each input file: whether `any` output file pairs with it; `Node.BufferRemovesPaired` and `Node.RemovesKept` state its use |
| Node.RemoveCalls | src/node.rs:110 | one `remove_file` request per path, in order; `Node.RemoveCallsMeans` and `Node.RemoveCallsConcat` state its contract |
| Node.RemoveCallsConcat | src/node.rs:105-116 | removal requests for two listings in turn are those for their concatenation |
| Node.RemoveCallsMeans | src/node.rs:105-116 | removal requests only remove, and remove exactly the listed paths |
| Node.RemovesKept | src/node.rs:105-116 | removing the paths that pass a test removes a path exactly when it is listed and passes |
| Node.BufferTrace | src/node.rs:83-117 | the requests of the buffer cycle: none without clearing or after a failed scan, otherwise a removal of each input that pairs with some output, in input order; `Node.BufferIdle`, `Node.BufferRemovesPaired`, `Node.BufferOrder` and `Node.BufferCycleRemoves` state its contract |
| Node.BufferIdle | src/node.rs:84-103 | with clearing disabled, or when either scan fails, the buffer cycle issues nothing |
| Node.BufferRemovesPaired | src/node.rs:105-116 | the buffer cycle only removes, and removes an input file exactly when it pairs with at least one output file |
| Node.BufferCycleRemoves | src/node.rs:83-117 | for a node and its two directory reads: a removal of `p` exactly when clearing is enabled, both scans succeed and `p` is a filtered input that pairs with some filtered output |
| Node.BufferOrder | src/node.rs:105-116 | removals follow input order |
| Node.AllHaveExtensionAt | src/node.rs:80 | every file of a filtered listing has an extension |
| Node.AllHaveExtensionIntro | src/node.rs:80 | a listing whose files each have an extension satisfies the worker cycle's precondition |
| Node.OutputNames | src/node.rs:145 | the output name of each file of the worker cycle, one per file, from the clock reading at its position; `Node.OutputNamesAt` states its contract |
| Node.OutputNamesAt | src/node.rs:145 | the output name for the file at position `k` is built from that file and the clock reading at `k` |
| Node.StepCalls | src/node.rs:129-139 | the requests for one file: its compression and, after a success with clearing enabled, its removal; `Node.StepCompresses` states its contract |
| Node.WorkerTrace | src/node.rs:128-140 | the requests of the worker loop: those of each file, in order; `Node.WorkerCompressesEach`, `Node.WorkerRemovesCompressed` and `Node.WorkerRemovalFollowsCompression` state its contract |
| Node.WorkerTraceSnoc | src/node.rs:128-140 | one more file appends that file's compression and possible removal |
| Node.StepCompresses | src/node.rs:129-138 | the only compression among one file's calls is of that file to its output name |
| Node.WorkerCompressesEach | src/node.rs:128-140 | the compressions of the worker cycle are one per file, in scan order, each to its output name |
| Node.WorkerRemovesCompressed | src/node.rs:129-139 | a file is removed exactly when clearing is enabled and its compression succeeded |
| Node.WorkerRemovalFollowsCompression | src/node.rs:129-138 | every removal comes right after the successful compression of the same file |
| Node.WorkerKeepsInputs | src/node.rs:132 | with clearing disabled the worker cycle removes nothing |
| Node.WorkerCycleCompresses | src/node.rs:119-141 | after a successful scan, each filtered input is compressed once, in scan order, to its output name at its own clock reading |
| Node.WorkerCycleTrace | src/node.rs:119-141 | the requests of the worker cycle: none after a failed input scan, otherwise the worker loop over the filtered files and their output names; `Node.WorkerIdle`, `Node.WorkerCycleCompresses` and `Node.WorkerCycleRemoves` state its contract |
| Node.WorkerIdle | src/node.rs:120-126 | a failed input scan issues no call at all: nothing is compressed and nothing is removed |
| Node.WorkerCycleRemoves | src/node.rs:119-141 | for a node and its input read: a removal of `p` exactly when clearing is enabled, the scan succeeds, and `p`'s compression at some position succeeds |
| Node.CompressFile | src/node.rs:143-156 | the file is compressed to its output name and nothing is removed; the result passes exactly when the tool succeeds, and a tool failure becomes `CompressFileError` with the tool's message |
| Node.WorkerStep | src/node.rs:129-139 | one file: its compression and, after a success with clearing enabled, its removal; the disk loses only what that removal takes |
| Node.HandleBufferMode | src/node.rs:83-117 | the requests issued are the buffer trace of the node's two scans, and the disk loses exactly the files those requests remove |
| Node.RemoveWhere | src/node.rs:105-116 | each listed path that passes the test is requested for removal, in order; a failure does not stop the rest; the disk loses exactly what those requests remove |
| Node.RemoveAdvance | src/node.rs:105-116 | after testing path `i` the requests and files are those of the first `i + 1` paths |
| Node.RemoveCallsSnoc | src/node.rs:105-116 | testing one more path adds its removal request exactly when it passes |
| Node.HandleWorkerMode | src/node.rs:119-141 | the requests issued are the worker trace of the node's input scan (nothing when the scan fails), and the disk loses exactly the files those requests remove |
| Node.WorkerLoop | src/node.rs:128-140 | every file in turn: its compression at its own clock reading and, after a success with clearing, its removal; failures do not stop the loop |
| Node.WorkerAdvance | src/node.rs:128-140 | after the step for file `i` the requests and files are those of the first `i + 1` files |
| Node.TickTrace | src/node.rs:67-70 | the requests of one tick: the cycle of the node's mode; `Node.Tick` states its contract |
| Node.Tick | src/node.rs:65-74 | one iteration of `run`: the cycle of the node's mode, then a sleep of the polling interval in seconds |

## Behaviour worth noting

In each case the model follows the code:

- **Prefix test.** Pairing is a prefix test, `starts_with` (src/files.rs:55). So in-name `a.mp4` does **not** pair with out-name `ab_compressed_1.mp4`, and in-name `ab.mp4` **does** pair with `a_compressed_1.mp4`. See `FileCases.ShorterInputDoesNotPair` and `FileCases.LongerInputPairs`.
- **Extension filter.** The scan filter keeps a path whenever `extension()` is present (src/node.rs:80). This includes an empty extension, as in `clip.`.
- **Empty group.** An output file named `_compressed_<digits>.mp4` has an empty capture group, so every input file pairs with it (src/files.rs:53-55). In buffer mode with clearing enabled, such a file in the output directory removes every input file. See `FileCases.EmptyGroupPairsWithAll`.
- **Modes.** There are exactly two modes, Buffer and Worker (src/node.rs:29-32).

## Left out

- `src/logging.rs`: HTTP log shipping. It is network I/O and is not part of this model.
- `src/logger.rs`: installation of the global logger. It is not part of this model.
- `src/config.rs`: YAML reading. `Config` is taken as already parsed.
- `src/compressor.rs`: not part of this model. Compression is the `Tool` oracle, and the compressor handle only records `ffmpeg_path`.
- `src/compressor.rs`: the tool's own output file is not added to `Disk.present`. The later listings of the output directory are parameters rather than a view of the disk.
- `src/main.rs`: glue. It is not part of this model.
- `run`: the endless loop and `thread::sleep` are left out. `Node.Tick` models one iteration and returns the sleep length.
- `compress_file`: the `Instant` timing, the rounding to whole seconds and its log line are left out. They are floating-point side output.
- Log messages: left out everywhere. They are side output only.
- Directory reads: they are parameters and are not derived from `Disk.present`. A real listing also depends on files the compressor writes.
- File names that are not valid UTF-8 are not modelled. Paths are strings, so the `unwrap_or_default` of `to_str` at src/files.rs:50-51 cannot fail here.
- `get_output_name`: its `unwrap` of `to_str` at src/files.rs:66-68 likewise cannot fail here.
- `SystemTime::now()` at src/files.rs:59-62 is the `clock` or `ts` parameter. The `unwrap` on a clock before 1970 is left out.
- Node.IntervalSeconds: the debug-build overflow panic of `polling_interval * 60` is not modelled. The release-build wrap-around modulo 2^64 is modelled instead.
- Duration: the polling interval is kept as whole seconds (`U64`). `Duration` holds the same value.
- CompressPattern.Search: `\d` matches only ASCII digits here. The regex crate's `\d` also matches other Unicode decimal digits.
- Files.OutputPairsWithInput: requires a stem without newlines, because `.*` does not cross a newline. Names with newlines are handled by `Files.IsFilePair` exactly, but the round trip is not claimed for them.
- Concurrency and other processes touching the directories are not modelled. The model is sequential.
