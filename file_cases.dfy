/**
 * The cases of the file manager's unit tests (files.rs) and the prefix
 * behaviour of the pairing test, stated for every input directory, output
 * directory and timestamp, and derived from general lemmas about plain names.
 */
module FileCases {
  import opened Wrappers
  import opened Numerals
  import opened Paths
  import opened CompressPattern
  import opened Files

  /** A plain name in any directory has that name. */
  lemma NameInDir(dir: Path, name: string)
    requires name != "" && name != "." && name != ".." && '/' !in name
    ensures NameOrEmpty(Join(dir, name)) == name
  {
    FileNameOfJoin(dir, name);
  }

  /** The output name `<group>_compressed_<ts>.mp4` in any directory has group `<group>`. */
  lemma GroupOfOutput(outDir: Path, group: string, ts: U64)
    requires group != "" && '/' !in group && '\n' !in group
    ensures Capture(NameOrEmpty(Join(outDir, group + Marker + Decimal(ts) + ".mp4"))) == Some(group)
  {
    var name := group + Marker + Decimal(ts) + "." + "mp4";
    assert group + Marker + Decimal(ts) + ".mp4" == name;
    OutputNameParts(group, Decimal(ts), "mp4");
    FileNameOfJoin(outDir, name);
    CaptureOfBuiltName(group, Decimal(ts), "mp4");
  }

  /** A plain input name pairs with `<group>_compressed_<ts>.mp4` exactly when it starts with `<group>`. */
  lemma PairsWithGroup(inDir: Path, outDir: Path, ts: U64, group: string, inName: string)
    requires group != "" && '/' !in group && '\n' !in group
    requires inName != "" && inName != "." && inName != ".." && '/' !in inName
    ensures IsFilePair(Join(inDir, inName), Join(outDir, group + Marker + Decimal(ts) + ".mp4"))
        <==> group <= inName
  {
    GroupOfOutput(outDir, group, ts);
    NameInDir(inDir, inName);
    PairByGroup(Join(inDir, inName), Join(outDir, group + Marker + Decimal(ts) + ".mp4"), group);
  }

  /** An input name that differs from the group at position `k` does not pair. */
  lemma DiffersFromGroup(inDir: Path, outDir: Path, ts: U64, group: string, inName: string, k: nat)
    requires group != "" && '/' !in group && '\n' !in group
    requires inName != "" && inName != "." && inName != ".." && '/' !in inName
    requires k < |group| && k < |inName| && group[k] != inName[k]
    ensures !IsFilePair(Join(inDir, inName), Join(outDir, group + Marker + Decimal(ts) + ".mp4"))
  {
    PairsWithGroup(inDir, outDir, ts, group, inName);
  }

  /**
   * The unit test of `is_file_pair`, first half: the output of a camera file
   * pairs with it (the test uses directories `in` and `out` and timestamp 1).
   */
  lemma CameraFilePairs(inDir: Path, outDir: Path, ts: U64)
    ensures IsFilePair(Join(inDir, "PXL_20240328_160158851.TS.mp4"),
                       Join(outDir, "PXL_20240328_160158851" + Marker + Decimal(ts) + ".mp4"))
  {
    PairsWithGroup(inDir, outDir, ts, "PXL_20240328_160158851", "PXL_20240328_160158851.TS.mp4");
  }

  /** Second half: a file whose stem differs in its last digit does not pair. */
  lemma NeighbourDoesNotPair(inDir: Path, outDir: Path, ts: U64)
    ensures !IsFilePair(Join(inDir, "PXL_20240328_160158852.TS.mp4"),
                        Join(outDir, "PXL_20240328_160158851" + Marker + Decimal(ts) + ".mp4"))
  {
    DiffersFromGroup(inDir, outDir, ts, "PXL_20240328_160158851", "PXL_20240328_160158852.TS.mp4", 21);
  }

  /** The group is compared by a prefix test: `ab.mp4` pairs with `a_compressed_<ts>.mp4`. */
  lemma LongerInputPairs(inDir: Path, outDir: Path, ts: U64)
    ensures IsFilePair(Join(inDir, "ab.mp4"), Join(outDir, "a" + Marker + Decimal(ts) + ".mp4"))
  {
    PairsWithGroup(inDir, outDir, ts, "a", "ab.mp4");
  }

  /** ... and not by equality either way: `a.mp4` does not pair with `ab_compressed_<ts>.mp4`. */
  lemma ShorterInputDoesNotPair(inDir: Path, outDir: Path, ts: U64)
    ensures !IsFilePair(Join(inDir, "a.mp4"), Join(outDir, "ab" + Marker + Decimal(ts) + ".mp4"))
  {
    DiffersFromGroup(inDir, outDir, ts, "ab", "a.mp4", 1);
  }

  /** An output named `_compressed_<ts>.mp4` has an empty group, so every input pairs with it. */
  lemma EmptyGroupPairsWithAll(inFile: Path, outDir: Path, ts: U64)
    ensures IsFilePair(inFile, Join(outDir, Marker + Decimal(ts) + ".mp4"))
  {
    var name := "" + Marker + Decimal(ts) + "." + "mp4";
    assert Marker + Decimal(ts) + ".mp4" == name;
    assert '/' !in name && name[0] == '_';
    FileNameOfJoin(outDir, name);
    CaptureOfBuiltName("", Decimal(ts), "mp4");
    PairByGroup(inFile, Join(outDir, name), "");
  }

  /** A plain name `<stem>.<ext>` in any directory splits into that stem and extension. */
  lemma PartsInDir(dir: Path, stem: string, ext: string)
    requires stem != "" && stem != "." && '/' !in stem && '.' !in ext && '/' !in ext
    ensures HasExtension(Join(dir, stem + "." + ext))
    ensures FileStem(Join(dir, stem + "." + ext)) == Some(stem)
    ensures Extension(Join(dir, stem + "." + ext)) == Some(ext)
  {
    var name := stem + "." + ext;
    assert name[..|stem|] == stem;
    assert name[|stem| + 1..] == ext;
    assert name != ".." by {
      if |name| == 2 { assert stem == name[..1]; }
    }
    FileNameOfJoin(dir, name);
    SplitBuiltName(stem, ext);
  }

  /** The output of `<stem>.<ext>` is `<stem>_compressed_<ts>.<ext>` in the output directory. */
  lemma OutputNameOfParts(outDir: Path, inDir: Path, stem: string, ext: string, ts: U64)
    requires stem != "" && stem != "." && '/' !in stem && '.' !in ext && '/' !in ext
    ensures HasExtension(Join(inDir, stem + "." + ext))
    ensures OutputName(outDir, Join(inDir, stem + "." + ext), ts)
         == Join(outDir, stem + Marker + Decimal(ts) + "." + ext)
  {
    PartsInDir(inDir, stem, ext);
  }

  /** Joining the test's output name to `out` gives the path the test expects. */
  lemma TestVideoOutputPath(ts: U64)
    ensures Join("out", "test_video" + Marker + Decimal(ts) + "." + "mp4")
         == "out/test_video_compressed_" + Decimal(ts) + ".mp4"
  {
  }

  /**
   * The unit test of `get_output_name`: `test_video.mp4` (in any directory;
   * the test has none) maps into `out` as `out/test_video_compressed_<ts>.mp4`.
   */
  lemma OutputNameCase(inDir: Path, ts: U64)
    ensures HasExtension(Join(inDir, "test_video" + "." + "mp4"))
    ensures OutputName("out", Join(inDir, "test_video" + "." + "mp4"), ts)
         == "out/test_video_compressed_" + Decimal(ts) + ".mp4"
  {
    OutputNameOfParts("out", inDir, "test_video", "mp4", ts);
    TestVideoOutputPath(ts);
  }
}
