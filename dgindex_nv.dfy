/** The `DGIndexNV` indexer: its command line, the name of the index file it keeps for a set of
    videos, and `DGIndexNVAddFilenames.index`, which decides whether an existing index file is
    patched or deleted and rebuilt by the external tool. */
module DGIndexNV {
  import opened Results
  import opened PyStr
  import opened DGIndexFormat
  import opened DGIndexPatch

  /** What the indexer takes from outside: the tool binary, the file system's view of paths,
      the hash of a set of videos, the storage location of index files and the external run. */
  datatype Hooks = Hooks(
    bin: string,                                    // `self._get_bin_path()`
    absolute: string -> string,                     // `SPath.absolute()`
    folderOf: string -> string,                     // `f.get_folder().to_str()`
    outFolder: string -> string,                    // `self.get_out_folder(output_folder, file)`
    videosHash: seq<string> -> string,              // `self.get_videos_hash(files)`
    idxFile: (string, string) -> string,            // `get_idx_file_path(PackageStorage(folder).get_file(name))`
    tool: seq<string> -> Result<seq<string>, Error> // `_run_index`: the lines the run writes, or its failure
  )

  /** The name of the indexer as it appears in index file names: `os.path.basename(_bin_path)`. */
  const IndexerName := "DGIndexNV"

  // ---------------------------------------------------------------------------
  // get_cmd
  // ---------------------------------------------------------------------------

  function AbsolutePaths(h: Hooks, files: seq<string>): (r: seq<string>)
    ensures |r| == |files| && forall k :: 0 <= k < |files| ==> r[k] == h.absolute(files[k])
  {
    seq(|files|, k requires 0 <= k < |files| => h.absolute(files[k]))
  }

  /** `[bin, '-i', 'p1,p2,…', '-h', '-o', output, '-e']` with the absolute input paths. */
  function GetCmd(h: Hooks, files: seq<string>, output: string): seq<string> {
    [h.bin, "-i", Join(AbsolutePaths(h, files), ","), "-h", "-o", output, "-e"]
  }

  /** The command has seven words, the output follows `-o`, and when no absolute path holds a
      comma the tool recovers exactly the input paths, in order, by splitting at commas. */
  lemma GetCmdInputs(h: Hooks, files: seq<string>, output: string)
    requires |files| > 0
    requires forall k :: 0 <= k < |files| ==> ',' !in h.absolute(files[k])
    ensures |GetCmd(h, files, output)| == 7
    ensures GetCmd(h, files, output)[1] == "-i" && GetCmd(h, files, output)[4] == "-o"
    ensures GetCmd(h, files, output)[5] == output
    ensures Split(GetCmd(h, files, output)[2], ',') == AbsolutePaths(h, files)
  {
    SplitJoin(AbsolutePaths(h, files), ',');
  }

  // ---------------------------------------------------------------------------
  // Paths and the index file name
  // ---------------------------------------------------------------------------

  /** `PurePath(p).name`: the text after the last `/`. */
  function Name(p: string): (r: string)
    ensures '/' !in r
    ensures r == p || (|r| < |p| && p[|p| - |r| - 1] == '/' && p[|p| - |r|..] == r)
  {
    match LastIndexOf(p, '/')
    case None => p
    case Some(i) =>
      assert forall j :: i + 1 <= j < |p| ==> p[j] != '/';
      p[i + 1..]
  }

  /** `PurePath(p).stem`: the name without its last suffix, where a suffix is a dot followed by
      at least one character and the name does not start with that dot. */
  function Stem(p: string): (r: string)
    ensures r == Name(p)
         || (0 < |r| < |Name(p)| - 1 && Name(p)[..|r|] == r && Name(p)[|r|] == '.'
             && '.' !in Name(p)[|r| + 1..])
  {
    var n := Name(p);
    match LastIndexOf(n, '.')
    case None => n
    case Some(i) =>
      if 0 < i < |n| - 1 then
        assert forall j :: i + 1 <= j < |n| ==> n[j] != '.';
        n[..i]
      else n
  }

  lemma StemOfTags()
    ensures Stem("JOINED") == "JOINED" && Stem("SINGLE") == "SINGLE"
  {
    assert LastIndexOf("JOINED", '/') == None by {
      assert forall j :: 0 <= j < 6 ==> "JOINED"[j] != '/';
    }
    assert LastIndexOf("JOINED", '.') == None by {
      assert forall j :: 0 <= j < 6 ==> "JOINED"[j] != '.';
    }
    assert LastIndexOf("SINGLE", '/') == None by {
      assert forall j :: 0 <= j < 6 ==> "SINGLE"[j] != '/';
    }
    assert LastIndexOf("SINGLE", '.') == None by {
      assert forall j :: 0 <= j < 6 ==> "SINGLE"[j] != '.';
    }
  }

  /** The file name `get_video_idx_path` asks the storage for. */
  function IdxFileName(first: string, hash: string, tag: string): string {
    Join([Stem(first), hash, Stem(tag), IndexerName], "_")
  }

  /** The index file name is the stem of the first file, the hash, the stem of the tag and
      the indexer name, separated by underscores. */
  lemma IdxFileNameShape(first: string, hash: string, tag: string)
    ensures IdxFileName(first, hash, tag) == Stem(first) + "_" + hash + "_" + Stem(tag) + "_" + IndexerName
  {
    JoinFour(Stem(first), hash, Stem(tag), IndexerName, "_");
  }

  lemma JoinFour(a: string, b: string, c: string, d: string, sep: string)
    ensures Join([a, b, c, d], sep) == a + sep + b + sep + c + sep + d
  {
    assert [a, b, c, d] == [a] + [b, c, d];
    assert [b, c, d] == [b] + [c, d];
    assert [c, d] == [c] + [d];
    JoinCons(a, [b, c, d], sep);
    JoinCons(b, [c, d], sep);
    JoinCons(c, [d], sep);
  }

  /** `get_video_idx_path(file_name, folder, file_hash, video_name)`. */
  function VideoIdxPath(h: Hooks, first: string, folder: string, hash: string, tag: string): string {
    h.idxFile(folder, IdxFileName(first, hash, tag))
  }

  // ---------------------------------------------------------------------------
  // sorted(set(files))
  // ---------------------------------------------------------------------------

  function Elems(xs: seq<string>): set<string> {
    set x | x in xs
  }

  predicate Distinct(s: seq<string>) {
    forall i, j :: 0 <= i < j < |s| ==> s[i] != s[j]
  }

  lemma ElemsCons(a: string, t: seq<string>)
    ensures Elems([a] + t) == {a} + Elems(t)
  {
    assert forall y :: y in [a] + t <==> y == a || y in t;
  }

  /** A list without repetitions holds as many elements as it is long. */
  lemma {:induction false} DistinctCount(s: seq<string>)
    requires Distinct(s)
    ensures |Elems(s)| == |s|
    decreases |s|
  {
    if |s| > 0 {
      DistinctCount(s[1..]);
      assert s[0] !in Elems(s[1..]);
      ElemsCons(s[0], s[1..]);
      assert s == [s[0]] + s[1..];
    }
  }

  /** A list with no elements is empty. */
  lemma NoElems(b: seq<string>)
    ensures Elems(b) == {} ==> b == []
  {
    if |b| > 0 {
      assert b[0] in Elems(b);
    }
  }

  predicate StrictlySorted(s: seq<string>) {
    forall i, j :: 0 <= i < j < |s| ==> Less(s[i], s[j])
  }

  /** Inserting into a strictly sorted list of strings, keeping it strictly sorted. */
  function Insert(x: string, s: seq<string>): (r: seq<string>)
    requires StrictlySorted(s)
    ensures StrictlySorted(r) && Elems(r) == Elems(s) + {x}
  {
    if |s| == 0 then [x]
    else if x == s[0] then s
    else if Less(x, s[0]) then
      InsertFront(x, s);
      [x] + s
    else
      var t := Insert(x, s[1..]);
      InsertLater(x, s);
      assert forall y :: y in t ==> y in Elems(t);
      assert forall y :: y in t ==> y in Elems(s[1..]) || y == x;
      ElemsCons(s[0], t);
      ElemsCons(s[0], s[1..]);
      assert s == [s[0]] + s[1..];
      ConsSorted(s[0], t);
      [s[0]] + t
  }

  lemma InsertFront(x: string, s: seq<string>)
    requires StrictlySorted(s) && |s| > 0 && Less(x, s[0])
    ensures StrictlySorted([x] + s)
  {
    forall j | 0 < j < |s| ensures Less(x, s[j]) {
      LessTransitive(x, s[0], s[j]);
    }
  }

  lemma ConsSorted(a: string, t: seq<string>)
    requires StrictlySorted(t)
    requires forall y :: y in t ==> Less(a, y)
    ensures StrictlySorted([a] + t)
  {
    forall i, j | 0 <= i < j < |t| + 1 ensures Less(([a] + t)[i], ([a] + t)[j]) {
      if i > 0 {
        assert ([a] + t)[i] == t[i - 1] && ([a] + t)[j] == t[j - 1];
      } else {
        assert t[j - 1] in t;
      }
    }
  }

  lemma InsertLater(x: string, s: seq<string>)
    requires StrictlySorted(s) && |s| > 0 && x != s[0] && !Less(x, s[0])
    ensures Less(s[0], x)
    ensures forall y :: y in s[1..] ==> Less(s[0], y)
  {
    LessTotal(x, s[0]);
  }

  /** `sorted(set(files))`. */
  function SortedUnique(xs: seq<string>): (r: seq<string>)
    ensures StrictlySorted(r) && Elems(r) == Elems(xs)
  {
    if |xs| == 0 then [] else Insert(Last(xs), SortedUnique(xs[..|xs| - 1]))
  }

  /** A strictly sorted list is the only one of its elements. */
  lemma {:induction false} SortedByElems(a: seq<string>, b: seq<string>)
    requires StrictlySorted(a) && StrictlySorted(b) && Elems(a) == Elems(b)
    ensures a == b
    decreases |a|
  {
    if |a| > 0 {
      assert a[0] in Elems(b);
      assert |b| > 0;
      assert b[0] in Elems(a);
      var i :| 0 <= i < |a| && a[i] == b[0];
      var j :| 0 <= j < |b| && b[j] == a[0];
      if i > 0 && j > 0 {
        LessAsymmetric(a[0], b[0]);
      }
      assert a[0] == b[0];
      forall y | y in a[1..] ensures y != a[0] && y in b[1..] {
        var k :| 1 <= k < |a| && a[k] == y;
        LessIrreflexive(a[0]);
        assert y in Elems(b);
        var m :| 0 <= m < |b| && b[m] == y;
        assert m != 0;
      }
      forall y | y in b[1..] ensures y in a[1..] {
        var m :| 1 <= m < |b| && b[m] == y;
        LessIrreflexive(b[0]);
        assert y in Elems(a);
        var k :| 0 <= k < |a| && a[k] == y;
        assert k != 0;
      }
      assert Elems(a[1..]) == Elems(b[1..]);
      SortedByElems(a[1..], b[1..]);
      assert a == [a[0]] + a[1..] && b == [b[0]] + b[1..];
    } else {
      NoElems(b);
    }
  }

  /** Reordering or repeating the input files does not change what is hashed and indexed. */
  lemma SortedUniqueDetermined(a: seq<string>, b: seq<string>)
    requires Elems(a) == Elems(b)
    ensures SortedUnique(a) == SortedUnique(b)
  {
    SortedByElems(SortedUnique(a), SortedUnique(b));
  }

  /** A strictly sorted list holds each of its elements once. */
  lemma SortedCount(s: seq<string>)
    requires StrictlySorted(s)
    ensures Distinct(s) && |Elems(s)| == |s|
  {
    forall i, j | 0 <= i < j < |s| ensures s[i] != s[j] {
      LessIrreflexive(s[i]);
    }
    DistinctCount(s);
  }

  // ---------------------------------------------------------------------------
  // Grouping by folder
  // ---------------------------------------------------------------------------

  function FolderSet(h: Hooks, files: seq<string>): set<string> {
    set f | f in files :: h.folderOf(f)
  }

  /** The distinct folders of the files, in order of first appearance. */
  function Folders(h: Hooks, files: seq<string>): (r: seq<string>)
    ensures Distinct(r) && Elems(r) == FolderSet(h, files)
  {
    if |files| == 0 then []
    else
      var init := files[..|files| - 1];
      var rest := Folders(h, init);
      var d := h.folderOf(Last(files));
      assert files == init + [Last(files)];
      assert FolderSet(h, files) == FolderSet(h, init) + {d};
      if d in rest then rest else rest + [d]
  }

  /** `[f for f in files if f.get_folder().to_str() == folder]`. */
  function InFolder(h: Hooks, files: seq<string>, d: string): (r: seq<string>)
    ensures forall f :: f in r <==> f in files && h.folderOf(f) == d
  {
    if |files| == 0 then []
    else
      var rest := InFolder(h, files[..|files| - 1], d);
      assert forall f :: f in files <==> f in files[..|files| - 1] || f == Last(files);
      if h.folderOf(Last(files)) == d then rest + [Last(files)] else rest
  }

  /** Every group the recursive call in `index` receives lies in one folder. */
  lemma GroupHasOneFolder(h: Hooks, files: seq<string>, d: string)
    requires d in Folders(h, files)
    ensures Folders(h, InFolder(h, files, d)) == [d]
  {
    var g := InFolder(h, files, d);
    assert d in Elems(Folders(h, files));
    var f :| f in files && h.folderOf(f) == d;
    assert f in g;
    assert FolderSet(h, g) == {d};
    OnlyElement(Folders(h, g), d);
  }

  lemma OnlyElement(r: seq<string>, d: string)
    requires Distinct(r)
    requires Elems(r) == {d}
    ensures r == [d]
  {
    DistinctCount(r);
    assert r[0] in Elems(r);
  }

  // ---------------------------------------------------------------------------
  // The file system the indexer sees
  // ---------------------------------------------------------------------------

  /** The index files on disk, each as its lines (an empty file has no lines), and the log of
      the command lines the external tool was run with. */
  datatype Fs = Fs(disk: map<string, seq<string>>, runs: seq<seq<string>>)

  /** `update_video_filenames(index_path, paths)` on the disk: reading a missing file fails. */
  function PatchFile(disk: map<string, seq<string>>, path: string, paths: seq<string>): (map<string, seq<string>>, Result<(), Error>) {
    if path !in disk then (disk, Err(FileNotFound))
    else match PatchSpec(disk[path], paths)
      case Err(e) => (disk, Err(e))
      case Ok(None) => (disk, Ok(()))
      case Ok(Some(patched)) => (disk[path := patched], Ok(()))
  }

  /** `_run_index(files, output, cmd_args)`: the command is logged, and what the tool writes
      replaces the output file. */
  function RunSpec(h: Hooks, fs: Fs, files: seq<string>, output: string, cmdArgs: seq<string>): (Fs, Result<(), Error>) {
    var cmd := GetCmd(h, files, output) + cmdArgs;
    var runs := fs.runs + [cmd];
    match h.tool(cmd)
    case Ok(written) => (Fs(fs.disk[output := written], runs), Ok(()))
    case Err(e) => (Fs(fs.disk, runs), Err(e))
  }

  /** The nested `_index(files, output)` of `index`. */
  function IndexOneSpec(h: Hooks, fs: Fs, files: seq<string>, output: string, cmdArgs: seq<string>, force: bool): (Fs, Result<(), Error>) {
    if output in fs.disk && !(fs.disk[output] == [] || force) then
      var (disk, r) := PatchFile(fs.disk, output, files);
      (Fs(disk, fs.runs), r)
    else
      RunSpec(h, Fs(fs.disk - {output}, fs.runs), files, output, cmdArgs)
  }

  /** The output paths of split mode, one per file. */
  function SplitOutputs(h: Hooks, files: seq<string>, folder: string, hash: string): (r: seq<string>)
    ensures |r| == |files| && forall k :: 0 <= k < |files| ==> r[k] == VideoIdxPath(h, files[k], folder, hash, Name(files[k]))
  {
    seq(|files|, k requires 0 <= k < |files| => VideoIdxPath(h, files[k], folder, hash, Name(files[k])))
  }

  /** `for file, output in zip(files, outputs): _index([file], output)` from position `i` on. */
  function IndexEachFrom(h: Hooks, fs: Fs, files: seq<string>, outputs: seq<string>, i: nat, cmdArgs: seq<string>, force: bool): (Fs, Result<(), Error>)
    requires |outputs| == |files| && i <= |files|
    decreases |files| - i
  {
    if i == |files| then (fs, Ok(()))
    else
      var (fs1, r) := IndexOneSpec(h, fs, [files[i]], outputs[i], cmdArgs, force);
      if r.Err? then (fs1, r) else IndexEachFrom(h, fs1, files, outputs, i + 1, cmdArgs, force)
  }

  /** The single index file of one folder's sorted files. */
  function JoinedSpec(h: Hooks, fs: Fs, sorted: seq<string>, dest: string, hash: string, cmdArgs: seq<string>, force: bool): (Fs, Result<seq<string>, Error>)
    requires |sorted| > 0
  {
    var output := VideoIdxPath(h, sorted[0], dest, hash, if |sorted| > 1 then "JOINED" else "SINGLE");
    var (fs1, r) := IndexOneSpec(h, fs, sorted, output, cmdArgs, force);
    (fs1, if r.Ok? then Ok([output]) else Err(r.error))
  }

  /** One index file per sorted file. */
  function SplitSpec(h: Hooks, fs: Fs, sorted: seq<string>, dest: string, hash: string, cmdArgs: seq<string>, force: bool): (Fs, Result<seq<string>, Error>) {
    var outputs := SplitOutputs(h, sorted, dest, hash);
    var (fs1, r) := IndexEachFrom(h, fs, sorted, outputs, 0, cmdArgs, force);
    (fs1, if r.Ok? then Ok(outputs) else Err(r.error))
  }

  /** `index` on files whose folders are all the same. */
  function IndexFolderSpec(h: Hooks, fs: Fs, files: seq<string>, force: bool, split: bool, cmdArgs: seq<string>): (Fs, Result<seq<string>, Error>) {
    if |files| == 0 then (fs, Err(IndexError))
    else
      var dest := h.outFolder(files[0]);
      var sorted := SortedUnique(files);
      assert files[0] in Elems(sorted);
      var hash := h.videosHash(sorted);
      if !split then JoinedSpec(h, fs, sorted, dest, hash, cmdArgs, force)
      else SplitSpec(h, fs, sorted, dest, hash, cmdArgs, force)
  }

  /** The recursive calls of `index`, one per folder from position `i` on, without `cmd_args`,
      their outputs concatenated. */
  function IndexGroupsFrom(h: Hooks, fs: Fs, files: seq<string>, folders: seq<string>, i: nat, force: bool, split: bool): (Fs, Result<seq<string>, Error>)
    requires folders == Folders(h, files) && |folders| > 1 && i <= |folders|
    decreases |Folders(h, files)|, 0, |folders| - i
  {
    if i == |folders| then (fs, Ok([]))
    else
      GroupHasOneFolder(h, files, folders[i]);
      var (fs1, r) := IndexSpec(h, fs, InFolder(h, files, folders[i]), force, split, []);
      if r.Err? then (fs1, r)
      else
        var (fs2, rest) := IndexGroupsFrom(h, fs1, files, folders, i + 1, force, split);
        (fs2, if rest.Ok? then Ok(r.value + rest.value) else rest)
  }

  /** `DGIndexNVAddFilenames.index(files, force, split_files, output_folder, *cmd_args)`. */
  function IndexSpec(h: Hooks, fs: Fs, files: seq<string>, force: bool, split: bool, cmdArgs: seq<string>): (Fs, Result<seq<string>, Error>)
    decreases |Folders(h, files)|, 1
  {
    var folders := Folders(h, files);
    if |folders| > 1 then IndexGroupsFrom(h, fs, files, folders, 0, force, split)
    else IndexFolderSpec(h, fs, files, force, split, cmdArgs)
  }

  // ---------------------------------------------------------------------------
  // Properties of index
  // ---------------------------------------------------------------------------

  /** The recursive call on one folder's files takes the single-folder path. */
  lemma GroupCallIsFolderCall(h: Hooks, fs: Fs, files: seq<string>, d: string, force: bool, split: bool)
    requires d in Folders(h, files)
    ensures IndexSpec(h, fs, InFolder(h, files, d), force, split, []) == IndexFolderSpec(h, fs, InFolder(h, files, d), force, split, [])
  {
    GroupHasOneFolder(h, files, d);
  }

  /** Within a folder, any reordering or repetition of the input files indexes the same sorted
      set under the same name, provided the output folder chosen for the first file agrees. */
  lemma IndexFolderOrderFree(h: Hooks, fs: Fs, a: seq<string>, b: seq<string>, force: bool, split: bool, cmdArgs: seq<string>)
    requires Elems(a) == Elems(b)
    requires |a| > 0 && |b| > 0 ==> h.outFolder(a[0]) == h.outFolder(b[0])
    ensures IndexFolderSpec(h, fs, a, force, split, cmdArgs) == IndexFolderSpec(h, fs, b, force, split, cmdArgs)
  {
    SortedUniqueDetermined(a, b);
    if |a| > 0 {
      assert a[0] in Elems(b);
    }
  }

  /** An existing non-empty index file is patched without running the tool unless `force`. */
  lemma ReuseSkipsTool(h: Hooks, fs: Fs, files: seq<string>, output: string, cmdArgs: seq<string>)
    requires output in fs.disk && fs.disk[output] != []
    ensures IndexOneSpec(h, fs, files, output, cmdArgs, false).0.runs == fs.runs
    ensures IndexOneSpec(h, fs, files, output, cmdArgs, false).1 == PatchFile(fs.disk, output, files).1
    ensures IndexOneSpec(h, fs, files, output, cmdArgs, false).0.disk == PatchFile(fs.disk, output, files).0
  {
  }

  /** With `force`, or when the file is missing or empty, the old file is dropped and the tool is
      run once with `get_cmd` plus the extra arguments; the file then holds what it wrote. */
  lemma RebuildRunsTool(h: Hooks, fs: Fs, files: seq<string>, output: string, cmdArgs: seq<string>, force: bool)
    requires force || output !in fs.disk || fs.disk[output] == []
    ensures var (fs1, r) := IndexOneSpec(h, fs, files, output, cmdArgs, force);
      && fs1.runs == fs.runs + [GetCmd(h, files, output) + cmdArgs]
      && (r.Ok? <==> h.tool(GetCmd(h, files, output) + cmdArgs).Ok?)
      && (r.Ok? ==> fs1.disk == fs.disk[output := h.tool(GetCmd(h, files, output) + cmdArgs).value])
      && (r.Err? ==> fs1.disk == fs.disk - {output})
  {
  }

  /** A successful call leaves its output on disk. */
  lemma IndexOneLeavesOutput(h: Hooks, fs: Fs, files: seq<string>, output: string, cmdArgs: seq<string>, force: bool)
    requires IndexOneSpec(h, fs, files, output, cmdArgs, force).1.Ok?
    ensures output in IndexOneSpec(h, fs, files, output, cmdArgs, force).0.disk
  {
  }

  /** Indexing the same files again without `force`, after a run that left a non-empty file,
      does not run the tool and names the same file. */
  lemma SecondCallReuses(h: Hooks, fs: Fs, files: seq<string>, cmdArgs: seq<string>)
    requires IndexFolderSpec(h, fs, files, false, false, cmdArgs).1.Ok?
    ensures var (fs1, r) := IndexFolderSpec(h, fs, files, false, false, cmdArgs);
      |r.value| == 1 && r.value[0] in fs1.disk
    ensures var (fs1, r) := IndexFolderSpec(h, fs, files, false, false, cmdArgs);
      fs1.disk[r.value[0]] != [] ==>
        var (fs2, r2) := IndexFolderSpec(h, fs1, files, false, false, cmdArgs);
        fs2.runs == fs1.runs && (r2.Ok? ==> r2 == r)
  {
    var dest := h.outFolder(files[0]);
    var sorted := SortedUnique(files);
    assert files[0] in Elems(sorted);
    var hash := h.videosHash(sorted);
    var output := VideoIdxPath(h, sorted[0], dest, hash, if |sorted| > 1 then "JOINED" else "SINGLE");
    IndexOneLeavesOutput(h, fs, sorted, output, cmdArgs, false);
    var fs1 := IndexFolderSpec(h, fs, files, false, false, cmdArgs).0;
    if fs1.disk[output] != [] {
      ReuseSkipsTool(h, fs1, sorted, output, cmdArgs);
    }
  }

  /** Split mode returns one path per distinct file, in sorted order. */
  lemma SplitModeOutputs(h: Hooks, fs: Fs, files: seq<string>, force: bool, cmdArgs: seq<string>)
    requires IndexFolderSpec(h, fs, files, force, true, cmdArgs).1.Ok?
    ensures var r := IndexFolderSpec(h, fs, files, force, true, cmdArgs).1.value;
      var sorted := SortedUnique(files);
      && |r| == |Elems(files)| == |sorted|
      && forall k :: 0 <= k < |r| ==> r[k] == VideoIdxPath(h, sorted[k], h.outFolder(files[0]), h.videosHash(sorted), Name(sorted[k]))
  {
    var sorted := SortedUnique(files);
    SortedCount(sorted);
    var outputs := SplitOutputs(h, sorted, h.outFolder(files[0]), h.videosHash(sorted));
    SplitModeResult(h, fs, files, force, cmdArgs);
  }

  lemma SplitModeResult(h: Hooks, fs: Fs, files: seq<string>, force: bool, cmdArgs: seq<string>)
    requires |files| > 0
    ensures var sorted := SortedUnique(files);
      var outputs := SplitOutputs(h, sorted, h.outFolder(files[0]), h.videosHash(sorted));
      IndexFolderSpec(h, fs, files, force, true, cmdArgs).1.Ok? ==> IndexFolderSpec(h, fs, files, force, true, cmdArgs).1.value == outputs
  {
  }

  // ---------------------------------------------------------------------------
  // The memoised get_info
  // ---------------------------------------------------------------------------

  /** Every cached `get_info` result is what parsing the file on disk gives now. */
  predicate Coherent(disk: map<string, seq<string>>, cache: map<(string, int), FileInfo>) {
    forall key :: key in cache ==> key.0 in disk && InfoSpec(disk[key.0], key.0, key.1) == Ok(cache[key])
  }

  /** Patching a file list never makes a cached `get_info` result stale. */
  lemma PatchKeepsCoherent(disk: map<string, seq<string>>, cache: map<(string, int), FileInfo>, path: string, paths: seq<string>)
    requires Coherent(disk, cache)
    ensures Coherent(PatchFile(disk, path, paths).0, cache)
  {
    if path in disk && PatchSpec(disk[path], paths).Ok? && PatchSpec(disk[path], paths).value.Some? {
      var patched := PatchFile(disk, path, paths).0;
      forall key | key in cache
        ensures key.0 in patched && InfoSpec(patched[key.0], key.0, key.1) == Ok(cache[key])
      {
        if key.0 == path {
          PatchKeepsInfo(disk[path], paths, key.0, key.1);
        }
      }
    }
  }

  /** The body of `update_video_filenames` between reading and writing the file: `Ok(None)`
      when it returns early, `Ok(Some(lines))` when it writes `lines`. */
  method PatchLines(lines: seq<string>, filepaths: seq<string>) returns (r: Result<Option<seq<string>>, Error>)
    ensures r == PatchSpec(lines, filepaths)
  {
    if |lines| == 0 {
      return Err(IndexError);
    }
    if !Contains(lines[0], "DGIndexNV") {
      return Err(Corrupted);
    }
    var first := IndexOf(lines, "", 0);
    if first.None? {
      return Err(ValueError);
    }
    var startVideos := first.value + 1;
    var second := IndexOf(lines, "", startVideos);
    if second.None? {
      return Err(ValueError);
    }
    var endVideos := second.value;
    if endVideos - startVideos != |filepaths| {
      return Err(Corrupted);
    }
    var rows := lines[startVideos..endVideos];
    var currentPaths := CurrentPaths(rows);
    if currentPaths.Err? {
      return Err(currentPaths.error);
    }
    if currentPaths.value == filepaths {
      return Ok(None);
    }
    r := Ok(Some(lines[..startVideos] + NewRows(filepaths, rows) + lines[endVideos..]));
  }

  // ---------------------------------------------------------------------------
  // The indexer object
  // ---------------------------------------------------------------------------

  /** A `DGIndexNVAddFilenames` instance together with the index files it reads and writes, the
      runs of the external tool it starts and its `lru_cache` of `get_info` results. */
  class Indexer {
    const hooks: Hooks
    var disk: map<string, seq<string>>
    var runs: seq<seq<string>>
    var cache: map<(string, int), FileInfo>

    predicate Valid()
      reads this
    {
      Coherent(disk, cache)
    }

    constructor (hooks: Hooks, disk: map<string, seq<string>>)
      ensures this.hooks == hooks && this.disk == disk && runs == [] && cache == map[]
      ensures Valid()
    {
      this.hooks := hooks;
      this.disk := disk;
      runs := [];
      cache := map[];
    }

    /** `update_video_filenames(index_path, filepaths)`. */
    method UpdateVideoFilenames(indexPath: string, filepaths: seq<string>) returns (r: Result<(), Error>)
      modifies this
      ensures (disk, r) == PatchFile(old(disk), indexPath, filepaths)
      ensures runs == old(runs) && cache == old(cache)
      ensures old(Valid()) ==> Valid()
    {
      ghost var wasValid := Valid();
      if wasValid {
        PatchKeepsCoherent(disk, cache, indexPath, filepaths);
      }
      if indexPath !in disk {
        return Err(FileNotFound);
      }
      var patched := PatchLines(disk[indexPath], filepaths);
      if patched.Err? {
        return Err(patched.error);
      }
      if patched.value.Some? {
        disk := disk[indexPath := patched.value.value];
      }
      r := Ok(());
    }

    /** `get_info(index_path, file_idx)` behind its cache: a hit returns the stored result, a
        miss parses the file and stores a successful result. */
    method GetInfo(indexPath: string, fileIdx: int) returns (r: Result<FileInfo, Error>)
      modifies this
      ensures disk == old(disk) && runs == old(runs)
      ensures (indexPath, fileIdx) in old(cache) ==> r == Ok(old(cache)[(indexPath, fileIdx)]) && cache == old(cache)
      ensures (indexPath, fileIdx) !in old(cache) ==>
        && r == (if indexPath in disk then InfoSpec(disk[indexPath], indexPath, fileIdx) else Err(FileNotFound))
        && cache == (if r.Ok? then old(cache)[(indexPath, fileIdx) := r.value] else old(cache))
      ensures old(Valid()) ==> Valid()
      ensures old(Valid()) ==> r == (if indexPath in disk then InfoSpec(disk[indexPath], indexPath, fileIdx) else Err(FileNotFound))
    {
      var key := (indexPath, fileIdx);
      if key in cache {
        return Ok(cache[key]);
      }
      if indexPath !in disk {
        return Err(FileNotFound);
      }
      r := ParseInfo(disk[indexPath], indexPath, fileIdx);
      if r.Ok? {
        cache := cache[key := r.value];
      }
    }

    /** `_run_index(files, output, cmd_args)`. */
    method RunIndex(files: seq<string>, output: string, cmdArgs: seq<string>) returns (r: Result<(), Error>)
      modifies this
      ensures (Fs(disk, runs), r) == RunSpec(hooks, Fs(old(disk), old(runs)), files, output, cmdArgs)
      ensures cache == old(cache)
    {
      var cmd := GetCmd(hooks, files, output) + cmdArgs;
      runs := runs + [cmd];
      var written := hooks.tool(cmd);
      if written.Err? {
        return Err(written.error);
      }
      disk := disk[output := written.value];
      r := Ok(());
    }

    /** The nested `_index(files, output)`. */
    method IndexOne(files: seq<string>, output: string, cmdArgs: seq<string>, force: bool) returns (r: Result<(), Error>)
      modifies this
      ensures (Fs(disk, runs), r) == IndexOneSpec(hooks, Fs(old(disk), old(runs)), files, output, cmdArgs, force)
      ensures cache == old(cache)
    {
      if output in disk {
        if disk[output] == [] || force {
          disk := disk - {output};
        } else {
          r := UpdateVideoFilenames(output, files);
          return;
        }
      } else {
        assert disk - {output} == disk;
      }
      r := RunIndex(files, output, cmdArgs);
    }

    /** The non-split branch of `index`. */
    method IndexJoined(sorted: seq<string>, dest: string, hash: string, cmdArgs: seq<string>, force: bool) returns (r: Result<seq<string>, Error>)
      requires |sorted| > 0
      modifies this
      ensures (Fs(disk, runs), r) == JoinedSpec(hooks, Fs(old(disk), old(runs)), sorted, dest, hash, cmdArgs, force)
      ensures cache == old(cache)
    {
      var output := VideoIdxPath(hooks, sorted[0], dest, hash, if |sorted| > 1 then "JOINED" else "SINGLE");
      var e := IndexOne(sorted, output, cmdArgs, force);
      if e.Err? {
        return Err(e.error);
      }
      r := Ok([output]);
    }

    /** The split branch of `index`: one output path per file, then `_index([file], output)`
        for each file in turn. */
    method IndexSplit(sorted: seq<string>, dest: string, hash: string, cmdArgs: seq<string>, force: bool) returns (r: Result<seq<string>, Error>)
      modifies this
      ensures (Fs(disk, runs), r) == SplitSpec(hooks, Fs(old(disk), old(runs)), sorted, dest, hash, cmdArgs, force)
      ensures cache == old(cache)
    {
      var outputs := SplitOutputs(hooks, sorted, dest, hash);
      var e := IndexEach(sorted, outputs, cmdArgs, force);
      if e.Err? {
        return Err(e.error);
      }
      r := Ok(outputs);
    }

    /** `for file, output in zip(files, outputs): _index([file], output)`. */
    method IndexEach(files: seq<string>, outputs: seq<string>, cmdArgs: seq<string>, force: bool) returns (r: Result<(), Error>)
      requires |outputs| == |files|
      modifies this
      ensures (Fs(disk, runs), r) == IndexEachFrom(hooks, Fs(old(disk), old(runs)), files, outputs, 0, cmdArgs, force)
      ensures cache == old(cache)
    {
      ghost var fs0 := Fs(disk, runs);
      var i := 0;
      while i < |files|
        invariant 0 <= i <= |files|
        invariant cache == old(cache)
        invariant IndexEachFrom(hooks, fs0, files, outputs, 0, cmdArgs, force) == IndexEachFrom(hooks, Fs(disk, runs), files, outputs, i, cmdArgs, force)
      {
        r := IndexOne([files[i]], outputs[i], cmdArgs, force);
        if r.Err? {
          return;
        }
        i := i + 1;
      }
      r := Ok(());
    }

    /** `index` on files that share one folder. */
    method IndexFolder(files: seq<string>, force: bool, split: bool, cmdArgs: seq<string>) returns (r: Result<seq<string>, Error>)
      modifies this
      ensures (Fs(disk, runs), r) == IndexFolderSpec(hooks, Fs(old(disk), old(runs)), files, force, split, cmdArgs)
      ensures cache == old(cache)
    {
      if |files| == 0 {
        return Err(IndexError);
      }
      var dest := hooks.outFolder(files[0]);
      var sorted := SortedUnique(files);
      assert files[0] in Elems(sorted);
      var hash := hooks.videosHash(sorted);
      if !split {
        r := IndexJoined(sorted, dest, hash, cmdArgs, force);
      } else {
        r := IndexSplit(sorted, dest, hash, cmdArgs, force);
      }
    }

    /** `index(files, force, split_files, output_folder, *cmd_args)`: files in several folders
        are indexed folder by folder through a recursive call that drops `cmd_args`. */
    method Index(files: seq<string>, force: bool, split: bool, cmdArgs: seq<string>) returns (r: Result<seq<string>, Error>)
      modifies this
      ensures (Fs(disk, runs), r) == IndexSpec(hooks, Fs(old(disk), old(runs)), files, force, split, cmdArgs)
      ensures cache == old(cache)
      decreases |Folders(hooks, files)|, 2
    {
      var folders := Folders(hooks, files);
      if |folders| <= 1 {
        r := IndexFolder(files, force, split, cmdArgs);
        return;
      }
      r := IndexGroups(files, folders, 0, force, split);
    }

    /** The list comprehension over `unique_folders` from position `i` on. */
    method IndexGroups(files: seq<string>, folders: seq<string>, i: nat, force: bool, split: bool) returns (r: Result<seq<string>, Error>)
      requires folders == Folders(hooks, files) && |folders| > 1 && i <= |folders|
      modifies this
      ensures (Fs(disk, runs), r) == IndexGroupsFrom(hooks, Fs(old(disk), old(runs)), files, folders, i, force, split)
      ensures cache == old(cache)
      decreases |Folders(hooks, files)|, 1, |folders| - i
    {
      if i == |folders| {
        return Ok([]);
      }
      var out := IndexGroup(files, folders[i], force, split);
      if out.Err? {
        return out;
      }
      var rest := IndexGroups(files, folders, i + 1, force, split);
      r := if rest.Ok? then Ok(out.value + rest.value) else rest;
    }

    /** The recursive `self.index([f for f in files if …], force, split_files, output_folder)`
        for one folder. */
    method IndexGroup(files: seq<string>, d: string, force: bool, split: bool) returns (r: Result<seq<string>, Error>)
      requires d in Folders(hooks, files) && |Folders(hooks, files)| > 1
      modifies this
      ensures (Fs(disk, runs), r) == IndexSpec(hooks, Fs(old(disk), old(runs)), InFolder(hooks, files, d), force, split, [])
      ensures cache == old(cache)
      decreases |Folders(hooks, files)|, 0
    {
      GroupHasOneFolder(hooks, files, d);
      r := Index(InFolder(hooks, files, d), force, split, []);
    }
  }
}
