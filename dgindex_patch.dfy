/** `DGIndexNV.update_video_filenames`: rewriting the file list of an existing `.dgi` file so
    that its rows name the given paths. */
module DGIndexPatch {
  import opened Results
  import opened PyStr
  import opened DGIndexFormat

  /** Every row of the file list splits into at least two space-separated fields. */
  predicate RowsSplit(rows: seq<string>) {
    forall k :: 0 <= k < |rows| ==> |Split(rows[k], ' ')| >= 2
  }

  /** `[line[:-1][0] for line in split_lines]`; a row without a space is an `IndexError`. */
  function CurrentPaths(rows: seq<string>): (r: Result<seq<string>, Error>)
    ensures r.Ok? <==> RowsSplit(rows)
    ensures r.Err? ==> r.error == IndexError
    ensures r.Ok? ==> |r.value| == |rows| && forall k :: 0 <= k < |rows| ==> r.value[k] == Split(rows[k], ' ')[0]
  {
    if RowsSplit(rows) then Ok(seq(|rows|, k requires 0 <= k < |rows| => Split(rows[k], ' ')[0]))
    else Err(IndexError)
  }

  /** `' '.join([path, *line[-1:]])` for each new path and old row: only the last field of the
      old row survives. */
  function NewRows(paths: seq<string>, rows: seq<string>): (r: seq<string>)
    requires |paths| == |rows|
    ensures |r| == |rows|
    ensures forall k :: 0 <= k < |rows| ==> r[k] == paths[k] + " " + Last(Split(rows[k], ' '))
    ensures forall k :: 0 <= k < |rows| ==> r[k] != ""
  {
    seq(|rows|, k requires 0 <= k < |rows| => paths[k] + " " + Last(Split(rows[k], ' ')))
  }

  /** `start_videos = lines.index('') + 1` and `end_videos = lines.index('', start_videos)`. */
  function ListBounds(lines: seq<string>): (r: Result<(nat, nat), Error>)
    ensures r.Err? ==> r.error == ValueError
    ensures r.Ok? ==> 1 <= r.value.0 <= r.value.1 < |lines|
    ensures r.Ok? ==> lines[r.value.0 - 1] == "" && lines[r.value.1] == ""
    ensures r.Ok? ==> forall j :: 0 <= j < r.value.0 - 1 ==> lines[j] != ""
    ensures r.Ok? ==> forall j :: r.value.0 <= j < r.value.1 ==> lines[j] != ""
  {
    var s :- Need(IndexOf(lines, "", 0), ValueError);
    var e :- Need(IndexOf(lines, "", s + 1), ValueError);
    Ok((s + 1, e))
  }

  /** What `update_video_filenames(index_path, filepaths)` does to a file with these lines:
      `Ok(None)` when it returns without writing, `Ok(Some(patched))` when it writes `patched`. */
  function PatchSpec(lines: seq<string>, paths: seq<string>): Result<Option<seq<string>>, Error> {
    if |lines| == 0 then Err(IndexError)
    else if !Contains(lines[0], "DGIndexNV") then Err(Corrupted)
    else
      var b :- ListBounds(lines);
      var start, stop := b.0, b.1;
      if stop - start != |paths| then Err(Corrupted)
      else
        var rows := lines[start..stop];
        var current :- CurrentPaths(rows);
        if current == paths then Ok(None)
        else Ok(Some(Splice(lines, start, stop, NewRows(paths, rows))))
  }

  /** The file is reported corrupted exactly when its first line does not name the indexer or
      its file list does not hold one row per path; the other failures are the `ValueError` of
      a missing blank line and the `IndexError` of an empty file or a row without a space. */
  lemma PatchErrors(lines: seq<string>, paths: seq<string>)
    ensures PatchSpec(lines, paths) == Err(Corrupted) <==>
      |lines| > 0 && (!Contains(lines[0], "DGIndexNV") ||
                      (ListBounds(lines).Ok? && ListBounds(lines).value.1 - ListBounds(lines).value.0 != |paths|))
    ensures PatchSpec(lines, paths) == Err(ValueError) <==>
      |lines| > 0 && Contains(lines[0], "DGIndexNV") && ListBounds(lines).Err?
    ensures PatchSpec(lines, paths) == Err(IndexError) <==>
      |lines| == 0 || (Contains(lines[0], "DGIndexNV") && ListBounds(lines).Ok? &&
                       ListBounds(lines).value.1 - ListBounds(lines).value.0 == |paths| &&
                       !RowsSplit(lines[ListBounds(lines).value.0..ListBounds(lines).value.1]))
    ensures PatchSpec(lines, paths) == Ok(None) <==>
      |lines| > 0 && Contains(lines[0], "DGIndexNV") && ListBounds(lines).Ok? &&
      CurrentPaths(lines[ListBounds(lines).value.0..ListBounds(lines).value.1]) == Ok(paths)
  {
    if |lines| > 0 && Contains(lines[0], "DGIndexNV") && ListBounds(lines).Ok? {
      var start, stop := ListBounds(lines).value.0, ListBounds(lines).value.1;
      var c := CurrentPaths(lines[start..stop]);
      if c.Ok? && c.value == paths {
        assert |c.value| == stop - start;
      }
    }
  }

  /** `lines[:start] + rows + lines[stop:]`: the lines with those of `[start, stop)` replaced by
      as many others. */
  function Splice(lines: seq<string>, start: nat, stop: nat, rows: seq<string>): (r: seq<string>)
    requires start <= stop <= |lines| && |rows| == stop - start
    ensures |r| == |lines| && r[start..stop] == rows
    ensures forall j :: 0 <= j < start || stop <= j < |lines| ==> r[j] == lines[j]
    ensures forall k :: 0 <= k < |rows| ==> r[start + k] == rows[k]
  {
    lines[..start] + rows + lines[stop..]
  }

  /** A file list at `[start, stop)`: the lines between the first and the second empty line. */
  ghost predicate ListAt(lines: seq<string>, start: nat, stop: nat) {
    && 1 <= start <= stop < |lines|
    && lines[start - 1] == "" && lines[stop] == ""
    && (forall j :: 0 <= j < start - 1 ==> lines[j] != "")
    && (forall j :: start <= j < stop ==> lines[j] != "")
  }

  /** `ListBounds` finds exactly the file list `ListAt` describes. */
  lemma ListBoundsAt(lines: seq<string>, start: nat, stop: nat)
    requires ListAt(lines, start, stop)
    ensures ListBounds(lines) == Ok((start, stop))
  {
    IndexOfIs(lines, "", 0, start - 1);
    IndexOfIs(lines, "", start, stop);
  }

  /** Replacing the rows of a file list by as many non-empty rows keeps the list in place. */
  lemma SpliceListAt(lines: seq<string>, start: nat, stop: nat, rows: seq<string>)
    requires ListAt(lines, start, stop) && |rows| == stop - start
    requires forall k :: 0 <= k < |rows| ==> rows[k] != ""
    ensures ListAt(Splice(lines, start, stop, rows), start, stop)
  {
    var patched := Splice(lines, start, stop, rows);
    forall j | start <= j < stop ensures patched[j] != "" {
      assert patched[start + (j - start)] == rows[j - start];
    }
  }

  /** The rewrite `PatchSpec` returns, in terms of the old file. */
  lemma PatchLayout(lines: seq<string>, paths: seq<string>) returns (start: nat, stop: nat)
    requires PatchSpec(lines, paths).Ok? && PatchSpec(lines, paths).value.Some?
    ensures ListBounds(lines) == Ok((start, stop)) && ListAt(lines, start, stop)
    ensures stop - start == |paths| && CurrentPaths(lines[start..stop]) != Ok(paths)
    ensures PatchSpec(lines, paths).value.value == Splice(lines, start, stop, NewRows(paths, lines[start..stop]))
  {
    start, stop := ListBounds(lines).value.0, ListBounds(lines).value.1;
  }

  /** A rewrite keeps the line count and every line outside the file list, puts each new path
      in front of the last field of its old row, and happens only when the first fields of the
      old rows differ from the paths. */
  lemma PatchShape(lines: seq<string>, paths: seq<string>)
    requires PatchSpec(lines, paths).Ok? && PatchSpec(lines, paths).value.Some?
    ensures var patched := PatchSpec(lines, paths).value.value;
      var b := ListBounds(lines).value;
      && b.1 - b.0 == |paths|
      && |patched| == |lines|
      && (forall j :: 0 <= j < b.0 || b.1 <= j < |lines| ==> patched[j] == lines[j])
      && (forall k :: 0 <= k < |paths| ==> patched[b.0 + k] == paths[k] + " " + Last(Split(lines[b.0 + k], ' ')))
      && CurrentPaths(lines[b.0..b.1]) != Ok(paths)
  {
    var start, stop := PatchLayout(lines, paths);
    assert ListBounds(lines).value == (start, stop);
    var rows := lines[start..stop];
    forall k | 0 <= k < |paths|
      ensures Splice(lines, start, stop, NewRows(paths, rows))[start + k] == paths[k] + " " + Last(Split(lines[start + k], ' '))
    {
      assert rows[k] == lines[start + k];
    }
  }

  /** The split of a rewritten row: the fields of the path, then the old last field. */
  lemma NewRowSplit(path: string, row: string)
    ensures Split(path + " " + Last(Split(row, ' ')), ' ') == Split(path, ' ') + [Last(Split(row, ' '))]
  {
    var last := Last(Split(row, ' '));
    assert ' ' !in last;
    assert path + " " + last == path + [' '] + last;
    SplitConcat(path, ' ', last);
    SplitNone(last, ' ');
  }

  /** The file list of a rewritten file is found at the same place. */
  lemma PatchBounds(lines: seq<string>, paths: seq<string>)
    requires PatchSpec(lines, paths).Ok? && PatchSpec(lines, paths).value.Some?
    ensures var patched := PatchSpec(lines, paths).value.value;
      && |patched| > 0 && patched[0] == lines[0]
      && ListBounds(patched) == ListBounds(lines)
      && patched[ListBounds(lines).value.0..ListBounds(lines).value.1] == NewRows(paths, lines[ListBounds(lines).value.0..ListBounds(lines).value.1])
  {
    var start, stop := PatchLayout(lines, paths);
    var nr := NewRows(paths, lines[start..stop]);
    SpliceListAt(lines, start, stop, nr);
    ListBoundsAt(Splice(lines, start, stop, nr), start, stop);
  }

  /** A second call with the same paths writes nothing, as long as no path contains a space. */
  lemma PatchIdempotent(lines: seq<string>, paths: seq<string>)
    requires PatchSpec(lines, paths).Ok? && PatchSpec(lines, paths).value.Some?
    requires forall k :: 0 <= k < |paths| ==> ' ' !in paths[k]
    ensures PatchSpec(PatchSpec(lines, paths).value.value, paths) == Ok(None)
  {
    var b := ListBounds(lines).value;
    var rows := lines[b.0..b.1];
    PatchBounds(lines, paths);
    var nr := NewRows(paths, rows);
    forall k | 0 <= k < |nr|
      ensures |Split(nr[k], ' ')| >= 2 && Split(nr[k], ' ')[0] == paths[k]
    {
      NewRowSplit(paths[k], rows[k]);
      SplitNone(paths[k], ' ');
    }
    assert CurrentPaths(nr).value == paths;
  }

  /** With a space in one of the paths, the rewritten row's first field is only the part of
      the path before that space, so every later call rewrites the file again. */
  lemma PatchAgainWithSpace(lines: seq<string>, paths: seq<string>, k: nat)
    requires PatchSpec(lines, paths).Ok? && PatchSpec(lines, paths).value.Some?
    requires k < |paths| && ' ' in paths[k]
    ensures PatchSpec(PatchSpec(lines, paths).value.value, paths).Ok?
    ensures PatchSpec(PatchSpec(lines, paths).value.value, paths).value.Some?
  {
    var b := ListBounds(lines).value;
    var rows := lines[b.0..b.1];
    PatchBounds(lines, paths);
    var nr := NewRows(paths, rows);
    forall j | 0 <= j < |nr|
      ensures |Split(nr[j], ' ')| >= 2
    {
      NewRowSplit(paths[j], rows[j]);
    }
    NewRowSplit(paths[k], rows[k]);
    assert Split(nr[k], ' ')[0] == Split(paths[k], ' ')[0];
    assert ' ' !in Split(paths[k], ' ')[0];
    assert CurrentPaths(nr).value[k] != paths[k];
  }

  /** Rows whose last fields agree give the same sizes. */
  lemma {:induction false} SizesOfSameLast(a: seq<string>, b: seq<string>)
    requires |a| == |b|
    requires forall k :: 0 <= k < |a| ==> Last(Split(a[k], ' ')) == Last(Split(b[k], ' '))
    ensures VideoSizes(a) == VideoSizes(b)
    decreases |a|
  {
    if |a| > 0 {
      assert forall k :: 0 <= k < |a| - 1 ==> a[1..][k] == a[k + 1] && b[1..][k] == b[k + 1];
      SizesOfSameLast(a[1..], b[1..]);
    }
  }

  /** `get_info` reads the head block, the sizes of the file list and the rest of the file. */
  lemma InfoOfBlocks(a: seq<string>, b: seq<string>, head: seq<string>, ra: seq<string>, rb: seq<string>,
                     va: seq<string>, vb: seq<string>, rest: seq<string>, path: string, fileIdx: int)
    requires SplitBlock(a) == Ok((head, ra)) && SplitBlock(b) == Ok((head, rb))
    requires SplitBlock(ra) == Ok((va, rest)) && SplitBlock(rb) == Ok((vb, rest))
    requires VideoSizes(va) == VideoSizes(vb)
    ensures InfoSpec(a, path, fileIdx) == InfoSpec(b, path, fileIdx)
  {
  }

  /** The blocks `get_info` splits the old file into. */
  lemma OldBlocks(lines: seq<string>, start: nat, stop: nat)
    requires ListAt(lines, start, stop)
    ensures SplitBlock(lines) == Ok((lines[..start - 1], lines[start..stop] + lines[stop..]))
    ensures SplitBlock(lines[start..stop] + lines[stop..]) == Ok((lines[start..stop], lines[stop + 1..]))
  {
    var rows, tail := lines[start..stop], lines[stop..];
    IndexOfIs(lines, "", 0, start - 1);
    assert lines[start..] == rows + tail;
    IndexOfIs(rows + tail, "", 0, |rows|);
    assert (rows + tail)[..|rows|] == rows && (rows + tail)[|rows| + 1..] == lines[stop + 1..];
  }

  /** The blocks `get_info` splits a file into after the rows of its file list are replaced
      by other non-empty rows. */
  lemma ReplacedBlocks(lines: seq<string>, start: nat, stop: nat, nr: seq<string>)
    requires ListAt(lines, start, stop) && |nr| == stop - start
    requires forall k :: 0 <= k < |nr| ==> nr[k] != ""
    ensures SplitBlock(Splice(lines, start, stop, nr)) == Ok((lines[..start - 1], nr + lines[stop..]))
    ensures SplitBlock(nr + lines[stop..]) == Ok((nr, lines[stop + 1..]))
  {
    var tail := lines[stop..];
    var patched := Splice(lines, start, stop, nr);
    IndexOfIs(patched, "", 0, start - 1);
    assert patched[..start - 1] == lines[..start - 1];
    assert patched[start..] == nr + tail;
    assert forall j :: 0 <= j < |nr| ==> (nr + tail)[j] != "";
    IndexOfIs(nr + tail, "", 0, |nr|);
    assert (nr + tail)[..|nr|] == nr && (nr + tail)[|nr| + 1..] == lines[stop + 1..];
  }

  /** Replacing the rows of a file list by other non-empty rows with the same sizes leaves
      `get_info` unchanged. */
  lemma ReplacedRowsKeepInfo(lines: seq<string>, start: nat, stop: nat, nr: seq<string>, path: string, fileIdx: int)
    requires ListAt(lines, start, stop)
    requires |nr| == stop - start
    requires forall k :: 0 <= k < |nr| ==> nr[k] != ""
    requires VideoSizes(nr) == VideoSizes(lines[start..stop])
    ensures InfoSpec(Splice(lines, start, stop, nr), path, fileIdx) == InfoSpec(lines, path, fileIdx)
  {
    var rows := lines[start..stop];
    var tail := lines[stop..];
    OldBlocks(lines, start, stop);
    ReplacedBlocks(lines, start, stop, nr);
    InfoOfBlocks(Splice(lines, start, stop, nr), lines, lines[..start - 1], nr + tail, rows + tail, nr, rows, lines[stop + 1..], path, fileIdx);
  }

  /** A rewrite changes nothing `get_info` reads: the header, the sizes (the last field of each
      row), the frame block and the footer are all kept, so every file's info is the same. */
  lemma PatchKeepsInfo(lines: seq<string>, paths: seq<string>, path: string, fileIdx: int)
    requires PatchSpec(lines, paths).Ok? && PatchSpec(lines, paths).value.Some?
    ensures InfoSpec(PatchSpec(lines, paths).value.value, path, fileIdx) == InfoSpec(lines, path, fileIdx)
  {
    var start, stop := PatchLayout(lines, paths);
    var rows := lines[start..stop];
    var nr := NewRows(paths, rows);
    forall k | 0 <= k < |nr|
      ensures Last(Split(nr[k], ' ')) == Last(Split(rows[k], ' '))
    {
      NewRowSplit(paths[k], rows[k]);
    }
    SizesOfSameLast(nr, rows);
    ReplacedRowsKeepInfo(lines, start, stop, nr, path, fileIdx);
  }
}
