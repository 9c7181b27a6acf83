# encode_framework: the DGIndexNV index layer and its helpers, in Dafny

This project models the core of the encode_framework Python package and proves properties of
that model.

The main part is the DGIndexNV index-file layer (`encode/idx/dgindexnv.py`):

- **`get_info`**, the `.dgi` parser. The file has a signature line, then a file list whose
  rows end in each video's size, then a `KEY value…` header block, then a frame block with
  `SEQ` sector markers, and finally a footer. The parser picks out the frame records of one
  file of a jointly indexed set, using a sector window computed from the cumulative file
  sizes. Its results are memoised.
- **`update_video_filenames`**, the patcher. It rewrites only the rows of the file list, and
  writes nothing when those rows already name the given paths.
- **`index`**, the orchestration:
  1. it splits the inputs by folder;
  2. within a folder it deduplicates and sorts the files before hashing;
  3. it derives the index file name (`get_video_idx_path`);
  4. it either patches an existing index, or deletes it and runs the external tool (`get_cmd`).

Smaller helpers are modelled beside it:

- zone normalisation, container arguments, crop arguments, the latched long-path warning and
  the track-argument loop of the video encoder (`encode/video.py`);
- track-argument normalisation and splitting (`encode/utils.py`);
- the bitrate table and the audio-track naming chain (`util/tracks.py`);
- the `FilesizeUnits` enum (`types/enums.py`);
- frame/time conversions and the `hh:mm:ss.frac` text form (`util/convert.py`);
- `markdownify` (`util/misc.py`).

## How the model is laid out

- `results.dfy` (`Results`): the `Option` and `Result` types.
- `pystr.dfy` (`PyStr`): the Python string builtins the code relies on, such as `split`,
  `join`, `index`, `rstrip`, `ljust`, `int()`, `Decimal()`, `round` and string ordering.
- `pydata.dfy` (`PyData`): an insertion-ordered dict and `str(v)`.
- `dgindex_format.dfy` (`DGIndexFormat`): the records of an index file and `get_info`, as
  methods with loops proved equal to specification functions.
- `dgindex_patch.dfy` (`DGIndexPatch`): `update_video_filenames` as a function of the file's
  lines, with its properties.
- `dgindex_nv.dfy` (`DGIndexNV`): the command line, file naming and the canonical file set.
  It also holds the `Indexer` class, which keeps the index files on disk, the log of tool
  runs and the `lru_cache` of `get_info` as fields. Its methods are proved equal to
  state-transforming specification functions.
- `video_encoder.dfy` (`VideoEncoder`): the `_VideoEncoder` helpers, with the encoder as a
  class.
- `track_args.dfy` (`TrackArgs`), `tracks.dfy` (`Tracks`), `filesize_units.dfy`
  (`FilesizeUnits`), `convert.dfy` (`Convert`) and `misc.dfy` (`Misc`): one module per source
  file.

## Modelling conventions

- **Files and outside calls.** An index file is its list of lines, and an empty file has no
  lines. Everything the code takes from outside is a field of the `DGIndexNV.Hooks` value:
  - the tool binary, `absolute()`, `get_folder()` and `get_out_folder`;
  - `get_videos_hash`;
  - `PackageStorage(...).get_file` and `get_idx_file_path`;
  - what the external tool writes, or its failure.
- **Values.**
  - A `Fraction` (frame rate, aspect ratio) is an exact `real`.
  - A `timedelta` is its whole number of microseconds.
  - `Decimal` and float values are exact reals.
- **Errors.**
  - `file_corrupted` is the error `Corrupted`.
  - Python exceptions are error values of a `Result`.
  - `opt_int` keeps `None` and applies `int()` to anything else.

## Model

| member | source | states |
|---|---|---|
| DGIndexFormat.SplitBlock | encode_framework/encode/idx/dgindexnv.py:125-131 | splitting at the first blank line gives a part without blank lines and the rest, which rejoin to the input; `ValueError` exactly when there is no blank line |
| DGIndexFormat.FieldOfKey | encode_framework/encode/idx/dgindexnv.py:142-166 | a header key selects a member only when it is that member's key; `DEMUX` and unknown keys select none |
| DGIndexFormat.FieldOfKeyOf | encode_framework/encode/idx/dgindexnv.py:142-166 | every header member is selected by its own key |
| DGIndexFormat.HPut | encode_framework/encode/idx/dgindexnv.py:142-166 | a header assignment sets its member and keeps every other member |
| DGIndexFormat.ParseInts | encode_framework/encode/idx/dgindexnv.py:145-149 | `list(map(int, values))` has one parsed integer per word, in order, or fails with `ValueError` |
| DGIndexFormat.ParseValue | encode_framework/encode/idx/dgindexnv.py:142-166 | the value parsed for a member has the kind that member holds |
| DGIndexFormat.ParseHeader | encode_framework/encode/idx/dgindexnv.py:133-166 | the loop over the header block builds the header of the line-by-line specification, or raises its first exception |
| DGIndexFormat.HeaderErrorSticks | encode_framework/encode/idx/dgindexnv.py:133-166 | the first exception in the header block is the result for the whole block |
| DGIndexFormat.HeaderLineGet | encode_framework/encode/idx/dgindexnv.py:135-166 | one header line changes a member exactly when its upper-cased first word is that member's key |
| DGIndexFormat.HeaderLastLineWins | encode_framework/encode/idx/dgindexnv.py:133-166 | each header member holds the value of the last line with its key, or its dataclass default when no line has it |
| DGIndexFormat.AspectZeroDenominator | encode_framework/encode/idx/dgindexnv.py:154-158 | an `ASPECT` line with denominator 0 sets the aspect ratio to 1/1 instead of failing |
| DGIndexFormat.VideoSizes | encode_framework/encode/idx/dgindexnv.py:168 | the sizes are the integers ending each file-list row, one per row |
| DGIndexFormat.WindowOfFile | encode_framework/encode/idx/dgindexnv.py:170-172 | for file k of the list, the window runs from the sum of the sizes before k to the sum up to and including k |
| DGIndexFormat.WindowOfDefault | encode_framework/encode/idx/dgindexnv.py:170-172 | with the default `file_idx = -1`, the window is `[-size_last, 0]` |
| DGIndexFormat.WindowOfNegative | encode_framework/encode/idx/dgindexnv.py:170-172 | positions `-n..-2` name file `n + k`, as Python indexing does |
| DGIndexFormat.WindowOutOfRange | encode_framework/encode/idx/dgindexnv.py:170-172 | a position outside the list is an `IndexError` |
| DGIndexFormat.WindowsShareBoundary | encode_framework/encode/idx/dgindexnv.py:170-172 | the windows of consecutive files meet at one sector, which lies in both closed windows |
| DGIndexFormat.ReadFrameLine | encode_framework/encode/idx/dgindexnv.py:177-199 | one frame-block line either stops the loop, moves on with an updated SEQ cursor, or keeps a record, as the per-line step states |
| DGIndexFormat.LineStepCases | encode_framework/encode/idx/dgindexnv.py:180-199 | a line that stops the loop is empty, or its cursor is at or above the window's start and past its end; a skipped line's cursor is below the window, or inside it with a first field that is not an integer; a kept line's cursor is inside the window, its first field before ':' is an integer, and the record is read from its fields (`int(field 3 or 0) + 2`, field 2, fields 5–6) |
| DGIndexFormat.ScanLoop | encode_framework/encode/idx/dgindexnv.py:176-199 | the loop with its running cursor and appended frame list returns the records of the recursive line scan |
| DGIndexFormat.ScanFrames | encode_framework/encode/idx/dgindexnv.py:174-199 | the frame loop of `get_info` returns the records of the window's scan |
| DGIndexFormat.ScanSound | encode_framework/encode/idx/dgindexnv.py:174-199 | every returned record comes from a line the running loop reaches and keeps, and the records are in file order |
| DGIndexFormat.ScanComplete | encode_framework/encode/idx/dgindexnv.py:174-199 | every line the running loop reaches and keeps gives a returned record |
| DGIndexFormat.FooterLineLoop | encode_framework/encode/idx/dgindexnv.py:209-219 | the loop over the footer members sets, for one line, the members whose tag is one of the line's two words |
| DGIndexFormat.ApplyFieldsGet | encode_framework/encode/idx/dgindexnv.py:209-219 | within one line, a member changes exactly when its tag is the first word or the rest of the line; FILM takes the first `%` value or 0, the others `int(rest)` |
| DGIndexFormat.ParseFooter | encode_framework/encode/idx/dgindexnv.py:201-219 | the footer loop runs over the last ten lines only |
| DGIndexFormat.FooterErrorSticks | encode_framework/encode/idx/dgindexnv.py:203-219 | the first exception in the footer lines is the result for all of them |
| DGIndexFormat.FooterLastLineWins | encode_framework/encode/idx/dgindexnv.py:201-219 | each footer member is set by the last line that carries its tag, and stays 0 when no line does |
| DGIndexFormat.ParseInfo | encode_framework/encode/idx/dgindexnv.py:123-221 | `get_info` checks the signature, splits the three blocks, parses the header, sizes, window, frames and footer in the source's order, and fails with the first exception met |
| DGIndexPatch.CurrentPaths | encode_framework/encode/idx/dgindexnv.py:101-105 | the current paths are the first fields of the rows; a row without a space is an `IndexError` |
| DGIndexPatch.NewRows | encode_framework/encode/idx/dgindexnv.py:110-114 | each new row is the new path, a space and the last field of the old row |
| DGIndexPatch.ListBounds | encode_framework/encode/idx/dgindexnv.py:95-96 | the file list lies strictly between the first and the second empty line; `ValueError` when either is missing |
| DGIndexPatch.PatchErrors | encode_framework/encode/idx/dgindexnv.py:88-108 | the file is reported corrupted exactly when line 0 lacks "DGIndexNV" or the list does not have one row per path; nothing is written exactly when the first fields already equal the paths |
| DGIndexPatch.PatchShape | encode_framework/encode/idx/dgindexnv.py:110-116 | a rewrite keeps the line count and every line outside the list, and writes `<path> <old last field>` in each row |
| DGIndexPatch.PatchBounds | encode_framework/encode/idx/dgindexnv.py:112-116 | the rewritten file keeps its signature line, and its list is found at the same place holding the new rows |
| DGIndexPatch.PatchIdempotent | encode_framework/encode/idx/dgindexnv.py:101-108 | when no path contains a space, a second call with the same paths writes nothing |
| DGIndexPatch.PatchAgainWithSpace | encode_framework/encode/idx/dgindexnv.py:101-108 | when a path contains a space, every later call rewrites the file again |
| DGIndexPatch.PatchKeepsInfo | encode_framework/encode/idx/dgindexnv.py:110-116 | a rewrite changes nothing `get_info` reads, so every file's info is the same before and after |
| DGIndexNV.GetCmdInputs | encode_framework/encode/idx/dgindexnv.py:78-85 | the command has seven words, with `-i` before the inputs and the output after `-o`; when no path holds a comma, splitting the input word at commas gives back exactly the absolute paths, in order |
| DGIndexNV.StemOfTags | encode_framework/encode/idx/dgindexnv.py:260 | the tags JOINED and SINGLE are their own stems |
| DGIndexNV.IdxFileNameShape | encode_framework/encode/idx/dgindexnv.py:271-274 | the index file name is the stem of the first file, the hash, the stem of the tag and the indexer name, joined by `_` |
| DGIndexNV.SortedUnique | encode_framework/encode/idx/dgindexnv.py:246 | `sorted(set(files))` is strictly sorted and has exactly the input's elements |
| DGIndexNV.SortedUniqueDetermined | encode_framework/encode/idx/dgindexnv.py:246-248 | any reordering or repetition of the inputs gives the same sorted list, and so the same hash |
| DGIndexNV.SortedCount | encode_framework/encode/idx/dgindexnv.py:246 | the sorted list holds each distinct file once |
| DGIndexNV.Folders | encode_framework/encode/idx/dgindexnv.py:233 | the folder list has no repetitions and is exactly the set of the files' folders |
| DGIndexNV.InFolder | encode_framework/encode/idx/dgindexnv.py:237 | a group is exactly the input files in that folder |
| DGIndexNV.GroupHasOneFolder | encode_framework/encode/idx/dgindexnv.py:233-240 | every group passed to the recursive call lies in one folder |
| DGIndexNV.GroupCallIsFolderCall | encode_framework/encode/idx/dgindexnv.py:233-244 | so the recursive call on a group takes the single-folder path |
| DGIndexNV.IndexFolderOrderFree | encode_framework/encode/idx/dgindexnv.py:244-269 | within one folder, reordering or repeating the inputs gives the same outputs, runs and disk, provided the output folder chosen for the first file agrees |
| DGIndexNV.ReuseSkipsTool | encode_framework/encode/idx/dgindexnv.py:250-255 | an existing non-empty output without `force` is patched, and the tool is not run |
| DGIndexNV.RebuildRunsTool | encode_framework/encode/idx/dgindexnv.py:250-257 | with `force`, or for a missing or empty output, the old file is deleted and the tool runs once with `get_cmd` plus the extra arguments; on success the output holds what the tool wrote |
| DGIndexNV.IndexOneLeavesOutput | encode_framework/encode/idx/dgindexnv.py:250-257 | a successful `_index` leaves its output on disk |
| DGIndexNV.SecondCallReuses | encode_framework/encode/idx/dgindexnv.py:259-262 | indexing the same files again without `force`, after a run that left a non-empty file, does not run the tool and names the same file |
| DGIndexNV.SplitOutputs | encode_framework/encode/idx/dgindexnv.py:264 | split mode names one output per file, tagged with the file's name |
| DGIndexNV.SplitModeOutputs | encode_framework/encode/idx/dgindexnv.py:264-269 | split mode returns one path per distinct file, in sorted order |
| DGIndexNV.PatchKeepsCoherent | encode_framework/encode/idx/dgindexnv.py:118-119 | patching a file list never makes a memoised `get_info` result stale |
| DGIndexNV.PatchLines | encode_framework/encode/idx/dgindexnv.py:88-116 | the imperative body of `update_video_filenames` computes the patch specification |
| DGIndexNV.Indexer.UpdateVideoFilenames | encode_framework/encode/idx/dgindexnv.py:87-116 | the disk changes only at the index path, as the patch specification says; the runs and the cache are unchanged, and the cache stays coherent |
| DGIndexNV.Indexer.GetInfo | encode_framework/encode/idx/dgindexnv.py:118-121 | a cache hit returns the stored result and a miss parses the file and stores a success; with a coherent cache the result is what parsing the file gives now |
| DGIndexNV.Indexer.RunIndex | encode_framework/encode/idx/dgindexnv.py:257 | the tool run is logged, and its output replaces the output file |
| DGIndexNV.Indexer.IndexOne | encode_framework/encode/idx/dgindexnv.py:250-257 | the nested `_index` patches, or deletes and reruns, as its specification says |
| DGIndexNV.Indexer.IndexJoined | encode_framework/encode/idx/dgindexnv.py:259-262 | the joined branch indexes the sorted files into one file, tagged JOINED or SINGLE |
| DGIndexNV.Indexer.IndexEach | encode_framework/encode/idx/dgindexnv.py:266-267 | the split loop indexes each file into its own output, in order, stopping at the first error |
| DGIndexNV.Indexer.IndexSplit | encode_framework/encode/idx/dgindexnv.py:264-269 | the split branch returns the outputs after indexing each file |
| DGIndexNV.Indexer.IndexFolder | encode_framework/encode/idx/dgindexnv.py:244-269 | for one folder: the output folder of the first file, the sorted set and its hash, then the joined or split branch; an empty input is an `IndexError` |
| DGIndexNV.Indexer.Index | encode_framework/encode/idx/dgindexnv.py:227-269 | `index` follows its specification; inputs in several folders go folder by folder |
| DGIndexNV.Indexer.IndexGroups | encode_framework/encode/idx/dgindexnv.py:233-242 | the per-folder results are concatenated in folder order, stopping at the first error |
| DGIndexNV.Indexer.IndexGroup | encode_framework/encode/idx/dgindexnv.py:236-239 | the recursive call gets exactly the folder's files, and no `cmd_args` |
| VideoEncoder.AsList | encode_framework/encode/video.py:331-332 | a single zone is wrapped into a one-element list, and a list is kept |
| VideoEncoder.Resolve | encode_framework/encode/video.py:348-356 | `None` gives the default, a negative frame counts back from `num_frames`, and any other frame is kept |
| VideoEncoder.NormZone | encode_framework/encode/video.py:336-369 | a zone fails exactly when it does not have three values, or has a `None` and no bitrate; a kept zone has all three values |
| VideoEncoder.NormalizeZones | encode_framework/encode/video.py:328-371 | the loop returns the normalisation of the zones, listed in order |
| VideoEncoder.NormalizeErrorStops | encode_framework/encode/video.py:336-343 | once a zone is rejected, the zones after it are not looked at |
| VideoEncoder.NormalizeFails | encode_framework/encode/video.py:337-363 | normalisation fails exactly when some zone is bad, and the error names the first bad zone |
| VideoEncoder.NormalizeShape | encode_framework/encode/video.py:334-371 | the result is never longer than the input, and every zone in it has three values |
| VideoEncoder.NormalizeKeepsFull | encode_framework/encode/video.py:345-369 | zones without a `None` pass through unchanged, even with negative frames or a bitrate of zero or less |
| VideoEncoder.NormalizeIdempotent | encode_framework/encode/video.py:328-371 | normalising a normalised list changes nothing |
| VideoEncoder.NormalizeAppend | encode_framework/encode/video.py:336-371 | zones are handled independently and in order |
| VideoEncoder.NormZoneWithNone | encode_framework/encode/video.py:345-367 | in a zone with a `None`, a bitrate of zero or less drops the zone; a positive one keeps it with start 0 and end `num_frames` for `None`, and negative frames counted from `num_frames` |
| VideoEncoder.ContainerExtraCases | encode_framework/encode/video.py:224-232 | with both flags present, cropping is added exactly when the token after the first `--overscan` is `crop`, and it carries the token after the first `--display-window`; an `IndexError` comes only from a flag that is the last token |
| VideoEncoder.ContainerExtraWithoutFlags | encode_framework/encode/video.py:224 | without both flags nothing is added |
| VideoEncoder.Encoder.SetContainerArgs | encode_framework/encode/video.py:218-234 | the shared list is extended by exactly those arguments and returned; on `IndexError` it is unchanged |
| VideoEncoder.Encoder.GetCropArgs | encode_framework/encode/video.py:284-300 | an explicit crop is returned untouched; otherwise `(left, top, right, bottom)` when any side is non-zero and `None` when all are zero, stored in `crop` |
| VideoEncoder.Encoder.WarnIfPathTooLong | encode_framework/encode/video.py:373-388 | the flag is set once a path longer than 255 characters is seen, and it stays set; the warning is logged only when it is first set |
| VideoEncoder.WarnLatched | encode_framework/encode/video.py:378-388 | after any sequence of calls the flag is set exactly when some call saw a path longer than 255 characters; once set, it stays set |
| VideoEncoder.Encoder.SetVideoTrackArgs | encode_framework/encode/video.py:103-107 | when track arguments are given, the video track arguments are replaced by their argument list; otherwise they are kept |
| VideoEncoder.TrackArgListAt | encode_framework/encode/video.py:106-107 | each entry gives `--<key with _ as ->` followed by `0:<value>`, in order |
| TrackArgs.Dash | encode_framework/encode/utils.py:24 | `replace("_", "-")` leaves no `_` and keeps every other character in place |
| TrackArgs.FlagKey | encode_framework/encode/utils.py:28 | a flag key contains no `_` and ends in `-flag` |
| TrackArgs.DashKeys | encode_framework/encode/utils.py:24 | the comprehension has unique keys |
| TrackArgs.DashKeysGet | encode_framework/encode/utils.py:24 | under a dashed key the comprehension holds the value of the last input key that dashes to it, and nothing under any other key |
| TrackArgs.NormalizeTrackTypeArgs | encode_framework/encode/utils.py:10-33 | the loop builds the normalised dictionary; the caller's dictionary is a value and is not changed |
| TrackArgs.FlagParamsSeparated | encode_framework/encode/utils.py:16-22 | no flag key of one parameter is the dashed name of another, and the dashed names differ |
| TrackArgs.ApplyFlagsMoves | encode_framework/encode/utils.py:26-31 | each present parameter leaves its value under its flag key and nothing under its dashed name |
| TrackArgs.ApplyFlagsKeeps | encode_framework/encode/utils.py:26-31 | a key that no present parameter touches keeps its value |
| TrackArgs.ApplyFlagsOrigin | encode_framework/encode/utils.py:26-31 | every key of the result was there before or is the flag key of a present parameter |
| TrackArgs.NormalizeMovesFlag | encode_framework/encode/utils.py:26-31 | a flag parameter given under its own name moves to `<dashed>-flag` with the same value, and its dashed name is gone |
| TrackArgs.NormalizeKeepsOthers | encode_framework/encode/utils.py:24-33 | any other key holds the value of the last input key that dashes to it |
| TrackArgs.NormalizeKeys | encode_framework/encode/utils.py:24-33 | every output key is a dashed input key or the flag key of a given flag parameter, and no output key contains `_` |
| TrackArgs.PopAllGet | encode_framework/encode/utils.py:57-60 | after the pops no `to_track` keyword is left, and every other key keeps its value |
| TrackArgs.Kwargs | encode_framework/encode/utils.py:57-59 | the keyword map holds exactly the `to_track` keywords present, with their values |
| TrackArgs.PopKeywords | encode_framework/encode/utils.py:57-60 | the first loop pops the `to_track` keywords from the caller's dict into the keyword map |
| TrackArgs.ArgStrings | encode_framework/encode/utils.py:62-69 | the second loop produces one argument per remaining item with a value, in order |
| TrackArgs.SplitTrackArgs | encode_framework/encode/utils.py:36-73 | the caller's dict loses its `to_track` keywords; the result holds them and, under `args`, the arguments of the remaining items |
| TrackArgs.SplitMovesKeywords | encode_framework/encode/utils.py:47-60 | a key is moved exactly when it is a `to_track` keyword present in the dict; every other key is untouched |
| TrackArgs.ArgListAppend | encode_framework/encode/utils.py:62-69 | the arguments of two runs of items are those of each, in order |
| TrackArgs.ArgListOfItem | encode_framework/encode/utils.py:62-64 | a `None` value gives no argument; any other value gives exactly one |
| TrackArgs.ArgStringShape | encode_framework/encode/utils.py:66-69 | booleans give `--k 0:yes` and `--k 0:no`; other values give `--k 0:<str(v)>` |
| Tracks.TableShape | encode_framework/util/tracks.py:14 | the table is 16, 32, …, 1024, strictly ascending, and holds exactly the multiples of 16 in that range |
| Tracks.RoundDiv1000 | encode_framework/util/tracks.py:151 | `round(mps / 1000)` is within half of `mps / 1000`, and a tie goes to the even integer |
| Tracks.BitrateForIsSmallestAbove | encode_framework/util/tracks.py:151-157 | the result is in the table and is the smallest entry at or above the target; a target at most 16 gives 16, and one above 1024 gives 1024 |
| Tracks.ClosestCommonBitrate | encode_framework/util/tracks.py:148-157 | the linear search with early return gives the smallest table entry at or above the rounded target, or the top entry |
| Tracks.FirstMatch | encode_framework/util/tracks.py:92 | the regex search finds the leftmost position where the pattern matches, or reports that none does |
| Tracks.SearchBitrate | encode_framework/util/tracks.py:92 | the match fails exactly when no position matches; the group is a non-empty run of digits |
| Tracks.LossyEncoderStr | encode_framework/util/tracks.py:86-120 | the chain of early returns gives the name the precedence specification says |
| Tracks.EncoderOptionsFirst | encode_framework/util/tracks.py:89-93 | a `bitrate N` in the encoder options decides the name, whatever ffprobe's bit rate is |
| Tracks.BitRateSecond | encode_framework/util/tracks.py:96-97 | without such a match, ffprobe's bit rate decides and the other tags play no part; it fails exactly when it is not an integer |
| Tracks.BpsThird | encode_framework/util/tracks.py:99-105 | then a readable `BPS` tag decides, snapped to the table, before the size and duration are looked at |
| Tracks.LossyShape | encode_framework/util/tracks.py:86-120 | the name is the input or the input with ` @ Nkb/s` for digits N; a guessed rate is always a table entry |
| Tracks.DescriptiveStr | encode_framework/util/tracks.py:123-145 | without mkvmerge information or flags the input is returned; otherwise ` - ` plus `Descriptive` and/or `Commentary`, joined by `, `, with `Descriptive` first |
| FilesizeUnits.FactorIsPower | encode_framework/types/enums.py:83-86 | each factor is 1024 to the power of the member's value |
| FilesizeUnits.FactorStep | encode_framework/types/enums.py:83-86 | each unit is 1024 times the one before it |
| FilesizeUnits.FactorMonotone | encode_framework/types/enums.py:83-86 | a smaller value has a smaller factor, and conversely |
| FilesizeUnits.UnitNames | encode_framework/types/enums.py:19-26 | the abbreviations are B, KB, MB, GB, TB and PB |
| FilesizeUnits.ToBytesUniform | encode_framework/types/enums.py:28-40 | the special case for bytes agrees with truncating `x * factor`, and converting the bytes back scales by the factor |
| FilesizeUnits.BytesRoundTrip | encode_framework/types/enums.py:28-40 | a whole number of bytes converted into any unit and back is the same number |
| FilesizeUnits.FromBytesScale | encode_framework/types/enums.py:28-33 | `from_bytes` times the factor is the byte count |
| FilesizeUnits.ToUnitIsFromUnit | encode_framework/types/enums.py:42-54 | `a.to_unit(x, b)` is `b.from_unit(x, a)` |
| FilesizeUnits.FromUnitExact | encode_framework/types/enums.py:42-47 | a whole count of a unit converts into a smaller unit without loss |
| FilesizeUnits.GetFactors | encode_framework/types/enums.py:76-81 | one `(factor, unit)` pair per member, in declaration order |
| FilesizeUnits.FactorsIncrease | encode_framework/types/enums.py:76-81 | every member is listed, and the factors strictly increase |
| FilesizeUnits.HumanReadableUnit | encode_framework/types/enums.py:60-74 | the chosen unit is the largest whose factor is at most the byte count, and BYTES for a count below 1 |
| Convert.Round3 | encode_framework/util/convert.py:46 | rounding to three decimals moves the value by at most 0.0005 |
| Convert.Milliseconds | encode_framework/util/convert.py:46 | the whole milliseconds are within half a millisecond of the time |
| Convert.ExcludeBoundaryIsEarlier | encode_framework/util/convert.py:41-44 | excluding the boundary is the unrounded conversion of the time one millisecond earlier |
| Convert.FrameRounding | encode_framework/util/convert.py:46-54 | the result is the truncation of `ms * fps / 1000` or the next integer; the next integer only with rounding allowed and the position within 0.0305 of it, and always when within 0.0295; without rounding, the truncation |
| Convert.WholeMilliseconds | encode_framework/util/convert.py:46-54 | a time on a whole millisecond converts without rounding the time |
| Convert.FrameBoundary | encode_framework/util/convert.py:41-54 | at the exact start of frame k the time converts to k, and to k - 1 when the boundary is excluded |
| Convert.FrameAtWhole | encode_framework/util/convert.py:46-54 | a time whose frame position is a whole number converts to that number |
| Convert.Centiseconds | encode_framework/util/convert.py:91-92 | rounding to two decimals of a second gives a whole number of centiseconds within 5 ms |
| Convert.FrameToTimedelta | encode_framework/util/convert.py:57-92 | with rounding, the result is a whole number of centiseconds |
| Convert.FrameToTimedeltaFails | encode_framework/util/convert.py:82-87 | the conversion fails exactly when a positive frame meets a zero frame rate, with a division by zero |
| Convert.FrameToTimedeltaValue | encode_framework/util/convert.py:81-92 | without compensation, zero for a frame of at most 0; otherwise the microsecond nearest to `f / fps` seconds, then rounded to centiseconds when rounding |
| Convert.CompensatedIsMidpoint | encode_framework/util/convert.py:76-80 | with compensation, twice the result is the sum of the unrounded timestamps of f and f + 1 to within a microsecond, and it lies between them |
| Convert.FrameToTimedeltaMonotone | encode_framework/util/convert.py:81-92 | with a positive frame rate, later frames have later timestamps, rounded or not |
| Convert.FrameToMsValue | encode_framework/util/convert.py:108-109 | the milliseconds are 1000 times the seconds of `frame_to_timedelta` with the same arguments, and always a multiple of ten |
| Convert.FrameTimestampRoundTrip | encode_framework/util/convert.py:21-92 | at up to 50 frames per second, a frame's unrounded timestamp converts back to the same frame |
| Convert.DefaultRoundingLosesFrame | encode_framework/util/convert.py:21-92 | with the default centisecond rounding, frame 1 at 24000/1001 fps comes back as frame 0 |
| Convert.Places | encode_framework/util/convert.py:123 | the quantisation pattern has `precision` decimals, and one when the precision is below one |
| Convert.QuantizedError | encode_framework/util/convert.py:122-124 | at precision 1 to 6 the quantised time is within half a unit in the last place of the time |
| Convert.ClockValues | encode_framework/util/convert.py:125-129 | hours are whole, minutes and seconds are below 60, and together they make up the whole seconds |
| Convert.FixedTextFields | encode_framework/util/convert.py:125-130 | the positional text is three zero-padded fields, the last with the fraction padded to the precision |
| Convert.FormatAgrees | encode_framework/util/convert.py:112-130 | the text as written equals the positional text unless the rounded value prints in scientific notation |
| Convert.FormatTimedeltaPositional | encode_framework/util/convert.py:122-130 | within the range of `timedelta` and at precision at most 4, the text as written is the positional text |
| Convert.FormatBelowTenthMillisecond | encode_framework/util/convert.py:130 | 10 µs at precision 6 raises `IndexError`, and 15 µs gives `00:00:00.5e-050` |
| Convert.FormatParseRoundTrip | encode_framework/util/convert.py:112-147 | formatting a time of at least 0 at precision 1 to 6 and parsing the text gives back the quantised time |
| Convert.FormatParseExact | encode_framework/util/convert.py:112-147 | at microsecond precision, formatting and parsing gives back the time itself |
| Convert.FromFormattedFields | encode_framework/util/convert.py:143-147 | `"h:m:s"` fails exactly when a field is not a number, and then with `InvalidOperation` |
| Convert.FromFormattedValue | encode_framework/util/convert.py:143-147 | `"h:m:s"` is `h * 3600 + m * 60 + s` seconds, to the nearest microsecond |
| Convert.ThreeFieldsFail | encode_framework/util/convert.py:143-147 | for any text that splits into three fields, it fails exactly when a field is not a number |
| Convert.ThreeFieldsValue | encode_framework/util/convert.py:143-147 | for any text that splits into three numeric fields, the value is `h * 3600 + m * 60 + s` seconds |
| Convert.FromFormattedFewFields | encode_framework/util/convert.py:143-146 | fewer than three fields always fail, with `IndexError` when the fields present are numbers |
| Misc.WordRun | encode_framework/util/misc.py:9-10 | the greedy run of word characters is as long as possible |
| Misc.MatchTagSplit | encode_framework/util/misc.py:9-10 | a match is the tag, a word of the character class and `[/]`, followed by the rest of the text |
| Misc.MarkdownifyTagFree | encode_framework/util/misc.py:7-12 | text with neither tag comes back unchanged |
| Misc.MarkdownifyBold | encode_framework/util/misc.py:9 | `[bold]w[/]`, with w from letters, digits and `. ! ? : -`, becomes `**w**`; an empty w gives `****` |
| Misc.MarkdownifyItalics | encode_framework/util/misc.py:10 | `[italics]w[/]` becomes `_w_`; an empty w gives `__` |
| Misc.MarkdownifyUntouched | encode_framework/util/misc.py:9-10 | a tag whose content holds another character, such as a space, and no `[`, is left untouched by both rewrites |
| Misc.MarkdownifyBoldThenItalics | encode_framework/util/misc.py:9-10 | bold and italics side by side both become marks, because the italics rewrite runs on the output of the bold one |
| Misc.EmptyWord | encode_framework/util/misc.py:9-10 | a tag directly followed by `[/]` becomes two marks |
| Misc.OtherTagEmpty | encode_framework/util/misc.py:9-10 | a tag directly followed by `[/]` is left untouched by the other tag's rewrite |

## Left out

- File I/O: reading and writing index files becomes a map from path to lines. `get_info`
  splits the text at `'\n'`, while `update_video_filenames` uses `read_lines()`; the model
  reads both as the same lines, so the extra empty last line a trailing newline gives
  `get_info` is not modelled.
- External code: `get_videos_hash`, `get_out_folder`, `get_idx_file_path`, `PackageStorage`,
  `absolute()`, `get_folder()` and `_run_index`'s tool process are fields of `Hooks`, taken
  as total functions. `_run_index` is not part of this model beyond logging the command and
  storing what the tool writes.
- Set order: `list(set(...))` in `index` has no specified order. The model takes the folders
  in order of first appearance, so `IndexGroups` concatenates the per-folder results in that
  order. `split_track_args` iterates `to_track_params` in a fixed order; its result does not
  depend on that order.
- `sorted(set(files))` compares paths as strings, while `PurePath` compares them part by
  part. The two orders agree when every path is its folder, a `/` and its name, as the
  files of one folder then are.
- Floating point: zone frames and bitrates, the FILM percentage, filesize conversions,
  `Decimal(total_seconds())` and `float(seconds)` are exact reals. Double rounding through
  a float is not modelled: `frame_to_timedelta` gives the microsecond nearest to the exact
  quotient, and `_fraction_to_decimal` has unbounded precision.
- `format_timedelta`'s `str(float)` follows Python's rule (positional between 1e-4 and
  1e16, and otherwise scientific with the shortest digits). The float of the quantised
  `Decimal` is taken as exact.
- `FilesizeUnits.pretty_string` (`round(..., 2)` of a float, then `str`) is not modelled;
  `HumanReadableUnit` returns the unit `human_readable_string` prints in.
- `build_audio_track_name` and `_get_base_encoder_str` are not part of this model: they probe
  the file with external tools and format a float channel count.
- Regex classes: in `_get_lossy_encoder_str`, `\s` is Python's Unicode whitespace class
  (`PyStr.IsSpace`, which includes U+0085, U+00A0, U+2000 to U+200A and U+3000), while `\d`
  is narrowed to the ASCII digits `0` to `9`; Python's `\d` also matches other Unicode decimal
  digits.
- DGIndexFormat.HeaderLine: `str.upper()` is modelled on ASCII letters only. Python's Unicode
  mapping also sends `ı` to `I` and `ſ` to `S`, so a header line such as `devıce 3` sets
  DEVICE in the source but is ignored by the model.
- DGIndexFormat.ParseInts: `int()` is modelled on ASCII digits (with sign, surrounding
  whitespace and single underscores); Python also accepts any Unicode decimal digit, such as
  `٣` or `３`. The same narrowing applies to `FirstInt`, the first field of a frame line,
  the footer's `int(rest)`, the file-list sizes and Tracks.BitRateSecond, where such input
  fails in the model and parses in the source.
- Tracks.LossyEncoderStr: `float()` is modelled on finite decimal literals only. Python also
  accepts `inf`, `nan` and `Infinity`, so a `DURATION` field with `inf` gives a size and
  duration guess of ` @ 16kb/s` in the source, while the model returns the track string.
- Convert.FromFormattedFields: `Decimal()` is also modelled on finite literals only. In the
  source `"0:0:inf"` raises `OverflowError` and `"0:0:nan"` raises `ValueError` when the
  `timedelta` is built, while the model reports `InvalidOperation`; the stated error holds for
  finite literals.
- Convert.TimedeltaFromFormatted and Convert.FrameToTimedelta: `timedelta`'s range of
  ±999999999 days is not modelled, so these return a value where the source raises
  `OverflowError` (for example `"99999999999:0:0"` or a huge frame number). Only
  Convert.FormatTimedeltaPositional states the range, as a precondition.
- The `VSSOURCE_DEBUG` print on a 0/0 aspect ratio is left out (output only).
- Logging: `Log.warn` in `_warn_if_path_too_long` is a warning counter; `Log.error` raises
  are error values.
- The rest of `encode_video` (globbing, encoding, muxing) is not part of this model; only its
  track-argument loop is.
- DGIndexFormat.ScanLoop: it takes the per-line step as a function value. That step is
  `ReadFrameLine`'s specification `LineStep`, which `ReadFrameLine` is proved to compute.
- DGIndexNV.Indexer.GetInfo: the cache is a map keyed by `(index_path, file_idx)` on the
  object, not a process-wide `lru_cache` keyed by `self` as well. After a tool rerun a cached
  result can be stale, as in the source. The bare `@lru_cache` keeps at most 128 entries and
  evicts the least recently used one, after which a fresh parse can replace a stale result; the
  model's map never evicts.
- DGIndexNV.Indexer.Index: it takes a sequence of paths. The source passes `files` through
  `to_arr`, so it also accepts a single path; a caller of the model wraps it as `[path]`.

## Findings

| source | as written | input that shows it | evidently intended | confidence | as-written member | corrected member |
|---|---|---|---|---|---|---|
| encode_framework/util/convert.py:130 | the fraction is taken from `str(rounded).split('.')[1]`, and `str` of a float below 1e-4 uses scientific notation | `format_timedelta(timedelta(microseconds=10), 6)` raises `IndexError` (`str` gives `1e-05`); 15 µs gives `00:00:00.5e-050` | `00:00:00.000010` and `00:00:00.000015`: the fraction digits of the quantised value, zero-padded to the precision | not executed | Convert.FormatBelowTenthMillisecond | Convert.FormatParseRoundTrip |
