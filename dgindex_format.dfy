/** The DGIndexNV `.dgi` index file: its records and the parser that reads the frame
    records of one file out of a jointly indexed set (`DGIndexNV.get_info`). */
module DGIndexFormat {
  import opened Results
  import opened PyStr

  /** The exceptions the index layer raises. `Corrupted` is `file_corrupted`; the others
      are the Python built-in exceptions of the same name. */
  datatype Error = Corrupted | ValueError | IndexError | TypeError | FileNotFound | ToolFailed

  // ---------------------------------------------------------------------------
  // Records
  // ---------------------------------------------------------------------------

  /** One frame line: `DGIndexFrameData(matrix, pic_type, vob, cell)`. */
  datatype FrameData = FrameData(matrix: int, picType: string, vob: Option<int>, cell: Option<int>)

  /** `DGIndexHeader`; `aspect` is the value of the `Fraction`. */
  datatype Header = Header(
    device: int, decodeModes: seq<int>, stream: seq<int>, ranges: seq<int>, depth: int,
    aspect: real, colorimetry: seq<int>, packetSize: Option<int>, vpid: Option<int>)

  const DefaultHeader := Header(0, [0, 0, 0, 0, 0], [1, 0], [0, 0, 0, 0], 8, 16.0 / 9.0, [2, 2, 2], None, None)

  /** `DGIndexFooter`; `film` is the float percentage. */
  datatype Footer = Footer(film: real, framesCoded: int, framesPlayback: int, order: int)

  const DefaultFooter := Footer(0.0, 0, 0, 0)

  /** `DGIndexFileInfo(path, file_idx, header, frame_data, footer)`. */
  datatype FileInfo = FileInfo(path: string, fileIdx: int, header: Header, frameData: seq<FrameData>, footer: Footer)

  // ---------------------------------------------------------------------------
  // Blocks
  // ---------------------------------------------------------------------------

  /** `_split_lines`: the lines before the first blank line and the lines after it;
      `ValueError` when there is no blank line. */
  function SplitBlock(lines: seq<string>): (r: Result<(seq<string>, seq<string>), Error>)
    ensures r.Ok? <==> "" in lines
    ensures r.Ok? ==> lines == r.value.0 + [""] + r.value.1 && "" !in r.value.0
    ensures r.Err? ==> r.error == ValueError
  {
    var i := IndexOf(lines, "", 0);
    if i.None? then Err(ValueError)
    else
      assert lines == lines[..i.value] + [""] + lines[i.value + 1..];
      Ok((lines[..i.value], lines[i.value + 1..]))
  }

  // ---------------------------------------------------------------------------
  // Header block
  // ---------------------------------------------------------------------------

  /** The header members, one per recognised key. */
  datatype HField = Device | DecodeModes | Stream | Ranges | Depth | Aspect | Colorimetry | PacketSize | Vpid

  function KeyOf(f: HField): string {
    match f
    case Device => "DEVICE"
    case DecodeModes => "DECODE_MODES"
    case Stream => "STREAM"
    case Ranges => "RANGE"
    case Depth => "DEPTH"
    case Aspect => "ASPECT"
    case Colorimetry => "COLORIMETRY"
    case PacketSize => "PKTSIZ"
    case Vpid => "VPID"
  }

  /** The member a key sets; `DEMUX` and every unknown key set none. */
  function FieldOfKey(key: string): (r: Option<HField>)
    ensures r.Some? ==> KeyOf(r.value) == key
    ensures r.None? ==> forall f :: KeyOf(f) != key
  {
    if key == "DEVICE" then Some(Device)
    else if key == "DECODE_MODES" then Some(DecodeModes)
    else if key == "STREAM" then Some(Stream)
    else if key == "RANGE" then Some(Ranges)
    else if key == "DEPTH" then Some(Depth)
    else if key == "ASPECT" then Some(Aspect)
    else if key == "COLORIMETRY" then Some(Colorimetry)
    else if key == "PKTSIZ" then Some(PacketSize)
    else if key == "VPID" then Some(Vpid)
    else None
  }

  /** Every member has its own key. */
  lemma FieldOfKeyOf(f: HField)
    ensures FieldOfKey(KeyOf(f)) == Some(f)
  {
  }

  datatype HValue = IntV(i: int) | IntsV(xs: seq<int>) | RatioV(q: real) | OptV(o: Option<int>)

  function HGet(h: Header, f: HField): HValue {
    match f
    case Device => IntV(h.device)
    case DecodeModes => IntsV(h.decodeModes)
    case Stream => IntsV(h.stream)
    case Ranges => IntsV(h.ranges)
    case Depth => IntV(h.depth)
    case Aspect => RatioV(h.aspect)
    case Colorimetry => IntsV(h.colorimetry)
    case PacketSize => OptV(h.packetSize)
    case Vpid => OptV(h.vpid)
  }

  /** A value of the kind member `f` holds. */
  predicate Fits(f: HField, v: HValue) {
    match f
    case Device => v.IntV?
    case Depth => v.IntV?
    case DecodeModes => v.IntsV?
    case Stream => v.IntsV?
    case Ranges => v.IntsV?
    case Colorimetry => v.IntsV?
    case Aspect => v.RatioV?
    case PacketSize => v.OptV?
    case Vpid => v.OptV?
  }

  /** The header with member `f` replaced by `v` and every other member kept. */
  function HPut(h: Header, f: HField, v: HValue): (r: Header)
    requires Fits(f, v)
    ensures HGet(r, f) == v
    ensures forall g :: g != f ==> HGet(r, g) == HGet(h, g)
  {
    match f
    case Device => h.(device := v.i)
    case DecodeModes => h.(decodeModes := v.xs)
    case Stream => h.(stream := v.xs)
    case Ranges => h.(ranges := v.xs)
    case Depth => h.(depth := v.i)
    case Aspect => h.(aspect := v.q)
    case Colorimetry => h.(colorimetry := v.xs)
    case PacketSize => h.(packetSize := v.o)
    case Vpid => h.(vpid := v.o)
  }

  /** `list(map(int, values))`. */
  function ParseInts(values: seq<string>): (r: Result<seq<int>, Error>)
    ensures r.Ok? ==> |r.value| == |values|
    ensures r.Ok? ==> forall i :: 0 <= i < |values| ==> IntParse(values[i]) == Some(r.value[i])
    ensures r.Err? ==> r.error == ValueError
    decreases |values|
  {
    if |values| == 0 then Ok([])
    else
      var x := IntParse(values[0]);
      if x.None? then Err(ValueError)
      else
        var rest := ParseInts(values[1..]);
        if rest.Err? then rest else Ok([x.value] + rest.value)
  }

  /** `Fraction(*ints)`: no argument is 0, one is n/1, two is n/d; a zero denominator falls
      back to 1/1 (the caught `ZeroDivisionError`), more arguments are a `TypeError`. */
  function FractionOf(ints: seq<int>): Result<real, Error> {
    if |ints| == 0 then Ok(0.0)
    else if |ints| == 1 then Ok(ints[0] as real)
    else if |ints| == 2 then Ok(if ints[1] == 0 then 1.0 else (ints[0] as real) / (ints[1] as real))
    else Err(TypeError)
  }

  /** `int(values[0])`, an `IndexError` when there is no value. */
  function FirstInt(values: seq<string>): Result<int, Error> {
    if |values| == 0 then Err(IndexError) else Need(IntParse(values[0]), ValueError)
  }

  /** The value a `KEY value...` line gives member `f`. */
  function ParseValue(f: HField, values: seq<string>): (r: Result<HValue, Error>)
    ensures r.Ok? ==> Fits(f, r.value)
  {
    match f
    case Device => var i :- FirstInt(values); Ok(IntV(i))
    case Depth => var i :- FirstInt(values); Ok(IntV(i))
    case PacketSize => var i :- FirstInt(values); Ok(OptV(Some(i)))
    case Vpid => var i :- FirstInt(values); Ok(OptV(Some(i)))
    case DecodeModes =>
      if |values| == 0 then Err(IndexError)
      else var xs :- ParseInts(Split(values[0], ',')); Ok(IntsV(xs))
    case Stream => var xs :- ParseInts(values); Ok(IntsV(xs))
    case Ranges => var xs :- ParseInts(values); Ok(IntsV(xs))
    case Colorimetry => var xs :- ParseInts(values); Ok(IntsV(xs))
    case Aspect => var xs :- ParseInts(values); var q :- FractionOf(xs); Ok(RatioV(q))
  }

  /** A header line, split at single spaces after its trailing whitespace is dropped. */
  function HeaderWords(line: string): (r: seq<string>)
    ensures |r| >= 1
  {
    Split(RStrip(line), ' ')
  }

  function HeaderKey(line: string): string {
    Upper(HeaderWords(line)[0])
  }

  /** What one header line does to the header: a recognised key replaces its member. */
  function HeaderLine(h: Header, line: string): Result<Header, Error> {
    var w := HeaderWords(line);
    match FieldOfKey(Upper(w[0]))
    case None => Ok(h)
    case Some(f) =>
      var v :- ParseValue(f, w[1..]);
      Ok(HPut(h, f, v))
  }

  /** The header the loop over the header block builds, or the first exception it raises. */
  function HeaderSpec(raw: seq<string>): Result<Header, Error>
    decreases |raw|
  {
    if |raw| == 0 then Ok(DefaultHeader)
    else
      var h :- HeaderSpec(raw[..|raw| - 1]);
      HeaderLine(h, raw[|raw| - 1])
  }

  /** The loop over `raw_header`; the `if`/`elif` chain on the key is `HeaderLine`. */
  method ParseHeader(raw: seq<string>) returns (r: Result<Header, Error>)
    ensures r == HeaderSpec(raw)
  {
    var header := DefaultHeader;
    var i := 0;
    while i < |raw|
      invariant 0 <= i <= |raw|
      invariant HeaderSpec(raw[..i]) == Ok(header)
    {
      HeaderSpecStep(raw, i, header);
      var next := HeaderLine(header, raw[i]);
      if next.Err? {
        HeaderErrorSticks(raw, i + 1);
        return next;
      }
      header := next.value;
      i := i + 1;
    }
    assert raw[..|raw|] == raw;
    return Ok(header);
  }

  lemma HeaderSpecStep(raw: seq<string>, i: nat, h: Header)
    requires i < |raw| && HeaderSpec(raw[..i]) == Ok(h)
    ensures HeaderSpec(raw[..i + 1]) == HeaderLine(h, raw[i])
  {
    assert raw[..i + 1][..i] == raw[..i];
  }

  /** The first exception of the header loop is the exception of the whole block. */
  lemma {:induction false} HeaderErrorSticks(raw: seq<string>, i: nat)
    requires i <= |raw|
    requires HeaderSpec(raw[..i]).Err?
    ensures HeaderSpec(raw) == HeaderSpec(raw[..i])
    decreases |raw| - i
  {
    if i < |raw| {
      assert raw[..i + 1][..i] == raw[..i];
      HeaderErrorSticks(raw, i + 1);
    } else {
      assert raw[..i] == raw;
    }
  }

  /** The key of every header line. */
  function HeaderKeys(raw: seq<string>): (r: seq<string>)
    ensures |r| == |raw| && forall j :: 0 <= j < |raw| ==> r[j] == HeaderKey(raw[j])
  {
    seq(|raw|, j requires 0 <= j < |raw| => HeaderKey(raw[j]))
  }

  lemma HeaderKeysSnoc(raw: seq<string>)
    requires |raw| > 0
    ensures HeaderKeys(raw) == HeaderKeys(raw[..|raw| - 1]) + [HeaderKey(raw[|raw| - 1])]
  {
    var init := raw[..|raw| - 1];
    var a, b := HeaderKeys(raw), HeaderKeys(init) + [HeaderKey(raw[|raw| - 1])];
    forall i | 0 <= i < |a|
      ensures a[i] == b[i]
    {
      if i < |init| {
        assert raw[i] == init[i];
      }
    }
  }

  /** One header line changes member `f` exactly when its key is the key of `f`. */
  lemma HeaderLineGet(h: Header, line: string, f: HField)
    requires HeaderLine(h, line).Ok?
    ensures HeaderKey(line) == KeyOf(f) ==> ParseValue(f, HeaderWords(line)[1..]).Ok?
    ensures HGet(HeaderLine(h, line).value, f)
      == if HeaderKey(line) == KeyOf(f) then ParseValue(f, HeaderWords(line)[1..]).value else HGet(h, f)
  {
    var key := HeaderKey(line);
    var values := HeaderWords(line)[1..];
    FieldOfKeyOf(f);
    if FieldOfKey(key).Some? {
      var g := FieldOfKey(key).value;
      var v := ParseValue(g, values).value;
      assert HeaderLine(h, line).value == HPut(h, g, v);
      if f == g {
        assert key == KeyOf(f);
      } else {
        assert key != KeyOf(f);
        assert HGet(HPut(h, g, v), f) == HGet(h, f);
      }
    } else {
      assert key != KeyOf(f);
      assert HeaderLine(h, line) == Ok(h);
    }
  }

  /** Each header member is set by the last line carrying its key, and keeps its default when
      no line carries it; the `DEMUX` line and unknown keys change nothing. */
  lemma {:induction false} HeaderLastLineWins(raw: seq<string>, f: HField)
    requires HeaderSpec(raw).Ok?
    ensures match LastIndexOf(HeaderKeys(raw), KeyOf(f))
            case None => HGet(HeaderSpec(raw).value, f) == HGet(DefaultHeader, f)
            case Some(j) => ParseValue(f, HeaderWords(raw[j])[1..]) == Ok(HGet(HeaderSpec(raw).value, f))
    decreases |raw|
  {
    if |raw| == 0 {
      assert HeaderKeys(raw) == [];
    } else {
      var init := raw[..|raw| - 1];
      var line := raw[|raw| - 1];
      var h := HeaderSpec(init).value;
      assert HeaderSpec(raw) == HeaderLine(h, line);
      HeaderLastLineWins(init, f);
      HeaderLineGet(h, line, f);
      HeaderKeysSnoc(raw);
      LastIndexOfAppend(HeaderKeys(init), HeaderKey(line), KeyOf(f));
      if HeaderKey(line) != KeyOf(f) {
        var last := LastIndexOf(HeaderKeys(init), KeyOf(f));
        assert LastIndexOf(HeaderKeys(raw), KeyOf(f)) == last;
        assert HGet(HeaderSpec(raw).value, f) == HGet(h, f);
        if last.Some? {
          assert raw[last.value] == init[last.value];
        }
      }
    }
  }

  /** An `ASPECT` line whose denominator is 0 gives the aspect ratio 1/1. */
  lemma AspectZeroDenominator(values: seq<string>)
    requires |values| == 2 && IntParse(values[0]).Some? && IntParse(values[1]) == Some(0)
    ensures ParseValue(Aspect, values) == Ok(RatioV(1.0))
  {
    var xs := PairInts(values);
    AspectOfInts(values, xs);
  }

  lemma PairInts(values: seq<string>) returns (xs: seq<int>)
    requires |values| == 2 && IntParse(values[0]).Some? && IntParse(values[1]).Some?
    ensures ParseInts(values) == Ok(xs) && |xs| == 2 && Some(xs[1]) == IntParse(values[1])
  {
    var rest := values[1..];
    assert rest[1..] == [];
    assert ParseInts(rest).Ok?;
    xs := ParseInts(values).value;
  }

  /** The `ASPECT` value of a line whose words are integers is their fraction. */
  lemma AspectOfInts(values: seq<string>, xs: seq<int>)
    requires ParseInts(values) == Ok(xs)
    ensures ParseValue(Aspect, values) == match FractionOf(xs)
                                         case Ok(q) => Ok(RatioV(q))
                                         case Err(e) => Err(e)
  {
  }

  // ---------------------------------------------------------------------------
  // Sector window
  // ---------------------------------------------------------------------------

  /** `[int(line.split(' ')[-1]) for line in vid_lines]`: the size ending each file-list line. */
  function VideoSizes(vidLines: seq<string>): (r: Result<seq<int>, Error>)
    ensures r.Ok? ==> |r.value| == |vidLines|
    ensures r.Ok? ==> forall i :: 0 <= i < |vidLines| ==> IntParse(Last(Split(vidLines[i], ' '))) == Some(r.value[i])
    decreases |vidLines|
  {
    if |vidLines| == 0 then Ok([])
    else
      var x :- Need(IntParse(Last(Split(vidLines[0], ' '))), ValueError);
      var rest :- VideoSizes(vidLines[1..]);
      Ok([x] + rest)
  }

  function Sum(xs: seq<int>): int
    decreases |xs|
  {
    if |xs| == 0 then 0 else Sum(xs[..|xs| - 1]) + xs[|xs| - 1]
  }

  /** Where Python's `xs[:k]` ends in a sequence of length `n`. */
  function SliceEnd(n: nat, k: int): (r: nat)
    ensures r <= n
  {
    if k >= 0 then (if k <= n then k else n)
    else if n + k >= 0 then n + k else 0
  }

  /** Python's `xs[k]`: negative positions count from the end; out of range is an `IndexError`. */
  function PyIndex<T>(xs: seq<T>, k: int): Result<T, Error> {
    if 0 <= k < |xs| then Ok(xs[k])
    else if -|xs| <= k < 0 then Ok(xs[|xs| + k])
    else Err(IndexError)
  }

  /** `idx_file_sector`: `max_sector = sum([0, *sizes[:file_idx + 1]])` and the window
      `[max_sector - sizes[file_idx], max_sector]`. */
  function Window(sizes: seq<int>, fileIdx: int): Result<(int, int), Error> {
    var maxSector := Sum(sizes[..SliceEnd(|sizes|, fileIdx + 1)]);
    var size :- PyIndex(sizes, fileIdx);
    Ok((maxSector - size, maxSector))
  }

  /** For a file of the list, the window runs from the total size of the files before it
      to the total size of the files up to and including it. */
  lemma WindowOfFile(sizes: seq<int>, k: nat)
    requires k < |sizes|
    ensures Window(sizes, k) == Ok((Sum(sizes[..k]), Sum(sizes[..k + 1])))
  {
    assert sizes[..k + 1][..k] == sizes[..k];
  }

  /** The default `file_idx = -1` does not pick the last file: its window is `[-size_last, 0]`. */
  lemma WindowOfDefault(sizes: seq<int>)
    requires |sizes| > 0
    ensures Window(sizes, -1) == Ok((-sizes[|sizes| - 1], 0))
  {
    assert sizes[..0] == [];
  }

  /** Every other negative position behaves as Python indexing does: it names file `n + k`. */
  lemma WindowOfNegative(sizes: seq<int>, k: int)
    requires -|sizes| <= k <= -2
    ensures Window(sizes, k) == Window(sizes, |sizes| + k)
  {
    WindowOfFile(sizes, |sizes| + k);
  }

  lemma WindowOutOfRange(sizes: seq<int>, k: int)
    requires k >= |sizes| || k < -|sizes|
    ensures Window(sizes, k) == Err(IndexError)
  {
  }

  /** Consecutive files' windows meet: file k's last sector is file k+1's first, so a SEQ
      value equal to that boundary falls in both windows. */
  lemma WindowsShareBoundary(sizes: seq<int>, k: nat)
    requires k + 1 < |sizes|
    ensures Window(sizes, k).Ok? && Window(sizes, k + 1).Ok?
    ensures Window(sizes, k).value.1 == Window(sizes, k + 1).value.0
  {
    WindowOfFile(sizes, k);
    WindowOfFile(sizes, k + 1);
  }

  // ---------------------------------------------------------------------------
  // Frame block
  // ---------------------------------------------------------------------------

  /** `rawline.split(" ", maxsplit=6)`. */
  function Parts(line: string): (r: seq<string>)
    ensures 1 <= |r| <= 7
  {
    SplitMax(line, ' ', 6)
  }

  /** Field `i` of the split line padded with `None`s. */
  function Tok(parts: seq<string>, i: nat): Option<string> {
    if i < |parts| then Some(parts[i]) else None
  }

  /** `opt_int`: `None` stays `None`, anything else goes through `int()`. */
  function OptInt(t: Option<string>): Result<Option<int>, Error> {
    if t.None? then Ok(None)
    else
      var v :- Need(IntParse(t.value), ValueError);
      Ok(Some(v))
  }

  /** The SEQ cursor after a line: a `SEQ` line sets it to `opt_int(line[1]) or 0`. */
  function CursorAfter(parts: seq<string>, cur: int): Result<int, Error>
    requires |parts| >= 1
  {
    if parts[0] == "SEQ" then
      var v :- OptInt(Tok(parts, 1));
      Ok(if v.Some? then v.value else 0)
    else Ok(cur)
  }

  /** A frame line: the part of its first field before ':' is an integer. */
  predicate IsFrameLine(parts: seq<string>)
    requires |parts| >= 1
  {
    IntParse(Split(parts[0], ':')[0]).Some?
  }

  /** `DGIndexFrameData(int(line[2] or 0) + 2, str(line[1]), *opt_ints(line[4:6]))`. */
  function FrameOf(parts: seq<string>): Result<FrameData, Error> {
    var m := Tok(parts, 2);
    var base :- if m.None? || m.value == "" then Ok(0) else Need(IntParse(m.value), ValueError);
    var picType := if Tok(parts, 1).None? then "None" else Tok(parts, 1).value;
    var vob :- OptInt(Tok(parts, 4));
    var cell :- OptInt(Tok(parts, 5));
    Ok(FrameData(base + 2, picType, vob, cell))
  }

  /** A kept record with the line it came from and the SEQ value it was read under. */
  datatype Kept = Kept(line: nat, sector: int, frame: FrameData)

  /** What one line of the frame block does: stop the loop, move on with a new cursor,
      or keep a record read under the new cursor. */
  datatype Step = Stop | Skip(cur: int) | Take(cur: int, frame: FrameData)

  function LineStep(line: string, cur: int, lo: int, hi: int): Result<Step, Error> {
    if |line| == 0 then Ok(Stop)
    else
      var parts := Parts(line);
      var c :- CursorAfter(parts, cur);
      if c < lo then Ok(Skip(c))
      else if c > hi then Ok(Stop)
      else if !IsFrameLine(parts) then Ok(Skip(c))
      else
        var f :- FrameOf(parts);
        Ok(Take(c, f))
  }

  /** A per-line step of the frame loop, given the line and the cursor carried into it. */
  type StepFn = (string, int) -> Result<Step, Error>

  /** The step of `get_info` for the window `[lo, hi]`. */
  function WindowStep(lo: int, hi: int): StepFn {
    (line: string, cur: int) => LineStep(line, cur, lo, hi)
  }

  /** The frame loop from line `i` on with cursor `cur`: stop, move on, or keep and move on. */
  function ScanLines(step: StepFn, lines: seq<string>, i: nat, cur: int): Result<seq<Kept>, Error>
    decreases |lines| - i
  {
    if i >= |lines| then Ok([])
    else
      var st :- step(lines[i], cur);
      match st
      case Stop => Ok([])
      case Skip(c) => ScanLines(step, lines, i + 1, c)
      case Take(c, f) =>
        var rest :- ScanLines(step, lines, i + 1, c);
        Ok([Kept(i, c, f)] + rest)
  }

  /** The records the frame loop of `get_info` keeps for the window `[lo, hi]`. */
  function FrameScan(lines: seq<string>, lo: int, hi: int): Result<seq<Kept>, Error> {
    ScanLines(WindowStep(lo, hi), lines, 0, 0)
  }

  function Frames(ks: seq<Kept>): (r: seq<FrameData>)
    ensures |r| == |ks| && forall n :: 0 <= n < |ks| ==> r[n] == ks[n].frame
  {
    seq(|ks|, n requires 0 <= n < |ks| => ks[n].frame)
  }

  function FramesOf(r: Result<seq<Kept>, Error>): Result<seq<FrameData>, Error> {
    if r.Ok? then Ok(Frames(r.value)) else Err(r.error)
  }

  function Prepend(ks: seq<Kept>, r: Result<seq<Kept>, Error>): Result<seq<Kept>, Error> {
    if r.Ok? then Ok(ks + r.value) else r
  }

  lemma PrependAppend(ks: seq<Kept>, k: Kept, rest: Result<seq<Kept>, Error>)
    ensures Prepend(ks, Prepend([k], rest)) == Prepend(ks + [k], rest)
  {
    if rest.Ok? {
      assert ks + ([k] + rest.value) == (ks + [k]) + rest.value;
    }
  }

  /** The body of the frame loop for one line: the SEQ update, the window test (`continue`
      before it, `break` after it), the frame-line test and the record. */
  method ReadFrameLine(rawline: string, currSeq: int, lo: int, hi: int) returns (r: Result<Step, Error>)
    ensures r == LineStep(rawline, currSeq, lo, hi)
  {
    if |rawline| == 0 {
      return Ok(Stop);
    }
    var line := Parts(rawline);
    var name := line[0];
    var cur := currSeq;
    if name == "SEQ" {
      var v := OptInt(Tok(line, 1));
      if v.Err? {
        return Err(v.error);
      }
      cur := if v.value.Some? then v.value.value else 0;
    }
    assert CursorAfter(line, currSeq) == Ok(cur);
    if cur < lo {
      return Ok(Skip(cur));
    } else if cur > hi {
      return Ok(Stop);
    }
    if IntParse(Split(name, ':')[0]).None? {
      return Ok(Skip(cur));
    }
    var f := FrameOf(line);
    if f.Err? {
      return Err(f.error);
    }
    return Ok(Take(cur, f.value));
  }

  /** The frame loop of `get_info`: a running SEQ cursor, lines skipped before the window,
      a stop after it or at the first empty line, and an appended `frame_data` list. */
  method ScanFrames(lines: seq<string>, lo: int, hi: int) returns (r: Result<seq<FrameData>, Error>)
    ensures r == FramesOf(FrameScan(lines, lo, hi))
  {
    r := ScanLoop(WindowStep(lo, hi), lines);
  }

  /** The frame loop with its per-line step (`ReadFrameLine`) given as a function. */
  method ScanLoop(step: StepFn, lines: seq<string>) returns (r: Result<seq<FrameData>, Error>)
    ensures r == FramesOf(ScanLines(step, lines, 0, 0))
  {
    var currSeq := 0;
    var frameData: seq<FrameData> := [];
    ghost var kept: seq<Kept> := [];
    var i := 0;
    assert Prepend(kept, ScanLines(step, lines, 0, 0)) == ScanLines(step, lines, 0, 0) by {
      var s0 := ScanLines(step, lines, 0, 0);
      if s0.Ok? { assert [] + s0.value == s0.value; }
    }
    while i < |lines|
      invariant 0 <= i <= |lines|
      invariant frameData == Frames(kept)
      invariant ScanLines(step, lines, 0, 0) == Prepend(kept, ScanLines(step, lines, i, currSeq))
    {
      var next := step(lines[i], currSeq);
      if next.Err? {
        return Err(next.error);
      }
      match next.value {
        case Stop =>
          assert kept + [] == kept;
          return Ok(frameData);
        case Skip(c) =>
          currSeq := c;
        case Take(c, f) =>
          PrependAppend(kept, Kept(i, c, f), ScanLines(step, lines, i + 1, c));
          frameData := frameData + [f];
          kept := kept + [Kept(i, c, f)];
          currSeq := c;
      }
      i := i + 1;
    }
    assert kept + [] == kept;
    return Ok(frameData);
  }

  /** The three outcomes of one line, in terms of its cursor and its fields. */
  lemma LineStepCases(line: string, cur: int, lo: int, hi: int)
    requires LineStep(line, cur, lo, hi).Ok?
    ensures match LineStep(line, cur, lo, hi).value
      case Stop => line == "" || (CursorAfter(Parts(line), cur).Ok? && lo <= CursorAfter(Parts(line), cur).value && CursorAfter(Parts(line), cur).value > hi)
      case Skip(c) =>
        && line != "" && CursorAfter(Parts(line), cur) == Ok(c)
        && (c < lo || (c <= hi && !IsFrameLine(Parts(line))))
      case Take(c, f) =>
        && line != "" && CursorAfter(Parts(line), cur) == Ok(c)
        && lo <= c <= hi && IsFrameLine(Parts(line)) && FrameOf(Parts(line)) == Ok(f)
  {
  }

  /** The cursor the loop carries into line `j`, or `None` when it stops or raises first. */
  function Reaches(step: StepFn, lines: seq<string>, j: nat): Option<int>
    requires j <= |lines|
  {
    if j == 0 then Some(0)
    else
      match Reaches(step, lines, j - 1)
      case None => None
      case Some(c) =>
        match step(lines[j - 1], c)
        case Ok(Skip(c')) => Some(c')
        case Ok(Take(c', _)) => Some(c')
        case _ => None
  }

  /** Line `j` is read with the loop running and its step keeps a record. */
  ghost predicate Taken(step: StepFn, lines: seq<string>, j: nat)
    requires j < |lines|
  {
    && Reaches(step, lines, j).Some?
    && step(lines[j], Reaches(step, lines, j).value).Ok?
    && step(lines[j], Reaches(step, lines, j).value).value.Take?
  }

  /** Record `k` is kept by line `k.line`: the running loop reaches that line and its step
      keeps exactly this record. */
  ghost predicate KeptBy(step: StepFn, lines: seq<string>, k: Kept) {
    && k.line < |lines| && Reaches(step, lines, k.line).Some?
    && step(lines[k.line], Reaches(step, lines, k.line).value) == Ok(Take(k.sector, k.frame))
  }

  lemma {:induction false} ScanSoundFrom(step: StepFn, lines: seq<string>, i: nat, cur: int)
    requires i <= |lines| && Reaches(step, lines, i) == Some(cur)
    requires ScanLines(step, lines, i, cur).Ok?
    ensures var ks := ScanLines(step, lines, i, cur).value;
      && (forall n :: 0 <= n < |ks| ==> i <= ks[n].line && KeptBy(step, lines, ks[n]))
      && (forall n, m :: 0 <= n < m < |ks| ==> ks[n].line < ks[m].line)
    decreases |lines| - i
  {
    if i < |lines| {
      var st := step(lines[i], cur).value;
      if st.Skip? {
        assert Reaches(step, lines, i + 1) == Some(st.cur);
        ScanSoundFrom(step, lines, i + 1, st.cur);
      } else if st.Take? {
        var c, f := st.cur, st.frame;
        assert Reaches(step, lines, i + 1) == Some(c);
        ScanSoundFrom(step, lines, i + 1, c);
        var ks := ScanLines(step, lines, i, cur).value;
        var rest := ScanLines(step, lines, i + 1, c).value;
        assert ks == [Kept(i, c, f)] + rest;
        assert KeptBy(step, lines, Kept(i, c, f));
        assert forall n :: 0 < n < |ks| ==> ks[n] == rest[n - 1];
      }
    }
  }

  /** Every record the parser returns comes from a line the loop reads while running, whose
      step (`LineStepCases`) keeps exactly that record, and the records keep file order. */
  lemma ScanSound(lines: seq<string>, lo: int, hi: int)
    requires FrameScan(lines, lo, hi).Ok?
    ensures var ks := FrameScan(lines, lo, hi).value;
      && (forall n :: 0 <= n < |ks| ==> KeptBy(WindowStep(lo, hi), lines, ks[n]))
      && (forall n, m :: 0 <= n < m < |ks| ==> ks[n].line < ks[m].line)
  {
    ScanSoundFrom(WindowStep(lo, hi), lines, 0, 0);
  }

  /** A loop that reaches line `j` has reached every earlier line. */
  lemma {:induction false} ReachesPrefix(step: StepFn, lines: seq<string>, i: nat, j: nat)
    requires i <= j <= |lines| && Reaches(step, lines, j).Some?
    ensures Reaches(step, lines, i).Some?
    decreases j - i
  {
    if i < j {
      ReachesPrefix(step, lines, i, j - 1);
    }
  }

  lemma {:induction false} ScanCompleteFrom(step: StepFn, lines: seq<string>, i: nat, cur: int, j: nat)
    requires i <= |lines| && Reaches(step, lines, i) == Some(cur)
    requires ScanLines(step, lines, i, cur).Ok?
    requires i <= j < |lines| && Taken(step, lines, j)
    ensures exists n :: 0 <= n < |ScanLines(step, lines, i, cur).value| && ScanLines(step, lines, i, cur).value[n].line == j
    decreases j - i
  {
    var ks := ScanLines(step, lines, i, cur).value;
    if i == j {
      assert ks[0].line == j;
    } else {
      ReachesPrefix(step, lines, i + 1, j);
      var st := step(lines[i], cur).value;
      if st.Skip? {
        ScanCompleteFrom(step, lines, i + 1, st.cur, j);
      } else {
        var c, f := st.cur, st.frame;
        var rest := ScanLines(step, lines, i + 1, c).value;
        assert ks == [Kept(i, c, f)] + rest;
        ScanCompleteFrom(step, lines, i + 1, c, j);
        var n :| 0 <= n < |rest| && rest[n].line == j;
        assert ks[n + 1] == rest[n];
      }
    }
  }

  /** Conversely, every line the running loop reads and keeps is among the records. */
  lemma ScanComplete(lines: seq<string>, lo: int, hi: int, j: nat)
    requires FrameScan(lines, lo, hi).Ok?
    requires j < |lines| && Taken(WindowStep(lo, hi), lines, j)
    ensures exists n :: 0 <= n < |FrameScan(lines, lo, hi).value| && FrameScan(lines, lo, hi).value[n].line == j
  {
    ScanCompleteFrom(WindowStep(lo, hi), lines, 0, 0, j);
  }

  // ---------------------------------------------------------------------------
  // Footer
  // ---------------------------------------------------------------------------

  /** The footer members, in the order of `footer.__dict__`. */
  datatype FField = Film | FramesCoded | FramesPlayback | Order

  const FooterFields: seq<FField> := [Film, FramesCoded, FramesPlayback, Order]

  /** `key.split('_')[-1].upper()` for each member name. */
  function Tag(f: FField): string {
    match f
    case Film => "FILM"
    case FramesCoded => "CODED"
    case FramesPlayback => "PLAYBACK"
    case Order => "ORDER"
  }

  datatype FValue = Percent(p: real) | Count(n: int)

  function FGet(ft: Footer, f: FField): FValue {
    match f
    case Film => Percent(ft.film)
    case FramesCoded => Count(ft.framesCoded)
    case FramesPlayback => Count(ft.framesPlayback)
    case Order => Count(ft.order)
  }

  function FPut(ft: Footer, f: FField, v: FValue): (r: Footer)
    requires f == Film <==> v.Percent?
    ensures FGet(r, f) == v
    ensures forall g :: g != f ==> FGet(r, g) == FGet(ft, g)
  {
    match f
    case Film => ft.(film := v.p)
    case FramesCoded => ft.(framesCoded := v.n)
    case FramesPlayback => ft.(framesPlayback := v.n)
    case Order => ft.(order := v.n)
  }

  /** `[split_val[0], ' '.join(split_val[1:])]`: the first word and the rest of the line. */
  function FooterValues(line: string): (r: seq<string>)
    ensures |r| == 2
  {
    var sv := Split(RStrip(line), ' ');
    [sv[0], Join(sv[1..], " ")]
  }

  /** `[float(v.replace('%', '')) for v in values if '%' in v]`. */
  function Percentages(values: seq<string>): Result<seq<real>, Error>
    decreases |values|
  {
    if |values| == 0 then Ok([])
    else
      var rest :- Percentages(values[1..]);
      if '%' in values[0] then
        var p :- Need(ParseFloat(RemoveChar(values[0], '%')), ValueError);
        Ok([p] + rest)
      else Ok(rest)
  }

  /** The value a footer line gives member `f`: the first percentage (0 when there is none)
      for FILM, `int(values[1])` for the others. */
  function FooterValue(values: seq<string>, f: FField): (r: Result<FValue, Error>)
    requires |values| == 2
    ensures r.Ok? ==> (f == Film <==> r.value.Percent?)
  {
    if f == Film then
      var ps :- Percentages(values);
      Ok(Percent(if |ps| == 0 then 0.0 else ps[0]))
    else
      var n :- Need(IntParse(values[1]), ValueError);
      Ok(Count(n))
  }

  /** The inner loop over the footer members for one line's words. */
  function ApplyFields(ft: Footer, values: seq<string>, fs: seq<FField>): Result<Footer, Error>
    requires |values| == 2
    decreases |fs|
  {
    if |fs| == 0 then Ok(ft)
    else
      var prev :- ApplyFields(ft, values, fs[..|fs| - 1]);
      var f := fs[|fs| - 1];
      if Tag(f) in values then
        var v :- FooterValue(values, f);
        Ok(FPut(prev, f, v))
      else Ok(prev)
  }

  function FooterLine(ft: Footer, line: string): Result<Footer, Error> {
    ApplyFields(ft, FooterValues(line), FooterFields)
  }

  /** The footer the loop over the given lines builds. */
  function FooterSpec(lines: seq<string>): Result<Footer, Error>
    decreases |lines|
  {
    if |lines| == 0 then Ok(DefaultFooter)
    else
      var ft :- FooterSpec(lines[..|lines| - 1]);
      FooterLine(ft, lines[|lines| - 1])
  }

  /** `lines[-10:]`. */
  function Last10(lines: seq<string>): (r: seq<string>)
    ensures |r| == if |lines| < 10 then |lines| else 10
    ensures r == lines[|lines| - |r|..]
  {
    if |lines| <= 10 then lines else lines[|lines| - 10..]
  }

  /** One more member in the inner loop. */
  lemma ApplyFieldsSnoc(ft: Footer, values: seq<string>, fs: seq<FField>, f: FField)
    requires |values| == 2
    ensures ApplyFields(ft, values, fs + [f])
      == if ApplyFields(ft, values, fs).Err? then ApplyFields(ft, values, fs)
         else if Tag(f) !in values then ApplyFields(ft, values, fs)
         else if FooterValue(values, f).Err? then Err(FooterValue(values, f).error)
         else Ok(FPut(ApplyFields(ft, values, fs).value, f, FooterValue(values, f).value))
  {
    assert (fs + [f])[..|fs|] == fs;
  }

  /** One more member of `fs` in the inner loop, from the footer `line` built so far. */
  lemma ApplyFieldsStep(ft: Footer, values: seq<string>, fs: seq<FField>, j: nat, line: Footer)
    requires |values| == 2 && j < |fs| && ApplyFields(ft, values, fs[..j]) == Ok(line)
    ensures ApplyFields(ft, values, fs[..j + 1])
      == if Tag(fs[j]) !in values then Ok(line)
         else match FooterValue(values, fs[j])
           case Err(e) => Err(e)
           case Ok(v) => Ok(FPut(line, fs[j], v))
  {
    assert fs[..j + 1][..j] == fs[..j];
  }

  /** The inner loop of the footer: each member whose tag is one of the line's two words is
      set from that line. */
  method FooterLineLoop(footer: Footer, values: seq<string>) returns (r: Result<Footer, Error>)
    requires |values| == 2
    ensures r == ApplyFields(footer, values, FooterFields)
  {
    var line := footer;
    var j := 0;
    while j < |FooterFields|
      invariant 0 <= j <= |FooterFields|
      invariant ApplyFields(footer, values, FooterFields[..j]) == Ok(line)
    {
      var key := FooterFields[j];
      ApplyFieldsStep(footer, values, FooterFields, j, line);
      if Tag(key) in values {
        var v := FooterValue(values, key);
        if v.Err? {
          ApplyFieldsErrorSticks(footer, values, j + 1);
          return Err(v.error);
        }
        line := FPut(line, key, v.value);
      }
      j := j + 1;
    }
    assert FooterFields[..j] == FooterFields;
    return Ok(line);
  }

  /** The footer loop of `get_info`, over the last ten lines. */
  method ParseFooter(lines: seq<string>) returns (r: Result<Footer, Error>)
    ensures r == FooterSpec(Last10(lines))
  {
    var tail := Last10(lines);
    var footer := DefaultFooter;
    var i := 0;
    while i < |tail|
      invariant 0 <= i <= |tail|
      invariant FooterSpec(tail[..i]) == Ok(footer)
    {
      FooterSpecStep(tail, i, footer);
      var next := FooterLineLoop(footer, FooterValues(tail[i]));
      if next.Err? {
        FooterErrorSticks(tail, i + 1);
        return next;
      }
      footer := next.value;
      i := i + 1;
    }
    assert tail[..|tail|] == tail;
    return Ok(footer);
  }

  lemma FooterSpecStep(lines: seq<string>, i: nat, ft: Footer)
    requires i < |lines| && FooterSpec(lines[..i]) == Ok(ft)
    ensures FooterSpec(lines[..i + 1]) == FooterLine(ft, lines[i])
  {
    assert lines[..i + 1][..i] == lines[..i];
  }

  lemma {:induction false} ApplyFieldsErrorSticks(ft: Footer, values: seq<string>, j: nat)
    requires |values| == 2 && j <= |FooterFields|
    requires ApplyFields(ft, values, FooterFields[..j]).Err?
    ensures ApplyFields(ft, values, FooterFields) == ApplyFields(ft, values, FooterFields[..j])
    decreases |FooterFields| - j
  {
    if j < |FooterFields| {
      assert FooterFields[..j + 1][..j] == FooterFields[..j];
      ApplyFieldsErrorSticks(ft, values, j + 1);
    } else {
      assert FooterFields[..j] == FooterFields;
    }
  }

  lemma {:induction false} FooterErrorSticks(lines: seq<string>, i: nat)
    requires i <= |lines|
    requires FooterSpec(lines[..i]).Err?
    ensures FooterSpec(lines) == FooterSpec(lines[..i])
    decreases |lines| - i
  {
    if i < |lines| {
      assert lines[..i + 1][..i] == lines[..i];
      FooterErrorSticks(lines, i + 1);
    } else {
      assert lines[..i] == lines;
    }
  }

  /** Within one line, member `f` changes exactly when its tag is one of the two words. */
  lemma {:induction false} ApplyFieldsGet(ft: Footer, values: seq<string>, fs: seq<FField>, f: FField)
    requires |values| == 2
    requires ApplyFields(ft, values, fs).Ok?
    requires forall a, b :: 0 <= a < b < |fs| ==> fs[a] != fs[b]
    ensures f in fs && Tag(f) in values ==> FooterValue(values, f).Ok?
    ensures FGet(ApplyFields(ft, values, fs).value, f)
      == if f in fs && Tag(f) in values then FooterValue(values, f).value else FGet(ft, f)
    decreases |fs|
  {
    if |fs| > 0 {
      var init := fs[..|fs| - 1];
      var g := fs[|fs| - 1];
      assert fs == init + [g];
      ApplyFieldsSnoc(ft, values, init, g);
      ApplyFieldsGet(ft, values, init, f);
      if f == g {
        assert f !in init;
      } else {
        assert f in fs <==> f in init;
      }
    }
  }

  /** Every footer member occurs once in the inner loop. */
  lemma FooterFieldsDistinct()
    ensures forall f :: f in FooterFields
    ensures forall a, b :: 0 <= a < b < |FooterFields| ==> FooterFields[a] != FooterFields[b]
  {
    forall f
      ensures f in FooterFields
    {
      var k := match f case Film => 0 case FramesCoded => 1 case FramesPlayback => 2 case Order => 3;
      assert FooterFields[k] == f;
    }
  }

  /** The index of the last line whose words carry the tag of `f`. */
  function LastFooterLine(lines: seq<string>, f: FField): (r: Option<nat>)
    ensures r.Some? ==> r.value < |lines| && Tag(f) in FooterValues(lines[r.value])
    ensures r.Some? ==> forall j :: r.value < j < |lines| ==> Tag(f) !in FooterValues(lines[j])
    ensures r.None? ==> forall j :: 0 <= j < |lines| ==> Tag(f) !in FooterValues(lines[j])
    decreases |lines|
  {
    if |lines| == 0 then None
    else if Tag(f) in FooterValues(lines[|lines| - 1]) then Some(|lines| - 1)
    else LastFooterLine(lines[..|lines| - 1], f)
  }

  /** Each footer member is set by the last line whose first word or remainder is its tag,
      and stays 0 when no line is. */
  lemma {:induction false} FooterLastLineWins(lines: seq<string>, f: FField)
    requires FooterSpec(lines).Ok?
    ensures match LastFooterLine(lines, f)
            case None => FGet(FooterSpec(lines).value, f) == FGet(DefaultFooter, f)
            case Some(j) => FooterValue(FooterValues(lines[j]), f) == Ok(FGet(FooterSpec(lines).value, f))
    decreases |lines|
  {
    if |lines| > 0 {
      var init := lines[..|lines| - 1];
      var line := lines[|lines| - 1];
      var ft := FooterSpec(init).value;
      assert FooterSpec(lines) == FooterLine(ft, line);
      FooterLastLineWins(init, f);
      FooterFieldsDistinct();
      ApplyFieldsGet(ft, FooterValues(line), FooterFields, f);
      if Tag(f) !in FooterValues(line) {
        var last := LastFooterLine(init, f);
        assert LastFooterLine(lines, f) == last;
        assert FGet(FooterSpec(lines).value, f) == FGet(ft, f);
        if last.Some? {
          assert lines[last.value] == init[last.value];
        }
      }
    }
  }

  // ---------------------------------------------------------------------------
  // get_info
  // ---------------------------------------------------------------------------

  /** What `get_info(index_path, file_idx)` returns for an index file with these lines. */
  function InfoSpec(lines: seq<string>, path: string, fileIdx: int): Result<FileInfo, Error> {
    var b1 :- SplitBlock(lines);
    InfoOfHead(b1.0, b1.1, path, fileIdx)
  }

  /** `get_info` once the first block is split off: its first line must name the indexer,
      and the file list and the header block follow. */
  function InfoOfHead(head: seq<string>, rest: seq<string>, path: string, fileIdx: int): Result<FileInfo, Error> {
    if |head| == 0 then Err(IndexError)
    else if !Contains(head[0], "DGIndexNV") then Err(Corrupted)
    else
      var b2 :- SplitBlock(rest);
      InfoOfList(VideoSizes(b2.0), b2.1, path, fileIdx)
  }

  /** `get_info` once the file list is split off and its sizes read: the header block is
      parsed before the sizes are looked at. */
  function InfoOfList(sizes: Result<seq<int>, Error>, rest: seq<string>, path: string, fileIdx: int): Result<FileInfo, Error> {
    var b3 :- SplitBlock(rest);
    var header :- HeaderSpec(b3.0);
    var s :- sizes;
    InfoOfSizes(header, s, b3.1, path, fileIdx)
  }

  /** The rest of `get_info` once the header and the sizes are known: the window, the frame
      records of the window and the footer. */
  function InfoOfSizes(header: Header, sizes: seq<int>, rest: seq<string>, path: string, fileIdx: int): Result<FileInfo, Error> {
    var w :- Window(sizes, fileIdx);
    var kept :- FrameScan(rest, w.0, w.1);
    var footer :- FooterSpec(Last10(rest));
    Ok(FileInfo(path, fileIdx, header, Frames(kept), footer))
  }

  /** The body of `get_info` once the file is read. */
  method ParseInfo(lines: seq<string>, path: string, fileIdx: int) returns (r: Result<FileInfo, Error>)
    ensures r == InfoSpec(lines, path, fileIdx)
  {
    var b1 := SplitBlock(lines);
    if b1.Err? { return Err(b1.error); }
    var head := b1.value.0;
    if |head| == 0 { return Err(IndexError); }
    if !Contains(head[0], "DGIndexNV") { return Err(Corrupted); }
    var b2 := SplitBlock(b1.value.1);
    if b2.Err? { return Err(b2.error); }
    var b3 := SplitBlock(b2.value.1);
    if b3.Err? { return Err(b3.error); }
    var header := ParseHeader(b3.value.0);
    if header.Err? { return Err(header.error); }
    var sizes := VideoSizes(b2.value.0);
    if sizes.Err? { return Err(sizes.error); }
    var w := Window(sizes.value, fileIdx);
    if w.Err? { return Err(w.error); }
    var frames := ScanFrames(b3.value.1, w.value.0, w.value.1);
    if frames.Err? { return Err(frames.error); }
    var footer := ParseFooter(b3.value.1);
    if footer.Err? { return Err(footer.error); }
    return Ok(FileInfo(path, fileIdx, header.value, frames.value, footer.value));
  }
}
