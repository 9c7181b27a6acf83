/** The state-keeping helpers of the video encoder: zone normalisation before the encoder is
    started, the container arguments derived from the encoder's settings, the crop taken from the
    clip's properties, the latched "path too long" warning and the video track arguments. */
module VideoEncoder {
  import opened Results
  import opened PyStr
  import opened PyData
  import TrackArgs

  // ---------------------------------------------------------------------------
  // Zones
  // ---------------------------------------------------------------------------

  /** A zone as given: a tuple meant to hold (start frame, end frame, bitrate modifier), each of
      which may be `None`; nothing forces the tuple to have three entries. */
  type Zone = seq<Option<real>>

  /** The `zones` argument: a list of zones, or one zone on its own. */
  datatype ZonesArg = ZoneList(zones: seq<Zone>) | OneZone(zone: Zone)

  /** The two `CustomValueError`s zone normalisation raises, with the offending zone. */
  datatype ZoneError = WrongLength(zone: Zone) | NoneBitrate(zone: Zone)

  /** `if not isinstance(zones, list): zones = [zones]`. */
  function AsList(zones: ZonesArg): (r: seq<Zone>)
    ensures zones.OneZone? ==> r == [zones.zone]
    ensures zones.ZoneList? ==> r == zones.zones
  {
    match zones
    case ZoneList(zs) => zs
    case OneZone(z) => [z]
  }

  function Abs(x: real): real { if x < 0.0 then -x else x }

  /** A start or end frame of a zone that has a `None` in it: `None` gives the default, a
      negative frame counts back from `num_frames`. */
  function Resolve(numFrames: nat, x: Option<real>, default: real): (r: real)
    ensures x.None? ==> r == default
    ensures x.Some? && x.value < 0.0 ==> r == numFrames as real + x.value
    ensures x.Some? && x.value >= 0.0 ==> r == x.value
  {
    match x
    case None => default
    case Some(v) => if v < 0.0 then numFrames as real - Abs(v) else v
  }

  /** A zone the normaliser rejects. */
  predicate BadZone(z: Zone) {
    |z| != 3 || (None in z && z[2].None?)
  }

  /** A zone with all three values. */
  predicate FullZone(z: Zone) {
    |z| == 3 && None !in z
  }

  /** One iteration of the loop: the zone to append, `None` for a zone that is skipped, or the
      error raised. */
  function NormZone(numFrames: nat, z: Zone): (r: Result<Option<Zone>, ZoneError>)
    ensures r.Err? <==> BadZone(z)
    ensures r.Ok? && r.value.Some? ==> FullZone(r.value.value)
  {
    if |z| != 3 then Err(WrongLength(z))
    else if None !in z then Ok(Some(z))
    else
      var start := Resolve(numFrames, z[0], 0.0);
      var end := Resolve(numFrames, z[1], numFrames as real);
      if z[2].None? then Err(NoneBitrate(z))
      else if z[2].value <= 0.0 then Ok(None)
      else Ok(Some([Some(start), Some(end), z[2]]))
  }

  /** What `_normalize_zones` returns for the list of zones: the first error, or the kept zones
      in order. */
  function NormalizeSpec(numFrames: nat, zones: seq<Zone>): Result<seq<Zone>, ZoneError>
    decreases |zones|
  {
    if |zones| == 0 then Ok([])
    else
      var acc :- NormalizeSpec(numFrames, zones[..|zones| - 1]);
      var z :- NormZone(numFrames, Last(zones));
      Ok(if z.Some? then acc + [z.value] else acc)
  }

  /** `_normalize_zones(clip, zones)`, with the clip given by its frame count. */
  method NormalizeZones(numFrames: nat, zones: ZonesArg) returns (r: Result<seq<Zone>, ZoneError>)
    ensures r == NormalizeSpec(numFrames, AsList(zones))
  {
    var zs := AsList(zones);
    var normZones: seq<Zone> := [];
    for i := 0 to |zs|
      invariant NormalizeSpec(numFrames, zs[..i]) == Ok(normZones)
    {
      assert zs[..i + 1][..i] == zs[..i];
      var zone := zs[i];
      if |zone| != 3 {
        NormalizeErrorStops(numFrames, zs[..i + 1], zs[i + 1..]);
        assert zs[..i + 1] + zs[i + 1..] == zs;
        return Err(WrongLength(zone));
      }
      if None in zone {
        var start := zone[0];
        var end := zone[1];
        var bitrate := zone[2];
        var s: real;
        if start.None? {
          s := 0.0;
        } else if start.value < 0.0 {
          s := numFrames as real - Abs(start.value);
        } else {
          s := start.value;
        }
        var e: real;
        if end.None? {
          e := numFrames as real;
        } else if end.value < 0.0 {
          e := numFrames as real - Abs(end.value);
        } else {
          e := end.value;
        }
        if bitrate.None? {
          NormalizeErrorStops(numFrames, zs[..i + 1], zs[i + 1..]);
          assert zs[..i + 1] + zs[i + 1..] == zs;
          return Err(NoneBitrate(zone));
        } else if bitrate.value <= 0.0 {
          continue;
        }
        zone := [Some(s), Some(e), bitrate];
      }
      normZones := normZones + [zone];
    }
    assert zs[..|zs|] == zs;
    return Ok(normZones);
  }

  /** Once a zone is rejected, the zones after it are not looked at. */
  lemma {:induction false} NormalizeErrorStops(numFrames: nat, a: seq<Zone>, b: seq<Zone>)
    requires NormalizeSpec(numFrames, a).Err?
    ensures NormalizeSpec(numFrames, a + b) == NormalizeSpec(numFrames, a)
    decreases |b|
  {
    if |b| == 0 {
      assert a + b == a;
    } else {
      var init := b[..|b| - 1];
      assert (a + b)[..|a + b| - 1] == a + init;
      NormalizeErrorStops(numFrames, a, init);
    }
  }

  /** Normalisation fails exactly when some zone does not have three values, or has a `None` and
      no bitrate; the error names the first such zone. */
  lemma {:induction false} NormalizeFails(numFrames: nat, zones: seq<Zone>)
    ensures NormalizeSpec(numFrames, zones).Err? <==> exists i :: 0 <= i < |zones| && BadZone(zones[i])
    ensures NormalizeSpec(numFrames, zones).Err? ==>
      exists i :: 0 <= i < |zones| && BadZone(zones[i]) && NormZone(numFrames, zones[i]) == Err(NormalizeSpec(numFrames, zones).error)
                  && forall j :: 0 <= j < i ==> !BadZone(zones[j])
    decreases |zones|
  {
    if |zones| > 0 {
      var init := zones[..|zones| - 1];
      NormalizeFails(numFrames, init);
      assert forall i :: 0 <= i < |init| ==> zones[i] == init[i];
    }
  }

  /** The result never holds more zones than were given, and each of them has all three values. */
  lemma {:induction false} NormalizeShape(numFrames: nat, zones: seq<Zone>)
    requires NormalizeSpec(numFrames, zones).Ok?
    ensures |NormalizeSpec(numFrames, zones).value| <= |zones|
    ensures forall z :: z in NormalizeSpec(numFrames, zones).value ==> FullZone(z)
    decreases |zones|
  {
    if |zones| > 0 {
      var init := zones[..|zones| - 1];
      NormalizeShape(numFrames, init);
      var acc := NormalizeSpec(numFrames, init).value;
      var z := NormZone(numFrames, Last(zones)).value;
      assert NormalizeSpec(numFrames, zones).value == if z.Some? then acc + [z.value] else acc;
    }
  }

  /** Zones that already have all three values pass through unchanged, whatever they hold. */
  lemma {:induction false} NormalizeKeepsFull(numFrames: nat, zones: seq<Zone>)
    requires forall z :: z in zones ==> FullZone(z)
    ensures NormalizeSpec(numFrames, zones) == Ok(zones)
    decreases |zones|
  {
    if |zones| > 0 {
      var init := zones[..|zones| - 1];
      assert forall z :: z in init ==> z in zones;
      NormalizeKeepsFull(numFrames, init);
      assert Last(zones) in zones;
      assert NormZone(numFrames, Last(zones)) == Ok(Some(Last(zones)));
      assert init + [Last(zones)] == zones;
    }
  }

  /** Normalising twice changes nothing more. */
  lemma NormalizeIdempotent(numFrames: nat, zones: seq<Zone>)
    requires NormalizeSpec(numFrames, zones).Ok?
    ensures NormalizeSpec(numFrames, NormalizeSpec(numFrames, zones).value) == NormalizeSpec(numFrames, zones)
  {
    NormalizeShape(numFrames, zones);
    NormalizeKeepsFull(numFrames, NormalizeSpec(numFrames, zones).value);
  }

  /** Zones are handled one after another: the result for two runs of zones is the results of
      each, in order. */
  lemma {:induction false} NormalizeAppend(numFrames: nat, a: seq<Zone>, b: seq<Zone>)
    requires NormalizeSpec(numFrames, a).Ok? && NormalizeSpec(numFrames, b).Ok?
    ensures NormalizeSpec(numFrames, a + b) == Ok(NormalizeSpec(numFrames, a).value + NormalizeSpec(numFrames, b).value)
    decreases |b|
  {
    if |b| == 0 {
      assert a + b == a;
      assert NormalizeSpec(numFrames, a).value + NormalizeSpec(numFrames, b).value == NormalizeSpec(numFrames, a).value;
    } else {
      var init := b[..|b| - 1];
      assert (a + b)[..|a + b| - 1] == a + init;
      assert Last(a + b) == Last(b);
      assert NormalizeSpec(numFrames, init).Ok?;
      NormalizeAppend(numFrames, a, init);
      var z := NormZone(numFrames, Last(b)).value;
      var ra := NormalizeSpec(numFrames, a).value;
      var ri := NormalizeSpec(numFrames, init).value;
      assert NormalizeSpec(numFrames, b).value == if z.Some? then ri + [z.value] else ri;
      assert NormalizeSpec(numFrames, a + b) == Ok(if z.Some? then ra + ri + [z.value] else ra + ri);
      if z.Some? {
        assert ra + (ri + [z.value]) == ra + ri + [z.value];
      }
    }
  }

  /** In a zone with a `None`, a positive bitrate keeps the zone, with `None` frames replaced by
      the clip's bounds and negative frames counted back from its end; a bitrate of zero or less
      drops it. */
  lemma NormZoneWithNone(numFrames: nat, z: Zone)
    requires |z| == 3 && None in z && z[2].Some?
    ensures z[2].value <= 0.0 ==> NormZone(numFrames, z) == Ok(None)
    ensures z[2].value > 0.0 ==>
      NormZone(numFrames, z) == Ok(Some([Some(Resolve(numFrames, z[0], 0.0)), Some(Resolve(numFrames, z[1], numFrames as real)), z[2]]))
    ensures z[0] == None || z[1] == None
  {
  }

  // ---------------------------------------------------------------------------
  // The encoder's state
  // ---------------------------------------------------------------------------

  /** The crop forms `_get_crop_args` accepts and returns. */
  datatype Crop = CropAll(n: int) | Crop2(x: int, y: int) | Crop4(left: int, top: int, right: int, bottom: int)

  /** The errors raised while deriving container arguments. */
  datatype ArgsError = IndexError

  /** A list shared by reference: `video_container_args` is a class attribute, so every encoder
      extends the same list. */
  class ArgList {
    var items: seq<string>

    constructor ()
      ensures items == []
    {
      items := [];
    }
  }

  /** `psets[i]`, raising `IndexError` when `i` is past the end. */
  function TokenAt(psets: seq<string>, i: nat): Result<string, ArgsError> {
    if i < |psets| then Ok(psets[i]) else Err(IndexError)
  }

  /** The arguments `_set_container_args` appends for the encoder's settings string. */
  function ContainerExtra(psets: seq<string>): Result<seq<string>, ArgsError> {
    if "--overscan" in psets && "--display-window" in psets then
      CropArgs(psets, IndexOf(psets, "--overscan", 0).value, IndexOf(psets, "--display-window", 0).value)
    else Ok([])
  }

  /** The cropping arguments for an `--overscan` at `o` and a `--display-window` at `w`. */
  function CropArgs(psets: seq<string>, o: nat, w: nat): Result<seq<string>, ArgsError> {
    var mode :- TokenAt(psets, o + 1);
    if mode == "crop" then
      var window :- TokenAt(psets, w + 1);
      Ok(["--cropping", "0:" + window])
    else Ok([])
  }

  /** With both flags present, at first positions `o` and `w`: cropping is added exactly when
      the first `--overscan` is followed by `crop`, and it then carries the token after the
      first `--display-window`. An `IndexError` comes only from a flag that is the last token. */
  lemma ContainerExtraCases(psets: seq<string>, o: nat, w: nat)
    requires IndexOf(psets, "--overscan", 0) == Some(o) && IndexOf(psets, "--display-window", 0) == Some(w)
    ensures ContainerExtra(psets).Ok? && ContainerExtra(psets).value != [] <==>
      o + 1 < |psets| && psets[o + 1] == "crop" && w + 1 < |psets|
    ensures ContainerExtra(psets).Ok? && ContainerExtra(psets).value != [] ==>
      ContainerExtra(psets).value == ["--cropping", "0:" + psets[w + 1]]
    ensures ContainerExtra(psets).Err? ==> Last(psets) == "--overscan" || Last(psets) == "--display-window"
  {
    assert ContainerExtra(psets) == CropArgs(psets, o, w);
    if CropArgs(psets, o, w).Err? {
      if o + 1 == |psets| {
        assert Last(psets) == psets[o];
      } else {
        assert w + 1 == |psets| && Last(psets) == psets[w];
      }
    }
  }

  /** Without both flags nothing is added. */
  lemma ContainerExtraWithoutFlags(psets: seq<string>)
    requires IndexOf(psets, "--overscan", 0).None? || IndexOf(psets, "--display-window", 0).None?
    ensures ContainerExtra(psets) == Ok([])
  {
  }

  /** `_VideoEncoder`, restricted to the fields these helpers read and write. */
  class Encoder {
    /** `video_container_args`, shared with every other encoder. */
    const containerArgs: ArgList
    var crop: Option<Crop>
    var premuxPath: string
    var pathTooLong: bool
    /** How many "path too long" warnings were logged. */
    var warnings: nat
    var videoTrackArgs: seq<string>

    /** At most one warning is ever logged, and it is logged exactly when the flag is set. */
    predicate Valid()
      reads this
    {
      warnings == (if pathTooLong then 1 else 0)
    }

    constructor (shared: ArgList, premuxPath: string)
      ensures Valid()
      ensures containerArgs == shared && this.premuxPath == premuxPath
      ensures crop == None && !pathTooLong && warnings == 0 && videoTrackArgs == []
    {
      containerArgs := shared;
      crop := None;
      this.premuxPath := premuxPath;
      pathTooLong := false;
      warnings := 0;
      videoTrackArgs := [];
    }

    /** `_set_container_args(encoder, settings_file)`, given the encoder's settings string. */
    method SetContainerArgs(settings: string) returns (r: Result<seq<string>, ArgsError>)
      modifies containerArgs
      ensures ContainerExtra(Split(settings, ' ')).Ok? ==>
        containerArgs.items == old(containerArgs.items) + ContainerExtra(Split(settings, ' ')).value
        && r == Ok(containerArgs.items)
      ensures ContainerExtra(Split(settings, ' ')).Err? ==>
        containerArgs.items == old(containerArgs.items) && r == Err(IndexError)
    {
      var psets := Split(settings, ' ');
      if "--overscan" in psets && "--display-window" in psets {
        var overscanIdx := IndexOf(psets, "--overscan", 0).value;
        var displayWindowIdx := IndexOf(psets, "--display-window", 0).value;
        if overscanIdx + 1 >= |psets| {
          return Err(IndexError);
        }
        if psets[overscanIdx + 1] == "crop" {
          if displayWindowIdx + 1 >= |psets| {
            return Err(IndexError);
          }
          containerArgs.items := containerArgs.items + ["--cropping", "0:" + psets[displayWindowIdx + 1]];
        }
      }
      return Ok(containerArgs.items);
    }

    /** `_get_crop_args(crop)`, given the clip's `_SARLeft`, `_SARRight`, `_SARTop` and `_SARBottom`
        properties (0 when absent). */
    method GetCropArgs(given: Option<Crop>, left: int, right: int, top: int, bottom: int) returns (r: Option<Crop>)
      modifies this
      ensures given.Some? ==> r == given && crop == old(crop)
      ensures given.None? && (left != 0 || right != 0 || top != 0 || bottom != 0) ==> r == Some(Crop4(left, top, right, bottom))
      ensures given.None? && left == 0 && right == 0 && top == 0 && bottom == 0 ==> r == None
      ensures given.None? ==> crop == r
      ensures premuxPath == old(premuxPath) && pathTooLong == old(pathTooLong) && warnings == old(warnings)
      ensures videoTrackArgs == old(videoTrackArgs)
    {
      if given.Some? {
        return given;
      }
      r := None;
      if left != 0 || right != 0 || top != 0 || bottom != 0 {
        r := Some(Crop4(left, top, right, bottom));
      }
      crop := r;
    }

    /** `_warn_if_path_too_long()`: the flag, once set, stays set, and the warning is logged only
        when it is first set. */
    method WarnIfPathTooLong() returns (r: bool)
      requires Valid()
      modifies this
      ensures Valid()
      ensures pathTooLong == WarnStep(old(pathTooLong), premuxPath) && r == pathTooLong
      ensures warnings == old(warnings) + (if !old(pathTooLong) && |premuxPath| > 255 then 1 else 0)
      ensures premuxPath == old(premuxPath) && crop == old(crop) && videoTrackArgs == old(videoTrackArgs)
    {
      if pathTooLong {
        return pathTooLong;
      }
      if |premuxPath| > 255 {
        warnings := warnings + 1;
        pathTooLong := true;
      }
      return pathTooLong;
    }

    /** The `track_args` loop of `encode_video`: when any are given, the video track arguments
        are replaced by an option and a value per entry. */
    method SetVideoTrackArgs(trackArgs: Dict)
      modifies this
      ensures videoTrackArgs == if |trackArgs| > 0 then TrackArgList(trackArgs) else old(videoTrackArgs)
      ensures premuxPath == old(premuxPath) && pathTooLong == old(pathTooLong) && warnings == old(warnings)
      ensures crop == old(crop)
    {
      if |trackArgs| > 0 {
        videoTrackArgs := [];
        for i := 0 to |trackArgs|
          invariant videoTrackArgs == TrackArgList(trackArgs[..i])
          invariant premuxPath == old(premuxPath) && pathTooLong == old(pathTooLong) && warnings == old(warnings)
          invariant crop == old(crop)
        {
          assert trackArgs[..i + 1][..i] == trackArgs[..i];
          var (k, v) := trackArgs[i];
          videoTrackArgs := videoTrackArgs + ["--" + TrackArgs.Dash(k), "0:" + Str(v)];
        }
        assert trackArgs[..|trackArgs|] == trackArgs;
      }
    }
  }

  /** The flag after one call that sees `path`. */
  function WarnStep(flag: bool, path: string): bool {
    flag || |path| > 255
  }

  /** The flag after calls that saw each of `paths` in turn, starting unset. */
  function WarnAfter(paths: seq<string>): bool
    decreases |paths|
  {
    if |paths| == 0 then false else WarnStep(WarnAfter(paths[..|paths| - 1]), Last(paths))
  }

  /** The flag is set exactly when some call saw a path longer than 255 characters, and once set
      it stays set through any later calls. */
  lemma {:induction false} WarnLatched(paths: seq<string>)
    ensures WarnAfter(paths) <==> exists i :: 0 <= i < |paths| && |paths[i]| > 255
    ensures forall k :: 0 <= k <= |paths| && WarnAfter(paths[..k]) ==> WarnAfter(paths)
    decreases |paths|
  {
    if |paths| > 0 {
      var init := paths[..|paths| - 1];
      WarnLatched(init);
      assert forall i :: 0 <= i < |init| ==> init[i] == paths[i];
      forall k | 0 <= k <= |paths| && WarnAfter(paths[..k]) ensures WarnAfter(paths) {
        if k < |paths| {
          assert paths[..k] == init[..k];
        } else {
          assert paths[..k] == paths;
        }
      }
    }
  }

  /** Every entry of `track_args` gives `--<key with _ as ->` and `0:<value>`, in order. */
  function TrackArgList(d: Dict): seq<string>
    decreases |d|
  {
    if |d| == 0 then []
    else TrackArgList(d[..|d| - 1]) + ["--" + TrackArgs.Dash(Last(d).0), "0:" + Str(Last(d).1)]
  }

  lemma {:induction false} TrackArgListAt(d: Dict)
    ensures |TrackArgList(d)| == 2 * |d|
    ensures forall i :: 0 <= i < |d| ==>
      TrackArgList(d)[2 * i] == "--" + TrackArgs.Dash(d[i].0) && TrackArgList(d)[2 * i + 1] == "0:" + Str(d[i].1)
    decreases |d|
  {
    if |d| > 0 {
      var init := d[..|d| - 1];
      TrackArgListAt(init);
      assert forall i :: 0 <= i < |init| ==> init[i] == d[i];
    }
  }
}
