/** Naming helpers for audio tracks: snapping a measured bitrate to the table of common lossy
    bitrates, the bitrate part of a lossy track's name, and the descriptive suffix. */
module Tracks {
  import opened Results
  import opened PyStr

  // ---------------------------------------------------------------------------
  // The bitrate table and closest_common_bitrate
  // ---------------------------------------------------------------------------

  /** `COMMON_LOSSY_BITRATES`: `range(16, 1025, 16)`. */
  const CommonLossyBitrates: seq<int> := seq(64, i => 16 * (i + 1))

  /** The table is 16, 32, …, 1024 in ascending order. */
  lemma TableShape()
    ensures |CommonLossyBitrates| == 64
    ensures CommonLossyBitrates[0] == 16 && Last(CommonLossyBitrates) == 1024
    ensures forall i, j :: 0 <= i < j < |CommonLossyBitrates| ==> CommonLossyBitrates[i] < CommonLossyBitrates[j]
    ensures forall x :: x in CommonLossyBitrates <==> 16 <= x <= 1024 && x % 16 == 0
  {
    forall x | 16 <= x <= 1024 && x % 16 == 0 ensures x in CommonLossyBitrates {
      assert CommonLossyBitrates[x / 16 - 1] == x;
    }
  }

  /** Python's `round(mps / 1000)`: to the nearest integer, ties to the even one. */
  function RoundDiv1000(mps: int): (r: int)
    ensures -500 <= mps - 1000 * r <= 500
    ensures mps - 1000 * r == 500 || mps - 1000 * r == -500 ==> r % 2 == 0
  {
    RoundHalfEven(mps as real / 1000.0)
  }

  /** The smallest table entry at or above `target`, or the largest entry when none is. */
  function BitrateFor(target: int): int {
    if target <= 16 then 16
    else if target > 1024 then 1024
    else 16 * ((target + 15) / 16)
  }

  /** `BitrateFor` is the smallest entry of the table that is at least the target, and the top
      of the table for a target above it. */
  lemma BitrateForIsSmallestAbove(target: int)
    ensures BitrateFor(target) in CommonLossyBitrates
    ensures target <= 1024 ==> BitrateFor(target) >= target
    ensures forall b :: b in CommonLossyBitrates && b >= target ==> BitrateFor(target) <= b
    ensures target > 1024 ==> BitrateFor(target) == 1024
    ensures target <= 16 ==> BitrateFor(target) == 16
  {
    TableShape();
    var r := BitrateFor(target);
    assert r % 16 == 0 && 16 <= r <= 1024;
    forall b | b in CommonLossyBitrates && b >= target ensures r <= b {
      assert b % 16 == 0 && 16 <= b;
    }
  }

  /** `closest_common_bitrate(mps)`: the linear search over the table. */
  method ClosestCommonBitrate(mps: int) returns (r: int)
    ensures r == BitrateFor(RoundDiv1000(mps))
  {
    var target := RoundDiv1000(mps);
    for i := 0 to |CommonLossyBitrates|
      invariant i == 0 || 16 * i < target
    {
      var bitrate := CommonLossyBitrates[i];
      if bitrate >= target {
        return bitrate;
      }
    }
    return CommonLossyBitrates[|CommonLossyBitrates| - 1];
  }

  // ---------------------------------------------------------------------------
  // The "bitrate N" search in the encoder options
  // ---------------------------------------------------------------------------

  /** The length of the run of characters satisfying `digits` (or whitespace) starting at `i`. */
  function RunLength(s: string, i: nat, digits: bool): (n: nat)
    ensures i + n <= |s| || (i > |s| && n == 0)
    ensures forall k :: i <= k < i + n ==> if digits then IsDigit(s[k]) else IsSpace(s[k])
    ensures i + n < |s| ==> !(if digits then IsDigit(s[i + n]) else IsSpace(s[i + n]))
    decreases |s| - i
  {
    if i >= |s| then 0
    else if (if digits then IsDigit(s[i]) else IsSpace(s[i])) then 1 + RunLength(s, i + 1, digits)
    else 0
  }

  /** The match of `bitrate\s+(\d+)` starting at `i`, as its group. */
  function MatchAt(s: string, i: nat): (r: Option<string>)
    ensures r.Some? ==> OccursAt(s, "bitrate", i) && |r.value| >= 1 && forall k :: 0 <= k < |r.value| ==> IsDigit(r.value[k])
  {
    if !OccursAt(s, "bitrate", i) then None
    else
      var w := RunLength(s, i + 7, false);
      if w == 0 then None
      else
        var d := RunLength(s, i + 7 + w, true);
        if d == 0 then None else Some(s[i + 7 + w..i + 7 + w + d])
  }

  /** Where `re.search(r"bitrate\s+(\d+)", s[from:])` finds its match: the leftmost position
      at or after `from` where the pattern matches. */
  function FirstMatch(s: string, from: nat): (r: Option<nat>)
    ensures r.Some? ==> from <= r.value <= |s| && MatchAt(s, r.value).Some?
    ensures r.Some? ==> forall j :: from <= j < r.value ==> MatchAt(s, j).None?
    ensures r.None? ==> forall i :: from <= i <= |s| ==> MatchAt(s, i).None?
    decreases |s| - from
  {
    if from > |s| then None
    else if MatchAt(s, from).Some? then Some(from)
    else FirstMatch(s, from + 1)
  }

  /** `re.search(r"bitrate\s+(\d+)", s)`, as the group of its match: a run of digits that
      follows "bitrate" and whitespace. */
  function SearchBitrate(s: string): (r: Option<string>)
    ensures r.None? <==> FirstMatch(s, 0).None?
    ensures r.Some? ==> |r.value| >= 1 && forall k :: 0 <= k < |r.value| ==> IsDigit(r.value[k])
  {
    match FirstMatch(s, 0)
    case None => None
    case Some(i) => MatchAt(s, i)
  }

  // ---------------------------------------------------------------------------
  // _get_lossy_encoder_str
  // ---------------------------------------------------------------------------

  /** The exceptions `_get_lossy_encoder_str` does not catch. */
  datatype TrackError = ValueError | ZeroDivisionError

  /** `other_tags.get("ENCODER_OPTIONS", other_tags.get("ENCODER_SETTINGS"))`. */
  function EncParams(tags: map<string, string>): Option<string> {
    if "ENCODER_OPTIONS" in tags then Some(tags["ENCODER_OPTIONS"])
    else if "ENCODER_SETTINGS" in tags then Some(tags["ENCODER_SETTINGS"])
    else None
  }

  /** A tag that is present and not the empty string. */
  predicate Truthy(tag: Option<string>) {
    tag.Some? && tag.value != ""
  }

  function TagOf(tags: map<string, string>, key: string): Option<string> {
    if key in tags then Some(tags[key]) else None
  }

  function WithRate(trackStr: string, rate: string): string {
    trackStr + " @ " + rate + "kb/s"
  }

  /** The guess from `NUMBER_OF_BYTES` and `DURATION` (`"h:m:s"`): `None` is a `ValueError` the
      function catches. */
  function SizeDurationGuess(nbytes: string, duration: string): Result<Option<int>, TrackError> {
    var parts := Split(duration, ':');
    if |parts| != 3 then Ok(None)
    else
      var h := IntParse(parts[0]);
      var m := IntParse(parts[1]);
      var s := ParseFloat(parts[2]);
      if h.None? || m.None? || s.None? then Ok(None)
      else
        var seconds := (h.value * 3600 + m.value * 60) as real + s.value;
        var n := IntParse(nbytes);
        if n.None? then Ok(None)
        else if seconds == 0.0 then Err(ZeroDivisionError)
        else Ok(Some(Trunc((n.value * 8) as real / seconds)))
  }

  /** What `_get_lossy_encoder_str(track_str, atrack)` returns, given the track's other tags and
      ffprobe's `bit_rate`. */
  function LossySpec(trackStr: string, tags: map<string, string>, bitRate: Option<string>): Result<string, TrackError> {
    var enc := EncParams(tags);
    if Truthy(enc) && SearchBitrate(enc.value).Some? then
      Ok(WithRate(trackStr, SearchBitrate(enc.value).value))
    else if Truthy(bitRate) then
      match IntParse(bitRate.value)
      case None => Err(ValueError)
      case Some(b) => Ok(WithRate(trackStr, IntToStr(BitrateFor(RoundDiv1000(b)))))
    else if Truthy(TagOf(tags, "BPS")) && IntParse(tags["BPS"]).Some? then
      Ok(WithRate(trackStr, IntToStr(BitrateFor(RoundDiv1000(IntParse(tags["BPS"]).value)))))
    else if Truthy(TagOf(tags, "NUMBER_OF_BYTES")) && Truthy(TagOf(tags, "DURATION")) then
      var guess :- SizeDurationGuess(tags["NUMBER_OF_BYTES"], tags["DURATION"]);
      Ok(if guess.Some? then WithRate(trackStr, IntToStr(BitrateFor(RoundDiv1000(guess.value)))) else trackStr)
    else Ok(trackStr)
  }

  /** `_get_lossy_encoder_str`, a chain of early returns. */
  method LossyEncoderStr(trackStr: string, tags: map<string, string>, bitRate: Option<string>) returns (r: Result<string, TrackError>)
    ensures r == LossySpec(trackStr, tags, bitRate)
  {
    var encParams := EncParams(tags);
    if Truthy(encParams) {
      var found := SearchBitrate(encParams.value);
      if found.Some? {
        return Ok(trackStr + " @ " + found.value + "kb/s");
      }
    }
    if Truthy(bitRate) {
      var b := IntParse(bitRate.value);
      if b.None? {
        return Err(ValueError);
      }
      var kbps := ClosestCommonBitrate(b.value);
      return Ok(trackStr + " @ " + IntToStr(kbps) + "kb/s");
    }
    var bps := TagOf(tags, "BPS");
    if Truthy(bps) {
      var b := IntParse(bps.value);
      if b.Some? {
        var kbps := ClosestCommonBitrate(b.value);
        return Ok(trackStr + " @ " + IntToStr(kbps) + "kb/s");
      }
    }
    var nbytes := TagOf(tags, "NUMBER_OF_BYTES");
    var durationStr := TagOf(tags, "DURATION");
    if Truthy(nbytes) && Truthy(durationStr) {
      var guess := SizeDurationGuess(nbytes.value, durationStr.value);
      if guess.Err? {
        return Err(guess.error);
      }
      if guess.value.Some? {
        var kbps := ClosestCommonBitrate(guess.value.value);
        return Ok(trackStr + " @ " + IntToStr(kbps) + "kb/s");
      }
    }
    return Ok(trackStr);
  }

  /** A "bitrate N" in the encoder options decides the name, whatever the other sources say. */
  lemma EncoderOptionsFirst(trackStr: string, tags: map<string, string>, b1: Option<string>, b2: Option<string>, d: string)
    requires Truthy(EncParams(tags)) && SearchBitrate(EncParams(tags).value) == Some(d)
    ensures LossySpec(trackStr, tags, b1) == LossySpec(trackStr, tags, b2) == Ok(trackStr + " @ " + d + "kb/s")
  {
  }

  /** Without such a match, ffprobe's bit rate decides, and the `BPS`, `NUMBER_OF_BYTES` and
      `DURATION` tags play no part. */
  lemma BitRateSecond(trackStr: string, tags: map<string, string>, tags2: map<string, string>, bitRate: Option<string>)
    requires EncParams(tags) == EncParams(tags2)
    requires !(Truthy(EncParams(tags)) && SearchBitrate(EncParams(tags).value).Some?)
    requires Truthy(bitRate)
    ensures LossySpec(trackStr, tags, bitRate) == LossySpec(trackStr, tags2, bitRate)
    ensures LossySpec(trackStr, tags, bitRate).Err? <==> IntParse(bitRate.value).None?
  {
  }

  /** Then a readable `BPS` tag decides, before the size and duration are looked at. */
  lemma BpsThird(trackStr: string, tags: map<string, string>, nbytes: string, duration: string, bitRate: Option<string>)
    requires !(Truthy(EncParams(tags)) && SearchBitrate(EncParams(tags).value).Some?)
    requires !Truthy(bitRate)
    requires Truthy(TagOf(tags, "BPS")) && IntParse(tags["BPS"]).Some?
    ensures LossySpec(trackStr, tags, bitRate) == LossySpec(trackStr, tags["NUMBER_OF_BYTES" := nbytes]["DURATION" := duration], bitRate)
    ensures LossySpec(trackStr, tags, bitRate) == Ok(trackStr + " @ " + IntToStr(BitrateFor(RoundDiv1000(IntParse(tags["BPS"]).value))) + "kb/s")
  {
    SizeTagsApart(tags, nbytes, duration);
    BpsCase(trackStr, tags, bitRate);
    BpsCase(trackStr, tags["NUMBER_OF_BYTES" := nbytes]["DURATION" := duration], bitRate);
  }

  /** Setting `NUMBER_OF_BYTES` and `DURATION` leaves the encoder options and `BPS` alone. */
  lemma SizeTagsApart(tags: map<string, string>, nbytes: string, duration: string)
    ensures var tags2 := tags["NUMBER_OF_BYTES" := nbytes]["DURATION" := duration];
      EncParams(tags2) == EncParams(tags) && TagOf(tags2, "BPS") == TagOf(tags, "BPS")
  {
    var keys := ["ENCODER_OPTIONS", "ENCODER_SETTINGS", "BPS"];
    assert forall k :: 0 <= k < |keys| ==> keys[k] != "NUMBER_OF_BYTES" && keys[k] != "DURATION" by {
      assert |"NUMBER_OF_BYTES"| == 15 && |"DURATION"| == 8;
      assert |keys[0]| == 15 && |keys[1]| == 16 && |keys[2]| == 3;
      assert "ENCODER_OPTIONS"[0] != "NUMBER_OF_BYTES"[0];
    }
  }

  /** The `BPS` branch of `_get_lossy_encoder_str`. */
  lemma BpsCase(trackStr: string, tags: map<string, string>, bitRate: Option<string>)
    requires !(Truthy(EncParams(tags)) && SearchBitrate(EncParams(tags).value).Some?)
    requires !Truthy(bitRate)
    requires Truthy(TagOf(tags, "BPS")) && IntParse(tags["BPS"]).Some?
    ensures LossySpec(trackStr, tags, bitRate) == Ok(WithRate(trackStr, IntToStr(BitrateFor(RoundDiv1000(IntParse(tags["BPS"]).value)))))
  {
  }

  /** The name is the track string, or it with `" @ Nkb/s"` appended for a number `N` of
      digits; a guessed rate is always an entry of the table. */
  lemma LossyShape(trackStr: string, tags: map<string, string>, bitRate: Option<string>)
    requires LossySpec(trackStr, tags, bitRate).Ok?
    ensures LossySpec(trackStr, tags, bitRate).value == trackStr
         || exists n :: |n| >= 1 && (forall k :: 0 <= k < |n| ==> IsDigit(n[k])) && LossySpec(trackStr, tags, bitRate).value == WithRate(trackStr, n)
    ensures !(Truthy(EncParams(tags)) && SearchBitrate(EncParams(tags).value).Some?) && LossySpec(trackStr, tags, bitRate).value != trackStr ==>
      exists b :: b in CommonLossyBitrates && LossySpec(trackStr, tags, bitRate).value == WithRate(trackStr, IntToStr(b))
  {
    var enc := EncParams(tags);
    if Truthy(enc) && SearchBitrate(enc.value).Some? {
    } else {
      var r := LossySpec(trackStr, tags, bitRate).value;
      if r != trackStr {
        var t :| r == WithRate(trackStr, IntToStr(BitrateFor(t)));
        BitrateForIsSmallestAbove(t);
        var n := IntToStr(BitrateFor(t));
        assert n == NatToStr(BitrateFor(t));
      }
    }
  }

  // ---------------------------------------------------------------------------
  // _get_descriptive_str
  // ---------------------------------------------------------------------------

  /** The four flags mkvmerge reports for a track. */
  datatype Flags = Flags(visualImpaired: bool, hearingImpaired: bool, commentary: bool, textDescriptions: bool)

  /** `_get_descriptive_str(track_str, atrack)`, with `None` for a track without mkvmerge
      information. */
  method DescriptiveStr(trackStr: string, flags: Option<Flags>) returns (r: string)
    ensures flags.None? ==> r == trackStr
    ensures flags.Some? ==>
      var f := flags.value;
      var descriptive := f.visualImpaired || f.hearingImpaired || f.textDescriptions;
      && (!descriptive && !f.commentary ==> r == trackStr)
      && (descriptive && !f.commentary ==> r == trackStr + " - " + "Descriptive")
      && (!descriptive && f.commentary ==> r == trackStr + " - " + "Commentary")
      && (descriptive && f.commentary ==> r == trackStr + " - " + "Descriptive, Commentary")
  {
    if flags.None? {
      return trackStr;
    }
    var f := flags.value;
    if !(f.visualImpaired || f.hearingImpaired || f.commentary || f.textDescriptions) {
      return trackStr;
    }
    var descriptiveStr: seq<string> := [];
    if f.visualImpaired || f.hearingImpaired || f.textDescriptions {
      descriptiveStr := descriptiveStr + ["Descriptive"];
    }
    if f.commentary {
      descriptiveStr := descriptiveStr + ["Commentary"];
    }
    if |descriptiveStr| == 2 {
      assert descriptiveStr[1..] == ["Commentary"];
      assert Join(descriptiveStr, ", ") == "Descriptive, Commentary";
    }
    return trackStr + " - " + Join(descriptiveStr, ", ");
  }
}
