/** `normalize_track_type_args` and `split_track_args`: turning the keyword arguments given for a
    track into mkvmerge option names and argument strings. */
module TrackArgs {
  import opened Results
  import opened PyStr
  import opened PyData

  // ---------------------------------------------------------------------------
  // normalize_track_type_args
  // ---------------------------------------------------------------------------

  /** The track-type flags that become `<name>-flag` options. */
  const FlagParams: seq<string> := ["hearing_impaired", "visual_impaired", "text_description", "original", "commentary"]

  /** `k.replace("_", "-")`. */
  function Dash(k: string): (r: string)
    ensures '_' !in r && |r| == |k|
    ensures forall i :: 0 <= i < |k| && k[i] != '_' ==> r[i] == k[i]
  {
    ReplaceChar(k, '_', '-')
  }

  /** `f"{param.replace('_', '-')}-flag"`. */
  function FlagKey(p: string): (r: string)
    ensures '_' !in r && |r| > 0 && r[|r| - 1] == 'g'
  {
    Dash(p) + "-flag"
  }

  function DashedKeys(d: Dict): (r: seq<string>)
    ensures |r| == |d| && forall i :: 0 <= i < |d| ==> r[i] == Dash(d[i].0)
  {
    seq(|d|, i requires 0 <= i < |d| => Dash(d[i].0))
  }

  lemma DashedKeysSnoc(d: Dict)
    requires |d| > 0
    ensures DashedKeys(d) == DashedKeys(d[..|d| - 1]) + [Dash(Last(d).0)]
  {
    var init := d[..|d| - 1];
    var a, b := DashedKeys(d), DashedKeys(init) + [Dash(Last(d).0)];
    forall i | 0 <= i < |a|
      ensures a[i] == b[i]
    {
      if i < |init| {
        assert d[i] == init[i];
      }
    }
  }

  /** `{k.replace("_", "-"): v for k, v in track_args.items()}`. */
  function DashKeys(d: Dict): (r: Dict)
    ensures UniqueKeys(r)
    decreases |d|
  {
    if |d| == 0 then [] else Set(DashKeys(d[..|d| - 1]), Dash(Last(d).0), Last(d).1)
  }

  /** Under a dashed key the comprehension holds the value of the last input key that dashes to
      it, and it holds nothing under any other key. */
  lemma {:induction false} DashKeysGet(d: Dict, key: string)
    ensures Get(DashKeys(d), key) == match LastIndexOf(DashedKeys(d), key)
                                     case None => None
                                     case Some(j) => Some(d[j].1)
    decreases |d|
  {
    if |d| > 0 {
      var init := d[..|d| - 1];
      var k := Dash(Last(d).0);
      DashKeysGet(init, key);
      assert DashKeys(d) == Set(DashKeys(init), k, Last(d).1);
      DashedKeysSnoc(d);
      LastIndexOfAppend(DashedKeys(init), k, key);
      if key != k {
        var j := LastIndexOf(DashedKeys(init), key);
        assert Get(DashKeys(d), key) == Get(DashKeys(init), key);
        if j.Some? {
          assert d[j.value] == init[j.value];
        }
      }
    }
  }

  /** The last step of the loop over `flag_params` for one parameter. */
  function ApplyFlag(n: Dict, d: Dict, p: string): (r: Dict)
    requires UniqueKeys(n)
    ensures UniqueKeys(r)
  {
    match Get(d, p)
    case None => n
    case Some(v) => Pop(Set(n, FlagKey(p), v), Dash(p))
  }

  /** The loop over the parameters `ps`, applied to the dashed dictionary `n`. */
  function ApplyFlags(n: Dict, d: Dict, ps: seq<string>): (r: Dict)
    requires UniqueKeys(n)
    ensures UniqueKeys(r)
    decreases |ps|
  {
    if |ps| == 0 then n else ApplyFlag(ApplyFlags(n, d, ps[..|ps| - 1]), d, Last(ps))
  }

  /** What `normalize_track_type_args(track_args)` returns. */
  function NormalizeSpec(d: Dict): (r: Dict)
    ensures UniqueKeys(r)
  {
    ApplyFlags(DashKeys(d), d, FlagParams)
  }

  /** `normalize_track_type_args(track_args)`; the argument is a value, so the caller's dict is
      not changed. */
  method NormalizeTrackTypeArgs(trackArgs: Dict) returns (r: Dict)
    ensures r == NormalizeSpec(trackArgs)
  {
    r := DashKeys(trackArgs);
    for i := 0 to |FlagParams|
      invariant UniqueKeys(r)
      invariant r == ApplyFlags(DashKeys(trackArgs), trackArgs, FlagParams[..i])
    {
      var param := FlagParams[i];
      ApplyFlagsStep(DashKeys(trackArgs), trackArgs, FlagParams, i);
      var value := Get(trackArgs, param);
      if value.Some? {
        r := Set(r, FlagKey(param), value.value);
        r := Pop(r, Dash(param));
      }
    }
    assert FlagParams[..|FlagParams|] == FlagParams;
  }

  lemma ApplyFlagsStep(n: Dict, d: Dict, ps: seq<string>, i: nat)
    requires UniqueKeys(n) && i < |ps|
    ensures ApplyFlags(n, d, ps[..i + 1]) == ApplyFlag(ApplyFlags(n, d, ps[..i]), d, ps[i])
  {
    assert ps[..i + 1][..i] == ps[..i];
  }

  /** No flag key of one parameter is the dashed name of another, and the dashed names of
      different parameters differ. */
  predicate Separated(ps: seq<string>) {
    forall i, j :: 0 <= i < |ps| && 0 <= j < |ps| ==>
      FlagKey(ps[i]) != Dash(ps[j]) && (i != j ==> Dash(ps[i]) != Dash(ps[j]))
  }

  lemma FlagParamsSeparated()
    ensures Separated(FlagParams)
  {
    forall j | 0 <= j < |FlagParams|
      ensures Dash(FlagParams[j])[|FlagParams[j]| - 1] != 'g' && Dash(FlagParams[j])[0] == FlagParams[j][0]
    {
      var p := FlagParams[j];
      assert p[|p| - 1] != '_' && p[|p| - 1] != 'g' && p[0] != '_';
    }
    forall i, j | 0 <= i < |FlagParams| && 0 <= j < |FlagParams|
      ensures FlagKey(FlagParams[i]) != Dash(FlagParams[j]) && (i != j ==> Dash(FlagParams[i]) != Dash(FlagParams[j]))
    {
      var f := FlagKey(FlagParams[i]);
      var e := Dash(FlagParams[j]);
      assert f[|f| - 1] != e[|e| - 1];
      assert i != j ==> FlagParams[i][0] != FlagParams[j][0];
    }
  }

  /** Different dashed names give different flag keys. */
  lemma FlagKeyInjective(a: string, b: string)
    ensures FlagKey(a) == FlagKey(b) ==> Dash(a) == Dash(b)
  {
    assert FlagKey(a)[..|Dash(a)|] == Dash(a);
    assert FlagKey(b)[..|Dash(b)|] == Dash(b);
  }

  lemma SeparatedPrefix(ps: seq<string>, k: nat)
    requires Separated(ps) && k <= |ps|
    ensures Separated(ps[..k])
  {
  }

  /** A parameter present in the input leaves its value under its flag key and nothing under its
      dashed name. */
  lemma {:induction false} ApplyFlagsMoves(n: Dict, d: Dict, ps: seq<string>, i: nat)
    requires UniqueKeys(n) && Separated(ps) && i < |ps| && Get(d, ps[i]).Some?
    ensures Get(ApplyFlags(n, d, ps), FlagKey(ps[i])) == Get(d, ps[i])
    ensures Get(ApplyFlags(n, d, ps), Dash(ps[i])) == None
    decreases |ps|
  {
    var init := ps[..|ps| - 1];
    if i < |ps| - 1 {
      SeparatedPrefix(ps, |ps| - 1);
      ApplyFlagsMoves(n, d, init, i);
      FlagKeyInjective(Last(ps), ps[i]);
      assert FlagKey(Last(ps)) != FlagKey(ps[i]) && FlagKey(Last(ps)) != Dash(ps[i]);
      assert Dash(Last(ps)) != FlagKey(ps[i]) && Dash(Last(ps)) != Dash(ps[i]);
    } else {
      assert FlagKey(Last(ps)) != Dash(Last(ps));
    }
  }

  /** A key that no present parameter touches keeps its value. */
  lemma {:induction false} ApplyFlagsKeeps(n: Dict, d: Dict, ps: seq<string>, key: string)
    requires UniqueKeys(n)
    requires forall i :: 0 <= i < |ps| && Get(d, ps[i]).Some? ==> key != FlagKey(ps[i]) && key != Dash(ps[i])
    ensures Get(ApplyFlags(n, d, ps), key) == Get(n, key)
    decreases |ps|
  {
    if |ps| > 0 {
      ApplyFlagsKeeps(n, d, ps[..|ps| - 1], key);
    }
  }

  /** Every key of the result was already there or is the flag key of a present parameter. */
  lemma {:induction false} ApplyFlagsOrigin(n: Dict, d: Dict, ps: seq<string>, key: string)
    requires UniqueKeys(n)
    requires Get(ApplyFlags(n, d, ps), key).Some?
    ensures Get(n, key).Some? || exists i :: 0 <= i < |ps| && Get(d, ps[i]).Some? && key == FlagKey(ps[i])
    decreases |ps|
  {
    if |ps| > 0 {
      var init := ps[..|ps| - 1];
      var m := ApplyFlags(n, d, init);
      if Get(d, Last(ps)).Some? && key == FlagKey(Last(ps)) {
        assert Get(d, ps[|ps| - 1]).Some? && key == FlagKey(ps[|ps| - 1]);
      } else {
        assert Get(m, key).Some?;
        ApplyFlagsOrigin(n, d, init, key);
      }
    }
  }

  /** Each flag parameter given under its own name is moved to `<dashed name>-flag`, with the
      same value, and its dashed name is gone. */
  lemma NormalizeMovesFlag(d: Dict, i: nat)
    requires i < |FlagParams| && Get(d, FlagParams[i]).Some?
    ensures Get(NormalizeSpec(d), FlagKey(FlagParams[i])) == Get(d, FlagParams[i])
    ensures Get(NormalizeSpec(d), Dash(FlagParams[i])) == None
  {
    FlagParamsSeparated();
    ApplyFlagsMoves(DashKeys(d), d, FlagParams, i);
  }

  /** Any other key holds the value of the last input key that dashes to it. */
  lemma NormalizeKeepsOthers(d: Dict, key: string)
    requires forall i :: 0 <= i < |FlagParams| && Get(d, FlagParams[i]).Some? ==> key != FlagKey(FlagParams[i]) && key != Dash(FlagParams[i])
    ensures Get(NormalizeSpec(d), key) == match LastIndexOf(DashedKeys(d), key)
                                         case None => None
                                         case Some(j) => Some(d[j].1)
  {
    ApplyFlagsKeeps(DashKeys(d), d, FlagParams, key);
    DashKeysGet(d, key);
  }

  /** Every output key is an input key with `_` replaced by `-`, or the flag key of a flag
      parameter given in the input; so no output key contains `_`. */
  lemma NormalizeKeys(d: Dict, key: string)
    requires Get(NormalizeSpec(d), key).Some?
    ensures key in DashedKeys(d) || exists i :: 0 <= i < |FlagParams| && Get(d, FlagParams[i]).Some? && key == FlagKey(FlagParams[i])
    ensures '_' !in key
  {
    ApplyFlagsOrigin(DashKeys(d), d, FlagParams, key);
    DashKeysGet(d, key);
  }

  // ---------------------------------------------------------------------------
  // split_track_args
  // ---------------------------------------------------------------------------

  /** The keyword parameters `to_track` takes itself. */
  const ToTrackParams: seq<string> := ["name", "lang", "default", "forced"]

  /** The returned dictionary: the `to_track` keywords, and the list stored under `"args"`. */
  datatype ToTrack = ToTrack(kwargs: map<string, Value>, args: seq<string>)

  /** `track_args.pop(param, None)` for each of `ps` in turn. */
  function PopAll(d: Dict, ps: seq<string>): (r: Dict)
    requires UniqueKeys(d)
    ensures UniqueKeys(r)
    decreases |ps|
  {
    if |ps| == 0 then d else Pop(PopAll(d, ps[..|ps| - 1]), Last(ps))
  }

  lemma {:induction false} PopAllGet(d: Dict, ps: seq<string>, k: string)
    requires UniqueKeys(d)
    ensures Get(PopAll(d, ps), k) == if k in ps then None else Get(d, k)
    decreases |ps|
  {
    if |ps| > 0 {
      var init := ps[..|ps| - 1];
      PopAllGet(d, init, k);
      assert ps == init + [Last(ps)];
    }
  }

  lemma PopAllStep(d: Dict, ps: seq<string>, i: nat)
    requires UniqueKeys(d) && i < |ps|
    ensures PopAll(d, ps[..i + 1]) == Pop(PopAll(d, ps[..i]), ps[i])
  {
    assert ps[..i + 1][..i] == ps[..i];
  }

  /** The `to_track` keywords found in the dictionary. */
  function Kwargs(d: Dict, ps: seq<string>): (r: map<string, Value>)
    ensures forall p :: p in r <==> p in ps && Get(d, p).Some?
    ensures forall p :: p in r ==> Get(d, p) == Some(r[p])
  {
    map p | p in ps && Get(d, p).Some? :: Get(d, p).value
  }

  lemma KwargsStep(d: Dict, ps: seq<string>, i: nat)
    requires i < |ps|
    ensures Kwargs(d, ps[..i + 1]) == match Get(d, ps[i])
                                      case None => Kwargs(d, ps[..i])
                                      case Some(v) => Kwargs(d, ps[..i])[ps[i] := v]
  {
    assert ps[..i + 1] == ps[..i] + [ps[i]];
  }

  /** `f"--{param} 0:{value}"`, with `yes`/`no` for booleans. */
  function ArgString(k: string, v: Value): string {
    "--" + k + " 0:" + (if v.VBool? then (if v.b then "yes" else "no") else Str(v))
  }

  /** The argument strings of the items, skipping `None` values. */
  function ArgList(d: Dict): seq<string>
    decreases |d|
  {
    if |d| == 0 then []
    else ArgList(d[..|d| - 1]) + (if Last(d).1.VNone? then [] else [ArgString(Last(d).0, Last(d).1)])
  }

  /** The first loop of `split_track_args`: each `to_track` keyword present is popped from the
      caller's dict into the keyword map. */
  method PopKeywords(trackArgs: DictRef) returns (kwargs: map<string, Value>)
    requires UniqueKeys(trackArgs.items)
    modifies trackArgs
    ensures UniqueKeys(trackArgs.items)
    ensures trackArgs.items == PopAll(old(trackArgs.items), ToTrackParams)
    ensures kwargs == Kwargs(old(trackArgs.items), ToTrackParams)
  {
    ghost var original := trackArgs.items;
    kwargs := map[];
    for i := 0 to |ToTrackParams|
      invariant UniqueKeys(trackArgs.items)
      invariant trackArgs.items == PopAll(original, ToTrackParams[..i])
      invariant kwargs == Kwargs(original, ToTrackParams[..i])
    {
      var param := ToTrackParams[i];
      PopAllStep(original, ToTrackParams, i);
      KwargsStep(original, ToTrackParams, i);
      PopAllGet(original, ToTrackParams[..i], param);
      var value := Get(trackArgs.items, param);
      if value.Some? {
        kwargs := kwargs[param := value.value];
        trackArgs.items := Pop(trackArgs.items, param);
      }
    }
    assert ToTrackParams[..|ToTrackParams|] == ToTrackParams;
  }

  /** The second loop of `split_track_args`: one argument string per remaining item whose value
      is not `None`, in order. */
  method ArgStrings(items: Dict) returns (argsList: seq<string>)
    ensures argsList == ArgList(items)
  {
    argsList := [];
    for i := 0 to |items|
      invariant argsList == ArgList(items[..i])
    {
      assert items[..i + 1][..i] == items[..i];
      var (param, value) := items[i];
      if value.VNone? {
        continue;
      }
      if !value.VBool? {
        argsList := argsList + ["--" + param + " 0:" + Str(value)];
      } else {
        argsList := argsList + ["--" + param + " 0:" + (if value.b then "yes" else "no")];
      }
    }
    assert items[..|items|] == items;
  }

  /** `split_track_args(track_args)`: the `to_track` keywords are moved out of the caller's dict,
      and every remaining item with a value becomes one argument string, in order. */
  method SplitTrackArgs(trackArgs: DictRef) returns (r: ToTrack)
    requires UniqueKeys(trackArgs.items)
    modifies trackArgs
    ensures trackArgs.items == PopAll(old(trackArgs.items), ToTrackParams)
    ensures r == ToTrack(Kwargs(old(trackArgs.items), ToTrackParams), ArgList(trackArgs.items))
  {
    var kwargs := PopKeywords(trackArgs);
    var argsList := ArgStrings(trackArgs.items);
    r := ToTrack(kwargs, argsList);
  }

  /** After the split the caller's dict holds no `to_track` keyword and every other item as
      before, and the keywords carry the values they had. */
  lemma SplitMovesKeywords(d: Dict, k: string)
    requires UniqueKeys(d)
    ensures Get(PopAll(d, ToTrackParams), k) == if k in ToTrackParams then None else Get(d, k)
    ensures k in Kwargs(d, ToTrackParams) <==> k in ToTrackParams && Get(d, k).Some?
  {
    PopAllGet(d, ToTrackParams, k);
  }

  /** The argument list of two runs of items is the lists of each, in order. */
  lemma {:induction false} ArgListAppend(a: Dict, b: Dict)
    ensures ArgList(a + b) == ArgList(a) + ArgList(b)
    decreases |b|
  {
    if |b| == 0 {
      assert a + b == a;
    } else {
      var init := b[..|b| - 1];
      assert (a + b)[..|a + b| - 1] == a + init;
      ArgListAppend(a, init);
    }
  }

  /** A `None` value gives no argument; any other value gives exactly its own argument. */
  lemma ArgListOfItem(k: string, v: Value)
    ensures ArgList([(k, v)]) == if v.VNone? then [] else [ArgString(k, v)]
  {
    assert [(k, v)][..0] == [];
  }

  /** Booleans become `yes` or `no`; other values are printed with `str`. */
  lemma ArgStringShape(k: string, v: Value)
    ensures v == VBool(true) ==> ArgString(k, v) == "--" + k + " 0:yes"
    ensures v == VBool(false) ==> ArgString(k, v) == "--" + k + " 0:no"
    ensures !v.VBool? ==> ArgString(k, v) == "--" + k + " 0:" + Str(v)
  {
  }
}
