/** `AggregateLight`: a list of lights (points and groups) presented as one light.
    It derives a name, an any-on flag, colour support, a common brightness and colour
    that fall back to stored values, the union of the colours, and the scenes that
    apply to its lights grouped by name. */
module Aggregate {
  import opened Wrappers
  import opened Seqs
  import opened Bridge
  import Lights
  import opened SceneGroups
  import FanIn

  /** The name of an aggregate with no lights. */
  const NoneName: string := "none"

  /** The name of an aggregate with several lights. */
  const MultipleName: string := "multiple"

  /** The stored brightness before any is set. */
  const BrightnessUndefined: int := -1

  /** The stored colour before any is set. */
  const ColorUndefined: Color := 0

  /** The contained lights, and the brightness and colour last set on the aggregate. */
  datatype AggregateLight = AggregateLight(lights: seq<Lights.Light>, brightness: int, color: Color)

  /** A fresh aggregate: no lights, nothing stored. */
  function New(): AggregateLight
  {
    AggregateLight([], BrightnessUndefined, ColorUndefined)
  }

  /** The aggregate's "undefined" values are the same integers as a light's "multiple" values. */
  lemma {:induction false} SentinelsCoincide()
    ensures Lights.ColorMultiple == ColorUndefined == 0
    ensures Lights.BrightnessMultiple == BrightnessUndefined == -1
  {
  }

  //
  // Adding lights, and reading back points and groups
  //

  function AddLight(a: AggregateLight, l: Lights.Light): AggregateLight
  {
    a.(lights := a.lights + [l])
  }

  /** `addLightPoint`. */
  function AddLightPoint(a: AggregateLight, p: LightPoint): AggregateLight
  {
    AddLight(a, Lights.Single(p))
  }

  /** `addLightGroup`: the group is resolved against the given bridge state. */
  function AddLightGroup(a: AggregateLight, g: LightGroup, bs: BridgeState): AggregateLight
  {
    AddLight(a, Lights.MakeGroupLight(g, bs))
  }

  /** `addLightPoints`: one `addLightPoint` per point, in order. */
  function AddLightPoints(a: AggregateLight, ps: seq<LightPoint>): AggregateLight
    decreases |ps|
  {
    if |ps| == 0 then a else AddLightPoints(AddLightPoint(a, ps[0]), ps[1..])
  }

  /** `addLightGroups`: one `addLightGroup` per group, in order. */
  function AddLightGroups(a: AggregateLight, gs: seq<LightGroup>, bs: BridgeState): AggregateLight
    decreases |gs|
  {
    if |gs| == 0 then a else AddLightGroups(AddLightGroup(a, gs[0], bs), gs[1..], bs)
  }

  /** The points of the single lights, in order. */
  function PointsIn(ls: seq<Lights.Light>): seq<LightPoint>
  {
    if |ls| == 0 then []
    else (if ls[0].Single? then [ls[0].point] else []) + PointsIn(ls[1..])
  }

  /** The groups of the group lights, in order. */
  function GroupsIn(ls: seq<Lights.Light>): (r: seq<LightGroup>)
    ensures |r| == |ls| - |PointsIn(ls)|
  {
    if |ls| == 0 then []
    else (if ls[0].Group? then [ls[0].group] else []) + GroupsIn(ls[1..])
  }

  /** `getLightPoints`. */
  function LightPoints(a: AggregateLight): seq<LightPoint>
  {
    PointsIn(a.lights)
  }

  /** `getGroups`. */
  function Groups(a: AggregateLight): seq<LightGroup>
  {
    GroupsIn(a.lights)
  }

  /** `hasLights`. */
  function HasLights(a: AggregateLight): bool
  {
    |a.lights| > 0
  }

  /** getLightPoints and getGroups are order-preserving filters: they distribute over
      concatenation, and since every light is a point or a group their lengths add
      up to the number of lights. */
  lemma {:induction false} PointsGroupsSplit(x: seq<Lights.Light>, y: seq<Lights.Light>)
    ensures PointsIn(x + y) == PointsIn(x) + PointsIn(y)
    ensures GroupsIn(x + y) == GroupsIn(x) + GroupsIn(y)
    ensures |PointsIn(x)| + |GroupsIn(x)| == |x|
  {
    if |x| > 0 {
      PointsGroupsSplit(x[1..], y);
      assert (x + y)[0] == x[0];
      assert (x + y)[1..] == x[1..] + y;
    } else {
      assert x + y == y;
    }
  }

  /** Added points come, in order, behind the existing points; groups are untouched. */
  lemma {:induction false} AddedPointsReadBack(a: AggregateLight, ps: seq<LightPoint>)
    ensures LightPoints(AddLightPoints(a, ps)) == LightPoints(a) + ps
    ensures Groups(AddLightPoints(a, ps)) == Groups(a)
    ensures |AddLightPoints(a, ps).lights| == |a.lights| + |ps|
    ensures AddLightPoints(a, ps).brightness == a.brightness && AddLightPoints(a, ps).color == a.color
    decreases |ps|
  {
    if |ps| > 0 {
      var a' := AddLightPoint(a, ps[0]);
      AddedPointsReadBack(a', ps[1..]);
      PointsGroupsSplit(a.lights, [Lights.Single(ps[0])]);
      assert ps == [ps[0]] + ps[1..];
    }
  }

  /** Added groups come, in order, behind the existing groups; points are untouched. */
  lemma {:induction false} AddedGroupsReadBack(a: AggregateLight, gs: seq<LightGroup>, bs: BridgeState)
    ensures LightPoints(AddLightGroups(a, gs, bs)) == LightPoints(a)
    ensures Groups(AddLightGroups(a, gs, bs)) == Groups(a) + gs
    ensures |AddLightGroups(a, gs, bs).lights| == |a.lights| + |gs|
    ensures AddLightGroups(a, gs, bs).brightness == a.brightness && AddLightGroups(a, gs, bs).color == a.color
    decreases |gs|
  {
    if |gs| > 0 {
      var a' := AddLightGroup(a, gs[0], bs);
      AddedGroupsReadBack(a', gs[1..], bs);
      PointsGroupsSplit(a.lights, [Lights.MakeGroupLight(gs[0], bs)]);
      assert gs == [gs[0]] + gs[1..];
    }
  }

  //
  // Name, on, colour support
  //

  /** `getName`: "none", the sole light's name, or "multiple". */
  function GetName(a: AggregateLight): string
  {
    if |a.lights| == 0 then NoneName
    else if |a.lights| == 1 then Lights.Name(a.lights[0])
    else MultipleName
  }

  /** Adding a light to an empty aggregate names it after that light; adding one to a
      non-empty aggregate makes it "multiple". */
  lemma {:induction false} NameAfterAdd(a: AggregateLight, l: Lights.Light)
    ensures GetName(New()) == NoneName
    ensures GetName(AddLight(a, l)) == if |a.lights| == 0 then Lights.Name(l) else MultipleName
  {
  }

  /** Some light in the list is on (the stream's `anyMatch`). */
  function AnyOn(ls: seq<Lights.Light>): (r: bool)
    ensures r <==> exists i :: 0 <= i < |ls| && Lights.On(ls[i])
  {
    if |ls| == 0 then false
    else
      var rest := AnyOn(ls[1..]);
      assert forall i :: 1 <= i < |ls| ==> ls[i] == ls[1..][i - 1];
      Lights.On(ls[0]) || rest
  }

  /** `getOn`: true iff some contained light is on; false for an empty aggregate. */
  function GetOn(a: AggregateLight): (r: bool)
    ensures r <==> exists i :: 0 <= i < |a.lights| && Lights.On(a.lights[i])
    ensures |a.lights| == 0 ==> !r
  {
    AnyOn(a.lights)
  }

  /** Some light in the list supports colours. */
  function AnySupportsColors(ls: seq<Lights.Light>): (r: bool)
    ensures r <==> exists i :: 0 <= i < |ls| && Lights.SupportsColors(ls[i])
  {
    if |ls| == 0 then false
    else
      var rest := AnySupportsColors(ls[1..]);
      assert forall i :: 1 <= i < |ls| ==> ls[i] == ls[1..][i - 1];
      Lights.SupportsColors(ls[0]) || rest
  }

  /** `getSupportsColors`: true iff some point of some contained light has a colour type. */
  function GetSupportsColors(a: AggregateLight): (r: bool)
    ensures r <==> exists i, j :: 0 <= i < |a.lights| && 0 <= j < |Lights.PointsOf(a.lights[i])|
                               && ColorCapable(Lights.PointsOf(a.lights[i])[j].lightType)
    ensures |a.lights| == 0 ==> !r
  {
    AnySupportsColors(a.lights)
  }

  //
  // Brightness and colour
  //

  /** Asks every light in order, stopping at the first that throws. */
  function Collect<X>(ls: seq<Lights.Light>, f: Lights.Light -> Result<X>): (r: Result<seq<X>>)
    ensures r.Ok? <==> forall i :: 0 <= i < |ls| ==> f(ls[i]).Ok?
    ensures r.Ok? ==> |r.value| == |ls| && forall i :: 0 <= i < |ls| ==> r.value[i] == f(ls[i]).value
    ensures r.Failure? ==> exists i :: 0 <= i < |ls| && f(ls[i]) == Failure(r.fault)
  {
    if |ls| == 0 then Ok([])
    else
      assert forall i :: 1 <= i < |ls| ==> ls[i] == ls[1..][i - 1];
      match f(ls[0])
      case Failure(e) => Failure(e)
      case Ok(x) =>
        match Collect(ls[1..], f)
        case Failure(e) => Failure(e)
        case Ok(xs) => Ok([x] + xs)
  }

  /** `getBrightness` (see BrightnessRule). */
  function GetBrightness(a: AggregateLight): Result<int>
  {
    if |a.lights| == 0 then Ok(a.brightness)
    else if |a.lights| == 1 then
      match Lights.GetBrightness(a.lights[0])
      case Failure(e) => Failure(e)
      case Ok(lb) => if lb != Lights.BrightnessMultiple then Ok(lb) else Ok(a.brightness)
    else
      match Collect(a.lights, Lights.GetBrightness)
      case Failure(e) => Failure(e)
      case Ok(bs) =>
        var unique := Dedup(bs);
        DedupHead(bs);
        if |unique| == 1 && unique[0] != Lights.BrightnessMultiple then Ok(unique[0]) else Ok(a.brightness)
  }

  /** `setBrightness`: only the stored value changes, and getBrightness reports it
      whenever the lights do not share one brightness. */
  function SetBrightness(a: AggregateLight, b: int): (r: AggregateLight)
    ensures r.lights == a.lights && r.color == a.color && r.brightness == b
    ensures |a.lights| == 0 ==> GetBrightness(r) == Ok(b)
    ensures (&& (forall i :: 0 <= i < |a.lights| ==> Lights.GetBrightness(a.lights[i]).Ok?)
             && !CommonBrightness(a.lights)) ==> GetBrightness(r) == Ok(b)
  {
    BrightnessRule(a.(brightness := b));
    a.(brightness := b)
  }

  /** Every light reports a brightness, all the same, and not BRIGHTNESS_MULTIPLE. */
  ghost predicate CommonBrightness(ls: seq<Lights.Light>)
    requires forall i :: 0 <= i < |ls| ==> Lights.GetBrightness(ls[i]).Ok?
  {
    && |ls| > 0
    && (forall i :: 0 <= i < |ls| ==> Lights.GetBrightness(ls[i]).value == Lights.GetBrightness(ls[0]).value)
    && Lights.GetBrightness(ls[0]).value != Lights.BrightnessMultiple
  }

  /** getBrightness throws exactly when some light throws (a group none of whose ids
      resolved); otherwise it is the lights' common brightness when they share one that
      is not BRIGHTNESS_MULTIPLE, and the stored value in every other case, including
      the empty aggregate. */
  lemma {:induction false} BrightnessRule(a: AggregateLight)
    ensures GetBrightness(a).Failure? <==> exists i :: 0 <= i < |a.lights| && Lights.GetBrightness(a.lights[i]).Failure?
    ensures (forall i :: 0 <= i < |a.lights| ==> Lights.GetBrightness(a.lights[i]).Ok?) ==>
      GetBrightness(a) == if CommonBrightness(a.lights) then Lights.GetBrightness(a.lights[0]) else Ok(a.brightness)
  {
    var ls := a.lights;
    if |ls| >= 2 {
      var c := Collect(ls, Lights.GetBrightness);
      if c.Ok? {
        DedupSingleton(c.value);
        DedupHead(c.value);
      }
    }
  }

  /** `getColor`, as written: with one light the guard tests the stored colour, so the
      result is 0 while the stored colour is COLOR_UNDEFINED, whatever the light's colour. */
  function GetColor(a: AggregateLight): (r: Result<Color>)
    ensures r.Failure? <==> exists i :: 0 <= i < |a.lights| && Lights.GetColor(a.lights[i]).Failure?
    ensures r.Failure? ==> r.fault == IndexOutOfBounds
  {
    if |a.lights| == 0 then Ok(a.color)
    else if |a.lights| == 1 then
      match Lights.GetColor(a.lights[0])
      case Failure(e) => Failure(e)
      case Ok(lc) => if a.color != Lights.ColorMultiple then Ok(lc) else Ok(a.color)
    else CommonColorOr(a)
  }

  /** `getColor` as its documentation describes it: the single light's colour unless it
      is COLOR_MULTIPLE, else the stored colour. */
  function GetColorAsDocumented(a: AggregateLight): Result<Color>
  {
    if |a.lights| == 0 then Ok(a.color)
    else if |a.lights| == 1 then
      match Lights.GetColor(a.lights[0])
      case Failure(e) => Failure(e)
      case Ok(lc) => if lc != Lights.ColorMultiple then Ok(lc) else Ok(a.color)
    else CommonColorOr(a)
  }

  /** The two-or-more branch of `getColor`. */
  function CommonColorOr(a: AggregateLight): Result<Color>
  {
    match Collect(a.lights, Lights.GetColor)
    case Failure(e) => Failure(e)
    case Ok(cs) =>
      var unique := Dedup(cs);
      DedupHead(cs);
      if |unique| == 1 && unique[0] != Lights.ColorMultiple then Ok(unique[0]) else Ok(a.color)
  }

  /** `setColor`: only the stored value changes, and with two or more lights getColor
      reports it whenever they do not share one colour. */
  function SetColor(a: AggregateLight, c: Color): (r: AggregateLight)
    ensures r.lights == a.lights && r.brightness == a.brightness && r.color == c
    ensures |a.lights| == 0 ==> GetColor(r) == Ok(c)
    ensures (&& |a.lights| >= 2
             && (forall i :: 0 <= i < |a.lights| ==> Lights.GetColor(a.lights[i]).Ok?)
             && !CommonColor(a.lights)) ==> GetColor(r) == Ok(c)
  {
    if |a.lights| >= 2 then
      ColorRuleMany(a.(color := c));
      a.(color := c)
    else
      a.(color := c)
  }

  /** Every light reports a colour, all the same, and not COLOR_MULTIPLE. */
  ghost predicate CommonColor(ls: seq<Lights.Light>)
    requires forall i :: 0 <= i < |ls| ==> Lights.GetColor(ls[i]).Ok?
  {
    && |ls| > 0
    && (forall i :: 0 <= i < |ls| ==> Lights.GetColor(ls[i]).value == Lights.GetColor(ls[0]).value)
    && Lights.GetColor(ls[0]).value != Lights.ColorMultiple
  }

  /** Two or more lights that all report a colour: getColor is the common colour when all
      agree on one other than COLOR_MULTIPLE, else the stored colour. */
  lemma {:induction false} ColorRuleMany(a: AggregateLight)
    requires |a.lights| >= 2
    ensures (forall i :: 0 <= i < |a.lights| ==> Lights.GetColor(a.lights[i]).Ok?) ==>
      GetColor(a) == if CommonColor(a.lights) then Lights.GetColor(a.lights[0]) else Ok(a.color)
  {
    var c := Collect(a.lights, Lights.GetColor);
    if c.Ok? {
      DedupSingleton(c.value);
      DedupHead(c.value);
    }
  }

  /** One light, as written: the result is COLOR_UNDEFINED whenever the stored colour
      is, and the light's own colour otherwise. */
  lemma {:induction false} ColorRuleOneAsWritten(a: AggregateLight)
    requires |a.lights| == 1 && Lights.GetColor(a.lights[0]).Ok?
    ensures a.color == ColorUndefined ==> GetColor(a) == Ok(ColorUndefined)
    ensures a.color != ColorUndefined ==> GetColor(a) == Lights.GetColor(a.lights[0])
  {
  }

  /** The documented rule holds uniformly for one or more lights: the common colour when
      all agree on one other than COLOR_MULTIPLE, else the stored colour. */
  lemma {:induction false} ColorRuleAsDocumented(a: AggregateLight)
    requires |a.lights| >= 1
    ensures GetColorAsDocumented(a).Failure? <==> exists i :: 0 <= i < |a.lights| && Lights.GetColor(a.lights[i]).Failure?
    ensures (forall i :: 0 <= i < |a.lights| ==> Lights.GetColor(a.lights[i]).Ok?) ==>
      GetColorAsDocumented(a) == if CommonColor(a.lights) then Lights.GetColor(a.lights[0]) else Ok(a.color)
  {
    if |a.lights| >= 2 {
      ColorRuleMany(a);
    }
  }

  /** The as-written guard loses the colour of a lone light: a fresh aggregate holding one
      red point reports COLOR_UNDEFINED, while the documented rule reports red. */
  lemma {:induction false} ColorGuardCounterexample()
    ensures var p := LightPoint("1", "lamp", true, 254, Rgb(255, 0, 0), ColorLight);
      var a := AddLightPoint(New(), p);
      && GetColor(a) == Ok(ColorUndefined)
      && GetColorAsDocumented(a) == Ok(PointColor(p))
      && PointColor(p) != ColorUndefined
  {
  }

  /** All colours of all lights, light by light. */
  function AllColors(ls: seq<Lights.Light>): seq<Color>
  {
    if |ls| == 0 then [] else Lights.Colors(ls[0]) + AllColors(ls[1..])
  }

  /** `getColors`, before the HSV sort: each light's colours, each kept once. */
  function GetColors(a: AggregateLight): (r: seq<Color>)
    ensures NoDups(r)
  {
    DedupSpec(AllColors(a.lights));
    Dedup(AllColors(a.lights))
  }

  /** The colours of every point of every light. */
  ghost function PointColors(ls: seq<Lights.Light>): set<Color>
  {
    set i, p | 0 <= i < |ls| && p in Lights.PointsOf(ls[i]) :: PointColor(p)
  }

  lemma {:induction false} AllColorsElems(ls: seq<Lights.Light>)
    ensures Elems(AllColors(ls)) == PointColors(ls)
  {
    if |ls| > 0 {
      AllColorsElems(ls[1..]);
      var head := set p | p in Lights.PointsOf(ls[0]) :: PointColor(p);
      assert Elems(AllColors(ls)) == Elems(Lights.Colors(ls[0])) + Elems(AllColors(ls[1..]));
      forall c | c in PointColors(ls) ensures c in head + PointColors(ls[1..]) {
        var i, p :| 0 <= i < |ls| && p in Lights.PointsOf(ls[i]) && PointColor(p) == c;
        if i > 0 {
          assert ls[i] == ls[1..][i - 1];
        }
      }
      forall c | c in PointColors(ls[1..]) ensures c in PointColors(ls) {
        var i, p :| 0 <= i < |ls[1..]| && p in Lights.PointsOf(ls[1..][i]) && PointColor(p) == c;
        assert ls[1..][i] == ls[i + 1];
      }
      forall c | c in head ensures c in PointColors(ls) {
        var p :| p in Lights.PointsOf(ls[0]) && PointColor(p) == c;
      }
    } else {
      assert PointColors(ls) == {};
    }
  }

  /** getColors lists every colour of every contained point exactly once; an
      aggregate whose lights have no points has no colours. */
  lemma {:induction false} GetColorsSpec(a: AggregateLight)
    ensures Elems(GetColors(a)) == PointColors(a.lights)
    ensures 0 !in GetColors(a)
  {
    DedupSpec(AllColors(a.lights));
    AllColorsElems(a.lights);
    assert 0 !in Elems(GetColors(a));
  }

  //
  // Refreshing from the bridge
  //

  function PointIds(ps: seq<LightPoint>): (r: seq<Id>)
    ensures |r| == |ps| && forall i :: 0 <= i < |ps| ==> r[i] == ps[i].id
  {
    seq(|ps|, i requires 0 <= i < |ps| => ps[i].id)
  }

  function GroupIds(gs: seq<LightGroup>): (r: seq<Id>)
    ensures |r| == |gs| && forall i :: 0 <= i < |gs| ==> r[i] == gs[i].id
  {
    seq(|gs|, i requires 0 <= i < |gs| => gs[i].id)
  }

  /** Every stored point id and group id still resolves in the bridge state. */
  ghost predicate AllResolve(a: AggregateLight, bs: BridgeState)
  {
    && (forall i :: 0 <= i < |LightPoints(a)| ==> LightPoints(a)[i].id in bs.points)
    && (forall i :: 0 <= i < |Groups(a)| ==> Groups(a)[i].id in bs.groups)
  }

  /** The bridge's current record of each point id. */
  function FreshPoints(ids: seq<Id>, bs: BridgeState): (r: seq<LightPoint>)
    requires forall i :: 0 <= i < |ids| ==> ids[i] in bs.points
    ensures |r| == |ids| && forall i :: 0 <= i < |ids| ==> r[i] == bs.points[ids[i]]
  {
    seq(|ids|, i requires 0 <= i < |ids| => bs.points[ids[i]])
  }

  /** The bridge's current record of each group id. */
  function FreshGroups(ids: seq<Id>, bs: BridgeState): (r: seq<LightGroup>)
    requires forall i :: 0 <= i < |ids| ==> ids[i] in bs.groups
    ensures |r| == |ids| && forall i :: 0 <= i < |ids| ==> r[i] == bs.groups[ids[i]]
  {
    seq(|ids|, i requires 0 <= i < |ids| => bs.groups[ids[i]])
  }

  /** Clear the lights, then add the points, then the groups. */
  function Rebuild(a: AggregateLight, ps: seq<LightPoint>, gs: seq<LightGroup>, bs: BridgeState): AggregateLight
  {
    AddLightGroups(AddLightPoints(a.(lights := []), ps), gs, bs)
  }

  /** `updateLightState`: rebuild the lights from their ids, points first, then groups.
      An id that no longer resolves leaves a null reference behind, reported here as
      a null-pointer failure. */
  function UpdateLightState(a: AggregateLight, bs: BridgeState): (r: Result<AggregateLight>)
    ensures r.Ok? <==> AllResolve(a, bs)
    ensures r.Failure? ==> r.fault == NullPointer
  {
    var pids := PointIds(LightPoints(a));
    var gids := GroupIds(Groups(a));
    if (forall i :: 0 <= i < |pids| ==> pids[i] in bs.points) && (forall i :: 0 <= i < |gids| ==> gids[i] in bs.groups) then
      Ok(Rebuild(a, FreshPoints(pids, bs), FreshGroups(gids, bs), bs))
    else
      Failure(NullPointer)
  }

  /** Points come before groups in the light list. */
  ghost predicate PointsFirst(ls: seq<Lights.Light>)
  {
    forall i, j :: 0 <= i < j < |ls| && ls[j].Single? ==> ls[i].Single?
  }

  /** Adding points keeps the lights there and appends one single light per point. */
  lemma {:induction false} AddedPointsAt(a: AggregateLight, ps: seq<LightPoint>)
    ensures |AddLightPoints(a, ps).lights| == |a.lights| + |ps|
    ensures AddLightPoints(a, ps).lights[..|a.lights|] == a.lights
    ensures forall i :: 0 <= i < |ps| ==> AddLightPoints(a, ps).lights[|a.lights| + i] == Lights.Single(ps[i])
    decreases |ps|
  {
    if |ps| > 0 {
      var a' := AddLightPoint(a, ps[0]);
      AddedPointsAt(a', ps[1..]);
      var r := AddLightPoints(a, ps).lights;
      assert r[..|a'.lights|][..|a.lights|] == a.lights;
      forall i | 0 <= i < |ps| ensures r[|a.lights| + i] == Lights.Single(ps[i]) {
        if i == 0 {
          assert r[..|a'.lights|][|a.lights|] == Lights.Single(ps[0]);
        } else {
          assert ps[i] == ps[1..][i - 1];
        }
      }
    }
  }

  /** Adding groups keeps the lights there and appends each group resolved against the
      bridge state. */
  lemma {:induction false} AddedGroupsKeepPrefix(a: AggregateLight, gs: seq<LightGroup>, bs: BridgeState)
    ensures |AddLightGroups(a, gs, bs).lights| == |a.lights| + |gs|
    ensures AddLightGroups(a, gs, bs).lights[..|a.lights|] == a.lights
    ensures forall i :: 0 <= i < |gs| ==> AddLightGroups(a, gs, bs).lights[|a.lights| + i] == Lights.MakeGroupLight(gs[i], bs)
    decreases |gs|
  {
    if |gs| > 0 {
      var a' := AddLightGroup(a, gs[0], bs);
      AddedGroupsKeepPrefix(a', gs[1..], bs);
      var r := AddLightGroups(a, gs, bs).lights;
      assert r[..|a'.lights|][..|a.lights|] == a.lights;
      forall i | 0 <= i < |gs| ensures r[|a.lights| + i] == Lights.MakeGroupLight(gs[i], bs) {
        if i == 0 {
          assert r[..|a'.lights|][|a.lights|] == Lights.MakeGroupLight(gs[0], bs);
        } else {
          assert gs[i] == gs[1..][i - 1];
        }
      }
    }
  }

  /** Rebuilding from scratch, points then groups, reads back exactly those points and
      groups, with every point ahead of every group. */
  lemma {:induction false} RebuildSpec(a: AggregateLight, ps: seq<LightPoint>, gs: seq<LightGroup>, bs: BridgeState)
    ensures var r := Rebuild(a, ps, gs, bs);
      && LightPoints(r) == ps && Groups(r) == gs
      && PointsFirst(r.lights)
      && |r.lights| == |ps| + |gs|
      && r.brightness == a.brightness && r.color == a.color
  {
    var e := a.(lights := []);
    var mid := AddLightPoints(e, ps);
    var r := AddLightGroups(mid, gs, bs);
    AddedPointsReadBack(e, ps);
    AddedGroupsReadBack(mid, gs, bs);
    assert LightPoints(e) == [] && Groups(e) == [];
    RebuildLights(a, ps, gs, bs);
    var ls := Rebuild(a, ps, gs, bs).lights;
    forall j | |ps| <= j < |ls| ensures ls[j].Group? {
      var k := j - |ps|;
      assert ls[|ps| + k] == Lights.MakeGroupLight(gs[k], bs);
    }
    forall i | 0 <= i < |ps| ensures ls[i].Single? {
      assert ls[i] == Lights.Single(ps[i]);
    }
  }

  /** After a rebuild, light i is point i, and light |ps| + j is group j resolved against
      the bridge state. */
  lemma {:induction false} RebuildLights(a: AggregateLight, ps: seq<LightPoint>, gs: seq<LightGroup>, bs: BridgeState)
    ensures |Rebuild(a, ps, gs, bs).lights| == |ps| + |gs|
    ensures forall i :: 0 <= i < |ps| ==> Rebuild(a, ps, gs, bs).lights[i] == Lights.Single(ps[i])
    ensures forall j :: 0 <= j < |gs| ==> Rebuild(a, ps, gs, bs).lights[|ps| + j] == Lights.MakeGroupLight(gs[j], bs)
  {
    var e := a.(lights := []);
    var mid := AddLightPoints(e, ps);
    var r := AddLightGroups(mid, gs, bs);
    AddedPointsAt(e, ps);
    AddedGroupsKeepPrefix(mid, gs, bs);
    assert |mid.lights| == |ps|;
    forall i | 0 <= i < |ps| ensures r.lights[i] == Lights.Single(ps[i]) {
      assert r.lights[i] == r.lights[..|mid.lights|][i];
      assert mid.lights[0 + i] == Lights.Single(ps[i]);
    }
  }

  /** A successful updateLightState keeps the point-id and group-id sequences, puts every
      point before every group, keeps the number of lights, refreshes each point and each
      group from the bridge, re-resolves every group light's members, and leaves the
      stored brightness and colour alone. */
  lemma {:induction false} UpdateLightStateSpec(a: AggregateLight, bs: BridgeState)
    requires WellFormed(bs) && AllResolve(a, bs)
    ensures UpdateLightState(a, bs).Ok?
    ensures var r := UpdateLightState(a, bs).value;
      && PointIds(LightPoints(r)) == PointIds(LightPoints(a))
      && GroupIds(Groups(r)) == GroupIds(Groups(a))
      && PointsFirst(r.lights)
      && |r.lights| == |a.lights|
      && (forall i :: 0 <= i < |LightPoints(r)| ==> LightPoints(r)[i] == bs.points[LightPoints(a)[i].id])
      && (forall j :: 0 <= j < |Groups(r)| ==> Groups(r)[j] == bs.groups[Groups(a)[j].id])
      && (forall i :: 0 <= i < |LightPoints(a)| ==> r.lights[i] == Lights.Single(bs.points[LightPoints(a)[i].id]))
      && (forall j :: 0 <= j < |Groups(a)| ==>
            r.lights[|LightPoints(a)| + j] == Lights.MakeGroupLight(bs.groups[Groups(a)[j].id], bs))
      && r.brightness == a.brightness && r.color == a.color
  {
    var pids := PointIds(LightPoints(a));
    var gids := GroupIds(Groups(a));
    var ps := FreshPoints(pids, bs);
    var gs := FreshGroups(gids, bs);
    assert UpdateLightState(a, bs) == Ok(Rebuild(a, ps, gs, bs));
    RebuildSpec(a, ps, gs, bs);
    RebuildLights(a, ps, gs, bs);
    PointsGroupsSplit(a.lights, []);
  }

  //
  // Applying a state and filtering scenes
  //

  /** `applyLightState`: one request per light, gathered by the fan-in counter. */
  function ApplyLightState(a: AggregateLight): FanIn.Latch<Lights.Light, Reply>
  {
    FanIn.Start(a.lights)
  }

  /** When every light answers exactly once, in any order, the completion callback runs
      once, after the last answer, with result i pairing light i with its own reply. */
  lemma {:induction false} ApplyCompletes(a: AggregateLight, rs: seq<FanIn.Response<Reply>>)
    requires FanIn.InRange(rs, |a.lights|) && FanIn.DistinctIndices(rs) && |rs| == |a.lights| > 0
    ensures var fired := FanIn.Run(ApplyLightState(a), rs).fired;
      && |fired| == 1
      && |fired[0]| == |a.lights|
      && forall k :: 0 <= k < |rs| ==>
           fired[0][rs[k].index] == Some(FanIn.Slot(a.lights[rs[k].index], rs[k].reply))
    ensures forall m :: 0 <= m < |rs| ==> FanIn.Run(ApplyLightState(a), rs[..m]).fired == []
  {
    FanIn.CompletesExactlyOnce(a.lights, rs);
  }

  /** Some light accepts the scene. */
  function ValidForSome(ls: seq<Lights.Light>, s: Scene): (r: bool)
    ensures r <==> exists i :: 0 <= i < |ls| && Lights.IsSceneValid(ls[i], s)
  {
    if |ls| == 0 then false
    else
      var rest := ValidForSome(ls[1..], s);
      assert forall i :: 1 <= i < |ls| ==> ls[i] == ls[1..][i - 1];
      Lights.IsSceneValid(ls[0], s) || rest
  }

  function SceneNames(ss: seq<Scene>): (r: seq<string>)
    ensures |r| == |ss| && forall i :: 0 <= i < |ss| ==> r[i] == ss[i].name
  {
    seq(|ss|, i requires 0 <= i < |ss| => ss[i].name)
  }

  /** One scene group per name, holding that name's scenes in order. */
  function GroupByNames(ss: seq<Scene>, names: seq<string>): (r: seq<SceneGroup>)
    ensures |r| == |names|
    ensures forall k :: 0 <= k < |names| ==> r[k].scenes == Filter(ss, (s: Scene) => s.name == names[k])
  {
    if |names| == 0 then []
    else
      var n := names[0];
      [SceneGroup(Filter(ss, (s: Scene) => s.name == n))] + GroupByNames(ss, names[1..])
  }

  /** All scenes of a list of groups, group by group. */
  function ConcatScenes(gs: seq<SceneGroup>): seq<Scene>
  {
    if |gs| == 0 then [] else gs[0].scenes + ConcatScenes(gs[1..])
  }

  /** `filterValidScenes`: the scenes some light accepts, grouped by name. Groups come in
      order of their names' first occurrence (Java's hash map leaves that order open). */
  function FilterValidScenes(a: AggregateLight, scenes: seq<Scene>): (r: seq<SceneGroup>)
    ensures forall k :: 0 <= k < |r| ==> |r[k].scenes| > 0
    ensures forall k, s :: 0 <= k < |r| && s in r[k].scenes ==> s.name == Name(r[k])
    ensures forall k, l :: 0 <= k < l < |r| ==> Name(r[k]) != Name(r[l])
  {
    var valid := Filter(scenes, (s: Scene) => ValidForSome(a.lights, s));
    DedupSpec(SceneNames(valid));
    GroupByNamesSpec(valid, Dedup(SceneNames(valid)));
    GroupByNames(valid, Dedup(SceneNames(valid)))
  }

  lemma {:induction false} ConcatCount(ss: seq<Scene>, names: seq<string>, x: Scene)
    requires NoDups(names)
    ensures multiset(ConcatScenes(GroupByNames(ss, names)))[x] == if x.name in names then multiset(ss)[x] else 0
  {
    if |names| > 0 {
      var n := names[0];
      assert NoDups(names[1..]);
      ConcatCount(ss, names[1..], x);
      FilterCount(ss, (s: Scene) => s.name == n, x);
      var gs := GroupByNames(ss, names);
      assert gs[1..] == GroupByNames(ss, names[1..]);
      assert ConcatScenes(gs) == gs[0].scenes + ConcatScenes(gs[1..]);
      assert names == [n] + names[1..];
      if x.name == n {
        assert x.name !in names[1..];
      }
    }
  }

  /** The scenes named `n`, when some scene has that name, form a non-empty group
      named `n`. */
  lemma {:induction false} NamedGroup(ss: seq<Scene>, n: string)
    requires n in Elems(SceneNames(ss))
    ensures var g := SceneGroup(Filter(ss, (s: Scene) => s.name == n));
      && |g.scenes| > 0 && Name(g) == n
      && forall s :: s in g.scenes ==> s.name == n
  {
    var f := (s: Scene) => s.name == n;
    var i :| 0 <= i < |ss| && SceneNames(ss)[i] == n;
    FilterElems(ss, f);
    assert ss[i] in Filter(ss, f);
    assert Filter(ss, f)[0] in Filter(ss, f);
  }

  /** Grouping by the distinct names that occur gives non-empty, distinctly named groups
      whose scenes together are the input, each as often as in the input. */
  lemma {:induction false} GroupByNamesSpec(ss: seq<Scene>, names: seq<string>)
    requires NoDups(names) && Elems(names) == Elems(SceneNames(ss))
    ensures var gs := GroupByNames(ss, names);
      && (forall k :: 0 <= k < |gs| ==> |gs[k].scenes| > 0 && Name(gs[k]) == names[k])
      && (forall k, s :: 0 <= k < |gs| && s in gs[k].scenes ==> s.name == Name(gs[k]))
      && (forall k, l :: 0 <= k < l < |gs| ==> Name(gs[k]) != Name(gs[l]))
      && multiset(ConcatScenes(gs)) == multiset(ss)
  {
    GroupByNamesNamed(ss, names);
    GroupByNamesCount(ss, names);
  }

  /** Each group is non-empty and every scene in it carries the group's name. */
  lemma {:induction false} GroupByNamesNamed(ss: seq<Scene>, names: seq<string>)
    requires Elems(names) <= Elems(SceneNames(ss))
    ensures forall k :: 0 <= k < |names| ==>
      |GroupByNames(ss, names)[k].scenes| > 0 && Name(GroupByNames(ss, names)[k]) == names[k] &&
      forall s :: s in GroupByNames(ss, names)[k].scenes ==> s.name == names[k]
  {
    var gs := GroupByNames(ss, names);
    forall k | 0 <= k < |gs|
      ensures |gs[k].scenes| > 0 && Name(gs[k]) == names[k]
      ensures forall s :: s in gs[k].scenes ==> s.name == names[k]
    {
      assert names[k] in Elems(names);
      NamedGroup(ss, names[k]);
    }
  }

  /** The groups together hold every scene whose name is listed, as often as the input. */
  lemma {:induction false} GroupByNamesCount(ss: seq<Scene>, names: seq<string>)
    requires NoDups(names) && Elems(SceneNames(ss)) <= Elems(names)
    ensures multiset(ConcatScenes(GroupByNames(ss, names))) == multiset(ss)
  {
    var c := ConcatScenes(GroupByNames(ss, names));
    forall x ensures multiset(c)[x] == multiset(ss)[x] {
      ConcatCount(ss, names, x);
      if x in ss {
        var i :| 0 <= i < |ss| && ss[i] == x;
        assert SceneNames(ss)[i] == x.name;
        assert x.name in Elems(SceneNames(ss));
      }
    }
    assert multiset(c) == multiset(ss);
  }

  /** The groups of filterValidScenes together hold exactly the input scenes that some
      light accepts, each as often as in the input, and each group lists its scenes in
      input order. */
  lemma {:induction false} FilterValidScenesSpec(a: AggregateLight, scenes: seq<Scene>)
    ensures var gs := FilterValidScenes(a, scenes);
      && multiset(ConcatScenes(gs)) == multiset(Filter(scenes, (s: Scene) => ValidForSome(a.lights, s)))
      && (forall k :: 0 <= k < |gs| ==>
            gs[k].scenes == Filter(scenes, (s: Scene) => ValidForSome(a.lights, s) && s.name == Name(gs[k])))
  {
    var f := (s: Scene) => ValidForSome(a.lights, s);
    var valid := Filter(scenes, f);
    var names := Dedup(SceneNames(valid));
    DedupSpec(SceneNames(valid));
    var gs := GroupByNames(valid, names);
    assert gs == FilterValidScenes(a, scenes);
    GroupByNamesSpec(valid, names);
    forall k | 0 <= k < |gs|
      ensures gs[k].scenes == Filter(scenes, (s: Scene) => ValidForSome(a.lights, s) && s.name == Name(gs[k]))
    {
      var n := names[k];
      FilterFilter(scenes, f, (s: Scene) => s.name == n, (s: Scene) => ValidForSome(a.lights, s) && s.name == Name(gs[k]));
    }
  }
}
