/** The lightswitch screen: the values it derives from the selected lights (brightness
    in percent, colours, the button label, which controls are enabled), the brightness
    it sends, and the selection it keeps per bridge in the preferences store. */
module Lightswitch {
  import opened Seqs
  import opened Bridge
  import opened Wrappers
  import Lights
  import opened Aggregate

  /** The background shown when the lights report no colour (`DEFAULT_COLOR`). */
  const DefaultColor: Color := 0xFFFF_FFDD

  /** Android's `Color.TRANSPARENT`, the colour picker's seed when no single colour applies. */
  const Transparent: Color := 0

  //
  // Brightness: percent on the seek bar, 0..254 at the bridge
  //

  /** A Java `(int)` cast of a quotient with a positive divisor: it truncates toward zero. */
  function JavaDiv(n: int, d: int): int
    requires d > 0
  {
    if n >= 0 then n / d else -((-n) / d)
  }

  /** `setBrightness`'s scaling of a percentage to the bridge's 0..254 steps. */
  function ScaleToRaw(percent: int): (raw: int)
    ensures 0 <= percent <= 100 ==> 0 <= raw <= 254 && 100 * raw <= 254 * percent < 100 * raw + 100
  {
    JavaDiv(254 * percent, 100)
  }

  /** `bindData`'s seek-bar position for a raw brightness: 100 when the brightness is
      undefined, otherwise the raw value scaled down to a percentage. */
  function PercentFromRaw(raw: int): (percent: int)
    ensures raw == BrightnessUndefined ==> percent == 100
    ensures 0 <= raw <= 254 ==> 0 <= percent <= 100 && 254 * percent <= 100 * raw < 254 * percent + 254
  {
    if raw == BrightnessUndefined then 100 else JavaDiv(100 * raw, 254)
  }

  /** Setting a percentage and reading it back loses at most one point, and nothing at
      the ends of the scale. */
  lemma {:induction false} BrightnessRoundTrip(percent: int)
    requires 0 <= percent <= 100
    ensures percent - 1 <= PercentFromRaw(ScaleToRaw(percent)) <= percent
    ensures percent == 0 || percent == 100 ==> PercentFromRaw(ScaleToRaw(percent)) == percent
  {
    var raw := ScaleToRaw(percent);
    var back := PercentFromRaw(raw);
    assert 254 * back <= 254 * percent;
    assert 254 * back > 254 * percent - 354;
  }

  /** `setBrightness`: the scaled value is stored in the aggregate and is the value sent
      to the lights; nothing else about the aggregate changes. */
  function SetBrightness(a: AggregateLight, percent: int): (r: (AggregateLight, int))
    ensures r.0.lights == a.lights && r.0.color == a.color
    ensures r.1 == ScaleToRaw(percent) && r.0.brightness == r.1
    ensures 0 <= percent <= 100 ==> 0 <= r.1 <= 254 && 100 * r.1 <= 254 * percent < 100 * r.1 + 100
    ensures |a.lights| == 0 ==> GetBrightness(r.0) == Ok(r.1)
  {
    var raw := ScaleToRaw(percent);
    (Aggregate.SetBrightness(a, raw), raw)
  }

  //
  // bindData and the controls configured from it
  //

  /** The screen's model fields: on, brightness in percent, and the colours. */
  datatype ViewModel = ViewModel(on: bool, brightness: int, colors: seq<Color>)

  /** `bindData`; it throws when reading the aggregate's brightness throws. */
  function BindData(a: AggregateLight): (r: Result<ViewModel>)
    ensures r.Ok? <==> GetBrightness(a).Ok?
    ensures r.Ok? ==> r.value.on == GetOn(a) && r.value.colors == GetColors(a)
    ensures r.Ok? ==> r.value.brightness == PercentFromRaw(GetBrightness(a).value)
    ensures r.Ok? && GetBrightness(a).value == BrightnessUndefined ==> r.value.brightness == 100
    ensures r.Ok? && 0 <= GetBrightness(a).value <= 254 ==> 0 <= r.value.brightness <= 100
  {
    match GetBrightness(a)
    case Failure(e) => Failure(e)
    case Ok(raw) => Ok(ViewModel(GetOn(a), PercentFromRaw(raw), GetColors(a)))
  }

  /** On a screen with no lights, a brightness just set reads back within one point. */
  lemma {:induction false} SetThenBind(a: AggregateLight, percent: int)
    requires |a.lights| == 0 && 0 <= percent <= 100
    ensures BindData(SetBrightness(a, percent).0).Ok?
    ensures var v := BindData(SetBrightness(a, percent).0).value;
      && !v.on && v.colors == []
      && percent - 1 <= v.brightness <= percent
  {
    BrightnessRoundTrip(percent);
    assert AllColors([]) == [];
  }

  /** The light background: a gradient over several colours, else a solid colour. */
  datatype Background = Gradient(stops: seq<Color>) | Solid(color: Color)

  /** `createLightBackgroundDrawable`. */
  function CreateBackground(colors: seq<Color>): (r: Background)
    ensures r.Gradient? <==> |colors| > 1
    ensures r.Gradient? ==> r.stops == colors
    ensures |colors| == 1 ==> r == Solid(colors[0])
    ensures |colors| == 0 ==> r == Solid(DefaultColor)
  {
    if |colors| > 1 then Gradient(colors)
    else Solid(if |colors| > 0 then colors[0] else DefaultColor)
  }

  /** The colour FAB's seed for the colour picker: the colour, when there is exactly one. */
  function ColorPickerSeed(colors: seq<Color>): (r: Color)
    ensures |colors| == 1 ==> r == colors[0]
    ensures |colors| != 1 ==> r == Transparent
  {
    if |colors| == 1 then colors[0] else Transparent
  }

  /** getColors has exactly one element iff the points share one colour. */
  lemma {:induction false} OneColorIff(a: AggregateLight)
    ensures |GetColors(a)| == 1 <==> |PointColors(a.lights)| == 1
    ensures |GetColors(a)| == 0 <==> PointColors(a.lights) == {}
    ensures |GetColors(a)| == 1 ==> PointColors(a.lights) == {GetColors(a)[0]}
  {
    GetColorsSpec(a);
    NoDupsCard(GetColors(a));
  }

  /** The background is a gradient exactly when the points have several colours; with one
      colour it is that colour, and with none it is the default. */
  lemma {:induction false} BackgroundOfLights(a: AggregateLight)
    ensures CreateBackground(GetColors(a)).Gradient? <==> |PointColors(a.lights)| > 1
    ensures CreateBackground(GetColors(a)).Gradient? ==>
      Elems(CreateBackground(GetColors(a)).stops) == PointColors(a.lights)
    ensures PointColors(a.lights) == {} ==> CreateBackground(GetColors(a)) == Solid(DefaultColor)
    ensures |PointColors(a.lights)| == 1 ==>
      PointColors(a.lights) == {CreateBackground(GetColors(a)).color}
  {
    OneColorIff(a);
    GetColorsSpec(a);
  }

  /** The seed is a real colour exactly when all points share one colour, and it is that
      colour; colour values carry alpha 255, so a seed of TRANSPARENT is unambiguous. */
  lemma {:induction false} SeedOfLights(a: AggregateLight)
    ensures ColorPickerSeed(GetColors(a)) != Transparent <==> |PointColors(a.lights)| == 1
    ensures |PointColors(a.lights)| == 1 ==> PointColors(a.lights) == {ColorPickerSeed(GetColors(a))}
  {
    OneColorIff(a);
    GetColorsSpec(a);
    if |GetColors(a)| == 1 {
      assert GetColors(a)[0] in GetColors(a);
    }
  }

  /** The text on the light selection button. */
  datatype ButtonText = NoLightsSelected | MultipleLightsSelected | LightName(name: string)

  /** `configureUI`'s switch on getName. A single light that happens to be called "none"
      or "multiple" shows the corresponding fixed text. */
  function ButtonLabel(a: AggregateLight): (r: ButtonText)
    ensures |a.lights| == 0 ==> r == NoLightsSelected
    ensures |a.lights| >= 2 ==> r == MultipleLightsSelected
    ensures r.LightName? <==> |a.lights| == 1 && Lights.Name(a.lights[0]) != NoneName
                                              && Lights.Name(a.lights[0]) != MultipleName
    ensures r.LightName? ==> r.name == Lights.Name(a.lights[0])
  {
    var name := GetName(a);
    if name == NoneName then NoLightsSelected
    else if name == MultipleName then MultipleLightsSelected
    else LightName(name)
  }

  /** The state of the screen's controls after `configureUI`. */
  datatype Controls = Controls(
    background: Background,
    onEnabled: bool,
    onActivated: bool,
    offEnabled: bool,
    seekBarEnabled: bool,
    progress: int,
    buttonText: ButtonText,
    colorFabEnabled: bool,
    colorFabVisible: bool,
    sceneFabEnabled: bool)

  /** `configureUI`, without text colours and animations. */
  function ConfigureUI(a: AggregateLight, v: ViewModel): (r: Controls)
    ensures r.onEnabled == r.offEnabled && (r.onEnabled <==> |a.lights| > 0)
    ensures r.seekBarEnabled == r.colorFabEnabled == r.sceneFabEnabled == r.onActivated == v.on
    ensures r.colorFabVisible <==>
      exists i, j :: 0 <= i < |a.lights| && 0 <= j < |Lights.PointsOf(a.lights[i])|
                  && ColorCapable(Lights.PointsOf(a.lights[i])[j].lightType)
    ensures r.progress == v.brightness && r.buttonText == ButtonLabel(a)
  {
    Controls(
      background := CreateBackground(v.colors),
      onEnabled := HasLights(a),
      onActivated := v.on,
      offEnabled := HasLights(a),
      seekBarEnabled := v.on,
      progress := v.brightness,
      buttonText := ButtonLabel(a),
      colorFabEnabled := v.on,
      colorFabVisible := GetSupportsColors(a),
      sceneFabEnabled := v.on)
  }

  /** After bindData, the seek bar and both buttons are usable exactly when some selected
      light is on, and never with no lights selected. */
  lemma {:induction false} ControlsFollowLights(a: AggregateLight)
    requires BindData(a).Ok?
    ensures var c := ConfigureUI(a, BindData(a).value);
      && (c.seekBarEnabled <==> exists i :: 0 <= i < |a.lights| && Lights.On(a.lights[i]))
      && (|a.lights| == 0 ==> !c.onEnabled && !c.seekBarEnabled && !c.colorFabVisible
                              && c.buttonText == NoLightsSelected)
  {
  }

  //
  // The selection kept in the preferences store, per bridge
  //

  /** The preferences store: string keys to string sets. */
  type Prefs = map<string, set<Id>>

  const SelectedLightsSuffix: string := "_selected_lights"
  const SelectedGroupsSuffix: string := "_selected_groups"

  function LightsKey(bridgeId: Id): string
  {
    bridgeId + SelectedLightsSuffix
  }

  function GroupsKey(bridgeId: Id): string
  {
    bridgeId + SelectedGroupsSuffix
  }

  /** `getStringSet` with an empty default. */
  function Lookup(prefs: Prefs, key: string): set<Id>
  {
    if key in prefs then prefs[key] else {}
  }

  /** The two keys never collide, and each key names one bridge. */
  lemma {:induction false} KeysDistinct(b1: Id, b2: Id)
    ensures LightsKey(b1) != GroupsKey(b2)
    ensures LightsKey(b1) == LightsKey(b2) ==> b1 == b2
    ensures GroupsKey(b1) == GroupsKey(b2) ==> b1 == b2
  {
    if LightsKey(b1) == LightsKey(b2) {
      assert b1 == LightsKey(b1)[..|b1|];
      assert b2 == LightsKey(b2)[..|b2|];
    }
    if GroupsKey(b1) == GroupsKey(b2) {
      assert b1 == GroupsKey(b1)[..|b1|];
      assert b2 == GroupsKey(b2)[..|b2|];
    }
  }

  /** `saveSelectedLights`: the ids of the selected points and of the selected groups,
      each as a set under its bridge-scoped key; every other key is left alone. */
  function Save(prefs: Prefs, bridgeId: Id, a: AggregateLight): (r: Prefs)
    ensures Lookup(r, LightsKey(bridgeId)) == Elems(PointIds(LightPoints(a)))
    ensures Lookup(r, GroupsKey(bridgeId)) == Elems(GroupIds(Groups(a)))
    ensures forall k :: k != LightsKey(bridgeId) && k != GroupsKey(bridgeId) ==>
      (k in r <==> k in prefs) && (k in prefs ==> r[k] == prefs[k])
  {
    KeysDistinct(bridgeId, bridgeId);
    prefs[LightsKey(bridgeId) := Elems(PointIds(LightPoints(a)))]
         [GroupsKey(bridgeId) := Elems(GroupIds(Groups(a)))]
  }

  /** Saving for one bridge leaves another bridge's selection as it was. */
  lemma {:induction false} SaveKeepsOtherBridges(prefs: Prefs, b1: Id, b2: Id, a: AggregateLight)
    requires b1 != b2
    ensures Lookup(Save(prefs, b1, a), LightsKey(b2)) == Lookup(prefs, LightsKey(b2))
    ensures Lookup(Save(prefs, b1, a), GroupsKey(b2)) == Lookup(prefs, GroupsKey(b2))
  {
    KeysDistinct(b1, b2);
    KeysDistinct(b2, b1);
  }

  /** The points stored in the bridge state under the given ids. */
  ghost function PointsFor(ids: set<Id>, bs: BridgeState): set<LightPoint>
  {
    Image(ids, bs.points)
  }

  /** The groups stored in the bridge state under the given ids. */
  ghost function GroupsFor(ids: set<Id>, bs: BridgeState): set<LightGroup>
  {
    Image(ids, bs.groups)
  }

  /** Looks up each saved id, in the set's (unspecified) iteration order, and keeps the
      value of every id the map still holds; `ids` records which id each value came from. */
  method LookupAll<K, V>(saved: set<K>, m: map<K, V>) returns (vs: seq<V>, ids: seq<K>)
    ensures NoDups(ids) && Elems(ids) == saved * m.Keys
    ensures |vs| == |ids| && forall i :: 0 <= i < |ids| ==> ids[i] in m && vs[i] == m[ids[i]]
  {
    ids := [];
    var rest := saved;
    ghost var done: set<K> := {};
    while rest != {}
      invariant done !! rest && done + rest == saved
      invariant Elems(ids) == done * m.Keys
      invariant NoDups(ids)
      decreases |rest|
    {
      var id :| id in rest;
      LookupStep(ids, done, id, m.Keys);
      if id in m {
        ids := ids + [id];
      }
      rest := rest - {id};
      done := done + {id};
    }
    assert done == saved;
    forall i | 0 <= i < |ids| ensures ids[i] in m {
      assert ids[i] in Elems(ids);
    }
    vs := seq(|ids|, i requires 0 <= i < |ids| => m[ids[i]]);
    assert forall i :: 0 <= i < |ids| ==> vs[i] == m[ids[i]];
    assert Elems(ids) == saved * m.Keys;
  }

  /** One step of the lookup loop: visiting a new id appends it exactly when it is known. */
  lemma {:induction false} LookupStep<K>(ids: seq<K>, done: set<K>, id: K, keys: set<K>)
    requires NoDups(ids) && Elems(ids) == done * keys && id !in done
    ensures id in keys ==> NoDups(ids + [id]) && Elems(ids + [id]) == (done + {id}) * keys
    ensures id !in keys ==> Elems(ids) == (done + {id}) * keys
  {
    if id in keys {
      AppendFresh(ids, id);
    }
  }

  /** Appending an element not yet present keeps a list duplicate-free and adds it to the set. */
  lemma {:induction false} AppendFresh<K>(ids: seq<K>, id: K)
    requires NoDups(ids) && id !in Elems(ids)
    ensures NoDups(ids + [id]) && Elems(ids + [id]) == Elems(ids) + {id}
  {
  }

  /** The values a map holds for the given ids. */
  ghost function Image<K, V>(ids: set<K>, m: map<K, V>): set<V>
  {
    set id | id in ids && id in m :: m[id]
  }

  /** The values found for distinct ids are the map's values for the saved ids, one per id. */
  lemma {:induction false} LookedUp<K, V>(saved: set<K>, m: map<K, V>, vs: seq<V>, ids: seq<K>)
    requires NoDups(ids) && Elems(ids) == saved * m.Keys
    requires |vs| == |ids| && forall i :: 0 <= i < |ids| ==> ids[i] in m && vs[i] == m[ids[i]]
    ensures Elems(vs) == Image(saved, m)
    ensures |vs| == |saved * m.Keys|
  {
    NoDupsCard(ids);
    forall id | id in saved && id in m ensures m[id] in Elems(vs) {
      assert id in Elems(ids);
      var i :| 0 <= i < |ids| && ids[i] == id;
      assert vs[i] == m[id];
    }
    forall i | 0 <= i < |vs| ensures vs[i] in Image(saved, m) {
      assert ids[i] in Elems(ids);
    }
  }

  /** The saved points the bridge still knows, one per resolving id. */
  method LoadPoints(saved: set<Id>, bs: BridgeState) returns (ps: seq<LightPoint>)
    ensures Elems(ps) == PointsFor(saved, bs)
    ensures |ps| == |saved * bs.points.Keys|
    ensures WellFormed(bs) ==> Elems(PointIds(ps)) == saved * bs.points.Keys && NoDups(PointIds(ps))
  {
    var ids;
    ps, ids := LookupAll(saved, bs.points);
    LookedUp(saved, bs.points, ps, ids);
    if WellFormed(bs) {
      assert PointIds(ps) == ids;
    }
  }

  /** The saved groups the bridge still knows, one per resolving id. */
  method LoadGroups(saved: set<Id>, bs: BridgeState) returns (gs: seq<LightGroup>)
    ensures Elems(gs) == GroupsFor(saved, bs)
    ensures |gs| == |saved * bs.groups.Keys|
    ensures WellFormed(bs) ==> Elems(GroupIds(gs)) == saved * bs.groups.Keys && NoDups(GroupIds(gs))
  {
    var ids;
    gs, ids := LookupAll(saved, bs.groups);
    LookedUp(saved, bs.groups, gs, ids);
    if WellFormed(bs) {
      assert GroupIds(gs) == ids;
    }
  }

  /** `loadSelectedLights`: a fresh aggregate holding the saved points the bridge still
      knows, then the saved groups it still knows, each group light resolved against the
      bridge state; ids it no longer resolves are dropped. */
  method Load(prefs: Prefs, bridgeId: Id, bs: BridgeState) returns (a: AggregateLight)
    ensures a.brightness == BrightnessUndefined && a.color == ColorUndefined
    ensures PointsFirst(a.lights)
    ensures Elems(LightPoints(a)) == PointsFor(Lookup(prefs, LightsKey(bridgeId)), bs)
    ensures Elems(Groups(a)) == GroupsFor(Lookup(prefs, GroupsKey(bridgeId)), bs)
    ensures |LightPoints(a)| == |Lookup(prefs, LightsKey(bridgeId)) * bs.points.Keys|
    ensures |Groups(a)| == |Lookup(prefs, GroupsKey(bridgeId)) * bs.groups.Keys|
    ensures WellFormed(bs) ==>
      && Elems(PointIds(LightPoints(a))) == Lookup(prefs, LightsKey(bridgeId)) * bs.points.Keys
      && Elems(GroupIds(Groups(a))) == Lookup(prefs, GroupsKey(bridgeId)) * bs.groups.Keys
      && NoDups(PointIds(LightPoints(a))) && NoDups(GroupIds(Groups(a)))
    ensures |a.lights| == |LightPoints(a)| + |Groups(a)|
    ensures forall j :: 0 <= j < |Groups(a)| ==> a.lights[|LightPoints(a)| + j] == Lights.MakeGroupLight(Groups(a)[j], bs)
  {
    var ps := LoadPoints(Lookup(prefs, LightsKey(bridgeId)), bs);
    var gs := LoadGroups(Lookup(prefs, GroupsKey(bridgeId)), bs);
    // Adding inside the loops or after them performs the same sequence of adds.
    a := Rebuild(New(), ps, gs, bs);
    RebuildSpec(New(), ps, gs, bs);
    RebuildLights(New(), ps, gs, bs);
  }

  /** Save followed by load restores the selected point ids and group ids that the
      bridge still resolves, each once, with the points ahead of the groups. */
  method SaveThenLoad(prefs: Prefs, bridgeId: Id, a: AggregateLight, bs: BridgeState)
    returns (loaded: AggregateLight)
    requires WellFormed(bs)
    ensures Elems(PointIds(LightPoints(loaded))) == Elems(PointIds(LightPoints(a))) * bs.points.Keys
    ensures Elems(GroupIds(Groups(loaded))) == Elems(GroupIds(Groups(a))) * bs.groups.Keys
    ensures NoDups(PointIds(LightPoints(loaded))) && NoDups(GroupIds(Groups(loaded)))
    ensures PointsFirst(loaded.lights)
    ensures |loaded.lights| == |LightPoints(loaded)| + |Groups(loaded)|
    ensures forall j :: 0 <= j < |Groups(loaded)| ==>
      loaded.lights[|LightPoints(loaded)| + j] == Lights.MakeGroupLight(Groups(loaded)[j], bs)
    ensures AllResolve(a, bs) ==>
      && Elems(PointIds(LightPoints(loaded))) == Elems(PointIds(LightPoints(a)))
      && Elems(GroupIds(Groups(loaded))) == Elems(GroupIds(Groups(a)))
  {
    var saved := Save(prefs, bridgeId, a);
    loaded := Load(saved, bridgeId, bs);
    if AllResolve(a, bs) {
      assert Elems(PointIds(LightPoints(a))) <= bs.points.Keys;
      assert Elems(GroupIds(Groups(a))) <= bs.groups.Keys;
    }
  }
}
