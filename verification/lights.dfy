/** The `Light` abstraction: a single light point or a bridge group, each answering
    the same questions (identifier, name, colour, brightness, on, colour support,
    scene validity). Colours and brightnesses collapse to the MULTIPLE sentinels
    when a light has more than one. */
module Lights {
  import opened Wrappers
  import opened Seqs
  import opened Bridge

  /** The colour reported by a light with several colours. */
  const ColorMultiple: Color := 0

  /** The brightness reported by a light with several brightnesses. */
  const BrightnessMultiple: int := -1

  /** A `SingleLight` wraps one point; a `GroupLight` wraps a group together with the
      points its ids resolved to when it was built. */
  datatype Light =
    | Single(point: LightPoint)
    | Group(group: LightGroup, members: seq<LightPoint>)

  /** The light points a light stands for. */
  function PointsOf(l: Light): seq<LightPoint>
  {
    match l
    case Single(p) => [p]
    case Group(_, ms) => ms
  }

  /** The ids the bridge knows, in the given order. */
  function KnownIds(ids: seq<Id>, points: map<Id, LightPoint>): seq<Id>
  {
    Filter(ids, id => id in points)
  }

  /** Looks each id up and keeps the points found. */
  function Resolve(ids: seq<Id>, points: map<Id, LightPoint>): (r: seq<LightPoint>)
    ensures |r| == |KnownIds(ids, points)|
    ensures forall k :: 0 <= k < |r| ==> KnownIds(ids, points)[k] in points && r[k] == points[KnownIds(ids, points)[k]]
  {
    if |ids| == 0 then []
    else (if ids[0] in points then [points[ids[0]]] else []) + Resolve(ids[1..], points)
  }

  /** The `GroupLight` constructor: resolve the group's declared ids against the bridge. */
  function MakeGroupLight(g: LightGroup, bs: BridgeState): (l: Light)
    ensures l.Group? && l.group == g
    ensures |l.members| == |KnownIds(g.lightIds, bs.points)|
    ensures forall k :: 0 <= k < |l.members| ==>
      KnownIds(g.lightIds, bs.points)[k] in bs.points && l.members[k] == bs.points[KnownIds(g.lightIds, bs.points)[k]]
  {
    Group(g, Resolve(g.lightIds, bs.points))
  }

  /** A group light has no members exactly when none of the group's ids resolves. */
  lemma {:induction false} GroupLightEmpty(g: LightGroup, bs: BridgeState)
    ensures |MakeGroupLight(g, bs).members| == 0 <==> forall i :: 0 <= i < |g.lightIds| ==> g.lightIds[i] !in bs.points
  {
    var f := (id: Id) => id in bs.points;
    FilterElems(g.lightIds, f);
    if |KnownIds(g.lightIds, bs.points)| == 0 {
      forall i | 0 <= i < |g.lightIds| ensures g.lightIds[i] !in bs.points {
        assert g.lightIds[i] in g.lightIds;
      }
    } else {
      assert KnownIds(g.lightIds, bs.points)[0] in Filter(g.lightIds, f);
    }
  }

  function Identifier(l: Light): Id
  {
    match l
    case Single(p) => p.id
    case Group(g, _) => g.id
  }

  function Name(l: Light): string
  {
    match l
    case Single(p) => p.name
    case Group(g, _) => g.name
  }

  /** The colours of a list of points, in order. */
  function ColorsOfPoints(ps: seq<LightPoint>): (cs: seq<Color>)
    ensures |cs| == |ps|
    ensures forall i :: 0 <= i < |ps| ==> cs[i] == PointColor(ps[i])
  {
    seq(|ps|, i requires 0 <= i < |ps| => PointColor(ps[i]))
  }

  /** `getColors`: the light's distinct colours, one for each colour its points show. */
  function Colors(l: Light): (r: seq<Color>)
    ensures NoDups(r)
    ensures Elems(r) == set p | p in PointsOf(l) :: PointColor(p)
  {
    match l
    case Single(p) => [PointColor(p)]
    case Group(_, ms) =>
      DedupSpec(ColorsOfPoints(ms));
      ColorsOfPointsElems(ms);
      Dedup(ColorsOfPoints(ms))
  }

  /** The colours of a list of points are exactly the points' colours. */
  lemma {:induction false} ColorsOfPointsElems(ms: seq<LightPoint>)
    ensures Elems(ColorsOfPoints(ms)) == set p | p in ms :: PointColor(p)
  {
    var cs := ColorsOfPoints(ms);
    forall c | c in Elems(cs) ensures c in set p | p in ms :: PointColor(p) {
      var i :| 0 <= i < |cs| && cs[i] == c;
      assert ms[i] in ms;
    }
    forall c | c in set p | p in ms :: PointColor(p) ensures c in Elems(cs) {
      var p :| p in ms && PointColor(p) == c;
      var i :| 0 <= i < |ms| && ms[i] == p;
      assert cs[i] == c;
    }
  }

  /** `getColor`: the only colour, COLOR_MULTIPLE for several, and an index error
      for a group none of whose ids resolved (element 0 of an empty list). */
  function GetColor(l: Light): (r: Result<Color>)
    ensures r.Failure? <==> |PointsOf(l)| == 0
    ensures r.Failure? ==> r.fault == IndexOutOfBounds
  {
    match l
    case Single(p) => Ok(PointColor(p))
    case Group(_, ms) =>
      DedupHead(ColorsOfPoints(ms));
      var cs := Colors(l);
      if |cs| > 1 then Ok(ColorMultiple)
      else if |cs| == 0 then Failure(IndexOutOfBounds)
      else Ok(cs[0])
  }

  /** The brightnesses of a list of points, in order. */
  function BrightnessesOfPoints(ps: seq<LightPoint>): (bs: seq<int>)
    ensures |bs| == |ps|
    ensures forall i :: 0 <= i < |ps| ==> bs[i] == ps[i].brightness
  {
    seq(|ps|, i requires 0 <= i < |ps| => ps[i].brightness)
  }

  /** `getBrightness`: the only brightness, BRIGHTNESS_MULTIPLE for several, and an
      index error for a group none of whose ids resolved. */
  function GetBrightness(l: Light): (r: Result<int>)
    ensures r.Failure? <==> |PointsOf(l)| == 0
    ensures r.Failure? ==> r.fault == IndexOutOfBounds
  {
    match l
    case Single(p) => Ok(p.brightness)
    case Group(_, ms) =>
      DedupHead(BrightnessesOfPoints(ms));
      var bs := Dedup(BrightnessesOfPoints(ms));
      if |bs| > 1 then Ok(BrightnessMultiple)
      else if |bs| == 0 then Failure(IndexOutOfBounds)
      else Ok(bs[0])
  }

  /** `getOn`: the point's own state, or the group's any-on flag. */
  function On(l: Light): bool
  {
    match l
    case Single(p) => p.on
    case Group(g, _) => g.anyOn
  }

  /** Some point of the list is colour capable (the loop with `break`). */
  function AnyColorCapable(ps: seq<LightPoint>): (r: bool)
    ensures r <==> exists i :: 0 <= i < |ps| && ColorCapable(ps[i].lightType)
  {
    if |ps| == 0 then false
    else if ColorCapable(ps[0].lightType) then true
    else
      var r := AnyColorCapable(ps[1..]);
      assert forall i :: 1 <= i < |ps| ==> ps[i] == ps[1..][i - 1];
      r
  }

  /** `getSupportsColors`. */
  function SupportsColors(l: Light): (r: bool)
    ensures r <==> exists i :: 0 <= i < |PointsOf(l)| && ColorCapable(PointsOf(l)[i].lightType)
  {
    match l
    case Single(p) => assert PointsOf(l)[0] == p; ColorCapable(p.lightType)
    case Group(_, ms) => assert PointsOf(l) == ms; AnyColorCapable(ms)
  }

  /** Some id of `ids` occurs in `sceneIds` (the early-return loop). */
  function AnyIdIn(ids: seq<Id>, sceneIds: seq<Id>): (r: bool)
    ensures r <==> exists i :: 0 <= i < |ids| && ids[i] in sceneIds
  {
    if |ids| == 0 then false
    else if ids[0] in sceneIds then true
    else
      var r := AnyIdIn(ids[1..], sceneIds);
      assert forall i :: 1 <= i < |ids| ==> ids[i] == ids[1..][i - 1];
      r
  }

  /** `isSceneValid`: the scene touches the point, or touches one of the group's
      declared ids (resolved or not). */
  function IsSceneValid(l: Light, scene: Scene): (r: bool)
    ensures l.Single? ==> (r <==> l.point.id in scene.lightIds)
    ensures l.Group? ==> (r <==> exists id :: id in l.group.lightIds && id in scene.lightIds)
  {
    match l
    case Single(p) => p.id in scene.lightIds
    case Group(g, _) => AnyIdIn(g.lightIds, scene.lightIds)
  }

  /** Two points of the light show different colours. */
  ghost predicate MixedColors(l: Light)
  {
    exists i, j :: 0 <= i < |PointsOf(l)| && 0 <= j < |PointsOf(l)| && PointColor(PointsOf(l)[i]) != PointColor(PointsOf(l)[j])
  }

  /** Two points of the light have different brightnesses. */
  ghost predicate MixedBrightness(l: Light)
  {
    exists i, j :: 0 <= i < |PointsOf(l)| && 0 <= j < |PointsOf(l)| && PointsOf(l)[i].brightness != PointsOf(l)[j].brightness
  }

  /** getColor on a light with points is COLOR_MULTIPLE exactly when the colours
      differ, and the common colour when they agree. Since every point colour has alpha 255, 0 means "several". */
  lemma {:induction false} GetColorSpec(l: Light)
    ensures GetColor(l) == Ok(ColorMultiple) <==> MixedColors(l)
    ensures |PointsOf(l)| > 0 && !MixedColors(l) ==> GetColor(l) == Ok(PointColor(PointsOf(l)[0]))
  {
    match l
    case Single(p) =>
    case Group(_, ms) =>
      var cs := ColorsOfPoints(ms);
      DedupHead(cs);
      DedupSingleton(cs);
      if |ms| > 0 && !MixedColors(l) {
        forall i | 0 <= i < |cs| ensures cs[i] == cs[0] {
          assert PointColor(PointsOf(l)[i]) == PointColor(PointsOf(l)[0]);
        }
        assert Dedup(cs)[0] == PointColor(ms[0]);
      }
      if MixedColors(l) {
        var i, j :| 0 <= i < |ms| && 0 <= j < |ms| && PointColor(ms[i]) != PointColor(ms[j]);
        assert cs[i] != cs[0] || cs[j] != cs[0];
      }
  }

  /** getBrightness on a light with points is BRIGHTNESS_MULTIPLE when the brightnesses
      differ, and the common brightness when they agree. */
  lemma {:induction false} GetBrightnessSpec(l: Light)
    ensures MixedBrightness(l) ==> GetBrightness(l) == Ok(BrightnessMultiple)
    ensures |PointsOf(l)| > 0 && !MixedBrightness(l) ==> GetBrightness(l) == Ok(PointsOf(l)[0].brightness)
  {
    match l
    case Single(p) =>
    case Group(_, ms) =>
      var bs := BrightnessesOfPoints(ms);
      DedupHead(bs);
      DedupSingleton(bs);
      if |ms| > 0 && !MixedBrightness(l) {
        forall i | 0 <= i < |bs| ensures bs[i] == bs[0] {
          assert PointsOf(l)[i].brightness == PointsOf(l)[0].brightness;
        }
      }
      if MixedBrightness(l) {
        var i, j :| 0 <= i < |ms| && 0 <= j < |ms| && ms[i].brightness != ms[j].brightness;
        assert bs[i] != bs[0] || bs[j] != bs[0];
      }
  }

  /** A single light reports its point's state unchanged, and its colour list is
      exactly [getColor()], a colour that is never COLOR_MULTIPLE. */
  lemma {:induction false} SingleLightSpec(p: LightPoint)
    ensures Identifier(Single(p)) == p.id && Name(Single(p)) == p.name
    ensures GetBrightness(Single(p)) == Ok(p.brightness) && On(Single(p)) == p.on
    ensures GetColor(Single(p)).Ok? && GetColor(Single(p)).value != ColorMultiple
    ensures Colors(Single(p)) == [GetColor(Single(p)).value]
    ensures SupportsColors(Single(p)) <==> ColorCapable(p.lightType)
  {
  }
}
