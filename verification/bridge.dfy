/** Plain records standing in for the vendor SDK's domain objects: light points,
    groups, scenes and the bridge state that resolves identifiers to them. */
module Bridge {

  type Id = string

  /** A 32-bit Android colour: alpha, red, green and blue bytes from high to low. */
  type Color = bv32

  /** The kinds of light the SDK reports. */
  datatype LightType =
    | OnOff
    | Dimmable
    | ColorTemperature
    | ColorLight
    | ExtendedColor
    | UnknownType

  /** An RGB triple as the SDK's `HueColor.RGB` reports it. */
  datatype Rgb = Rgb(r: bv8, g: bv8, b: bv8)

  /** A single addressable light with its current state. */
  datatype LightPoint = LightPoint(
    id: Id,
    name: string,
    on: bool,
    brightness: int,
    rgb: Rgb,
    lightType: LightType)

  /** A bridge-defined group: its declared light ids and the bridge's any-on flag. */
  datatype LightGroup = LightGroup(id: Id, name: string, lightIds: seq<Id>, anyOn: bool)

  /** A stored scene and the ids of the lights it touches. */
  datatype Scene = Scene(id: Id, name: string, lightIds: seq<Id>)

  /** The bridge's cache: partial maps from ids to light points and groups. */
  datatype BridgeState = BridgeState(points: map<Id, LightPoint>, groups: map<Id, LightGroup>)

  /** Every entry is stored under its own identifier, as the SDK's lookups guarantee. */
  ghost predicate WellFormed(bs: BridgeState)
  {
    && (forall id :: id in bs.points ==> bs.points[id].id == id)
    && (forall id :: id in bs.groups ==> bs.groups[id].id == id)
  }

  /** Android's `Color.argb`: the four channel bytes packed from high to low. */
  function Argb(a: bv8, r: bv8, g: bv8, b: bv8): (c: Color)
    ensures (c >> 24) as bv8 == a
    ensures ((c >> 16) & 0xFF) as bv8 == r
    ensures ((c >> 8) & 0xFF) as bv8 == g
    ensures (c & 0xFF) as bv8 == b
  {
    (a as bv32 << 24) | (r as bv32 << 16) | (g as bv32 << 8) | (b as bv32)
  }

  /** The colour the switch shows for a light point: its RGB with alpha 255. */
  function PointColor(p: LightPoint): (c: Color)
    ensures c != 0
    ensures c >> 24 == 0xFF
  {
    Argb(255, p.rgb.r, p.rgb.g, p.rgb.b)
  }

  /** Two points show the same colour exactly when their RGB triples agree. */
  lemma {:induction false} PointColorInjective(p: LightPoint, q: LightPoint)
    ensures PointColor(p) == PointColor(q) <==> p.rgb == q.rgb
  {
    if PointColor(p) == PointColor(q) {
      ArgbChannels(255, p.rgb.r, p.rgb.g, p.rgb.b);
      ArgbChannels(255, q.rgb.r, q.rgb.g, q.rgb.b);
    }
  }

  lemma {:induction false} ArgbChannels(a: bv8, r: bv8, g: bv8, b: bv8)
    ensures var c := Argb(a, r, g, b);
      ((c >> 16) & 0xFF) as bv8 == r && ((c >> 8) & 0xFF) as bv8 == g && (c & 0xFF) as bv8 == b
  {
  }

  /** The SDK's return code for a request: success or some error code. */
  datatype ReturnCode = Success | ErrorCode(code: int)

  /** What a bridge response callback receives: a return code and the errors. */
  datatype Reply = Reply(code: ReturnCode, errors: seq<string>)

  /** The light types that can show a colour: COLOR, COLOR_TEMPERATURE and EXTENDED_COLOR. */
  predicate ColorCapable(t: LightType)
  {
    t == ColorLight || t == ColorTemperature || t == ExtendedColor
  }
}
