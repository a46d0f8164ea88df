/** The main activity's connection bookkeeping: the current bridge and its address, the
    manual-disconnect flag, the latest connection errors, the list of registered
    callbacks, and the dispatch of the bridge's events to those callbacks. Starting
    a connection or a disconnection at the bridge is reported as an effect. */
module MainActivity {
  import opened Wrappers
  import opened Seqs

  /** A registered callback object, by identity. */
  type CallbackId = nat

  /** An error reported by the bridge connection. */
  datatype HueError = HueError(code: int, description: string)

  /** The bridge object the activity holds: its address and whether it is connected. */
  datatype BridgeRef = BridgeRef(ip: string, connected: bool)

  /** The activity's fields. */
  datatype Main = Main(
    callbacks: seq<CallbackId>,
    bridge: Option<BridgeRef>,
    bridgeIp: Option<string>,
    manualDisconnect: bool,
    latestErrors: seq<HueError>)

  /** The callback methods of `BridgeEventCallback`. */
  datatype Call =
    | BridgeConnected
    | BridgeConnectionLost
    | BridgeConnectionRestored
    | BridgeCouldNotConnect
    | BridgePushlinkRequested
    | BridgeAuthenticated
    | BridgeInitialized
    | BridgeDisconnecting
    | BridgeDisconnected(manualDisconnect: bool, errors: seq<HueError>)
    | UpdatedBridgeConfig
    | UpdatedLightsAndGroups
    | UpdatedScenes
    | UpdatedSensorsAndSwitches
    | UpdatedRules
    | UpdatedSchedulesAndTimers

  /** What the activity does outside itself: ask the bridge to connect or disconnect, or
      call one method of one callback with a bridge argument. */
  datatype Effect =
    | Connect
    | Disconnect
    | Invoke(target: CallbackId, call: Call, bridge: Option<BridgeRef>)

  datatype Step = Step(state: Main, effects: seq<Effect>)

  /** The activity before anything happens. */
  function Initial(): Main
  {
    Main([], None, None, false, [])
  }

  /** `call` made on every registered callback, in registration order. */
  function Broadcast(cbs: seq<CallbackId>, call: Call, bridge: Option<BridgeRef>): (r: seq<Effect>)
    ensures |r| == |cbs|
    ensures forall i :: 0 <= i < |cbs| ==> r[i] == Invoke(cbs[i], call, bridge)
  {
    if |cbs| == 0 then [] else [Invoke(cbs[0], call, bridge)] + Broadcast(cbs[1..], call, bridge)
  }

  //
  // Connecting and disconnecting
  //

  /** `connectToBridge`: a new bridge at `ip`, errors and the manual flag cleared. */
  function ConnectToBridge(m: Main, ip: string): (r: Step)
    ensures !r.state.manualDisconnect && r.state.latestErrors == []
    ensures r.state.bridgeIp == Some(ip) && r.state.bridge.Some? && r.state.bridge.value.ip == ip
    ensures r.state.callbacks == m.callbacks
    ensures r.effects == [Connect]
  {
    Step(m.(manualDisconnect := false, latestErrors := [], bridgeIp := Some(ip),
            bridge := Some(BridgeRef(ip, false))),
         [Connect])
  }

  /** `reconnectToBridge`: errors and the manual flag cleared; a connect is asked for only
      when there is a bridge and it is not connected. */
  function ReconnectToBridge(m: Main): (r: Step)
    ensures !r.state.manualDisconnect && r.state.latestErrors == []
    ensures r.state.bridge == m.bridge && r.state.bridgeIp == m.bridgeIp && r.state.callbacks == m.callbacks
    ensures r.effects == [Connect] <==> m.bridge.Some? && !m.bridge.value.connected
    ensures r.effects == [] <==> !(m.bridge.Some? && !m.bridge.value.connected)
  {
    Step(m.(manualDisconnect := false, latestErrors := []),
         if m.bridge.Some? && !m.bridge.value.connected then [Connect] else [])
  }

  /** `disconnectFromBridge`: with a bridge, every callback hears bridgeDisconnecting in
      registration order, then the bridge is asked to disconnect and forgotten along
      with its address; without one nothing happens. */
  function DisconnectFromBridge(m: Main): (r: Step)
    ensures m.bridge.None? ==> r == Step(m, [])
    ensures m.bridge.Some? ==>
      && r.state == m.(manualDisconnect := true, latestErrors := [], bridge := None, bridgeIp := None)
      && |r.effects| == |m.callbacks| + 1
      && (forall i :: 0 <= i < |m.callbacks| ==> r.effects[i] == Invoke(m.callbacks[i], BridgeDisconnecting, m.bridge))
      && r.effects[|m.callbacks|] == Disconnect
  {
    if m.bridge.None? then Step(m, [])
    else
      Step(m.(manualDisconnect := true, latestErrors := [], bridge := None, bridgeIp := None),
           Broadcast(m.callbacks, BridgeDisconnecting, m.bridge) + [Disconnect])
  }

  //
  // Callbacks
  //

  /** `addBridgeEventCallback`. */
  function AddCallback(m: Main, cb: CallbackId): (r: Main)
    ensures |r.callbacks| == |m.callbacks| + 1
    ensures r.callbacks[..|m.callbacks|] == m.callbacks && r.callbacks[|m.callbacks|] == cb
    ensures r.(callbacks := m.callbacks) == m
  {
    m.(callbacks := m.callbacks + [cb])
  }

  /** `removeBridgeEventCallback`: the first registration of `cb` goes. */
  function RemoveCallback(m: Main, cb: CallbackId): (r: Main)
    ensures cb in m.callbacks ==> multiset(r.callbacks) == multiset(m.callbacks) - multiset{cb}
    ensures cb in m.callbacks ==> var i := IndexOf(m.callbacks, cb);
      m.callbacks[i] == cb && cb !in m.callbacks[..i] && r.callbacks == m.callbacks[..i] + m.callbacks[i + 1..]
    ensures cb !in m.callbacks ==> r == m
    ensures r.(callbacks := m.callbacks) == m
  {
    if cb in m.callbacks then
      RemoveFirstAt(m.callbacks, cb);
      m.(callbacks := RemoveFirst(m.callbacks, cb))
    else
      m.(callbacks := RemoveFirst(m.callbacks, cb))
  }

  /** Removing a callback just added, that was not registered before, restores the list. */
  lemma {:induction false} AddThenRemove(m: Main, cb: CallbackId)
    requires cb !in m.callbacks
    ensures RemoveCallback(AddCallback(m, cb), cb) == m
  {
    RemoveFirstAppended(m.callbacks, cb);
  }

  //
  // Connection events
  //

  /** The SDK's connection events; `OtherConnectionEvent` stands for any value the
      activity has no case for. */
  datatype ConnectionEvent =
    | Connected
    | ConnectionLost
    | ConnectionRestored
    | CouldNotConnect
    | NotAuthenticated
    | LinkButtonNotPressed
    | Authenticated
    | Disconnected
    | OtherConnectionEvent

  /** The callback method a connection event calls, if any. DISCONNECTED carries the
      activity's current manual flag and latest errors. */
  function ConnectionCall(m: Main, e: ConnectionEvent): Option<Call>
  {
    match e
    case Connected => Some(BridgeConnected)
    case ConnectionLost => Some(BridgeConnectionLost)
    case ConnectionRestored => Some(BridgeConnectionRestored)
    case CouldNotConnect => Some(BridgeCouldNotConnect)
    case NotAuthenticated => Some(BridgePushlinkRequested)
    case LinkButtonNotPressed => Some(BridgePushlinkRequested)
    case Authenticated => Some(BridgeAuthenticated)
    case Disconnected => Some(BridgeDisconnected(m.manualDisconnect, m.latestErrors))
    case OtherConnectionEvent => None
  }

  /** Two connection events call the same method only when they are the same event, or
      when both ask for the link button to be pressed. */
  lemma {:induction false} ConnectionCallsDistinct(m: Main, e1: ConnectionEvent, e2: ConnectionEvent)
    requires ConnectionCall(m, e1).Some? && ConnectionCall(m, e1) == ConnectionCall(m, e2)
    ensures e1 == e2 || (e1 in {NotAuthenticated, LinkButtonNotPressed} && e2 in {NotAuthenticated, LinkButtonNotPressed})
  {
  }

  /** `onConnectionEvent`: each callback, in registration order, has at most one method
      called, with the activity's bridge. */
  function OnConnectionEvent(m: Main, e: ConnectionEvent): (r: seq<Effect>)
    ensures ConnectionCall(m, e).None? ==> r == []
    ensures ConnectionCall(m, e).Some? ==>
      && |r| == |m.callbacks|
      && forall i :: 0 <= i < |r| ==> r[i] == Invoke(m.callbacks[i], ConnectionCall(m, e).value, m.bridge)
  {
    match ConnectionCall(m, e)
    case None => []
    case Some(call) => Broadcast(m.callbacks, call, m.bridge)
  }

  /** `onConnectionError`: the list replaces the latest errors; nothing else changes. */
  function OnConnectionError(m: Main, errors: seq<HueError>): (r: Main)
    ensures r.latestErrors == errors
    ensures r.(latestErrors := m.latestErrors) == m
  {
    m.(latestErrors := errors)
  }

  /** After a manual disconnect, a DISCONNECTED event tells every callback the
      disconnect was manual and that there were no errors. */
  lemma {:induction false} DisconnectedAfterManual(m: Main, i: nat)
    requires m.bridge.Some? && i < |m.callbacks|
    ensures var s := DisconnectFromBridge(m).state;
      OnConnectionEvent(s, Disconnected)[i] == Invoke(m.callbacks[i], BridgeDisconnected(true, []), None)
  {
  }

  /** After connecting and then receiving errors, a DISCONNECTED event reports an
      unexpected disconnect with exactly those errors. */
  lemma {:induction false} DisconnectedAfterErrors(m: Main, ip: string, errors: seq<HueError>, i: nat)
    requires i < |m.callbacks|
    ensures var s := OnConnectionError(ConnectToBridge(m, ip).state, errors);
      && OnConnectionEvent(s, Disconnected)[i].call == BridgeDisconnected(false, errors)
      && OnConnectionEvent(s, Disconnected)[i].target == m.callbacks[i]
  {
  }

  //
  // Bridge state updates
  //

  /** The SDK's bridge-state update events; `OtherUpdateEvent` stands for any value the
      activity has no case for. */
  datatype StateUpdatedEvent =
    | Initialized
    | BridgeConfig
    | LightsAndGroups
    | Scenes
    | SensorsAndSwitches
    | Rules
    | SchedulesAndTimers
    | OtherUpdateEvent

  /** The callback method an update event calls, if any. */
  function UpdateCall(e: StateUpdatedEvent): Option<Call>
  {
    match e
    case Initialized => Some(BridgeInitialized)
    case BridgeConfig => Some(UpdatedBridgeConfig)
    case LightsAndGroups => Some(UpdatedLightsAndGroups)
    case Scenes => Some(UpdatedScenes)
    case SensorsAndSwitches => Some(UpdatedSensorsAndSwitches)
    case Rules => Some(UpdatedRules)
    case SchedulesAndTimers => Some(UpdatedSchedulesAndTimers)
    case OtherUpdateEvent => None
  }

  /** The seven update events map one-to-one onto the seven update methods. */
  lemma {:induction false} UpdateCallsOneToOne(e1: StateUpdatedEvent, e2: StateUpdatedEvent, c: Call)
    ensures UpdateCall(e1).Some? && UpdateCall(e1) == UpdateCall(e2) ==> e1 == e2
    ensures UpdateCall(e1).None? <==> e1 == OtherUpdateEvent
    ensures c in {BridgeInitialized, UpdatedBridgeConfig, UpdatedLightsAndGroups, UpdatedScenes,
                  UpdatedSensorsAndSwitches, UpdatedRules, UpdatedSchedulesAndTimers}
            ==> exists e :: UpdateCall(e) == Some(c)
  {
    if c == BridgeInitialized { assert UpdateCall(Initialized) == Some(c); }
    if c == UpdatedBridgeConfig { assert UpdateCall(BridgeConfig) == Some(c); }
    if c == UpdatedLightsAndGroups { assert UpdateCall(LightsAndGroups) == Some(c); }
    if c == UpdatedScenes { assert UpdateCall(Scenes) == Some(c); }
    if c == UpdatedSensorsAndSwitches { assert UpdateCall(SensorsAndSwitches) == Some(c); }
    if c == UpdatedRules { assert UpdateCall(Rules) == Some(c); }
    if c == UpdatedSchedulesAndTimers { assert UpdateCall(SchedulesAndTimers) == Some(c); }
  }

  /** `onBridgeStateUpdated`: at most one method per callback, in registration order,
      with the bridge the event came from. */
  function OnBridgeStateUpdated(m: Main, bridge: Option<BridgeRef>, e: StateUpdatedEvent): (r: seq<Effect>)
    ensures UpdateCall(e).None? ==> r == []
    ensures UpdateCall(e).Some? ==>
      && |r| == |m.callbacks|
      && forall i :: 0 <= i < |r| ==> r[i] == Invoke(m.callbacks[i], UpdateCall(e).value, bridge)
  {
    match UpdateCall(e)
    case None => []
    case Some(call) => Broadcast(m.callbacks, call, bridge)
  }

  //
  // Startup
  //

  /** A bridge the SDK remembers, with the time of its last connection in milliseconds. */
  datatype KnownBridge = KnownBridge(name: string, ip: string, lastConnected: int)

  /** `b` is bridge k of the list, connected no earlier than any other and later than
      every bridge before it. */
  ghost predicate LastUsedAt(bridges: seq<KnownBridge>, k: int, b: KnownBridge)
  {
    && 0 <= k < |bridges| && bridges[k] == b
    && (forall j :: 0 <= j < |bridges| ==> bridges[j].lastConnected <= b.lastConnected)
    && (forall j :: 0 <= j < k ==> bridges[j].lastConnected < b.lastConnected)
  }

  /** `getLastUsedBridge`: `Collections.max` by last connection time, which keeps the
      first of several equally recent bridges; none for an empty list. */
  method GetLastUsedBridge(bridges: seq<KnownBridge>) returns (r: Option<KnownBridge>)
    ensures r.None? <==> |bridges| == 0
    ensures r.Some? ==> exists k :: LastUsedAt(bridges, k, r.value)
  {
    if |bridges| == 0 {
      return None;
    }
    var k := 0;
    var i := 1;
    while i < |bridges|
      invariant 1 <= i <= |bridges| && 0 <= k < i
      invariant forall j :: 0 <= j < i ==> bridges[j].lastConnected <= bridges[k].lastConnected
      invariant forall j :: 0 <= j < k ==> bridges[j].lastConnected < bridges[k].lastConnected
    {
      if bridges[i].lastConnected > bridges[k].lastConnected {
        k := i;
      }
      i := i + 1;
    }
    r := Some(bridges[k]);
    assert LastUsedAt(bridges, k, r.value);
  }

  /** Where the activity goes when it starts. */
  datatype Route = ReconnectTo(ip: string) | BridgeFinder | ConnectScreen(bridge: KnownBridge)

  /** Startup routing from the saved address and the last used bridge: a non-empty saved
      address reconnects silently; otherwise no known bridge opens the finder, and a
      known one opens the connect screen for it. */
  function StartupRoute(savedIp: Option<string>, lastUsed: Option<KnownBridge>): (r: Route)
    ensures r.ReconnectTo? <==> savedIp.Some? && |savedIp.value| > 0
    ensures r.ReconnectTo? ==> r.ip == savedIp.value
    ensures r.BridgeFinder? <==> (savedIp.None? || |savedIp.value| == 0) && lastUsed.None?
    ensures r.ConnectScreen? ==> lastUsed == Some(r.bridge)
  {
    if savedIp.Some? && |savedIp.value| > 0 then ReconnectTo(savedIp.value)
    else if lastUsed.None? then BridgeFinder
    else ConnectScreen(lastUsed.value)
  }

  /** `onCreate`'s routing: the last used bridge is looked up only when there is no saved
      address, and reconnecting goes through connectToBridge. */
  method Startup(m: Main, savedIp: Option<string>, known: seq<KnownBridge>) returns (route: Route, s: Step)
    ensures route.ReconnectTo? ==> s == ConnectToBridge(m, route.ip)
    ensures !route.ReconnectTo? ==> s == Step(m, [])
    ensures route.ReconnectTo? <==> savedIp.Some? && |savedIp.value| > 0
    ensures route.ReconnectTo? ==> route.ip == savedIp.value
    ensures route.BridgeFinder? <==> (savedIp.None? || |savedIp.value| == 0) && |known| == 0
    ensures route.ConnectScreen? ==> exists k :: LastUsedAt(known, k, route.bridge)
  {
    if savedIp.Some? && |savedIp.value| > 0 {
      route := StartupRoute(savedIp, None);
      s := ConnectToBridge(m, savedIp.value);
    } else {
      var last := GetLastUsedBridge(known);
      route := StartupRoute(savedIp, last);
      s := Step(m, []);
    }
  }

  //
  // The switch's own address
  //

  /** The DHCP address, a Java `int`, split into its four bytes, least significant
      first. On a two's-complement `int`, `x >> n` is the floor of x / 2^n and `x & 0xff`
      is x modulo 256, which is how each byte is computed here; a byte is given by its
      unsigned value, the bit pattern the `(byte)` cast keeps. */
  function AddressBytes(ip: int): (r: seq<int>)
    ensures |r| == 4 && forall k :: 0 <= k < 4 ==> 0 <= r[k] < 0x100
  {
    [ip % 0x100, (ip / 0x100) % 0x100, (ip / 0x1_0000) % 0x100, (ip / 0x100_0000) % 0x100]
  }

  /** Shifting by 8 twice is shifting by 16, and so on. */
  lemma {:induction false} ShiftsCompose(x: int)
    ensures x / 0x100 / 0x100 == x / 0x1_0000
    ensures x / 0x1_0000 / 0x100 == x / 0x100_0000
    ensures x / 0x100_0000 / 0x100 == x / 0x1_0000_0000
  {
  }

  /** The bytes, weighed 1, 256, 65536 and 16777216, reassemble the address modulo 2^32:
      the split is little-endian and loses nothing of the 32-bit value. */
  lemma {:induction false} AddressBytesRoundTrip(ip: int)
    ensures var b := AddressBytes(ip);
      b[0] + 0x100 * b[1] + 0x1_0000 * b[2] + 0x100_0000 * b[3] == ip % 0x1_0000_0000
  {
    ShiftsCompose(ip);
    var q1 := ip / 0x100;
    var q2 := ip / 0x1_0000;
    var q3 := ip / 0x100_0000;
    var q4 := ip / 0x1_0000_0000;
    assert ip == 0x100 * q1 + ip % 0x100;
    assert q1 == 0x100 * q2 + q1 % 0x100;
    assert q2 == 0x100 * q3 + q2 % 0x100;
    assert q3 == 0x100 * q4 + q3 % 0x100;
    assert ip == 0x1_0000_0000 * q4 + ip % 0x1_0000_0000;
  }
}
