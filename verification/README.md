# SmartLightSwitch: a Dafny model of the light-switch core

SmartLightSwitch is an Android app that controls Philips Hue lights through a Hue
bridge. The user picks lights and light groups. The app then shows them as one
"aggregate light": one on/off state, one brightness, the set of colours, and the scenes
that apply to them. This project models that core as pure Dafny functions over
immutable data and proves what the Java code promises.

- `wrappers.dfy` (`Wrappers`): `Option` and `Result`. A Java exception
  (`IndexOutOfBoundsException` from `get(0)` on an empty list, a `NullPointerException`
  on an unresolved light) is modelled as `Failure`.
- `bridge.dfy` (`Bridge`): the bridge records that the core reads: light points, groups,
  scenes and the bridge state. Also the ARGB packing that `Color.argb` performs.
- `lights.dfy` (`Lights`): the `Light` interface with its two implementations.
  `SingleLight` wraps one light point. `GroupLight` holds a group's resolved members.
- `aggregate.dfy` (`Aggregate`): `AggregateLight`. It covers adding lights, the
  derived name, on, brightness, colour and colours, refreshing from the bridge state,
  applying a state, and grouping valid scenes by name.
- `fan_in.dfy` (`FanIn`): the counter latch shared by `applyLightState` and
  `recallScenes`. One request goes out per item, each reply fills its slot, and the
  callback fires once, when the last reply arrives.
- `scene_group.dfy` (`SceneGroups`): `SceneGroup`, its name and its recall.
- `pick_lights.dfy` (`PickLights`): the sectioned list adapter of the light-picker
  dialog (headers, items, selected positions) and its OK handler.
- `scene_picker.dfy` (`ScenePicker`): the scene-picker dialog. Groups are sorted by
  `String.compareTo`, which compares UTF-16 code units. One row can be chosen, and OK delivers that row's group.
- `lightswitch.dfy` (`Lightswitch`): what the main switch screen derives from the
  aggregate light. This covers brightness scaling, the view model, the enabled and
  visible controls, the background, the colour-picker seed, and saving and loading the
  selected lights.
- `text.dfy` (`TextUtilities`): `getStringWithSub`, which fills "{0}", "{1}", … one
  after the other with Java's `String.replace`.
- `main_activity.dfy` (`MainActivity`): the main activity's bookkeeping:
  - connecting to and disconnecting from the bridge;
  - the list of bridge-event callbacks and how connection and state events fan out
    to them;
  - picking the last used bridge at start-up;
  - splitting the DHCP address into bytes.

Colours are the 32-bit patterns of Java `int` colours (`bv32`). `COLOR_MULTIPLE`,
`COLOR_UNDEFINED` and the transparent colour are all 0. `BRIGHTNESS_MULTIPLE` and
`BRIGHTNESS_UNDEFINED` are both -1. A light point's colour always has alpha 0xFF, so
it is never 0. Callbacks, the bridge SDK and the clock are passed in as parameters or
returned as effects (`MainActivity.Effect`) rather than performed.

Source paths below are relative to the repository root.

## Model

| member | source | states |
|---|---|---|
| Lights.MakeGroupLight | app/src/main/java/com/iot/extron/smartlightswitch/models/GroupLight.java:38-49 | A group light's members are the bridge's light points for the group's ids, in id order. Ids the bridge does not know are skipped. |
| Lights.GroupLightEmpty | app/src/main/java/com/iot/extron/smartlightswitch/models/GroupLight.java:42-48 | A group light has no members exactly when none of the group's ids resolve. |
| Lights.SingleLightSpec | app/src/main/java/com/iot/extron/smartlightswitch/models/SingleLight.java:59-102 | A single light reports its point's id, name, brightness and on flag. Its colour is never COLOR_MULTIPLE. Its colour list is exactly its colour. It supports colours iff its type is colour-capable. |
| Bridge.PointColor | app/src/main/java/com/iot/extron/smartlightswitch/models/SingleLight.java:71-75 | A point's colour has alpha 0xFF, so it differs from COLOR_MULTIPLE. |
| Bridge.PointColorInjective | app/src/main/java/com/iot/extron/smartlightswitch/models/SingleLight.java:71-75 | Two points have the same colour iff they have the same RGB triple. |
| Bridge.Argb | app/src/main/java/com/iot/extron/smartlightswitch/models/SingleLight.java:74 | Each of the four channels can be read back from the packed colour. |
| Lights.GetColor | app/src/main/java/com/iot/extron/smartlightswitch/models/GroupLight.java:69-77 | A light's colour fails, with an index error, iff the light has no points. |
| Lights.GetColorSpec | app/src/main/java/com/iot/extron/smartlightswitch/models/GroupLight.java:69-77 | For a light with points, the colour is COLOR_MULTIPLE iff its points' colours differ. Otherwise it is the first point's colour. |
| Lights.Colors | app/src/main/java/com/iot/extron/smartlightswitch/models/GroupLight.java:80-93 | The colour list has no duplicates. It holds exactly the colours of the light's points. |
| Lights.GetBrightness | app/src/main/java/com/iot/extron/smartlightswitch/models/GroupLight.java:96-111 | A light's brightness fails, with an index error, iff the light has no points. |
| Lights.GetBrightnessSpec | app/src/main/java/com/iot/extron/smartlightswitch/models/GroupLight.java:96-111 | For a light with points, the brightness is BRIGHTNESS_MULTIPLE when the points differ. Otherwise it is the common brightness. |
| Lights.SupportsColors | app/src/main/java/com/iot/extron/smartlightswitch/models/GroupLight.java:120-137 | A light supports colours iff one of its points has a colour-capable type. |
| Lights.IsSceneValid | app/src/main/java/com/iot/extron/smartlightswitch/models/GroupLight.java:140-149 | A scene is valid for a single light iff it names the light. For a group, the scene must name one of the group's ids. |
| FanIn.Respond | app/src/main/java/com/iot/extron/smartlightswitch/models/SceneGroup.java:93-98 | A reply fills its own slot with its item and reply and leaves the other slots alone. The counter drops by one, and the callback fires with the slots iff the counter reaches zero. |
| FanIn.CompletesExactlyOnce | app/src/main/java/com/iot/extron/smartlightswitch/models/SceneGroup.java:78-102 | With one reply per item, the callback fires exactly once, and only on the last reply. The result has one filled slot per item, and each slot holds its own item and reply. |
| FanIn.NoItemsNeverFires | app/src/main/java/com/iot/extron/smartlightswitch/models/SceneGroup.java:80-98 | With no items, no request is sent and the callback never fires. |
| SceneGroups.RecallCompletes | app/src/main/java/com/iot/extron/smartlightswitch/models/SceneGroup.java:78-102 | Recalling a non-empty group reports once, with each scene paired with its own reply. An empty group never reports. |
| Aggregate.SentinelsCoincide | app/src/main/java/com/iot/extron/smartlightswitch/models/AggregateLight.java:55-58 | The aggregate's undefined colour and brightness equal the per-light "multiple" values. |
| Aggregate.AddedPointsReadBack | app/src/main/java/com/iot/extron/smartlightswitch/models/AggregateLight.java:268-329 | After adding points, the light points read back as the old ones followed by the new ones in order. The groups are unchanged. |
| Aggregate.AddedGroupsReadBack | app/src/main/java/com/iot/extron/smartlightswitch/models/AggregateLight.java:286-351 | After adding groups, the groups read back as the old ones followed by the new ones in order. The light points are unchanged. |
| Aggregate.PointsGroupsSplit | app/src/main/java/com/iot/extron/smartlightswitch/models/AggregateLight.java:304-351 | Every light is either a point or a group. Both read-backs distribute over concatenation. |
| Aggregate.NameAfterAdd | app/src/main/java/com/iot/extron/smartlightswitch/models/AggregateLight.java:83-96 | The name is "none" with no lights, the light's own name with one, and "multiple" with more. |
| Aggregate.GetOn | app/src/main/java/com/iot/extron/smartlightswitch/models/AggregateLight.java:102-112 | The aggregate is on iff some light is on, so it is off with no lights. |
| Aggregate.GetSupportsColors | app/src/main/java/com/iot/extron/smartlightswitch/models/AggregateLight.java:117-127 | The aggregate supports colours iff some point of some light is colour-capable. |
| Aggregate.BrightnessRule | app/src/main/java/com/iot/extron/smartlightswitch/models/AggregateLight.java:133-163 | The aggregate's brightness fails iff some light's brightness fails. Otherwise it is the common brightness when all lights agree, and the stored brightness when they do not. |
| Aggregate.SetBrightness | app/src/main/java/com/iot/extron/smartlightswitch/models/AggregateLight.java:169-172 | Storing a brightness sets the stored value and leaves lights and colour alone. When every light reports a brightness but they do not share one (including with no lights), the aggregate then reports the stored value. |
| Aggregate.GetColor | app/src/main/java/com/iot/extron/smartlightswitch/models/AggregateLight.java:174-209 | As written, the colour fails iff some light's colour fails, and then with an index error. |
| Aggregate.ColorRuleMany | app/src/main/java/com/iot/extron/smartlightswitch/models/AggregateLight.java:178-209 | With two or more lights that all report a colour, the result is the common colour when all agree, and the stored colour when they do not. |
| Aggregate.ColorRuleOneAsWritten | app/src/main/java/com/iot/extron/smartlightswitch/models/AggregateLight.java:185-190 | As written, with one light and no stored colour, the result is COLOR_UNDEFINED rather than the light's colour. |
| Aggregate.ColorGuardCounterexample | app/src/main/java/com/iot/extron/smartlightswitch/models/AggregateLight.java:188 | A fresh aggregate holding one red lamp reports COLOR_UNDEFINED. The documented rule gives the lamp's colour. |
| Aggregate.ColorRuleAsDocumented | app/src/main/java/com/iot/extron/smartlightswitch/models/AggregateLight.java:174-209 | The corrected colour uses the same rule for one light as for many. It fails iff some light fails, and otherwise gives the common colour or the stored colour. |
| Aggregate.SetColor | app/src/main/java/com/iot/extron/smartlightswitch/models/AggregateLight.java:255-258 | Storing a colour sets the stored value and leaves lights and brightness alone. With no lights, or with two or more that all report a colour but do not share one, the aggregate then reports the stored colour. |
| Aggregate.GetColors | app/src/main/java/com/iot/extron/smartlightswitch/models/AggregateLight.java:214-249 | The colour list is duplicate-free. |
| Aggregate.GetColorsSpec | app/src/main/java/com/iot/extron/smartlightswitch/models/AggregateLight.java:214-249 | The colour list holds exactly the colours of all points of all lights. It never holds 0. |
| Aggregate.RebuildSpec | app/src/main/java/com/iot/extron/smartlightswitch/models/AggregateLight.java:390-396 | Rebuilding from points and groups gives exactly those points and groups, points first. Brightness and colour are kept. |
| Aggregate.RebuildLights | app/src/main/java/com/iot/extron/smartlightswitch/models/AggregateLight.java:390-396 | After a rebuild, light i wraps point i, and the light after all points for group j is group j resolved against the bridge state. |
| Aggregate.UpdateLightState | app/src/main/java/com/iot/extron/smartlightswitch/models/AggregateLight.java:370-397 | A refresh succeeds iff every selected id is known to the bridge state. Otherwise it fails with a null-pointer error. |
| Aggregate.UpdateLightStateSpec | app/src/main/java/com/iot/extron/smartlightswitch/models/AggregateLight.java:370-397 | A successful refresh keeps the same point ids and group ids in the same order, points first, and the same number of lights. Each point and group is the bridge's fresh record for its id. Each group light is re-resolved against the bridge state. Brightness and colour are kept. |
| Aggregate.ApplyCompletes | app/src/main/java/com/iot/extron/smartlightswitch/models/AggregateLight.java:404-428 | Applying a state reports once, after the last reply, with each light paired with its own reply. |
| Aggregate.ValidForSome | app/src/main/java/com/iot/extron/smartlightswitch/models/AggregateLight.java:436-450 | A scene is kept iff it is valid for at least one selected light. |
| Aggregate.NamedGroup | app/src/main/java/com/iot/extron/smartlightswitch/models/SceneGroup.java:61-67 | The scenes that share a name form a non-empty group, and the group's name is that name. |
| Aggregate.GroupByNamesSpec | app/src/main/java/com/iot/extron/smartlightswitch/models/AggregateLight.java:452-466 | Grouping by name gives non-empty groups with distinct names. Every scene in a group carries the group's name. Together the groups hold exactly the input scenes. |
| Aggregate.FilterValidScenes | app/src/main/java/com/iot/extron/smartlightswitch/models/AggregateLight.java:434-467 | The scene groups are non-empty and have distinct names. Every scene in a group carries the group's name. |
| Aggregate.FilterValidScenesSpec | app/src/main/java/com/iot/extron/smartlightswitch/models/AggregateLight.java:434-467 | Each group holds, in input order, exactly the valid scenes of its name. Together the groups hold exactly the valid scenes. |
| PickLights.ItemCountIsLength | app/src/main/java/com/iot/extron/smartlightswitch/lightswitch/DFPickLights.java:228-246 | The item count is the number of rows: one header per section plus its items. |
| PickLights.GetItem | app/src/main/java/com/iot/extron/smartlightswitch/lightswitch/DFPickLights.java:285-299 | Looking up a row succeeds iff the position is below the item count. Otherwise it fails with an index error. |
| PickLights.GetItemViewType | app/src/main/java/com/iot/extron/smartlightswitch/lightswitch/DFPickLights.java:249-263 | The view type is defined iff the position is below the item count. It is always HEADER_TYPE or ITEM_TYPE. |
| PickLights.HeaderIff | app/src/main/java/com/iot/extron/smartlightswitch/lightswitch/DFPickLights.java:249-263 | A position is a header iff it is the first row of some section. |
| PickLights.ItemAt | app/src/main/java/com/iot/extron/smartlightswitch/lightswitch/DFPickLights.java:285-299 | A section's header row shows its name. The row k places after it shows its k-th item and is an item row. |
| PickLights.AddSection | app/src/main/java/com/iot/extron/smartlightswitch/lightswitch/DFPickLights.java:272-279 | Adding a section grows the item count by one header plus its items. Earlier selections are kept, and one position is recorded per selected index. |
| PickLights.AddSectionPositions | app/src/main/java/com/iot/extron/smartlightswitch/lightswitch/DFPickLights.java:272-279 | A new section's selected indices are recorded as absolute positions. Each one points at that item's row, or at the header for -1. |
| PickLights.GetSelectedItems | app/src/main/java/com/iot/extron/smartlightswitch/lightswitch/DFPickLights.java:306-329 | There is one list per section, and every reported index is an item index of that section. |
| PickLights.DuplicateNamesReportFirst | app/src/main/java/com/iot/extron/smartlightswitch/lightswitch/DFPickLights.java:318-323 | With two items of the same name, selecting the second reports the first, because the lookup is by name. |
| PickLights.SelectionRoundTrip | app/src/main/java/com/iot/extron/smartlightswitch/lightswitch/DFPickLights.java:272-329 | Sections with distinct item names report exactly their in-range selected indices, ascending. |
| PickLights.SelectItem | app/src/main/java/com/iot/extron/smartlightswitch/lightswitch/DFPickLights.java:334-338 | Selecting adds the position once. The selection stays duplicate-free. |
| PickLights.DeselectItem | app/src/main/java/com/iot/extron/smartlightswitch/lightswitch/DFPickLights.java:343-347 | Deselecting removes one occurrence of the position and nothing else. |
| PickLights.SelectDeselect | app/src/main/java/com/iot/extron/smartlightswitch/lightswitch/DFPickLights.java:334-347 | Selecting is idempotent. Deselecting a newly selected position restores the adapter. |
| PickLights.Pick | app/src/main/java/com/iot/extron/smartlightswitch/lightswitch/DFPickLights.java:131-135 | Looking up selected indices fails iff one is out of range. Otherwise it gives the element at each index, in order. |
| PickLights.OnOkDelivers | app/src/main/java/com/iot/extron/smartlightswitch/lightswitch/DFPickLights.java:120-139 | OK delivers the lights at the lights section's selected indices and the groups at the groups section's. |
| PickLights.DialogRoundTrip | app/src/main/java/com/iot/extron/smartlightswitch/lightswitch/DFPickLights.java:90-139 | Opening the dialog with given selections and pressing OK delivers exactly the pre-selected in-range lights and groups. |
| ScenePicker.Units | app/src/main/java/com/iot/extron/smartlightswitch/lightswitch/DFScenePicker.java:68 | A character is one UTF-16 code unit below U+10000, and otherwise a high surrogate followed by a low surrogate. |
| ScenePicker.Utf16Injective | app/src/main/java/com/iot/extron/smartlightswitch/lightswitch/DFScenePicker.java:68 | Different names have different UTF-16 encodings. |
| ScenePicker.CompareUnitsAntisymmetric | app/src/main/java/com/iot/extron/smartlightswitch/lightswitch/DFScenePicker.java:68 | Comparing code-unit sequences is antisymmetric and zero only on equal sequences. |
| ScenePicker.CompareUnitsTransitive | app/src/main/java/com/iot/extron/smartlightswitch/lightswitch/DFScenePicker.java:68 | Code-unit order is transitive. |
| ScenePicker.CompareToAntisymmetric | app/src/main/java/com/iot/extron/smartlightswitch/lightswitch/DFScenePicker.java:68 | The name comparison, on UTF-16 code units, is antisymmetric, zero only on equal names, and total. |
| ScenePicker.NameLeTransitive | app/src/main/java/com/iot/extron/smartlightswitch/lightswitch/DFScenePicker.java:68 | The name order is transitive. |
| ScenePicker.SupplementarySortsBelowBmp | app/src/main/java/com/iot/extron/smartlightswitch/lightswitch/DFScenePicker.java:68 | A name starting with U+10000 sorts before one starting with U+FFFF, against code-point order, because its first code unit is a surrogate. |
| ScenePicker.SortByName | app/src/main/java/com/iot/extron/smartlightswitch/lightswitch/DFScenePicker.java:64-70 | The stored list is a permutation of the given groups, in non-decreasing UTF-16 name order. |
| ScenePicker.DisplayNamesSorted | app/src/main/java/com/iot/extron/smartlightswitch/lightswitch/DFScenePicker.java:78-89 | The rows show one name per group, in sorted order. |
| ScenePicker.TapThenOk | app/src/main/java/com/iot/extron/smartlightswitch/lightswitch/DFScenePicker.java:98-111 | Tapping a row and pressing OK delivers the group shown in that row. |
| ScenePicker.OkWithoutTap | app/src/main/java/com/iot/extron/smartlightswitch/lightswitch/DFScenePicker.java:49-111 | OK without a tap delivers a group whose name sorts first. With no groups it throws. |
| ScenePicker.OnOk | app/src/main/java/com/iot/extron/smartlightswitch/lightswitch/DFScenePicker.java:103-111 | OK throws iff there is a callback and the chosen row is past the end. It delivers a group iff there is a callback and the row is in range, and that group is one of the stored ones. |
| ScenePicker.OnCancel | app/src/main/java/com/iot/extron/smartlightswitch/lightswitch/DFScenePicker.java:115-121 | Cancel delivers nothing and changes nothing. |
| Lightswitch.ScaleToRaw | app/src/main/java/com/iot/extron/smartlightswitch/lightswitch/FLightswitch.java:291-296 | A percentage 0..100 becomes a raw brightness 0..254: 254·p/100, rounded down. |
| Lightswitch.PercentFromRaw | app/src/main/java/com/iot/extron/smartlightswitch/lightswitch/FLightswitch.java:414-419 | An undefined brightness shows as 100. A raw value 0..254 becomes 100·raw/254 rounded down, within 0..100. |
| Lightswitch.BrightnessRoundTrip | app/src/main/java/com/iot/extron/smartlightswitch/lightswitch/FLightswitch.java:291-296 | Scaling a percentage to raw and back loses at most one point. It is exact at 0 and 100. |
| Lightswitch.SetBrightness | app/src/main/java/com/iot/extron/smartlightswitch/lightswitch/FLightswitch.java:291-296 | The raw brightness sent and stored is the percentage scaled to 0..254. For 0..100 it lies in 0..254. Lights and colour are untouched. With no lights, the aggregate then reports that raw value. |
| Lightswitch.BindData | app/src/main/java/com/iot/extron/smartlightswitch/lightswitch/FLightswitch.java:410-422 | Binding succeeds iff the aggregate brightness does. The view's on flag and colours are the aggregate's. Its brightness is the aggregate brightness as a percentage, and 100 when undefined. |
| Lightswitch.SetThenBind | app/src/main/java/com/iot/extron/smartlightswitch/lightswitch/FLightswitch.java:291-422 | With nothing selected, setting a percentage and re-binding shows that percentage, less at most one point. The view is off and has no colours. |
| Lightswitch.CreateBackground | app/src/main/java/com/iot/extron/smartlightswitch/lightswitch/FLightswitch.java:483-497 | The background is a gradient of the colours iff there are two or more. One colour gives a solid background of that colour, and none gives the default colour. |
| Lightswitch.BackgroundOfLights | app/src/main/java/com/iot/extron/smartlightswitch/lightswitch/FLightswitch.java:483-497 | The background is a gradient iff the selected points show more than one colour. Its stops are exactly those colours, and one colour gives that solid colour. |
| Lightswitch.ColorPickerSeed | app/src/main/java/com/iot/extron/smartlightswitch/lightswitch/FLightswitch.java:191-194 | The colour picker starts from the only colour when there is exactly one, and from transparent otherwise. |
| Lightswitch.SeedOfLights | app/src/main/java/com/iot/extron/smartlightswitch/lightswitch/FLightswitch.java:191-194 | The picker's seed is not transparent iff the selected points share a single colour, and then it is that colour. |
| Lightswitch.ButtonLabel | app/src/main/java/com/iot/extron/smartlightswitch/lightswitch/FLightswitch.java:442-461 | The button reads "no lights" with none selected and "multiple" with two or more. It shows the light's own name iff one light is selected and its name is neither "none" nor "multiple". |
| Lightswitch.ConfigureUI | app/src/main/java/com/iot/extron/smartlightswitch/lightswitch/FLightswitch.java:427-466 | On and off are enabled iff lights are selected. The slider, colour and scene buttons follow the on state. The colour button is visible iff some point is colour-capable. |
| Lightswitch.ControlsFollowLights | app/src/main/java/com/iot/extron/smartlightswitch/lightswitch/FLightswitch.java:410-466 | The slider is enabled iff some selected light is on. With nothing selected, everything is disabled or hidden. |
| Lightswitch.KeysDistinct | app/src/main/java/com/iot/extron/smartlightswitch/lightswitch/FLightswitch.java:581-584 | The lights key and the groups key never collide. Different bridges get different keys. |
| Lightswitch.Save | app/src/main/java/com/iot/extron/smartlightswitch/lightswitch/FLightswitch.java:588-607 | The bridge's two keys hold exactly the selected point ids and group ids. Every other key is kept. |
| Lightswitch.SaveKeepsOtherBridges | app/src/main/java/com/iot/extron/smartlightswitch/lightswitch/FLightswitch.java:588-607 | Saving for one bridge leaves another bridge's saved selection as it was. |
| Lightswitch.LookupAll | app/src/main/java/com/iot/extron/smartlightswitch/lightswitch/FLightswitch.java:618-634 | Loading keeps exactly the saved ids that the bridge knows, each once, with the bridge's record for each. |
| Lightswitch.LoadPoints | app/src/main/java/com/iot/extron/smartlightswitch/lightswitch/FLightswitch.java:618-626 | The loaded points are exactly the bridge's points for the known saved ids, one per id. |
| Lightswitch.LoadGroups | app/src/main/java/com/iot/extron/smartlightswitch/lightswitch/FLightswitch.java:628-634 | The loaded groups are exactly the bridge's groups for the known saved ids, one per id. |
| Lightswitch.Load | app/src/main/java/com/iot/extron/smartlightswitch/lightswitch/FLightswitch.java:609-636 | The loaded aggregate is new, with points before groups. It holds exactly the known saved points and groups, each once, and each group light is resolved against the bridge state. |
| Lightswitch.SaveThenLoad | app/src/main/java/com/iot/extron/smartlightswitch/lightswitch/FLightswitch.java:588-636 | Saving then loading gives back the selected ids that the bridge still knows, each once, points first, with every group light resolved against the bridge state. When all are known, it gives back the same id sets. |
| TextUtilities.GetStringWithSub | app/src/main/java/com/iot/extron/smartlightswitch/utilities/TextUtilities.java:33-43 | The result is the template after replacing "{0}", then "{1}", … in turn. With no substitutions it is the template. |
| TextUtilities.NoMarkersUnchanged | app/src/main/java/com/iot/extron/smartlightswitch/utilities/TextUtilities.java:33-43 | A template with no "{" comes back unchanged. |
| TextUtilities.SingleMarker | app/src/main/java/com/iot/extron/smartlightswitch/utilities/TextUtilities.java:37-40 | A template p + "{0}" + q becomes p + the first substitution + q. |
| TextUtilities.NoRescan | app/src/main/java/com/iot/extron/smartlightswitch/utilities/TextUtilities.java:37-40 | When marker i occurs once, in brace-free context, step i splices substitution i in its place, and that text is not searched again for marker i. |
| TextUtilities.LaterMarkerReplaced | app/src/main/java/com/iot/extron/smartlightswitch/utilities/TextUtilities.java:37-40 | For brace-free p, q, u and v, p + "{0}" + q with substitutions u + "{1}" + v and s1 becomes p + u + s1 + v + q: a "{1}" put in by substitution 0 is replaced by substitution 1. |
| TextUtilities.ReplaceAllSplice | app/src/main/java/com/iot/extron/smartlightswitch/utilities/TextUtilities.java:39 | `replace` turns a single occurrence into the replacement and leaves the text around it alone. |
| TextUtilities.Marker | app/src/main/java/com/iot/extron/smartlightswitch/utilities/TextUtilities.java:39 | A marker starts with "{", ends with "}", and has no other "{". |
| MainActivity.ConnectToBridge | app/src/main/java/com/iot/extron/smartlightswitch/AMain.java:280-295 | Connecting clears the manual-disconnect flag and the errors, records the address, makes a bridge for it, and connects. |
| MainActivity.ReconnectToBridge | app/src/main/java/com/iot/extron/smartlightswitch/AMain.java:298-305 | Reconnecting clears the flag and the errors. It connects iff a bridge exists and is not connected. |
| MainActivity.DisconnectFromBridge | app/src/main/java/com/iot/extron/smartlightswitch/AMain.java:308-322 | With no bridge nothing happens. Otherwise every callback hears "disconnecting", in order, and then the bridge disconnects. The flag is set, and the errors, bridge and address are cleared. |
| MainActivity.AddCallback | app/src/main/java/com/iot/extron/smartlightswitch/AMain.java:333-336 | Adding appends the callback and changes nothing else. |
| MainActivity.RemoveCallback | app/src/main/java/com/iot/extron/smartlightswitch/AMain.java:341-344 | Removing drops the first occurrence of the callback, if present, keeping the others in order, and changes nothing else. |
| MainActivity.AddThenRemove | app/src/main/java/com/iot/extron/smartlightswitch/AMain.java:333-344 | Removing a callback just added restores the activity. |
| MainActivity.Broadcast | app/src/main/java/com/iot/extron/smartlightswitch/AMain.java:315-316 | A broadcast calls the method once on every callback, in list order. |
| MainActivity.OnConnectionEvent | app/src/main/java/com/iot/extron/smartlightswitch/AMain.java:464-502 | A handled connection event calls its method on every callback, in order. Any other event calls nothing. |
| MainActivity.ConnectionCallsDistinct | app/src/main/java/com/iot/extron/smartlightswitch/AMain.java:488-491 | Two events map to the same callback method only when both ask for the link button. |
| MainActivity.OnConnectionError | app/src/main/java/com/iot/extron/smartlightswitch/AMain.java:505-515 | The latest errors become the reported list. Nothing else changes. |
| MainActivity.DisconnectedAfterManual | app/src/main/java/com/iot/extron/smartlightswitch/AMain.java:497-498 | After a manual disconnect, the Disconnected event reports manual = true with no errors. |
| MainActivity.DisconnectedAfterErrors | app/src/main/java/com/iot/extron/smartlightswitch/AMain.java:505-515 | After connecting and then receiving errors, the Disconnected event reports manual = false and those errors. |
| MainActivity.OnBridgeStateUpdated | app/src/main/java/com/iot/extron/smartlightswitch/AMain.java:527-564 | A handled state-update event calls its method on every callback, in order. Any other event calls nothing. |
| MainActivity.UpdateCallsOneToOne | app/src/main/java/com/iot/extron/smartlightswitch/AMain.java:527-564 | State-update events map one-to-one onto the seven update methods. |
| MainActivity.GetLastUsedBridge | app/src/main/java/com/iot/extron/smartlightswitch/AMain.java:258-275 | No bridge is returned iff none is known. Otherwise the result is the first known bridge with the latest connection time. |
| MainActivity.StartupRoute | app/src/main/java/com/iot/extron/smartlightswitch/AMain.java:216-233 | A non-empty saved address is reconnected to. Otherwise the last used bridge's connect screen is shown, or the bridge finder when none is known. |
| MainActivity.Startup | app/src/main/java/com/iot/extron/smartlightswitch/AMain.java:216-233 | Start-up reconnects iff the saved address is non-empty, and then to that address. Otherwise it shows the connect screen for the first known bridge with the latest connection time, or the bridge finder iff no bridge is known. |
| MainActivity.AddressBytes | app/src/main/java/com/iot/extron/smartlightswitch/AMain.java:187-188 | The address splits into four bytes, each 0..255. |
| MainActivity.AddressBytesRoundTrip | app/src/main/java/com/iot/extron/smartlightswitch/AMain.java:187-188 | The four bytes, least significant first, recombine to the address's low 32 bits. |

## Left out

- Threads, `runOnUiThread`, the heartbeat, snackbars, animations and view inflation: these are Android UI plumbing. Callbacks are modelled as returned effects.
- Hue SDK calls (`bridge.connect`, `updateState`, `recallScene`): these are foreign calls. Their replies are inputs to the fan-in model.
- `InetAddress.getHostAddress` formatting of the address bytes: a foreign call. Only the byte split is modelled.
- Text colours from `ColorUtilities` contrast and averaging, `ColorPickerView`, `LightObject`, the other fragments, the application class and the light-picker opening code: not part of the light-switch core.
- Lightswitch.ScaleToRaw: computes in exact integers, not Java `float`. The two agree only while float rounding does not cross an integer. For 0..100 the bounds stated are those of exact division.
- Lightswitch.PercentFromRaw: exact integer division, not Java `float`, for the same reason as ScaleToRaw.
- Aggregate.GetColors: returns the colours in order of first occurrence. The source then sorts them by HSV with floating-point hue, saturation and value, which is not modelled.
- Aggregate.GetColorsSpec: states the colours as a set and not their order, for the same reason.
- Aggregate.UpdateLightState: an id the bridge no longer knows makes the refresh return a failure and no aggregate. In the source the lights have already been cleared by then. An unknown point id stores `SingleLight(null)`, which fails later, on first use. An unknown group id makes `new GroupLight(null, bridgeState)` throw at once, after the points have been re-added.
- Bridge.PointColor: the RGB channels are modelled as bytes. The SDK's `HueColor.RGB` fields are Java `int`s, and `Color.argb` does not mask them, so out-of-range channels would spill into other channels. Bridge.PointColorInjective relies on the byte range.
- Aggregate.FilterValidScenesSpec: groups come out in first-occurrence order of names. `Collectors.groupingBy` into a `HashMap` has no specified order.
- Lightswitch.Load: ids are visited in the order `LookupAll` chooses. `ArraySet` iteration order is not modelled. All points are then added before all groups, the same sequence of adds as in the source.
- Lightswitch.BindData: when `getBrightness` throws, the `on` field has already been updated in the source. The model returns the failure without the partial update.
- Lightswitch.Save: the `SharedPreferences` editor is a map from key to id set. `apply()` is treated as immediate.
- MainActivity.OnConnectionError: the error list is modelled as a value. In the source the activity keeps the SDK's own list object, later `clear()`s clear that same object in place, and `bridgeDisconnected` receives that object. A callback that kept the list would see it emptied later. The callbacks in `FConnectToBridge` and `FLightswitch` read it at once, so what they see is what the model gives.
- MainActivity.GetLastUsedBridge: connection dates are integers (milliseconds). A null date, which would throw in `compareTo`, is not modelled.
- `setColor`, `turnOn`, `turnOff`, `recallScene` and the fragment's other click handlers send SDK light states. They are not part of the core beyond `Aggregate.SetColor` and `Lightswitch.SetBrightness`.

## Findings

| source | as written | input that shows it | evidently intended | confidence | as-written member | corrected member |
|---|---|---|---|---|---|---|
| app/src/main/java/com/iot/extron/smartlightswitch/models/AggregateLight.java:188 | With exactly one light, the guard `if (color != Light.COLOR_MULTIPLE)` tests the aggregate's stored colour rather than the light's. COLOR_MULTIPLE and the initial COLOR_UNDEFINED are both 0, so a fresh aggregate reports COLOR_UNDEFINED. | A new aggregate with one red lamp: `getColor()` returns 0. | The single light's own colour, as the method's documentation and the many-light branch give. | not executed | Aggregate.ColorGuardCounterexample | Aggregate.ColorRuleAsDocumented |
