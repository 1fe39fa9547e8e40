# Xidi core logic in Dafny

Xidi presents XInput game controllers to applications through the DirectInput and WinMM joystick
interfaces. This project models the deterministic core of that translation layer and proves
what it promises. Each part below is a Dafny module in its own file.

- `MapperBase` (mapper_base.dfy) is the older generation's data-format binder and axis-property
  store.
  - It walks an application's list of object descriptors and claims axis, button and POV instances.
  - It keeps the two-way instance/offset map.
  - It validates and stores deadzone, saturation and range for each axis.
- `DeviceWrapper` (device_wrapper.dfy) is the older generation's DirectInput device wrapper.
  - It runs the mapper, then the underlying device, and rolls the mapper back on failure.
  - It routes properties to the mapper or the controller.
  - It overwrites the object counts in the device capabilities.
- `VirtualDevice` (virtual_device.dfy) is the newer generation's virtual DirectInput device:
  - property-header validation;
  - element identification and the object-id round trip;
  - native offsets;
  - property routing;
  - atomic data-format installation with its event filter;
  - force-feedback state and commands;
  - buffered-event retrieval.
- `MapperBuilder` (mapper_builder.dfy) models run-time mapper construction from named blueprints. It follows the contract the builder's test suite asserts:
  - blueprints have templates and sparse overrides;
  - building is depth-first with cycle detection.
- `AxisTransform` (axis_transform.dfy) is an integer reference for how an axis value is transformed. It covers:
  - deadzone, saturation and range;
  - the five-region shape the virtual-controller tests check;
  - C++ truncating division.
- `JoyWinMM` (joy_winmm.dfy) is the WinMM joystick layer:
  - the joystick index map that places virtual controllers before or after the system's devices;
  - index translation and `joyGetNumDevs`;
  - capability flags, button and POV packing;
  - the results of unsupported operations.
- `Keyboard` (keyboard.dfy) is a virtual key's per-controller press state and its transitions.
- `PathStrings` (path_strings.dfy) covers the string post-processing behind Xidi's run-time path constants and the trimming of system error text.

Shared pieces:
- `DirectInput` (directinput.dfy) holds the DirectInput and WinMM constants and the object-identifier encoding.
- `Arithmetic` (arithmetic.dfy) holds division lemmas.
- `Wrappers` (wrappers.dfy) holds `Option`.

Subclass hooks, the underlying device, the physical controller and the operating system are
parameters of the functions that need them. These include the mapper's instance encoding, the
underlying device's result codes, a controller's state and capabilities, and the system directory
and error text.

Behaviour is modelled as the code is written, including its quirks:
- `SetApplicationDataFormat` empties both maps before it looks at any descriptor.
- Only axis descriptors claim and check their packet bytes. Two any-instance button descriptors at one offset therefore bind two buttons to that offset. The offset-keyed map keeps the first, as `std::map::insert` does, so the two maps are not one-to-one (`SharedOffsetBindsTwoButtons`).
- A rejected or undefined format leaves the entries bound before the walk stopped in both maps, with the binding marked invalid. The lookups test validity first, so those entries are never seen (`FailedFormatHidesEntries`).
- An any-instance typed-axis descriptor claims its offset even when no axis is found.
- The search for a free axis of a type stops when `AxisInstanceIndex` returns a negative index, but only after passing that index to `SelectInstance`. `SelectInstance` tests only `instanceToSelect < instanceCount`, so every failed search selects at a negative index. The index types are declared in Mapper/Base.h, which is not part of this model, so the outcome of that selection is the parameter `Params.negativeIndexMisses`. When it misses, the descriptor stays unbound. Otherwise the selection writes below the axis array; that case is the explicit `NegativeIndex` outcome, and `SetApplicationDataFormat` reports it as `Undefined` (`UnboundTypedAxisStillClaimsOffset` shows both).
- Success is tested with `> 0` on the untyped axis, button and POV paths and with `>= 0` on the typed-axis paths.
- The "next unused" advance reads `used[next]` before it checks the bound. It is modelled with an arbitrary value for the out-of-range read, and `AdvanceNextFindsUnused` proves the result does not depend on it.
- `CheckAndSetOffsets` scans an axis window byte by byte and stops at the first claimed byte. A window that runs past the end of the packet is therefore rejected when one of its bytes inside the packet is already claimed. Only when all of those bytes are clear does the scan read past the end; that case is the explicit `OutOfBounds` outcome, and `SetApplicationDataFormat` reports it as `Undefined`.

## Model

| member | source | states |
|---|---|---|
| DirectInput.MakeInstance | Source/Mapper/Base.cpp:105 | the instance word has a clear type byte, fits in 24 bits and carries the instance number in bits 8-23 |
| DirectInput.GetInstance | Source/Mapper/Base.cpp:159 | the extracted instance number is a 16-bit value |
| DirectInput.GetType | Source/Mapper/Base.cpp:161 | the extracted type is one byte |
| DirectInput.ObjectId | Source/VirtualDirectInputDevice.cpp:534-550 | an object id built from a type and an instance decodes back to that type and that instance |
| DirectInput.LowBits | Source/Mapper/Base.cpp:156-180 | the low 24 bits of an identifier are exactly its type byte plus 256 times its instance number |
| MapperBase.FillObjectInstanceInfo | Source/Mapper/Base.cpp:95-132 | an instance's native slot has the size of its type and lies inside the native packet of all axes, POVs and buttons |
| MapperBase.NativeLayoutDisjoint | Source/Mapper/Base.cpp:95-132 | the native slots of two different instances never overlap |
| MapperBase.InstanceFromObjectId | Source/Mapper/Base.cpp:156-180 | an identifier decodes to -1 exactly when its type is not axis, button or POV or its instance is out of range; otherwise to an instance of that type and index |
| MapperBase.ObjectIdRoundTrip | Source/Mapper/Base.cpp:95-180 | decoding the object id reported for an instance gives back that instance |
| MapperBase.CheckAndSetOffsets | Source/Mapper/Base.cpp:82-91 | succeeds exactly when every flag of the window is clear, and then sets exactly the window's flags and no others |
| MapperBase.SelectInstance | Source/Mapper/Base.cpp:207-218 | claims index k exactly when k is in range and unused, marking only k; otherwise returns -1 and changes nothing (a negative k is settled by `SearchStep`, the only path that passes one unchecked) |
| MapperBase.Insert | Source/Mapper/Base.cpp:533-534 | records a claimed instance in both maps, keeping every earlier entry and the mirror property |
| MapperBase.SearchAxis | Source/Mapper/Base.cpp:550-568 | the search fails exactly when every axis of the type, up to the first index `AxisInstanceIndex` does not name, is used; a found axis is in range, was unused, is now marked, and its identifier is unbound; a failed search ends at a negative index and changes nothing |
| MapperBase.SearchStep | Source/Mapper/Base.cpp:550-568 | an any-instance typed-axis descriptor binds a previously free axis at its offset, marking only that axis, whenever one is free; when none is free it changes nothing if the negative-index selection misses, and is the `NegativeIndex` outcome exactly when it does not |
| MapperBase.AxisStep | Source/Mapper/Base.cpp:514-601 | a claimed byte of the window inside the packet rejects the descriptor; otherwise a window running past the packet end is out of bounds, and only then; a success claims exactly the 4-byte window on top of the earlier claims; an any-instance descriptor with a free window continues, except that it is the `NegativeIndex` outcome exactly when it names an axis type the mapper has, every axis of that type is used, and the negative-index selection does not miss; an unknown axis type is rejected unless any instance is allowed; a specific axis, by number or by type, is rejected exactly when it is missing or already used (or, by number, has identifier 0) and otherwise bound at the descriptor's offset |
| MapperBase.PickStep | Source/Mapper/Base.cpp:602-661 | a button or POV descriptor never reaches an index outside its arrays; one with a foreign GUID is rejected; an any-instance one always continues; an out-of-range or used specific instance is rejected; success keeps every earlier binding |
| MapperBase.Step | Source/Mapper/Base.cpp:507-682 | one descriptor step keeps the walk invariant and every earlier byte claim; only the axis branch can read past the packet or select below the axis array, and the latter only when the negative-index selection does not miss; an axis-branch descriptor with a claimed byte is rejected; a descriptor of no known type is skipped exactly when it allows any instance and rejected otherwise |
| MapperBase.AdvanceNext | Source/Mapper/Base.cpp:684-686 | the "next unused" counter only moves forward and stays within the count |
| MapperBase.AdvanceNextFindsUnused | Source/Mapper/Base.cpp:684-686 | the counter stops at the first unused index after skipping only used ones, whatever the out-of-range read returns |
| MapperBase.Advance | Source/Mapper/Base.cpp:684-686 | advancing the three counters keeps the walk invariant and the offset claims |
| MapperBase.Walk | Source/Mapper/Base.cpp:507-687 | walking the descriptor list keeps the walk invariant, the packet size and every byte claimed at the start |
| MapperBase.Reached | Source/Mapper/Base.cpp:507-687 | the claims in hand where the walk stops keep the walk invariant, and are the walk's final claims when it completes |
| MapperBase.WalkStaysInBounds | Source/Mapper/Base.cpp:514-520 | when every axis descriptor's window fits in the packet, the walk never reads past the end (a sufficient condition; `RejectedIffSomeDescriptorRejected` gives the exact one) |
| MapperBase.WalkStaysAboveStart | Source/Mapper/Base.cpp:207-218 | when the selection at a negative axis index misses, the walk never selects below the axis array |
| MapperBase.FreshClaims | Source/Mapper/Base.cpp:480-505 | the walk starts from a state meeting the walk invariant with a packet of the given size and no byte claimed |
| MapperBase.SetApplicationDataFormat | Source/Mapper/Base.cpp:475-696 | the binding is valid exactly when the format is accepted; whatever the outcome, both maps hold the bindings the walk made before it stopped (all of them when it completes), mirrored, every bound instance's offset bound in turn, and every instance decodable; an undefined outcome needs an axis window that does not fit or a negative-index selection that does not miss, and the former whenever the selection misses; axis properties are never touched |
| MapperBase.WalkAppend | Source/Mapper/Base.cpp:507-687 | walking a concatenated descriptor list is walking the first part and then the second from where the first ended, or stopping where the first stopped |
| MapperBase.BeforeNext | Source/Mapper/Base.cpp:507-687 | the state before the next descriptor is this descriptor's step followed by the counter advance, or the step's stop |
| MapperBase.BeforeKeepsClaims | Source/Mapper/Base.cpp:82-91 | a packet byte claimed at one point of the walk is still claimed at every later point the walk reaches |
| MapperBase.StopDecidesWalk | Source/Mapper/Base.cpp:673-682 | a descriptor the walk reaches that is rejected or reads past the packet decides the whole walk's outcome |
| MapperBase.StopsAtShift | Source/Mapper/Base.cpp:507-687 | after a first descriptor that continues, the walk stops at descriptor j+1 exactly when the walk of the rest stops at its descriptor j |
| MapperBase.WalkStopsSomewhere | Source/Mapper/Base.cpp:673-682 | a walk that does not complete stopped at some descriptor with that same outcome |
| MapperBase.RejectedIffSomeDescriptorRejected | Source/Mapper/Base.cpp:673-682 | a format is rejected exactly when some descriptor the walk reaches is rejected, and undefined exactly when some descriptor it reaches reads past the packet or selects below the axis array |
| MapperBase.ResetApplicationDataFormat | Source/Mapper/Base.cpp:790-796 | empties both maps and clears validity, keeping the axis properties |
| MapperBase.InstanceForOffset | Source/Mapper/Base.cpp:422-435 | -1 when no format is set or the offset is unbound, else the bound instance |
| MapperBase.OffsetForInstance | Source/Mapper/Base.cpp:458-471 | the invalid offset when no format is set or the instance is unbound, else the bound offset |
| MapperBase.OffsetLookupRoundTrip | Source/Mapper/Base.cpp:422-471 | after an accepted format, looking up a bound offset's instance and then that instance's offset gives the offset back |
| MapperBase.InstanceFirstRoundTrip | Source/Mapper/Base.cpp:422-471 | after an accepted format, the offset of any bound instance is bound in turn, and looking up its instance and then that instance's offset gives the same offset |
| MapperBase.FailedFormatHidesEntries | Source/Mapper/Base.cpp:422-471 | after a rejected or undefined format, every offset looks up to -1 and every instance to the invalid offset, whatever entries the maps keep |
| MapperBase.ResetForgetsBinding | Source/Mapper/Base.cpp:422-471 | after a reset every offset maps to -1 and every instance to the invalid offset |
| MapperBase.IsPropertyHandledByMapper | Source/Mapper/Base.cpp:446-454 | the mapper handles axis mode, deadzone, range and saturation (a predicate; `DeviceWrapper.RouteProperty` carries its contract) |
| MapperBase.InitializeAxisProperties | Source/Mapper/Base.cpp:136-150 | creates default properties for every axis only when none exist, changing nothing else |
| MapperBase.InitializeIsIdempotent | Source/Mapper/Base.cpp:136-150 | initializing twice is initializing once |
| MapperBase.InstanceFromSpec | Source/Mapper/Base.cpp:184-203 | a found instance is decodable; identification methods other than by-offset and by-id find nothing |
| MapperBase.LocateAxis | Source/Mapper/Base.cpp:375-398 | a property request addresses an axis exactly when its size matches, it is not whole-device and it names an axis instance, whose index is returned; a wrong size is invalid, a whole-device request unsupported, an unknown object not found and a non-axis object unsupported |
| MapperBase.GetMappedProperty | Source/Mapper/Base.cpp:346-418 | unhandled properties are unsupported and a bad header is invalid; axis mode succeeds with the absolute mode exactly for a DWORD-sized request and is invalid otherwise; deadzone, saturation and range answer with the axis lookup's code and, on success, the located axis's stored value; failures return no value |
| MapperBase.SetMappedProperty | Source/Mapper/Base.cpp:700-786 | unhandled properties and axis mode are unsupported and a bad header is invalid; deadzone, saturation and range fail with the axis lookup's code, then succeed exactly when the value is acceptable and are invalid otherwise; failure changes nothing beyond initialization; success updates only the addressed axis's field |
| MapperBase.SetThenGet | Source/Mapper/Base.cpp:346-418 | reading back a property just set gives the value that was written |
| MapperBase.SetTouchesOnlyAddressedAxis | Source/Mapper/Base.cpp:735-777 | a successful set leaves every other axis's properties as they were |
| MapperBase.OverlappingAxisWindowsReject | Source/Mapper/Base.cpp:514-520 | any two descriptors of a format, at any positions, whose 4-byte windows overlap and which both reach the axis branch make the whole format rejected |
| MapperBase.ClaimedByteRejectsBeforePacketEnd | Source/Mapper/Base.cpp:82-91 | a window past the packet end whose in-packet bytes are already claimed is rejected, not undefined: two any-axis descriptors at offsets 2 and 4 of a six-byte packet make the format rejected |
| MapperBase.ZeroIdentifierIsNeverBound | Source/Mapper/Base.cpp:527-540 | when axis 0 has identifier 0, an any-instance axis descriptor is skipped without binding and a specific request for it rejects the whole format (the `> 0` test) |
| MapperBase.UnboundTypedAxisStillClaimsOffset | Source/Mapper/Base.cpp:514-568 | a typed any-instance axis descriptor that finds no axis still claims its bytes, so a later axis at the same offset makes the format fail, while without it the format is accepted; when the search's final selection, at index -1, does not miss, the format is undefined instead |
| MapperBase.SharedOffsetBindsTwoButtons | Source/Mapper/Base.cpp:602-661 | two any-instance button descriptors at offset 0 are accepted and bind buttons 1 and 2 both to offset 0, while the offset map keeps only button 1, so looking up button 2's offset leads back to button 1 |
| DeviceWrapper.SetDataFormat | Source/WrapperIDirectInputDevice8.cpp:265-278 | a format the mapper rejects returns invalid-parameter without asking the device and keeps the mapper's invalid binding; otherwise the device's result is returned; a device failure after an accepted format empties the mapper's maps; every failure leaves the binding invalid |
| DeviceWrapper.BindingValidIffOk | Source/WrapperIDirectInputDevice8.cpp:265-278 | the mapper's binding is valid afterwards exactly when the call returns DI_OK |
| DeviceWrapper.MapperRejectionSkipsDevice | Source/WrapperIDirectInputDevice8.cpp:265-278 | when the mapper rejects the format, the outcome does not depend on the device |
| DeviceWrapper.RouteProperty | Source/Mapper/Base.cpp:446-454 | a property goes to the mapper exactly when it is axis mode, deadzone, range or saturation |
| DeviceWrapper.GetProperty | Source/WrapperIDirectInputDevice8.cpp:201-207 | controller-routed properties return the controller's answer unchanged; mapper-routed ones return exactly the mapper's answer, after initializing its axis properties |
| DeviceWrapper.SetProperty | Source/WrapperIDirectInputDevice8.cpp:289-295 | controller-routed properties return the controller's result unchanged; mapper-routed ones return exactly the mapper's result and state; a failed mapper set changes nothing beyond initialization |
| DeviceWrapper.MapperRoutedIgnoresController | Source/WrapperIDirectInputDevice8.cpp:201-207 | a mapper-routed property's outcome does not depend on the controller |
| DeviceWrapper.WrapperSetThenGet | Source/WrapperIDirectInputDevice8.cpp:201-295 | a deadzone, range or saturation set through the wrapper that succeeds reads back through the wrapper as the written value |
| DeviceWrapper.GetCapabilities | Source/WrapperIDirectInputDevice8.cpp:137-145 | the device's result is returned; on DI_OK the axis, button and POV counts are replaced by the mapper's and nothing else changes |
| DeviceWrapper.FixedResult | Source/WrapperIDirectInputDevice8.cpp:82-254 | Initialize answers S_FALSE and every other fixed operation is unsupported |
| VirtualDevice.AxisIndex | Source/VirtualDirectInputDevice.cpp:1484-1489 | every axis type has a position below EAxis::Count, and that position maps back to the type |
| VirtualDevice.Capabilities.FindAxis | Source/VirtualDirectInputDevice.cpp:539 | returns the first index holding the axis type, or -1 exactly when the controller lacks it |
| VirtualDevice.GetObjectId | Source/VirtualDirectInputDevice.cpp:534-550 | axes get the absolute-axis type, buttons the button type with their number, the POV the POV type with instance 0, and only the whole controller gets 0 |
| VirtualDevice.IdentifyElement | Source/VirtualDirectInputDevice.cpp:640-688 | whole-device needs dwObj 0; by-offset needs a data format; by-id accepts an axis index below both counts, a button below both counts and POV instance 0; other methods identify nothing |
| VirtualDevice.IdentifyObjectIdRoundTrip | Source/VirtualDirectInputDevice.cpp:534-550 | identifying by id the object id of any present axis, button or POV gives that element back |
| VirtualDevice.ObjectIdOfIdentified | Source/VirtualDirectInputDevice.cpp:658-683 | an element identified by id has exactly the low 24 bits of that id as its object id |
| VirtualDevice.NativeOffsetForElement | Source/VirtualDirectInputDevice.cpp:512-530 | every element except the whole controller has a native offset: axes by stride, buttons after the axes, the POV after the buttons |
| VirtualDevice.NativeOffsetsDistinct | Source/VirtualDirectInputDevice.cpp:512-530 | two different elements never share a native offset |
| VirtualDevice.RequiredSize | Source/VirtualDirectInputDevice.cpp:229-278 | every known property has a required structure size and unknown ones have none |
| VirtualDevice.IsPropertyHeaderValid | Source/VirtualDirectInputDevice.cpp:211-278 | valid exactly when the header is present and of the right size, whole-device has dwObj 0, device-only properties are whole-device, and the size matches the property's structure |
| VirtualDevice.GetProperty | Source/VirtualDirectInputDevice.cpp:1280-1370 | an invalid header is invalid-parameter; an unidentified object is not-found; deadzone, range and saturation succeed exactly on an axis and report its stored value; axis mode succeeds exactly on the whole controller and reports absolute mode; granularity, logical and physical range succeed exactly on an axis or the whole controller, reporting 1 and the analog limits; buffer size, force-feedback gain and joystick id always succeed with the device's stored values; any other failure of a known property is invalid-parameter; unknown properties are unsupported |
| VirtualDevice.SetAll | Source/VirtualDirectInputDevice.cpp:1559 | setting every axis succeeds exactly when setting each axis would, and then holds each axis's new value |
| VirtualDevice.SetProperty | Source/VirtualDirectInputDevice.cpp:1527-1592 | an invalid header is invalid-parameter and an unidentified object not-found; deadzone, range and saturation on an identified element are exactly the axis setter's outcome; buffer size and force-feedback gain succeed exactly when the controller accepts, and then store the requested value; on an identified element, axis mode reports no effect for absolute mode and unsupported otherwise, and granularity, joystick id, logical and physical range and unknown properties are unsupported, changing nothing; failure changes nothing, and each property changes only its own part of the state |
| VirtualDevice.SetAxisProperty | Source/VirtualDirectInputDevice.cpp:1553-1587 | an axis target changes just that axis and a whole-controller target changes all axes, each succeeding exactly when the value is acceptable; other targets are invalid-parameter |
| VirtualDevice.SetOne | Source/VirtualDirectInputDevice.cpp:1553-1587 | a deadzone, saturation or range request for one axis is accepted exactly when the value is inside its bounds (min < max for a range), and then changes only that property of the axis, to the requested value |
| VirtualDevice.SetOneKeepsValid | Source/VirtualDirectInputDevice.cpp:1553-1587 | an accepted set keeps an axis's properties within their bounds |
| VirtualDevice.SetThenGetDeadzone | Source/VirtualDirectInputDevice.cpp:1307-1312 | a deadzone within bounds set on an axis succeeds, and reading it back gives the written value |
| VirtualDevice.SetAllThenGetRange | Source/VirtualDirectInputDevice.cpp:1349-1356 | a whole-controller range with min < max succeeds, and reading the range of any axis then gives the written range |
| VirtualDevice.SetThenGetControllerProperty | Source/VirtualDirectInputDevice.cpp:1549-1563 | a buffer size or force-feedback gain the controller accepts succeeds, and reading it back gives the written value |
| VirtualDevice.SetTouchesOnlyAddressedAxis | Source/VirtualDirectInputDevice.cpp:1553-1587 | setting one axis leaves every other axis unchanged |
| VirtualDevice.EventFilterFor | Source/VirtualDirectInputDevice.cpp:1480-1502 | the event filter holds exactly the elements the new data format has |
| VirtualDevice.AxisVisitStep | Source/VirtualDirectInputDevice.cpp:1484-1489 | the i-th axis of the enumeration has position i |
| VirtualDevice.SetDataFormat | Source/VirtualDirectInputDevice.cpp:1468-1505 | a missing or unbuildable format is invalid-parameter and changes nothing; otherwise the format is installed and the event filter holds exactly its elements; the axis properties, buffer capacity, gain and identifier never change |
| VirtualDevice.FfStateFlags | Source/VirtualDirectInputDevice.cpp:1213-1241 | power-on is always set; exactly one of actuators-off and actuators-on; empty exactly when empty; stopped exactly when non-empty, not paused and not playing; paused exactly when paused |
| VirtualDevice.FlagBits | Source/VirtualDirectInputDevice.cpp:1213-1241 | each DIGFFS flag added into the state word is readable as its own bit |
| VirtualDevice.GetForceFeedbackState | Source/VirtualDirectInputDevice.cpp:1202-1241 | a missing output is invalid-parameter; an unregistered device is not-exclusively-acquired; otherwise DI_OK with the composed flags |
| VirtualDevice.SendForceFeedbackCommand | Source/VirtualDirectInputDevice.cpp:1409-1447 | an unregistered device is not-exclusively-acquired; a registered one accepts exactly the six DISFFC commands, yields the action that command names, and rejects anything else as invalid-parameter |
| VirtualDevice.CommandActionRoundTrip | Source/VirtualDirectInputDevice.cpp:1409-1447 | every force-feedback action is produced by exactly its own DISFFC command, so command and action determine each other |
| VirtualDevice.ActuatorCommandsSetMutedState | Source/VirtualDirectInputDevice.cpp:1423-1429 | actuators-off mutes the device and actuators-on unmutes it |
| VirtualDevice.PauseStopAndResetCommands | Source/VirtualDirectInputDevice.cpp:1413-1441 | pause and continue set the pause state, stop-all stops every effect, and reset clears the device |
| VirtualDevice.GetDeviceData | Source/VirtualDirectInputDevice.cpp:1068-1131 | no format, no count, a wrong record size or unknown flags are invalid-parameter; unbuffered is not-buffered; otherwise the result is buffer-overflow exactly when the buffer overflowed and DI_OK otherwise, min(requested, buffered) events are reported, and they are removed only when not peeking |
| VirtualDevice.PeekThenRead | Source/VirtualDirectInputDevice.cpp:1079-1131 | a peek leaves the buffer intact and a following read returns the same events and removes them |
| VirtualDevice.FixedResult | Source/VirtualDirectInputDevice.cpp:808-1640 | Initialize answers DI_OK, Poll answers DI_NOEFFECT and the other fixed operations are unsupported |
| MapperBuilder.CreateBlueprint | Source/Test/Case/MapperBuilderTest.cpp:124-169 | creation succeeds exactly when the name is neither a blueprint nor a registered mapper, and adds an empty blueprint; failure changes nothing |
| MapperBuilder.GetBlueprintTemplate | Source/Test/Case/MapperBuilderTest.cpp:172-186 | a template name is reported exactly for existing blueprints |
| MapperBuilder.GetBlueprintElementMapSpec | Source/Test/Case/MapperBuilderTest.cpp:172-186 | an override spec is reported exactly for existing blueprints |
| MapperBuilder.SetBlueprintElementMapper | Source/Test/Case/MapperBuilderTest.cpp:189-291 | succeeds exactly for an existing blueprint and a valid slot, then sets that one override, leaving other blueprints untouched |
| MapperBuilder.ClearBlueprintElementMapper | Source/Test/Case/MapperBuilderTest.cpp:207-248 | succeeds exactly when the slot has an override, then removes only it; failure changes nothing |
| MapperBuilder.SetBlueprintTemplate | Source/Test/Case/MapperBuilderTest.cpp:295-329 | succeeds for any template name exactly when the blueprint exists, setting only its template |
| MapperBuilder.ApplyOverrides | Source/Test/Case/MapperBuilderTest.cpp:407-494 | an overridden slot holds its override or is removed by a null one; other slots keep the template's mapper |
| MapperBuilder.BuildFrom | Source/Test/Case/MapperBuilderTest.cpp:333-587 | a successful build keeps every registered mapper and registers the named one |
| MapperBuilder.Build | Source/Test/Case/MapperBuilderTest.cpp:333-587 | an unknown blueprint cannot be built; a built one is registered and nothing registered is lost |
| MapperBuilder.BuildWithoutTemplate | Source/Test/Case/MapperBuilderTest.cpp:333-381 | without a template the built map holds exactly the non-null overrides |
| MapperBuilder.BuildFromRegisteredTemplate | Source/Test/Case/MapperBuilderTest.cpp:383-494 | with a registered template the built map is the template's map with the overrides applied |
| MapperBuilder.NoOverridesCopiesTemplate | Source/Test/Case/MapperBuilderTest.cpp:383-402 | no overrides copy the template exactly |
| MapperBuilder.SelfTemplateFails | Source/Test/Case/MapperBuilderTest.cpp:497-505 | a blueprint that is its own template cannot be built |
| MapperBuilder.UnknownTemplateFails | Source/Test/Case/MapperBuilderTest.cpp:508-517 | a template that is neither registered nor a blueprint makes the build fail |
| MapperBuilder.CycleFails | Source/Test/Case/MapperBuilderTest.cpp:570-587 | building any member of a template cycle fails, whatever is already in progress |
| MapperBuilder.BuildFailsOnCycle | Source/Test/Case/MapperBuilderTest.cpp:570-587 | Build fails for every blueprint on a template cycle |
| MapperBuilder.ChainBuilds | Source/Test/Case/MapperBuilderTest.cpp:521-541 | building a chain member succeeds and registers it and every later member of the chain |
| MapperBuilder.BuildRegistersChain | Source/Test/Case/MapperBuilderTest.cpp:521-541 | building the head of an acyclic template chain registers the whole chain |
| MapperBuilder.SharedTemplateBuildsForEach | Source/Test/Case/MapperBuilderTest.cpp:545-567 | two blueprints sharing a template both build, the second reusing the registered template |
| MapperBuilder.UnknownBlueprintUnchanged | Source/Test/Case/MapperBuilderTest.cpp:273-329 | every operation on an unknown blueprint fails and changes nothing |
| MapperBuilder.SetThenClearRestores | Source/Test/Case/MapperBuilderTest.cpp:207-225 | setting a fresh slot and clearing it restores the builder |
| MapperBuilder.CreatedBlueprintIsEmpty | Source/Test/Case/MapperBuilderTest.cpp:141-186 | a new blueprint has no overrides and an empty template, and creating it again fails |
| MapperBuilder.CreateDistinctNamesCommute | Source/Test/Case/MapperBuilderTest.cpp:124-138 | creating two distinct new blueprint names succeeds in either order, gives the same builder, and leaves both names present |
| AxisTransform.TruncDiv | Source/Test/Case/VirtualControllerTest.cpp:219 | division truncates toward zero: floor for non-negative and ceiling for negative dividends |
| AxisTransform.SetDeadzone | Source/Test/Case/VirtualControllerTest.cpp:228 | accepted exactly within the deadzone bounds, then changes only the deadzone |
| AxisTransform.SetSaturation | Source/Test/Case/VirtualControllerTest.cpp:230 | accepted exactly within the saturation bounds, then changes only the saturation |
| AxisTransform.SetRange | Source/Test/Case/VirtualControllerTest.cpp:229 | accepted exactly when min < max, then changes only the range |
| AxisTransform.SettersKeepPropertiesValid | Source/Test/Case/VirtualControllerTest.cpp:228-230 | every accepted setter keeps the properties valid |
| AxisTransform.CutoffsOf | Source/Test/Case/VirtualControllerTest.cpp:218-226 | each of the four cutoffs lies between the neutral and its own extreme; a zero deadzone puts both deadzone cutoffs at the neutral; a maximal saturation puts the saturation cutoffs at the analog limits |
| AxisTransform.CutoffMovesOutward | Source/Test/Case/VirtualControllerTest.cpp:222-225 | a larger proportion moves a cutoff further from the neutral toward its extreme |
| AxisTransform.SweepWidensCutoffs | Source/Test/Case/VirtualControllerTest.cpp:302-318 | raising the deadzone or the saturation, as the sweeps do, never moves any cutoff inward |
| AxisTransform.SweepsKeepDeadzoneWithinSaturation | Source/Test/Case/VirtualControllerTest.cpp:302-318 | the sweeps' configurations (maximal saturation, or zero deadzone) all keep the deadzone within the saturation |
| AxisTransform.Cutoff | Source/Test/Case/VirtualControllerTest.cpp:222-225 | a cutoff lies between neutral and the extreme, equal to neutral at 0 and to the extreme at the maximum |
| AxisTransform.CutoffsOrdered | Source/Test/Case/VirtualControllerTest.cpp:222-225 | saturation-negative ≤ deadzone-negative ≤ neutral ≤ deadzone-positive ≤ saturation-positive, within the analog limits |
| AxisTransform.RangeNeutral | Source/Test/Case/VirtualControllerTest.cpp:219 | the neutral is the truncated midpoint of the range |
| AxisTransform.Ramp | Source/Test/Case/VirtualControllerTest.cpp:244-276 | a ramp value lies within its span |
| AxisTransform.RampMonotone | Source/Test/Case/VirtualControllerTest.cpp:244-276 | a ramp never decreases |
| AxisTransform.Shape | Source/Test/Case/VirtualControllerTest.cpp:234-286 | the five-region shape stays within [lo, hi] |
| AxisTransform.Apply | Source/Test/Case/VirtualControllerTest.cpp:234-286 | the transformed value lies within the configured range |
| AxisTransform.Plateaus | Source/Test/Case/VirtualControllerTest.cpp:234-242 | below negative saturation the output is the range minimum; in the deadzone it is the neutral; above positive saturation it is the maximum |
| AxisTransform.RampNearLinear | Source/Test/Case/VirtualControllerTest.cpp:244-276 | a ramp is within 1 below exact linear interpolation |
| AxisTransform.ShapeNegativeRamp | Source/Test/Case/VirtualControllerTest.cpp:244-254 | in the negative ramp region the output is within 1 of linear interpolation from the minimum to the neutral |
| AxisTransform.ShapePositiveRamp | Source/Test/Case/VirtualControllerTest.cpp:266-276 | in the positive ramp region the output is within 1 of linear interpolation from the neutral to the maximum |
| AxisTransform.ShapeMonotone | Source/Test/Case/VirtualControllerTest.cpp:234-286 | the five-region shape is monotone |
| AxisTransform.Monotone | Source/Test/Case/VirtualControllerTest.cpp:234-286 | the transform never decreases as the input increases |
| JoyWinMM.EncodeVirtual | Source/WrapperJoyWinMM.cpp:194 | a virtual controller's entry is negative |
| JoyWinMM.VirtualEncodingRoundTrip | Source/WrapperJoyWinMM.cpp:194 | decoding -(i+1) gives i, and every negative entry is an encoding |
| JoyWinMM.SystemPart | Source/WrapperJoyWinMM.cpp:172-181 | the system entries are ascending indices of presented (non-XInput, named) devices |
| JoyWinMM.SystemPartComplete | Source/WrapperJoyWinMM.cpp:172-181 | every presented device appears |
| JoyWinMM.VirtualPart | Source/WrapperJoyWinMM.cpp:185-194 | the virtual entries are encodings of active controllers in ascending order |
| JoyWinMM.VirtualPartComplete | Source/WrapperJoyWinMM.cpp:185-194 | every active controller appears |
| JoyWinMM.CreateJoyIndexMap | Source/WrapperJoyWinMM.cpp:146-229 | every entry is a presented system device or an active virtual controller, with no duplicates |
| JoyWinMM.ActiveMask | Source/WrapperJoyWinMM.cpp:148-153 | without a configured mask every controller is active |
| JoyWinMM.JoyIndexMapMembers | Source/WrapperJoyWinMM.cpp:146-229 | an entry is in the map exactly when it is a presented system device or an active virtual controller |
| JoyWinMM.JoyIndexMapOrder | Source/WrapperJoyWinMM.cpp:167-215 | virtual controllers come after the system devices exactly when the preferred device is presented; each group keeps ascending order |
| JoyWinMM.TranslateApplicationJoyIndex | Source/WrapperJoyWinMM.cpp:556-562 | an index inside the map gives its entry; beyond it INT_MAX |
| JoyWinMM.JoyGetNumDevs | Source/WrapperJoyWinMM.cpp:723-732 | exactly the indices below the count translate to map entries |
| JoyWinMM.TranslateTargets | Source/WrapperJoyWinMM.cpp:556-562 | a translated index is valid exactly below the device count, names an active controller or a presented device, and two valid indices never share a target |
| JoyWinMM.VirtualTarget | Source/WrapperJoyWinMM.cpp:651-655 | an index targets a virtual controller exactly when its entry is negative, and the decoded controller encodes back to the entry |
| JoyWinMM.CapsFlags | Source/WrapperJoyWinMM.cpp:686-698 | HASZ, HASR, HASU and HASV are set exactly for Z, RotZ, RotY and RotX; HASPOV and POVCTS exactly with a POV; no other bit |
| JoyWinMM.CapsBits | Source/WrapperJoyWinMM.cpp:686-698 | each JOYCAPS flag added into the word is readable as its own bit |
| JoyWinMM.JoyGetDevCaps | Source/WrapperJoyWinMM.cpp:638-713 | the registry-key-only request succeeds with no caps; system devices pass through; a wrong size is JOYERR_PARMS; otherwise counts, maxima, axis range and flags describe the controller |
| JoyWinMM.AsDword | Source/WrapperJoyWinMM.cpp:953-958 | an axis value stored in a DWORD is kept when it fits |
| JoyWinMM.ButtonBits | Source/WrapperJoyWinMM.cpp:959-964 | the packed word fits in as many bits as there are buttons |
| JoyWinMM.ButtonBitsSet | Source/WrapperJoyWinMM.cpp:959-964 | bit i of the packed word is set exactly when button i is pressed |
| JoyWinMM.UnpackButtons | Source/WrapperJoyWinMM.cpp:959-964 | unpacking reads each button from its bit |
| JoyWinMM.ButtonsRoundTrip | Source/WrapperJoyWinMM.cpp:959-964 | unpacking the packed word gives back the buttons |
| JoyWinMM.PovField | Source/WrapperJoyWinMM.cpp:950-952 | the POV field is JOY_POVCENTERED exactly when centered, else the direction |
| JoyWinMM.JoyGetPosEx | Source/WrapperJoyWinMM.cpp:846-974 | system devices pass through; a wrong size is JOYERR_PARMS; otherwise buttons, POV and the six axes are reported, with R, U and V from RotZ, RotY and RotX |
| JoyWinMM.UnsupportedOnVirtual | Source/WrapperJoyWinMM.cpp:984-1066 | threshold and capture calls on a virtual controller return JOYERR_NOCANDO; system devices pass through |
| Keyboard.IsPressed | Include/Xidi/KeyboardTypes.h:79-82 | pressed exactly when some controller contributes |
| Keyboard.IsPressedBy | Include/Xidi/KeyboardTypes.h:86-89 | a contribution implies pressed, and an out-of-range controller never contributes |
| Keyboard.Press | Include/Xidi/KeyboardTypes.h:104-108 | sets the controller's contribution and no other; out of range changes nothing |
| Keyboard.Release | Include/Xidi/KeyboardTypes.h:113-117 | clears the controller's contribution and no other; out of range changes nothing |
| Keyboard.GetTransitionFrom | Include/Xidi/KeyboardTypes.h:93-99 | no change exactly when the pressed state is the same; pressed or released exactly for the two changes |
| Keyboard.Equals | Include/Xidi/KeyboardTypes.h:69-72 | equal exactly when every controller's contribution is equal |
| Keyboard.PressIdempotent | Include/Xidi/KeyboardTypes.h:104-108 | pressing twice is pressing once |
| Keyboard.ReleaseUndoesPress | Include/Xidi/KeyboardTypes.h:104-117 | release undoes a press by a controller that was not pressing |
| Keyboard.OtherControllerKeepsPressed | Include/Xidi/KeyboardTypes.h:93-117 | one controller releasing while another presses keeps the key pressed with no transition |
| Keyboard.PressReleaseTransitions | Include/Xidi/KeyboardTypes.h:93-117 | from released, a press reports pressed and the matching release reports released |
| Keyboard.EqualsIsContributionwise | Include/Xidi/KeyboardTypes.h:69-89 | equality agrees with comparing every controller's contribution |
| PathStrings.LastBackslash | Source/Strings.cpp:104 | finds the last backslash, or none exactly when the path has none |
| PathStrings.ExecutableBaseName | Source/Strings.cpp:102-111 | the base name has no backslash and is the whole path when there is none |
| PathStrings.ExecutableDirectoryName | Source/Strings.cpp:123-128 | the directory is empty or ends in a backslash; empty when the path has none |
| PathStrings.DirectoryThenBaseIsPath | Source/Strings.cpp:102-128 | directory followed by base name is the path |
| PathStrings.SplitJoined | Source/Strings.cpp:102-128 | splitting a backslash-terminated directory joined to a backslash-free name gives both back |
| PathStrings.SystemDirectoryName | Source/Strings.cpp:140-148 | the result ends in a backslash, adding one only when missing |
| PathStrings.SystemDirectoryIdempotent | Source/Strings.cpp:140-148 | normalising twice is normalising once |
| PathStrings.LibraryName | Include/Xidi/Strings.h:46-52 | library names contain no backslash |
| PathStrings.SystemLibraryFilename | Source/Strings.cpp:163-220 | the library path splits into the system directory and the library name |
| PathStrings.ConfigurationFilename | Source/Strings.cpp:232-243 | the configuration path starts with the executable's directory and ends in ".ini" |
| PathStrings.ConfigurationBesideExecutable | Source/Strings.cpp:232-243 | the configuration file sits in the executable's directory and is named after the product |
| PathStrings.DigitChar | Source/Strings.cpp:302 | a digit's character reads back as that digit |
| PathStrings.DigitValue | Source/Strings.cpp:302 | a character's digit value is below 10 |
| PathStrings.Decimal | Source/Strings.cpp:302 | decimal text is non-empty, all digits, with no leading zero |
| PathStrings.DecimalRoundTrip | Source/Strings.cpp:302 | parsing the decimal text of a number gives the number |
| PathStrings.LogBaseName | Source/Strings.cpp:267 | the log file name ends in ".log" and has no backslash when its parts have none |
| PathStrings.LogFilename | Source/Strings.cpp:255-267 | the log file name ends in ".log"; with a desktop folder it starts with that folder and a backslash; without one it has no backslash when the product and version names have none |
| PathStrings.LogFileOnDesktop | Source/Strings.cpp:255-267 | with a desktop folder, the log file sits in it under the product, version, executable and process name |
| PathStrings.LogFileWithoutDesktop | Source/Strings.cpp:255-267 | without a desktop folder, the log file is a bare name with no directory part: the product, version, executable and process name |
| PathStrings.TrimFrom | Source/Strings.cpp:306-313 | the trim loop stops at the last non-blank character or at position 0, every position after it being blank |
| PathStrings.UntilNul | Source/Strings.cpp:315 | the kept text is the prefix before the first NUL |
| PathStrings.SystemErrorCodeString | Source/Strings.cpp:295-316 | empty system text gives the "System error N." fallback; otherwise a prefix with at least one character whose removed tail is all blank and whose last kept character is not blank unless only one is kept |

## Left out

- Preconditions copied from reads the source does not guard:
  - `JoyWinMM.CreateJoyIndexMap` requires a non-empty device list, because line 167 reads the first system device without checking.
  - `PathStrings.SystemDirectoryName` requires a non-empty reported directory, because line 144 reads `buf[numChars - 1]`.
- DeviceWrapper.SetDataFormat: requires that the mapper's walk never reads past the end of the packet or selects below the axis array, that is, `SetApplicationDataFormat` does not end `Undefined`. In that case the source reads and writes `offsetUsed` past its end, or writes `axisUsed` below its start, so no result can be stated; `MapperBase.SetApplicationDataFormat` itself models it as the explicit `Undefined` outcome, and `MapperBase.RejectedIffSomeDescriptorRejected` says exactly when it happens.
- Whether `SelectInstance` misses at a negative axis index is the parameter `Params.negativeIndexMisses`. It depends on the signedness of the index types, which are declared in Mapper/Base.h, and on memory below the axis array. Mapper/Base.h is not part of this model.
- The subclass hooks of the mapper are parameters constrained only by what the base class relies on. These are MakeInstanceIdentifier, the identifier decoders, NumInstancesOfType, AxisTypeCount, AxisInstanceIndex and the property bounds. Their definitions are not part of this model.
- Object enumeration, object info and device-state reads are left out of both device generations. These are callbacks and buffer copies with no decision logic beyond what is modelled.
- The underlying device, the controller's buffer and force-feedback gain setters, and `DataFormat::CreateFromApplicationFormatSpec` are result parameters. Their implementations are not part of this model.
- VirtualDevice.SetProperty: whether the controller accepts a buffer size or a force-feedback gain is a parameter. When it accepts, the model stores the requested value as given, which is what a later GetProperty reports.
- MapperBuilder: the builder's own source is not part of this model. The model follows its test contract.
  - Templates resolve to a registered mapper before a blueprint of the same name.
  - Element mappers are compared by their targets only.
- AxisTransform: the controller's implementation is not part of this model. `Apply` is an integer reference that matches the tests' region rules.
  - AxisTransform.CutoffsOf: the tests compute cutoffs with double arithmetic, and the reference uses truncating integer division, which agrees wherever the product is exact.
  - AxisTransform.Monotone: proved only when the deadzone does not exceed the saturation, the only case the tests exercise.
  - AxisTransform.Apply: likewise defined only when the deadzone does not exceed the saturation.
  - AxisTransform.Plateaus: likewise stated only when the deadzone does not exceed the saturation.
  - AxisTransform.CutoffsOrdered: likewise stated only when the deadzone does not exceed the saturation.
  - AxisTransform.ShapeNegativeRamp: stated for ordered cutoffs, which `CutoffsOrdered` gives only when the deadzone does not exceed the saturation.
  - AxisTransform.ShapePositiveRamp: the same as `ShapeNegativeRamp`.
  - `AxisTransform.SweepsKeepDeadzoneWithinSaturation` shows that every configuration the tests' sweeps produce meets that condition.
- JoyWinMM:
  - The JSON shared-memory override of the controller state, the registry key string, device enumeration through DirectInput and one-time initialisation are left out. They are I/O.
  - The state, capabilities and system results are parameters.
  - `joyGetPos` (the non-Ex call) is not modelled.
  - `DataFormat::DirectInputPovValue` is not part of this model, so the POV arrives already converted.
  - The `(UINT_PTR)-1` registry-key-only request is a boolean parameter.
- JoyWinMM.JoyGetDevCaps: the joystick index is a natural number, the value after the `(UINT)` cast at WrapperJoyWinMM.cpp:649. The high bits of a 64-bit `UINT_PTR` that the cast drops are not modelled.
- JoyWinMM.AsDword: the axis values are stored into DWORDs by wrap-around. Values outside 32 bits are not expected from the controller, so only the in-range case is stated.
- PathStrings:
  - The buffers' fixed capacities, `FormatMessage`, `GetSystemDirectory`, `SHGetKnownFolderPath`, the product and version names and the process id are parameters or left out. They are system calls.
  - `iswspace` is taken in the C locale.
- Keyboard: the controller identifier is a natural number, so negative identifiers are not modelled.
- Concurrency (locks, `call_once`), logging and COM reference counting are left out everywhere.
