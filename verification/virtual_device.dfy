/**
 * The DirectInput device that Xidi presents for one virtual controller
 * (Source/VirtualDirectInputDevice.cpp): property-header validation, element identification and
 * object identifiers, property routing to the controller's axis properties, data-format
 * installation with its event filter, force-feedback state, and buffered-data retrieval.
 */
module VirtualDevice {
  import opened Wrappers
  import opened DirectInput
  import AxisTransform

  /** EAxis::Count and EButton::Count. */
  const AXIS_COUNT: nat := 6
  const BUTTON_COUNT: nat := 16
  /** Controller::kPhysicalControllerCount: how many controllers Xidi presents. */
  const PHYSICAL_CONTROLLER_COUNT: nat := 4

  /** The position of an axis type in the EAxis enumeration. */
  function AxisIndex(a: AxisKind): (i: nat)
    ensures i < AXIS_COUNT
    ensures AxisAt(i) == a
  {
    match a
    case X => 0
    case Y => 1
    case Z => 2
    case RotX => 3
    case RotY => 4
    case RotZ => 5
  }

  /** The axis type at a position of the EAxis enumeration. */
  function AxisAt(i: nat): (a: AxisKind)
    requires i < AXIS_COUNT
  {
    if i == 0 then X else if i == 1 then Y else if i == 2 then Z
    else if i == 3 then RotX else if i == 4 then RotY else RotZ
  }

  /** A virtual controller element (SElementIdentifier). */
  datatype Element = AxisElement(axis: AxisKind) | ButtonElement(button: nat) | PovElement | WholeController

  /**
   * SCapabilities: the axis types the controller reports, in order, its number of buttons, and
   * whether it has a POV.
   */
  datatype Capabilities = Capabilities(axisTypes: seq<AxisKind>, numButtons: nat, hasPov: bool)
  {
    /** A controller has at most one axis of each type and at most EButton::Count buttons. */
    ghost predicate Valid() {
      && |axisTypes| <= AXIS_COUNT
      && (forall i, j :: 0 <= i < j < |axisTypes| ==> axisTypes[i] != axisTypes[j])
      && numButtons <= BUTTON_COUNT
    }

    /** FindAxis: the index of the axis of type `a`, or -1 when there is none. */
    function FindAxis(a: AxisKind): (r: int)
      ensures -1 <= r < |axisTypes|
      ensures r >= 0 ==> axisTypes[r] == a && forall j :: 0 <= j < r ==> axisTypes[j] != a
      ensures r == -1 <==> a !in axisTypes
    {
      FindFrom(a, 0)
    }

    function FindFrom(a: AxisKind, from: nat): (r: int)
      requires from <= |axisTypes|
      ensures r == -1 || from <= r < |axisTypes|
      ensures r >= 0 ==> axisTypes[r] == a && forall j :: from <= j < r ==> axisTypes[j] != a
      ensures r == -1 <==> a !in axisTypes[from..]
      decreases |axisTypes| - from
    {
      if from == |axisTypes| then -1
      else if axisTypes[from] == a then from
      else
        assert axisTypes[from..] == [axisTypes[from]] + axisTypes[from + 1..];
        FindFrom(a, from + 1)
    }
  }

  /** Whether the controller has element `e` (the whole controller is not an object). */
  ghost predicate Present(caps: Capabilities, e: Element) {
    match e
    case AxisElement(a) => a in caps.axisTypes
    case ButtonElement(b) => b < caps.numButtons
    case PovElement => caps.hasPov
    case WholeController => false
  }

  /**
   * The application's data format, as far as this file uses it: the element found at each offset
   * of the application's data packet.
   */
  datatype AppDataFormat = AppDataFormat(elementAt: map<nat, Element>)
  {
    predicate HasElement(e: Element) {
      exists ofs :: ofs in elementAt && elementAt[ofs] == e
    }
  }

  /** GetObjectId: the DirectInput object identifier of an element, 0 for the whole controller. */
  function GetObjectId(caps: Capabilities, e: Element): (id: nat)
    requires e.ButtonElement? ==> e.button < BUTTON_COUNT
    ensures e.AxisElement? ==> GetType(id) == DIDFT_ABSAXIS
    ensures e.ButtonElement? ==> GetType(id) == DIDFT_PSHBUTTON && GetInstance(id) == e.button
    ensures e.PovElement? ==> GetType(id) == DIDFT_POV && GetInstance(id) == 0
    ensures e.WholeController? <==> id == 0
  {
    match e
    case AxisElement(a) => ObjectId(DIDFT_ABSAXIS, caps.FindAxis(a))
    case ButtonElement(b) => ObjectId(DIDFT_PSHBUTTON, b)
    case PovElement => ObjectId(DIDFT_POV, 0)
    case WholeController => 0
  }

  /**
   * IdentifyElement: the element a (dwObj, dwHow) pair names, if any. By offset needs an
   * application data format; by identifier decodes type and instance against the capabilities.
   * The source's check that the instance is non-negative is on an unsigned value, so it always
   * holds and is not modelled.
   */
  function IdentifyElement(caps: Capabilities, format: Option<AppDataFormat>, obj: nat, how: How): (r: Option<Element>)
    ensures how == Device ==> (r.Some? <==> obj == 0) && (r.Some? ==> r.value == WholeController)
    ensures how == ByOffset && format.None? ==> r.None?
    ensures how == ById && r.Some? ==> match r.value
              case AxisElement(a) => GetType(obj) == DIDFT_ABSAXIS && GetInstance(obj) < |caps.axisTypes|
                                     && GetInstance(obj) < AXIS_COUNT && caps.axisTypes[GetInstance(obj)] == a
              case ButtonElement(b) => GetType(obj) == DIDFT_PSHBUTTON && b == GetInstance(obj)
                                       && b < caps.numButtons && b < BUTTON_COUNT
              case PovElement => GetType(obj) == DIDFT_POV && GetInstance(obj) == 0
              case WholeController => false
    ensures how !in {Device, ByOffset, ById} ==> r.None?
  {
    match how
    case Device => if obj == 0 then Some(WholeController) else None
    case ByOffset =>
      if format.Some? && obj in format.value.elementAt then Some(format.value.elementAt[obj]) else None
    case ById =>
      var kind := GetType(obj);
      var index := GetInstance(obj);
      if kind == DIDFT_ABSAXIS then
        if index < AXIS_COUNT && index < |caps.axisTypes| then Some(AxisElement(caps.axisTypes[index])) else None
      else if kind == DIDFT_PSHBUTTON then
        if index < BUTTON_COUNT && index < caps.numButtons then Some(ButtonElement(index)) else None
      else if kind == DIDFT_POV then
        if index == 0 then Some(PovElement) else None
      else None
    case _ => None
  }

  /** Identifying an element present on the controller by its own object identifier gives it back. */
  lemma IdentifyObjectIdRoundTrip(caps: Capabilities, format: Option<AppDataFormat>, e: Element)
    requires caps.Valid() && Present(caps, e)
    ensures IdentifyElement(caps, format, GetObjectId(caps, e), ById) == Some(e)
  {
    match e
    case AxisElement(a) =>
      var i := caps.FindAxis(a);
      assert 0 <= i < |caps.axisTypes| && caps.axisTypes[i] == a;
    case ButtonElement(b) =>
    case PovElement =>
    case WholeController =>
  }

  /**
   * Conversely, an identifier that names an element agrees with that element's object identifier
   * in its type and instance fields (the low 24 bits). A POV is identified by instance 0 whether
   * or not the controller has one.
   */
  lemma ObjectIdOfIdentified(caps: Capabilities, format: Option<AppDataFormat>, obj: nat)
    requires caps.Valid()
    requires IdentifyElement(caps, format, obj, ById).Some?
    ensures var e := IdentifyElement(caps, format, obj, ById).value;
            GetObjectId(caps, e) == obj % 0x100_0000
  {
    var e := IdentifyElement(caps, format, obj, ById).value;
    var index := GetInstance(obj);
    if e.AxisElement? {
      var i := caps.FindAxis(e.axis);
      assert caps.axisTypes[i] == caps.axisTypes[index];
    }
    LowBits(obj);
  }

  /**
   * The layout of the controller's native state structure (SState, not part of this model):
   * axes as equally spaced fields from `axisBase`, then one byte per button from `buttonBase`,
   * then the POV right after the last button.
   */
  datatype NativeLayout = NativeLayout(axisBase: nat, axisStride: nat, buttonBase: nat)
  {
    ghost predicate Valid() {
      axisStride > 0 && buttonBase >= axisBase + AXIS_COUNT * axisStride
    }
  }

  /**
   * NativeOffsetForElement: the offset of an element in the native data packet; the whole
   * controller has none.
   */
  function NativeOffsetForElement(layout: NativeLayout, e: Element): (r: Option<nat>)
    ensures r.None? <==> e.WholeController?
    ensures e.AxisElement? ==> r == Some(layout.axisBase + AxisIndex(e.axis) * layout.axisStride)
    ensures e.ButtonElement? ==> r == Some(layout.buttonBase + e.button)
    ensures e.PovElement? ==> r == Some(layout.buttonBase + BUTTON_COUNT)
  {
    match e
    case AxisElement(a) => Some(layout.axisBase + AxisIndex(a) * layout.axisStride)
    case ButtonElement(b) => Some(layout.buttonBase + b)
    case PovElement => Some(layout.buttonBase + BUTTON_COUNT)
    case WholeController => None
  }

  /** Distinct elements of the controller have distinct native offsets. */
  lemma NativeOffsetsDistinct(layout: NativeLayout, e1: Element, e2: Element)
    requires layout.Valid()
    requires e1.ButtonElement? ==> e1.button < BUTTON_COUNT
    requires e2.ButtonElement? ==> e2.button < BUTTON_COUNT
    requires e1 != e2 && !e1.WholeController? && !e2.WholeController?
    ensures NativeOffsetForElement(layout, e1) != NativeOffsetForElement(layout, e2)
  {
    if e1.AxisElement? && e2.AxisElement? {
      var i, j := AxisIndex(e1.axis), AxisIndex(e2.axis);
      assert AxisAt(i) == e1.axis && AxisAt(j) == e2.axis;
      StrideDistinct(i, j, layout.axisStride);
    } else if e1.AxisElement? || e2.AxisElement? {
      var i := if e1.AxisElement? then AxisIndex(e1.axis) else AxisIndex(e2.axis);
      assert i * layout.axisStride < AXIS_COUNT * layout.axisStride;
    }
  }

  lemma StrideDistinct(i: nat, j: nat, stride: nat)
    requires i != j && stride > 0
    ensures i * stride != j * stride
  {
    if i < j {
      assert j * stride - i * stride == (j - i) * stride;
    } else {
      assert i * stride - j * stride == (i - j) * stride;
    }
  }

  /** The DIPROPDWORD and DIPROPRANGE size a property's request must have, if it has a rule. */
  function RequiredSize(prop: Property): (r: Option<nat>)
    ensures r.Some? <==> !prop.OtherProperty?
  {
    match prop
    case AxisMode => Some(SIZEOF_DIPROPDWORD)
    case Deadzone => Some(SIZEOF_DIPROPDWORD)
    case Granularity => Some(SIZEOF_DIPROPDWORD)
    case Saturation => Some(SIZEOF_DIPROPDWORD)
    case BufferSize => Some(SIZEOF_DIPROPDWORD)
    case FfGain => Some(SIZEOF_DIPROPDWORD)
    case JoystickId => Some(SIZEOF_DIPROPDWORD)
    case Range => Some(SIZEOF_DIPROPRANGE)
    case LogicalRange => Some(SIZEOF_DIPROPRANGE)
    case PhysicalRange => Some(SIZEOF_DIPROPRANGE)
    case OtherProperty(_) => None
  }

  /** Properties that only exist for the whole device. */
  predicate DeviceOnly(prop: Property) {
    prop in {BufferSize, FfGain, JoystickId}
  }

  /**
   * IsPropertyHeaderValid: the header must exist and have the DIPROPHEADER size, DIPH_DEVICE must
   * come with object 0, device-only properties need DIPH_DEVICE, and known properties need their
   * structure's size. Properties without a rule pass.
   */
  function IsPropertyHeaderValid(prop: Property, hdr: Option<PropertyRequest>): (ok: bool)
    ensures ok <==>
              && hdr.Some?
              && hdr.value.headerSize == SIZEOF_DIPROPHEADER
              && (hdr.value.how == Device ==> hdr.value.obj == 0)
              && (DeviceOnly(prop) ==> hdr.value.how == Device)
              && (RequiredSize(prop).Some? ==> hdr.value.size == RequiredSize(prop).value)
  {
    if hdr.None? then false
    else if hdr.value.headerSize != SIZEOF_DIPROPHEADER then false
    else if hdr.value.how == Device && hdr.value.obj != 0 then false
    else match prop
      case AxisMode => hdr.value.size == SIZEOF_DIPROPDWORD
      case Deadzone => hdr.value.size == SIZEOF_DIPROPDWORD
      case Granularity => hdr.value.size == SIZEOF_DIPROPDWORD
      case Saturation => hdr.value.size == SIZEOF_DIPROPDWORD
      case BufferSize => hdr.value.how == Device && hdr.value.size == SIZEOF_DIPROPDWORD
      case FfGain => hdr.value.how == Device && hdr.value.size == SIZEOF_DIPROPDWORD
      case JoystickId => hdr.value.how == Device && hdr.value.size == SIZEOF_DIPROPDWORD
      case Range => hdr.value.size == SIZEOF_DIPROPRANGE
      case LogicalRange => hdr.value.size == SIZEOF_DIPROPRANGE
      case PhysicalRange => hdr.value.size == SIZEOF_DIPROPRANGE
      case OtherProperty(_) => true
  }

  /**
   * The parts of the virtual controller the property calls reach: its capabilities, the
   * properties of each of the EAxis::Count axes, the event-buffer capacity, force-feedback gain
   * and identifier, and the installed application data format with its event filter.
   */
  datatype VirtualState = VirtualState(
    caps: Capabilities,
    axes: seq<AxisTransform.AxisProperties>,
    bufferCapacity: int,
    ffGain: int,
    identifier: nat,
    format: Option<AppDataFormat>,
    eventFilter: set<Element>)

  ghost predicate StateValid(lim: AxisTransform.Limits, s: VirtualState) {
    && s.caps.Valid()
    && |s.axes| == AXIS_COUNT
    && forall i :: 0 <= i < |s.axes| ==> AxisTransform.PropertiesValid(lim, s.axes[i])
  }

  /**
   * GetProperty: header validation, then element identification, then per-property gating:
   * axis mode answers only for the whole controller; deadzone, range and saturation only for an
   * axis; granularity and the logical and physical ranges for an axis or the whole controller.
   */
  function GetProperty(lim: AxisTransform.Limits, s: VirtualState, prop: Property, hdr: Option<PropertyRequest>): (r: (HResult, PropertyValue))
    requires StateValid(lim, s)
    ensures !IsPropertyHeaderValid(prop, hdr) ==> r == (DIERR_INVALIDPARAM, NoValue)
    ensures (IsPropertyHeaderValid(prop, hdr) && IdentifyElement(s.caps, s.format, hdr.value.obj, hdr.value.how).None?)
            ==> r == (DIERR_OBJECTNOTFOUND, NoValue)
    ensures r.0 == DI_OK ==> IsPropertyHeaderValid(prop, hdr)
    ensures r.0 == DI_OK && prop in {Deadzone, Range, Saturation} ==>
              IdentifyElement(s.caps, s.format, hdr.value.obj, hdr.value.how).value.AxisElement?
    ensures r.0 == DI_OK && prop == AxisMode ==>
              IdentifyElement(s.caps, s.format, hdr.value.obj, hdr.value.how) == Some(WholeController)
              && r.1 == DwordValue(DIPROPAXISMODE_ABS)
    ensures r.0 == DI_OK && prop in {Granularity, LogicalRange, PhysicalRange} ==>
              var e := IdentifyElement(s.caps, s.format, hdr.value.obj, hdr.value.how).value;
              e.AxisElement? || e.WholeController?
    ensures r.0 == DI_OK && prop in {LogicalRange, PhysicalRange} ==> r.1 == RangeValue(lim.analogMin, lim.analogMax)
    ensures (IsPropertyHeaderValid(prop, hdr) && IdentifyElement(s.caps, s.format, hdr.value.obj, hdr.value.how).Some?) ==>
              var e := IdentifyElement(s.caps, s.format, hdr.value.obj, hdr.value.how).value;
              && (prop == AxisMode ==> (r.0 == DI_OK <==> e.WholeController?))
              && (prop in {Deadzone, Range, Saturation} ==> (r.0 == DI_OK <==> e.AxisElement?))
              && (prop in {Granularity, LogicalRange, PhysicalRange} ==> (r.0 == DI_OK <==> e.AxisElement? || e.WholeController?))
              && (prop in {BufferSize, FfGain, JoystickId} ==> r.0 == DI_OK)
              && (!prop.OtherProperty? && r.0 != DI_OK ==> r.0 == DIERR_INVALIDPARAM)
    ensures r.0 == DI_OK && prop in {Deadzone, Range, Saturation} ==>
              var a := s.axes[AxisIndex(IdentifyElement(s.caps, s.format, hdr.value.obj, hdr.value.how).value.axis)];
              r.1 == (if prop == Deadzone then DwordValue(a.deadzone)
                      else if prop == Saturation then DwordValue(a.saturation)
                      else RangeValue(a.rangeMin, a.rangeMax))
    ensures r.0 == DI_OK && prop == BufferSize ==> r.1 == DwordValue(s.bufferCapacity)
    ensures r.0 == DI_OK && prop == FfGain ==> r.1 == DwordValue(s.ffGain)
    ensures r.0 == DI_OK && prop == JoystickId ==> r.1 == DwordValue(s.identifier)
    ensures r.0 == DI_OK && prop == Granularity ==> r.1 == DwordValue(1)
    ensures (prop.OtherProperty? && IsPropertyHeaderValid(prop, hdr)
             && IdentifyElement(s.caps, s.format, hdr.value.obj, hdr.value.how).Some?) ==> r == (DIERR_UNSUPPORTED, NoValue)
    ensures r.0 != DI_OK ==> r.1 == NoValue
  {
    if !IsPropertyHeaderValid(prop, hdr) then (DIERR_INVALIDPARAM, NoValue)
    else
      var h := hdr.value;
      var found := IdentifyElement(s.caps, s.format, h.obj, h.how);
      if found.None? then (DIERR_OBJECTNOTFOUND, NoValue)
      else
        var e := found.value;
        match prop
        case AxisMode =>
          if !e.WholeController? then (DIERR_INVALIDPARAM, NoValue) else (DI_OK, DwordValue(DIPROPAXISMODE_ABS))
        case BufferSize => (DI_OK, DwordValue(s.bufferCapacity))
        case Deadzone =>
          if !e.AxisElement? then (DIERR_INVALIDPARAM, NoValue)
          else (DI_OK, DwordValue(s.axes[AxisIndex(e.axis)].deadzone))
        case FfGain => (DI_OK, DwordValue(s.ffGain))
        case Granularity =>
          if e.AxisElement? || e.WholeController? then (DI_OK, DwordValue(1)) else (DIERR_INVALIDPARAM, NoValue)
        case JoystickId => (DI_OK, DwordValue(s.identifier))
        case LogicalRange =>
          if e.AxisElement? || e.WholeController? then (DI_OK, RangeValue(lim.analogMin, lim.analogMax))
          else (DIERR_INVALIDPARAM, NoValue)
        case PhysicalRange =>
          if e.AxisElement? || e.WholeController? then (DI_OK, RangeValue(lim.analogMin, lim.analogMax))
          else (DIERR_INVALIDPARAM, NoValue)
        case Range =>
          if !e.AxisElement? then (DIERR_INVALIDPARAM, NoValue)
          else (DI_OK, RangeValue(s.axes[AxisIndex(e.axis)].rangeMin, s.axes[AxisIndex(e.axis)].rangeMax))
        case Saturation =>
          if !e.AxisElement? then (DIERR_INVALIDPARAM, NoValue)
          else (DI_OK, DwordValue(s.axes[AxisIndex(e.axis)].saturation))
        case OtherProperty(_) => (DIERR_UNSUPPORTED, NoValue)
  }

  /**
   * One axis setter: deadzone, saturation or range, applied through the axis-property setters. The
   * request is accepted exactly when its value lies in the property's valid set, and then only the
   * addressed property of the axis changes, to the requested value.
   */
  function SetOne(lim: AxisTransform.Limits, prop: Property, a: AxisTransform.AxisProperties, h: PropertyRequest): (r: Option<AxisTransform.AxisProperties>)
    requires prop in {Deadzone, Range, Saturation}
    ensures prop == Deadzone ==> (r.Some? <==> lim.deadzoneMin <= h.data <= lim.deadzoneMax)
    ensures prop == Saturation ==> (r.Some? <==> lim.saturationMin <= h.data <= lim.saturationMax)
    ensures prop == Range ==> (r.Some? <==> h.rangeMin < h.rangeMax)
    ensures r.Some? && prop == Deadzone ==>
              r.value.deadzone == h.data && r.value.saturation == a.saturation
              && r.value.rangeMin == a.rangeMin && r.value.rangeMax == a.rangeMax
    ensures r.Some? && prop == Saturation ==>
              r.value.saturation == h.data && r.value.deadzone == a.deadzone
              && r.value.rangeMin == a.rangeMin && r.value.rangeMax == a.rangeMax
    ensures r.Some? && prop == Range ==>
              r.value.rangeMin == h.rangeMin && r.value.rangeMax == h.rangeMax
              && r.value.deadzone == a.deadzone && r.value.saturation == a.saturation
  {
    if prop == Deadzone then AxisTransform.SetDeadzone(lim, a, h.data)
    else if prop == Saturation then AxisTransform.SetSaturation(lim, a, h.data)
    else AxisTransform.SetRange(a, h.rangeMin, h.rangeMax)
  }

  /** The all-axes setter: accepted only if every axis accepts, and then applied to every axis. */
  function SetAll(lim: AxisTransform.Limits, prop: Property, axes: seq<AxisTransform.AxisProperties>, h: PropertyRequest): (r: Option<seq<AxisTransform.AxisProperties>>)
    requires prop in {Deadzone, Range, Saturation}
    ensures r.Some? ==> |r.value| == |axes|
    ensures r.Some? ==> forall i :: 0 <= i < |axes| ==> SetOne(lim, prop, axes[i], h) == Some(r.value[i])
    ensures r.None? ==> exists i :: 0 <= i < |axes| && SetOne(lim, prop, axes[i], h).None?
    decreases |axes|
  {
    if |axes| == 0 then Some([])
    else
      var head := SetOne(lim, prop, axes[0], h);
      var tail := SetAll(lim, prop, axes[1..], h);
      if head.None? then None
      else if tail.None? then
        var k :| 0 <= k < |axes[1..]| && SetOne(lim, prop, axes[1..][k], h).None?;
        assert SetOne(lim, prop, axes[k + 1], h).None?;
        None
      else Some([head.value] + tail.value)
  }

  /**
   * SetProperty: validation and identification as for GetProperty, then per property. Axis mode
   * accepts only absolute mode, with no effect. Deadzone, range and saturation go to the addressed
   * axis, or to every axis for the whole controller, and are invalid for any other element. The
   * buffer-size and force-feedback-gain setters belong to the controller and are not part of
   * this model: whether they accept is given as `bufferAccepts` and `gainAccepts`, and an
   * accepted value is stored as requested, for GetProperty to read back.
   */
  function SetProperty(lim: AxisTransform.Limits, s: VirtualState, prop: Property, hdr: Option<PropertyRequest>,
                       bufferAccepts: bool, gainAccepts: bool): (r: (HResult, VirtualState))
    requires StateValid(lim, s)
    ensures StateValid(lim, r.1)
    ensures r.1.caps == s.caps && r.1.format == s.format && r.1.eventFilter == s.eventFilter
    ensures r.0 != DI_OK ==> r.1 == s
    ensures !IsPropertyHeaderValid(prop, hdr) ==> r.0 == DIERR_INVALIDPARAM
    ensures (IsPropertyHeaderValid(prop, hdr) && IdentifyElement(s.caps, s.format, hdr.value.obj, hdr.value.how).None?)
            ==> r.0 == DIERR_OBJECTNOTFOUND
    ensures r.1 != s ==> r.0 == DI_OK && prop in {BufferSize, Deadzone, FfGain, Range, Saturation}
    ensures r.1.identifier == s.identifier
    ensures prop !in {Deadzone, Range, Saturation} ==> r.1.axes == s.axes
    ensures prop != BufferSize ==> r.1.bufferCapacity == s.bufferCapacity
    ensures prop != FfGain ==> r.1.ffGain == s.ffGain
    ensures (prop in {Deadzone, Range, Saturation} && IsPropertyHeaderValid(prop, hdr)
             && IdentifyElement(s.caps, s.format, hdr.value.obj, hdr.value.how).Some?)
            ==> r == SetAxisProperty(lim, s, prop, IdentifyElement(s.caps, s.format, hdr.value.obj, hdr.value.how).value, hdr.value)
    ensures (prop == BufferSize && IsPropertyHeaderValid(prop, hdr)
             && IdentifyElement(s.caps, s.format, hdr.value.obj, hdr.value.how).Some?)
            ==> r == (if bufferAccepts then (DI_OK, s.(bufferCapacity := hdr.value.data)) else (DIERR_INVALIDPARAM, s))
    ensures (prop == FfGain && IsPropertyHeaderValid(prop, hdr)
             && IdentifyElement(s.caps, s.format, hdr.value.obj, hdr.value.how).Some?)
            ==> r == (if gainAccepts then (DI_OK, s.(ffGain := hdr.value.data)) else (DIERR_INVALIDPARAM, s))
    ensures prop == AxisMode && r.0 != DIERR_INVALIDPARAM && r.0 != DIERR_OBJECTNOTFOUND ==>
              (r.0 == DI_PROPNOEFFECT <==> hdr.value.data == DIPROPAXISMODE_ABS)
    ensures r.0 == DI_OK && prop in {Deadzone, Range, Saturation} ==>
              var e := IdentifyElement(s.caps, s.format, hdr.value.obj, hdr.value.how).value;
              e.AxisElement? || e.WholeController?
    ensures prop in {Granularity, JoystickId, LogicalRange, PhysicalRange} || prop.OtherProperty? ==> r.0 != DI_OK
    ensures (IsPropertyHeaderValid(prop, hdr) && IdentifyElement(s.caps, s.format, hdr.value.obj, hdr.value.how).Some?) ==>
              && (prop == AxisMode ==>
                    r == (if hdr.value.data == DIPROPAXISMODE_ABS then DI_PROPNOEFFECT else DIERR_UNSUPPORTED, s))
              && (prop in {Granularity, JoystickId, LogicalRange, PhysicalRange} || prop.OtherProperty? ==>
                    r == (DIERR_UNSUPPORTED, s))
  {
    if !IsPropertyHeaderValid(prop, hdr) then (DIERR_INVALIDPARAM, s)
    else
      var h := hdr.value;
      var found := IdentifyElement(s.caps, s.format, h.obj, h.how);
      if found.None? then (DIERR_OBJECTNOTFOUND, s)
      else
        var e := found.value;
        match prop
        case AxisMode => (if h.data == DIPROPAXISMODE_ABS then DI_PROPNOEFFECT else DIERR_UNSUPPORTED, s)
        case BufferSize => if bufferAccepts then (DI_OK, s.(bufferCapacity := h.data)) else (DIERR_INVALIDPARAM, s)
        case FfGain => if gainAccepts then (DI_OK, s.(ffGain := h.data)) else (DIERR_INVALIDPARAM, s)
        case Deadzone => SetAxisProperty(lim, s, prop, e, h)
        case Range => SetAxisProperty(lim, s, prop, e, h)
        case Saturation => SetAxisProperty(lim, s, prop, e, h)
        case _ => (DIERR_UNSUPPORTED, s)
  }

  /** The deadzone, range and saturation branches of SetProperty, once the element is known. */
  function SetAxisProperty(lim: AxisTransform.Limits, s: VirtualState, prop: Property, e: Element, h: PropertyRequest): (r: (HResult, VirtualState))
    requires StateValid(lim, s) && prop in {Deadzone, Range, Saturation}
    ensures StateValid(lim, r.1)
    ensures r.1.caps == s.caps && r.1.format == s.format && r.1.eventFilter == s.eventFilter
    ensures r.0 == DI_OK || r.0 == DIERR_INVALIDPARAM
    ensures r.0 != DI_OK ==> r.1 == s
    ensures !(e.AxisElement? || e.WholeController?) ==> r == (DIERR_INVALIDPARAM, s)
    ensures e.AxisElement? ==>
              (r.0 == DI_OK <==> SetOne(lim, prop, s.axes[AxisIndex(e.axis)], h).Some?)
              && (r.0 == DI_OK ==> r.1.axes == s.axes[AxisIndex(e.axis) := SetOne(lim, prop, s.axes[AxisIndex(e.axis)], h).value])
    ensures e.WholeController? ==>
              (r.0 == DI_OK <==> SetAll(lim, prop, s.axes, h).Some?)
              && (r.0 == DI_OK ==> r.1.axes == SetAll(lim, prop, s.axes, h).value)
  {
    SetOneKeepsValid(lim, prop, h);
    match e
    case AxisElement(a) =>
      var i := AxisIndex(a);
      var updated := SetOne(lim, prop, s.axes[i], h);
      if updated.None? then (DIERR_INVALIDPARAM, s)
      else (DI_OK, s.(axes := s.axes[i := updated.value]))
    case WholeController =>
      var all := SetAll(lim, prop, s.axes, h);
      if all.None? then (DIERR_INVALIDPARAM, s)
      else (DI_OK, s.(axes := all.value))
    case _ => (DIERR_INVALIDPARAM, s)
  }

  lemma SetOneKeepsValid(lim: AxisTransform.Limits, prop: Property, h: PropertyRequest)
    requires prop in {Deadzone, Range, Saturation}
    ensures forall a :: AxisTransform.PropertiesValid(lim, a) && SetOne(lim, prop, a, h).Some? ==>
              AxisTransform.PropertiesValid(lim, SetOne(lim, prop, a, h).value)
  {
    forall a | AxisTransform.PropertiesValid(lim, a) && SetOne(lim, prop, a, h).Some?
      ensures AxisTransform.PropertiesValid(lim, SetOne(lim, prop, a, h).value)
    {
      AxisTransform.SettersKeepPropertiesValid(lim, a, h.data, h.rangeMin, h.rangeMax);
    }
  }

  /**
   * A deadzone within its bounds, set on an axis, is accepted, and is what GetProperty then
   * reports for that axis.
   */
  lemma SetThenGetDeadzone(lim: AxisTransform.Limits, s: VirtualState, hdr: Option<PropertyRequest>)
    requires StateValid(lim, s)
    requires IsPropertyHeaderValid(Deadzone, hdr)
    requires IdentifyElement(s.caps, s.format, hdr.value.obj, hdr.value.how).Some?
    requires IdentifyElement(s.caps, s.format, hdr.value.obj, hdr.value.how).value.AxisElement?
    requires lim.deadzoneMin <= hdr.value.data <= lim.deadzoneMax
    ensures SetProperty(lim, s, Deadzone, hdr, false, false).0 == DI_OK
    ensures var s' := SetProperty(lim, s, Deadzone, hdr, false, false).1;
            GetProperty(lim, s', Deadzone, hdr) == (DI_OK, DwordValue(hdr.value.data))
  {
  }

  /**
   * A range whose minimum is below its maximum, set on the whole controller, is accepted, and is
   * what GetProperty then reports for every axis.
   */
  lemma SetAllThenGetRange(lim: AxisTransform.Limits, s: VirtualState, hdr: Option<PropertyRequest>, query: Option<PropertyRequest>)
    requires StateValid(lim, s)
    requires IsPropertyHeaderValid(Range, hdr)
    requires IdentifyElement(s.caps, s.format, hdr.value.obj, hdr.value.how) == Some(WholeController)
    requires hdr.value.rangeMin < hdr.value.rangeMax
    requires IsPropertyHeaderValid(Range, query)
    requires IdentifyElement(s.caps, s.format, query.value.obj, query.value.how).Some?
    requires IdentifyElement(s.caps, s.format, query.value.obj, query.value.how).value.AxisElement?
    ensures SetProperty(lim, s, Range, hdr, false, false).0 == DI_OK
    ensures var s' := SetProperty(lim, s, Range, hdr, false, false).1;
            GetProperty(lim, s', Range, query) == (DI_OK, RangeValue(hdr.value.rangeMin, hdr.value.rangeMax))
  {
    var s' := SetProperty(lim, s, Range, hdr, false, false).1;
    var e := IdentifyElement(s'.caps, s'.format, query.value.obj, query.value.how).value;
    var i := AxisIndex(e.axis);
    assert SetOne(lim, Range, s.axes[i], hdr.value) == Some(s'.axes[i]);
  }

  /**
   * A buffer size or force-feedback gain the controller accepts is what GetProperty then reports,
   * whichever valid request reads it back.
   */
  lemma SetThenGetControllerProperty(lim: AxisTransform.Limits, s: VirtualState, prop: Property,
                                     hdr: Option<PropertyRequest>, query: Option<PropertyRequest>)
    requires StateValid(lim, s) && prop in {BufferSize, FfGain}
    requires IsPropertyHeaderValid(prop, hdr)
    requires IdentifyElement(s.caps, s.format, hdr.value.obj, hdr.value.how).Some?
    requires IsPropertyHeaderValid(prop, query)
    requires IdentifyElement(s.caps, s.format, query.value.obj, query.value.how).Some?
    ensures SetProperty(lim, s, prop, hdr, true, true).0 == DI_OK
    ensures var s' := SetProperty(lim, s, prop, hdr, true, true).1;
            GetProperty(lim, s', prop, query) == (DI_OK, DwordValue(hdr.value.data))
  {
  }

  /** A per-axis set leaves every other axis as it was. */
  lemma SetTouchesOnlyAddressedAxis(lim: AxisTransform.Limits, s: VirtualState, prop: Property, hdr: Option<PropertyRequest>, j: nat)
    requires StateValid(lim, s) && prop in {Deadzone, Range, Saturation}
    requires IsPropertyHeaderValid(prop, hdr)
    requires IdentifyElement(s.caps, s.format, hdr.value.obj, hdr.value.how).Some?
    requires IdentifyElement(s.caps, s.format, hdr.value.obj, hdr.value.how).value.AxisElement?
    requires j < AXIS_COUNT && j != AxisIndex(IdentifyElement(s.caps, s.format, hdr.value.obj, hdr.value.how).value.axis)
    ensures SetProperty(lim, s, prop, hdr, false, false).1.axes[j] == s.axes[j]
  {
  }

  /** Every element a data format can have: the six axes, the sixteen buttons and the POV. */
  function AllElements(): (r: set<Element>)
  {
    (set i | 0 <= i < AXIS_COUNT :: AxisElement(AxisAt(i)))
    + (set b | 0 <= b < BUTTON_COUNT :: ButtonElement(b))
    + {PovElement}
  }

  /**
   * The event filter for a new data format: every element, less those the format does not have.
   * Axes and buttons are visited in enumeration order, then the POV.
   */
  method EventFilterFor(format: AppDataFormat) returns (filter: set<Element>)
    ensures filter == set e | e in AllElements() && format.HasElement(e)
  {
    filter := AllElements();
    var i := 0;
    while i < AXIS_COUNT
      invariant 0 <= i <= AXIS_COUNT
      invariant filter == set e | e in AllElements() && (Visited(e, i, 0, false) ==> format.HasElement(e))
    {
      var element := AxisElement(AxisAt(i));
      if !format.HasElement(element) {
        filter := filter - {element};
      }
      AxisVisitStep(i);
      i := i + 1;
    }
    var b := 0;
    while b < BUTTON_COUNT
      invariant 0 <= b <= BUTTON_COUNT
      invariant filter == set e | e in AllElements() && (Visited(e, AXIS_COUNT, b, false) ==> format.HasElement(e))
    {
      var element := ButtonElement(b);
      if !format.HasElement(element) {
        filter := filter - {element};
      }
      b := b + 1;
    }
    if !format.HasElement(PovElement) {
      filter := filter - {PovElement};
    }
    assert forall e :: e in AllElements() ==> Visited(e, AXIS_COUNT, BUTTON_COUNT, true);
  }

  /** Whether the loops of EventFilterFor have visited `e` after `axes` axes, `buttons` buttons and, if `pov`, the POV. */
  predicate Visited(e: Element, axes: nat, buttons: nat, pov: bool) {
    match e
    case AxisElement(a) => AxisIndex(a) < axes
    case ButtonElement(b) => b < buttons
    case PovElement => pov
    case WholeController => false
  }

  /** The axis visited at step `i` is the one whose enumeration index is `i`. */
  lemma AxisVisitStep(i: nat)
    requires i < AXIS_COUNT
    ensures AxisIndex(AxisAt(i)) == i
  {
  }

  /**
   * SetDataFormat: a null format or one that cannot be built for this controller is invalid and
   * changes nothing; otherwise the format is installed with the event filter of the elements it
   * has. Building the format from the application's specification is not part of this model:
   * `built` is its outcome.
   */
  method SetDataFormat(s: VirtualState, formatGiven: bool, built: Option<AppDataFormat>) returns (r: HResult, s': VirtualState)
    ensures !formatGiven || built.None? ==> r == DIERR_INVALIDPARAM && s' == s
    ensures formatGiven && built.Some? ==> r == DI_OK && s'.format == built
    ensures formatGiven && built.Some? ==>
              forall e :: e in s'.eventFilter <==> e in AllElements() && built.value.HasElement(e)
    ensures s'.caps == s.caps && s'.axes == s.axes
    ensures s'.bufferCapacity == s.bufferCapacity && s'.ffGain == s.ffGain && s'.identifier == s.identifier
  {
    if !formatGiven || built.None? {
      return DIERR_INVALIDPARAM, s;
    }
    var filter := EventFilterFor(built.value);
    r := DI_OK;
    s' := s.(format := built, eventFilter := filter);
  }

  /** The force-feedback device's state as GetForceFeedbackState observes it. */
  datatype FfDevice = FfDevice(empty: bool, paused: bool, muted: bool, playing: bool)

  /** The DIGFFS_* flags GetForceFeedbackState reports for a registered device. */
  function FfStateFlags(d: FfDevice): (flags: nat)
    ensures BitSet(flags, 6)
    ensures BitSet(flags, 5) <==> d.muted
    ensures BitSet(flags, 4) <==> !d.muted
    ensures BitSet(flags, 0) <==> d.empty
    ensures BitSet(flags, 1) <==> !d.empty && !d.paused && !d.playing
    ensures BitSet(flags, 2) <==> d.paused
    ensures !BitSet(flags, 3) && !BitSet(flags, 7)
  {
    var stopped := !d.empty && !d.paused && !d.playing;
    var flags := DIGFFS_POWERON + Bit(d.muted, DIGFFS_ACTUATORSOFF) + Bit(!d.muted, DIGFFS_ACTUATORSON)
      + Bit(d.empty, DIGFFS_EMPTY) + Bit(d.paused, DIGFFS_PAUSED) + Bit(stopped, DIGFFS_STOPPED);
    FlagBits(d.muted, d.empty, d.paused, stopped);
    flags
  }

  lemma FlagBits(muted: bool, empty: bool, paused: bool, stopped: bool)
    ensures var flags := DIGFFS_POWERON + Bit(muted, DIGFFS_ACTUATORSOFF) + Bit(!muted, DIGFFS_ACTUATORSON)
                         + Bit(empty, DIGFFS_EMPTY) + Bit(paused, DIGFFS_PAUSED) + Bit(stopped, DIGFFS_STOPPED);
            && BitSet(flags, 6) && !BitSet(flags, 3) && !BitSet(flags, 7)
            && (BitSet(flags, 5) <==> muted) && (BitSet(flags, 4) <==> !muted)
            && (BitSet(flags, 0) <==> empty) && (BitSet(flags, 1) <==> stopped) && (BitSet(flags, 2) <==> paused)
  {
    assert Pow2(0) == 1 && Pow2(1) == 2 && Pow2(2) == 4 && Pow2(3) == 8;
    assert Pow2(4) == 16 && Pow2(5) == 32 && Pow2(6) == 64 && Pow2(7) == 128;
  }

  /**
   * GetForceFeedbackState: a missing output is invalid, and a device whose force feedback is
   * not registered for this application is not exclusively acquired.
   */
  function GetForceFeedbackState(outGiven: bool, registered: bool, d: FfDevice): (r: (HResult, Option<nat>))
    ensures !outGiven ==> r == (DIERR_INVALIDPARAM, None)
    ensures outGiven && !registered ==> r == (DIERR_NOTEXCLUSIVEACQUIRED, None)
    ensures r.0 == DI_OK <==> outGiven && registered
    ensures r.0 == DI_OK ==> r.1 == Some(FfStateFlags(d))
  {
    if !outGiven then (DIERR_INVALIDPARAM, None)
    else if !registered then (DIERR_NOTEXCLUSIVEACQUIRED, None)
    else (DI_OK, Some(FfStateFlags(d)))
  }

  /** The force-feedback device operation a DISFFC_* command invokes. */
  datatype FfAction = SetPauseState(pause: bool) | ClearDevice | SetMutedState(mute: bool) | StopAllEffects

  /** The DISFFC_* command that invokes a device operation. */
  function CommandFor(act: FfAction): nat {
    match act
    case SetPauseState(pause) => if pause then DISFFC_PAUSE else DISFFC_CONTINUE
    case ClearDevice => DISFFC_RESET
    case SetMutedState(mute) => if mute then DISFFC_SETACTUATORSOFF else DISFFC_SETACTUATORSON
    case StopAllEffects => DISFFC_STOPALL
  }

  /**
   * SendForceFeedbackCommand: unregistered force feedback is not exclusively acquired; each of
   * the six commands maps to one device operation and anything else is invalid.
   */
  function SendForceFeedbackCommand(registered: bool, flags: nat): (r: (HResult, Option<FfAction>))
    ensures r.0 == DI_OK <==> r.1.Some?
    ensures !registered ==> r == (DIERR_NOTEXCLUSIVEACQUIRED, None)
    ensures registered ==> (r.0 == DI_OK <==>
              flags in {DISFFC_CONTINUE, DISFFC_PAUSE, DISFFC_RESET, DISFFC_SETACTUATORSOFF, DISFFC_SETACTUATORSON, DISFFC_STOPALL})
    ensures registered && r.0 != DI_OK ==> r.0 == DIERR_INVALIDPARAM
    ensures r.1.Some? ==> CommandFor(r.1.value) == flags
  {
    if !registered then (DIERR_NOTEXCLUSIVEACQUIRED, None)
    else if flags == DISFFC_CONTINUE then (DI_OK, Some(SetPauseState(false)))
    else if flags == DISFFC_PAUSE then (DI_OK, Some(SetPauseState(true)))
    else if flags == DISFFC_RESET then (DI_OK, Some(ClearDevice))
    else if flags == DISFFC_SETACTUATORSOFF then (DI_OK, Some(SetMutedState(true)))
    else if flags == DISFFC_SETACTUATORSON then (DI_OK, Some(SetMutedState(false)))
    else if flags == DISFFC_STOPALL then (DI_OK, Some(StopAllEffects))
    else (DIERR_INVALIDPARAM, None)
  }

  /**
   * Every device operation has exactly one command: sending an operation's command invokes that
   * operation, so the six commands and the six operations correspond one to one.
   */
  lemma CommandActionRoundTrip(act: FfAction)
    ensures SendForceFeedbackCommand(true, CommandFor(act)) == (DI_OK, Some(act))
  {
  }

  /** The two actuator commands set the device's muted state: off mutes, on unmutes. */
  lemma ActuatorCommandsSetMutedState(flags: nat)
    requires flags in {DISFFC_SETACTUATORSOFF, DISFFC_SETACTUATORSON}
    ensures SendForceFeedbackCommand(true, flags) == (DI_OK, Some(SetMutedState(flags == DISFFC_SETACTUATORSOFF)))
  {
  }

  /** Pause and continue set the device's pause state; stop-all stops every effect; reset clears the device. */
  lemma PauseStopAndResetCommands()
    ensures SendForceFeedbackCommand(true, DISFFC_PAUSE) == (DI_OK, Some(SetPauseState(true)))
    ensures SendForceFeedbackCommand(true, DISFFC_CONTINUE) == (DI_OK, Some(SetPauseState(false)))
    ensures SendForceFeedbackCommand(true, DISFFC_STOPALL) == (DI_OK, Some(StopAllEffects))
    ensures SendForceFeedbackCommand(true, DISFFC_RESET) == (DI_OK, Some(ClearDevice))
  {
  }

  /**
   * GetDeviceData: the request must have a data format, a count, the right element size and
   * flags 0 or DIGDD_PEEK, and the controller must buffer events. It then reports the lesser of
   * the requested and buffered counts, copies that many oldest events out when the caller gave a
   * buffer, and removes them unless peeking. An overflowed buffer is reported with
   * DI_BUFFEROVERFLOW. `objectDataSize` is sizeof(DIDEVICEOBJECTDATA) on the target platform.
   */
  function GetDeviceData<E>(formatSet: bool, countGiven: bool, cbObjectData: nat, objectDataSize: nat, flags: nat,
                            buffered: bool, overflowed: bool, bufferGiven: bool, requested: nat, events: seq<E>)
    : (r: (HResult, nat, seq<E>, seq<E>))
    ensures (!formatSet || !countGiven || cbObjectData != objectDataSize || flags !in {0, DIGDD_PEEK})
            ==> r == (DIERR_INVALIDPARAM, requested, [], events)
    ensures (formatSet && countGiven && cbObjectData == objectDataSize && flags in {0, DIGDD_PEEK} && !buffered)
            ==> r == (DIERR_NOTBUFFERED, requested, [], events)
    ensures (formatSet && countGiven && cbObjectData == objectDataSize && flags in {0, DIGDD_PEEK} && buffered)
            ==> r.0 == (if overflowed then DI_BUFFEROVERFLOW else DI_OK)
    ensures r.0 == DI_OK || r.0 == DI_BUFFEROVERFLOW ==>
              && (r.0 == DI_BUFFEROVERFLOW <==> overflowed)
              && r.1 == (if requested < |events| then requested else |events|)
              && r.2 == (if bufferGiven then events[..r.1] else [])
              && r.3 == (if flags == DIGDD_PEEK then events else events[r.1..])
  {
    if !formatSet || !countGiven || cbObjectData != objectDataSize then (DIERR_INVALIDPARAM, requested, [], events)
    else if flags != 0 && flags != DIGDD_PEEK then (DIERR_INVALIDPARAM, requested, [], events)
    else if !buffered then (DIERR_NOTBUFFERED, requested, [], events)
    else
      var n := if requested < |events| then requested else |events|;
      var copied := if bufferGiven then events[..n] else [];
      var remaining := if flags % 2 == 0 then events[n..] else events;
      (if overflowed then DI_BUFFEROVERFLOW else DI_OK, n, copied, remaining)
  }

  /** Peeking and then reading returns the same events, and reading consumes exactly what it returns. */
  lemma PeekThenRead<E>(objectDataSize: nat, overflowed: bool, requested: nat, events: seq<E>)
    ensures var peek := GetDeviceData(true, true, objectDataSize, objectDataSize, DIGDD_PEEK, true, overflowed, true, requested, events);
            var read := GetDeviceData(true, true, objectDataSize, objectDataSize, 0, true, overflowed, true, requested, peek.3);
            && peek.3 == events
            && read.2 == peek.2
            && read.2 + read.3 == events
  {
    var n := if requested < |events| then requested else |events|;
    assert events[..n] + events[n..] == events;
  }

  /** The operations whose result does not depend on anything. */
  datatype FixedOperation =
    | BuildActionMap | CreateEffect | EnumCreatedEffectObjects | EnumEffectsInFile | Escape
    | GetImageInfo | Initialize | Poll | RunControlPanel | SendDeviceData | SetActionMap | WriteEffectToFile

  /** Initialize succeeds, Poll has nothing to do, and every other fixed operation is unsupported. */
  function FixedResult(op: FixedOperation): (r: HResult)
    ensures r == DI_OK <==> op == Initialize
    ensures r == DI_NOEFFECT <==> op == Poll
    ensures op != Initialize && op != Poll ==> r == DIERR_UNSUPPORTED
  {
    match op
    case Initialize => DI_OK
    case Poll => DI_NOEFFECT
    case _ => DIERR_UNSUPPORTED
  }
}
