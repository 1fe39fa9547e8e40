/**
 * The original IDirectInputDevice8 wrapper (Source/WrapperIDirectInputDevice8.cpp): it composes
 * the mapper of MapperBase with an underlying DirectInput device, whose answers are inputs here.
 */
module DeviceWrapper {
  import opened DirectInput
  import opened MapperBase

  /**
   * SetDataFormat: the mapper binds the format first and its failure is returned unchanged,
   * without consulting the device; when the device then rejects the format, the mapper's binding
   * is reset. `deviceResult` is what the underlying device's SetDataFormat answers.
   */
  function SetDataFormat(p: Params, s: BinderState, f: DataFormat, pastEnd: bool, deviceResult: HResult): (r: (HResult, BinderState))
    requires p.Valid() && StateValid(p, s)
    requires SetApplicationDataFormat(p, s, f, pastEnd).0 != Undefined
    ensures StateValid(p, r.1)
    ensures r.1.axisProperties == s.axisProperties
    ensures SetApplicationDataFormat(p, s, f, pastEnd).0 == Rejected ==>
              r == (DIERR_INVALIDPARAM, SetApplicationDataFormat(p, s, f, pastEnd).1)
    ensures SetApplicationDataFormat(p, s, f, pastEnd).0 == Accepted ==> r.0 == deviceResult
    ensures r.0 != DI_OK ==> !r.1.mapsValid
    ensures SetApplicationDataFormat(p, s, f, pastEnd).0 == Accepted && deviceResult != DI_OK ==>
              r.1.offsetToInstance == map[] && r.1.instanceToOffset == map[]
  {
    var mapped := SetApplicationDataFormat(p, s, f, pastEnd);
    assert mapped.0 != Undefined;
    var mapperResult := mapped.0.Code();
    if mapperResult != DI_OK then (mapperResult, mapped.1)
    else if deviceResult != DI_OK then (deviceResult, ResetApplicationDataFormat(mapped.1))
    else (deviceResult, mapped.1)
  }

  /** After SetDataFormat, the mapper's binding is valid exactly when DI_OK was returned. */
  lemma BindingValidIffOk(p: Params, s: BinderState, f: DataFormat, pastEnd: bool, deviceResult: HResult)
    requires p.Valid() && StateValid(p, s)
    requires SetApplicationDataFormat(p, s, f, pastEnd).0 != Undefined
    ensures var r := SetDataFormat(p, s, f, pastEnd, deviceResult);
            r.1.mapsValid <==> r.0 == DI_OK
  {
  }

  /** When the mapper rejects a format, the device's answer makes no difference: it is never asked. */
  lemma MapperRejectionSkipsDevice(p: Params, s: BinderState, f: DataFormat, pastEnd: bool, d1: HResult, d2: HResult)
    requires p.Valid() && StateValid(p, s)
    requires SetApplicationDataFormat(p, s, f, pastEnd).0 != Undefined
    requires SetApplicationDataFormat(p, s, f, pastEnd).0 != Accepted
    ensures SetDataFormat(p, s, f, pastEnd, d1) == SetDataFormat(p, s, f, pastEnd, d2)
  {
  }

  /** Where a property request goes: the mapper for the four properties it handles, else the controller. */
  datatype Route = ToMapper | ToController

  function RouteProperty(prop: Property): (r: Route)
    ensures r == ToMapper <==> prop in {AxisMode, Deadzone, Range, Saturation}
  {
    if IsPropertyHandledByMapper(prop) then ToMapper else ToController
  }

  /**
   * GetProperty: routed by property. `controllerResult` and `controllerValue` are the
   * controller's answer for properties the mapper does not handle.
   */
  function GetProperty(p: Params, s: BinderState, prop: Property, req: PropertyRequest,
                       controllerResult: HResult, controllerValue: PropertyValue): (r: (HResult, PropertyValue, BinderState))
    requires p.Valid() && StateValid(p, s)
    ensures RouteProperty(prop) == ToController ==> r == (controllerResult, controllerValue, s)
    ensures RouteProperty(prop) == ToMapper ==> r == GetMappedProperty(p, s, prop, req)
    ensures RouteProperty(prop) == ToMapper ==> r.2 == InitializeAxisProperties(p, s)
  {
    if IsPropertyHandledByMapper(prop) then GetMappedProperty(p, s, prop, req)
    else (controllerResult, controllerValue, s)
  }

  /** SetProperty: routed like GetProperty; the controller's answer is `controllerResult`. */
  function SetProperty(p: Params, s: BinderState, prop: Property, req: PropertyRequest,
                       controllerResult: HResult): (r: (HResult, BinderState))
    requires p.Valid() && StateValid(p, s)
    ensures RouteProperty(prop) == ToController ==> r == (controllerResult, s)
    ensures RouteProperty(prop) == ToMapper ==> r == SetMappedProperty(p, s, prop, req)
    ensures RouteProperty(prop) == ToMapper && r.0 != DI_OK ==> r.1 == InitializeAxisProperties(p, s)
  {
    if IsPropertyHandledByMapper(prop) then SetMappedProperty(p, s, prop, req)
    else (controllerResult, s)
  }

  /** Mapper-handled requests do not depend on the controller's answer at all. */
  lemma MapperRoutedIgnoresController(p: Params, s: BinderState, prop: Property, req: PropertyRequest,
                                       c1: HResult, c2: HResult, v1: PropertyValue, v2: PropertyValue)
    requires p.Valid() && StateValid(p, s)
    requires RouteProperty(prop) == ToMapper
    ensures GetProperty(p, s, prop, req, c1, v1) == GetProperty(p, s, prop, req, c2, v2)
    ensures SetProperty(p, s, prop, req, c1) == SetProperty(p, s, prop, req, c2)
  {
  }

  /**
   * Through the wrapper, a deadzone, saturation or range the mapper accepts is what a following
   * GetProperty with the same request reports, whatever the controller would have answered.
   */
  lemma WrapperSetThenGet(p: Params, s: BinderState, prop: Property, req: PropertyRequest,
                          c1: HResult, c2: HResult, v: PropertyValue)
    requires p.Valid() && StateValid(p, s) && prop in {Deadzone, Range, Saturation}
    requires SetProperty(p, s, prop, req, c1).0 == DI_OK
    ensures var s' := SetProperty(p, s, prop, req, c1).1;
            GetProperty(p, s', prop, req, c2, v)
              == (DI_OK, if prop == Range then RangeValue(req.rangeMin, req.rangeMax) else DwordValue(req.data),
                  InitializeAxisProperties(p, s'))
  {
    SetThenGet(p, s, prop, req);
  }

  /** The DIDEVCAPS fields that matter here: the object counts, and everything else as one value. */
  datatype DevCaps = DevCaps(axes: nat, buttons: nat, povs: nat, rest: nat)

  /**
   * GetCapabilities: the device fills the structure; only when it answers DI_OK are the counts
   * replaced by the mapper's (FillDeviceCapabilities).
   */
  function GetCapabilities(p: Params, deviceResult: HResult, deviceCaps: DevCaps): (r: (HResult, DevCaps))
    ensures r.0 == deviceResult
    ensures r.1.rest == deviceCaps.rest
    ensures deviceResult == DI_OK ==> r.1.axes == p.numAxes && r.1.buttons == p.numButtons && r.1.povs == p.numPov
    ensures deviceResult != DI_OK ==> r.1 == deviceCaps
  {
    if deviceResult == DI_OK then
      (deviceResult, deviceCaps.(axes := p.numAxes, buttons := p.numButtons, povs := p.numPov))
    else (deviceResult, deviceCaps)
  }

  /** The operations the wrapper answers without doing anything. */
  datatype FixedOperation =
    | BuildActionMap | CreateEffect | EnumCreatedEffectObjects | EnumEffects | EnumEffectsInFile
    | Escape | GetEffectInfo | GetForceFeedbackState | GetImageInfo | Initialize | RunControlPanel
    | SendDeviceData | SendForceFeedbackCommand | SetActionMap

  /** Initialize answers S_FALSE; every other fixed operation is unsupported. */
  function FixedResult(op: FixedOperation): (r: HResult)
    ensures r != DI_OK
    ensures r == S_FALSE <==> op == Initialize
    ensures op != Initialize ==> r == DIERR_UNSUPPORTED
  {
    if op == Initialize then S_FALSE else DIERR_UNSUPPORTED
  }
}
