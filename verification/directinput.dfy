/**
 * Constants of the DirectInput (dinput.h) and WinMM (mmsystem.h) interfaces that the
 * modelled code compares against, with their header values.
 */
module DirectInput {
  import opened Arithmetic

  /** An HRESULT, as a plain integer so that arbitrary codes from an underlying device fit. */
  type HResult = int

  const DI_OK: HResult := 0
  /** S_FALSE; dinput.h defines DI_NOEFFECT, DI_PROPNOEFFECT and DI_BUFFEROVERFLOW as this value. */
  const S_FALSE: HResult := 1
  const DI_NOEFFECT: HResult := S_FALSE
  const DI_PROPNOEFFECT: HResult := S_FALSE
  const DI_BUFFEROVERFLOW: HResult := S_FALSE
  /** E_INVALIDARG. */
  const DIERR_INVALIDPARAM: HResult := 0x8007_0057
  /** E_NOTIMPL. */
  const DIERR_UNSUPPORTED: HResult := 0x8000_4001
  /** HRESULT_FROM_WIN32(ERROR_FILE_NOT_FOUND). */
  const DIERR_OBJECTNOTFOUND: HResult := 0x8007_0002
  const DIERR_NOTEXCLUSIVEACQUIRED: HResult := 0x8004_0205
  const DIERR_NOTBUFFERED: HResult := 0x8004_0207

  /** Object type bits of a DIDFT_* object identifier (low byte). */
  const DIDFT_ABSAXIS: nat := 0x02
  const DIDFT_PSHBUTTON: nat := 0x04
  const DIDFT_POV: nat := 0x10
  /** Instance field: bits 8 to 23. */
  const DIDFT_INSTANCEMASK: nat := 0x00FF_FF00
  const DIDFT_ANYINSTANCE: nat := 0x00FF_FF00

  /**
   * DIDFT_MAKEINSTANCE: the instance number cast to a 16-bit WORD (so -1 becomes 0xFFFF)
   * and moved to bits 8 to 23.
   */
  function MakeInstance(n: int): (r: nat)
    ensures r % 256 == 0 && r < 0x100_0000
    ensures 0 <= n < 0x1_0000 ==> r / 256 == n
  {
    (n % 0x1_0000) * 256
  }

  /** DIDFT_GETINSTANCE: bits 8 to 23 of an object identifier. */
  function GetInstance(id: nat): (r: nat)
    ensures r < 0x1_0000
  {
    (id / 256) % 0x1_0000
  }

  /** DIDFT_GETTYPE: the low byte of an object identifier. */
  function GetType(id: nat): (r: nat)
    ensures r < 256
  {
    id % 256
  }

  /** An object identifier built from a type byte and an instance number. */
  function ObjectId(typeBits: nat, instance: int): (r: nat)
    requires typeBits < 256
    ensures GetType(r) == typeBits
    ensures 0 <= instance < 0x1_0000 ==> GetInstance(r) == instance
  {
    typeBits + MakeInstance(instance)
  }

  /** The low 24 bits of an object identifier are its type byte and its instance field. */
  lemma LowBits(id: nat)
    ensures id % 0x100_0000 == GetType(id) + 256 * GetInstance(id)
  {
    var q := id / 256;
    var h := q / 0x1_0000;
    assert id == 256 * q + GetType(id);
    assert q == 0x1_0000 * h + GetInstance(id);
    assert id == 0x100_0000 * h + (GetType(id) + 256 * GetInstance(id));
    ModOfSplit(id, h, GetType(id) + 256 * GetInstance(id), 0x100_0000);
  }

  /** How a property header names its object (DIPH_*). */
  datatype How = Device | ByOffset | ById | ByUsage | OtherHow(code: nat)

  /** The DIPROP_* property identifiers the modelled code distinguishes. */
  datatype Property =
    | BufferSize | AxisMode | Granularity | Range | Deadzone | Saturation
    | FfGain | JoystickId | LogicalRange | PhysicalRange | OtherProperty(code: nat)

  /** A GUID naming an object type: the six axis types, buttons, POVs, or anything else. */
  datatype Guid = GuidAxis(axis: AxisKind) | GuidButton | GuidPov | GuidOther(code: nat)

  /** Axis types, in the order of the virtual controller's EAxis enumeration (EAxis::Count is 6). */
  datatype AxisKind = X | Y | Z | RotX | RotY | RotZ

  /**
   * A property request as an application passes it: the DIPROPHEADER fields followed by the
   * payload, read as a DIPROPDWORD (`data`) or as a DIPROPRANGE (`rangeMin`, `rangeMax`).
   */
  datatype PropertyRequest = PropertyRequest(
    size: nat, headerSize: nat, obj: nat, how: How, data: int, rangeMin: int, rangeMax: int)

  /** A property value returned to an application. */
  datatype PropertyValue = NoValue | DwordValue(dword: int) | RangeValue(lo: int, hi: int)

  /** sizeof(DIPROPHEADER), sizeof(DIPROPDWORD) and sizeof(DIPROPRANGE). */
  const SIZEOF_DIPROPHEADER: nat := 16
  const SIZEOF_DIPROPDWORD: nat := 20
  const SIZEOF_DIPROPRANGE: nat := 24

  const DIPROPAXISMODE_ABS: nat := 0
  const DIGDD_PEEK: nat := 1

  /** DIGFFS_* force-feedback state flags. */
  const DIGFFS_EMPTY: nat := 0x01
  const DIGFFS_STOPPED: nat := 0x02
  const DIGFFS_PAUSED: nat := 0x04
  const DIGFFS_ACTUATORSON: nat := 0x10
  const DIGFFS_ACTUATORSOFF: nat := 0x20
  const DIGFFS_POWERON: nat := 0x40

  /** DISFFC_* force-feedback commands. */
  const DISFFC_RESET: nat := 0x01
  const DISFFC_STOPALL: nat := 0x02
  const DISFFC_PAUSE: nat := 0x04
  const DISFFC_CONTINUE: nat := 0x08
  const DISFFC_SETACTUATORSON: nat := 0x10
  const DISFFC_SETACTUATORSOFF: nat := 0x20

  /** WinMM result codes (MMSYSERR_NOERROR, JOYERR_PARMS, JOYERR_NOCANDO). */
  const JOYERR_NOERROR: int := 0
  const JOYERR_PARMS: int := 165
  const JOYERR_NOCANDO: int := 166

  /** JOYCAPS_* capability flags. */
  const JOYCAPS_HASZ: nat := 0x01
  const JOYCAPS_HASR: nat := 0x02
  const JOYCAPS_HASU: nat := 0x04
  const JOYCAPS_HASV: nat := 0x08
  const JOYCAPS_HASPOV: nat := 0x10
  const JOYCAPS_POVCTS: nat := 0x40

  /** JOY_POVCENTERED, which is (WORD)-1. */
  const JOY_POVCENTERED: nat := 0xFFFF

  /** A flag word's contribution: `value` when `b` holds, else nothing. */
  function Bit(b: bool, value: nat): nat {
    if b then value else 0
  }

  /** Whether bit `k` of `x` is set. */
  predicate BitSet(x: nat, k: nat) {
    (x / Pow2(k)) % 2 == 1
  }

  function Pow2(k: nat): (r: nat)
    ensures r >= 1
  {
    if k == 0 then 1 else 2 * Pow2(k - 1)
  }
}
