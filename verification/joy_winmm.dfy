/**
 * The WinMM joystick wrapper (Source/WrapperJoyWinMM.cpp): Xidi's virtual controllers and the
 * system's own WinMM devices share one application-visible index space, described by the joystick
 * index map. Entries >= 0 are system device indices passed to WinMM as they are; a virtual
 * controller i is stored as -(i + 1).
 */
module JoyWinMM {
  import opened Wrappers
  import opened Arithmetic
  import opened DirectInput
  import VirtualDevice

  /** The number of Xidi virtual controllers. */
  const VIRTUAL_CONTROLLER_COUNT: nat := VirtualDevice.PHYSICAL_CONTROLLER_COUNT
  /** INT_MAX: the translation of an application index outside the map. */
  const INT_MAX: int := 0x7FFF_FFFF
  /** UINT64_MAX: the active-controller mask when the configuration does not set one. */
  const UINT64_MAX: nat := 0xFFFF_FFFF_FFFF_FFFF
  /** kAxisRangeMin and kAxisRangeMax: WinMM axes span the values of an unsigned 16-bit word. */
  const AXIS_RANGE_MIN: int := 0
  const AXIS_RANGE_MAX: int := 0xFFFF

  /** A device WinMM reports: its vendor/product identifier (empty when absent) and whether it supports XInput. */
  datatype SystemDevice = SystemDevice(id: string, supportsXInput: bool)

  /** A system device is shown to the application when it is present and does not support XInput. */
  predicate Presented(d: SystemDevice) {
    !d.supportsXInput && d.id != ""
  }

  /** The index-map entry of virtual controller `i`. */
  function EncodeVirtual(i: nat): (entry: int)
    ensures entry < 0
  {
    -(i + 1)
  }

  /** The virtual controller a negative index-map entry stands for. */
  function DecodeVirtual(entry: int): (i: nat)
    requires entry < 0
  {
    (-entry) - 1
  }

  /** Decoding inverts the encoding in both directions. */
  lemma VirtualEncodingRoundTrip(i: nat, entry: int)
    ensures DecodeVirtual(EncodeVirtual(i)) == i
    ensures entry < 0 ==> EncodeVirtual(DecodeVirtual(entry)) == entry
  {
  }

  /** The entries for the presented system devices among the first `n`, in ascending order. */
  function SystemPart(info: seq<SystemDevice>, n: nat): (r: seq<int>)
    requires n <= |info|
    ensures |r| <= n
    ensures forall k :: 0 <= k < |r| ==> 0 <= r[k] < n && Presented(info[r[k]])
    ensures forall a, b :: 0 <= a < b < |r| ==> r[a] < r[b]
  {
    if n == 0 then []
    else SystemPart(info, n - 1) + (if Presented(info[n - 1]) then [n - 1] else [])
  }

  /** Every presented system device below `n` has its entry. */
  lemma {:induction false} SystemPartComplete(info: seq<SystemDevice>, n: nat, j: nat)
    requires n <= |info|
    requires j < n && Presented(info[j])
    ensures j in SystemPart(info, n)
  {
    if j < n - 1 {
      SystemPartComplete(info, n - 1, j);
    }
  }

  /** The entries for the active virtual controllers among the first `n`, in ascending controller order. */
  function VirtualPart(mask: nat, n: nat): (r: seq<int>)
    ensures |r| <= n
    ensures forall k :: 0 <= k < |r| ==> -(n as int) <= r[k] < 0 && BitSet(mask, DecodeVirtual(r[k]))
    ensures forall a, b :: 0 <= a < b < |r| ==> DecodeVirtual(r[a]) < DecodeVirtual(r[b])
  {
    if n == 0 then []
    else VirtualPart(mask, n - 1) + (if BitSet(mask, n - 1) then [EncodeVirtual(n - 1)] else [])
  }

  /** Every active virtual controller below `n` has its entry. */
  lemma {:induction false} VirtualPartComplete(mask: nat, n: nat, i: nat)
    requires i < n && BitSet(mask, i)
    ensures EncodeVirtual(i) in VirtualPart(mask, n)
  {
    if i < n - 1 {
      VirtualPartComplete(mask, n - 1, i);
    }
  }

  /** What an index map may hold: a presented system device, or an active virtual controller. */
  ghost predicate MapEntriesValid(info: seq<SystemDevice>, mask: nat, m: seq<int>) {
    forall k :: 0 <= k < |m| ==>
      if m[k] < 0 then -(VIRTUAL_CONTROLLER_COUNT as int) <= m[k] && BitSet(mask, DecodeVirtual(m[k]))
      else m[k] < |info| && Presented(info[m[k]])
  }

  /**
   * CreateJoyIndexMap, from the device list and the active-controller mask. The list's first entry
   * is the user's preferred device: when it is present and not an XInput device, the virtual
   * controllers follow the system devices, otherwise they come first.
   */
  function CreateJoyIndexMap(info: seq<SystemDevice>, mask: nat): (m: seq<int>)
    requires |info| > 0
    ensures MapEntriesValid(info, mask, m)
    ensures forall a, b :: 0 <= a < b < |m| ==> m[a] != m[b]
  {
    var system := SystemPart(info, |info|);
    var virtual := VirtualPart(mask, VIRTUAL_CONTROLLER_COUNT);
    if Presented(info[0]) then system + virtual else virtual + system
  }

  /** The mask the map is built from: the configured one, or all bits set when none is configured. */
  function ActiveMask(configured: Option<nat>): (mask: nat)
    ensures configured.None? ==> forall i :: 0 <= i < VIRTUAL_CONTROLLER_COUNT ==> BitSet(mask, i)
    ensures configured.Some? ==> mask == configured.value
  {
    var mask := configured.GetOr(UINT64_MAX);
    assert Pow2(0) == 1 && Pow2(1) == 2 && Pow2(2) == 4 && Pow2(3) == 8;
    mask
  }

  /** The map holds exactly the presented system devices and the active virtual controllers. */
  lemma JoyIndexMapMembers(info: seq<SystemDevice>, mask: nat, j: int)
    requires |info| > 0
    ensures j in CreateJoyIndexMap(info, mask) <==>
              (0 <= j < |info| && Presented(info[j]))
              || (-(VIRTUAL_CONTROLLER_COUNT as int) <= j < 0 && BitSet(mask, DecodeVirtual(j)))
  {
    var m := CreateJoyIndexMap(info, mask);
    if 0 <= j < |info| && Presented(info[j]) {
      SystemPartComplete(info, |info|, j);
    }
    if -(VIRTUAL_CONTROLLER_COUNT as int) <= j < 0 && BitSet(mask, DecodeVirtual(j)) {
      VirtualPartComplete(mask, VIRTUAL_CONTROLLER_COUNT, DecodeVirtual(j));
    }
    if j in m {
      var k :| 0 <= k < |m| && m[k] == j;
    }
  }

  /**
   * Placement: the virtual controllers come after every system device exactly when the preferred
   * device is presented, and before every one otherwise; within each group the order ascends.
   */
  lemma JoyIndexMapOrder(info: seq<SystemDevice>, mask: nat, a: nat, b: nat)
    requires |info| > 0
    requires a < |CreateJoyIndexMap(info, mask)| && b < |CreateJoyIndexMap(info, mask)|
    ensures var m := CreateJoyIndexMap(info, mask);
            && (m[a] < 0 <= m[b] ==> (Presented(info[0]) <==> b < a))
            && (a < b && 0 <= m[a] && 0 <= m[b] ==> m[a] < m[b])
            && (a < b && m[a] < 0 && m[b] < 0 ==> DecodeVirtual(m[a]) < DecodeVirtual(m[b]))
  {
    var system := SystemPart(info, |info|);
    var virtual := VirtualPart(mask, VIRTUAL_CONTROLLER_COUNT);
    var m := CreateJoyIndexMap(info, mask);
    if Presented(info[0]) {
      assert m == system + virtual;
      if a < |system| && b >= |system| {
        assert m[a] == system[a] && m[b] == virtual[b - |system|];
      }
      if b < |system| && a >= |system| {
        assert m[b] == system[b] && m[a] == virtual[a - |system|];
      }
    } else {
      assert m == virtual + system;
      if a < |virtual| && b >= |virtual| {
        assert m[a] == virtual[a] && m[b] == system[b - |virtual|];
      }
      if b < |virtual| && a >= |virtual| {
        assert m[b] == virtual[b] && m[a] == system[a - |virtual|];
      }
    }
  }

  /** TranslateApplicationJoyIndex: the map entry for an index inside the map, INT_MAX beyond it. */
  function TranslateApplicationJoyIndex(m: seq<int>, joyId: nat): (entry: int)
    ensures joyId < |m| ==> entry == m[joyId]
    ensures joyId >= |m| ==> entry == INT_MAX
  {
    if |m| <= joyId then INT_MAX else m[joyId]
  }

  /** JoyGetNumDevs: the number of devices the application sees. */
  function JoyGetNumDevs(m: seq<int>): (n: nat)
    ensures forall joyId: nat :: joyId < n ==> joyId < |m| && TranslateApplicationJoyIndex(m, joyId) == m[joyId]
    ensures forall joyId: nat :: joyId >= n ==> TranslateApplicationJoyIndex(m, joyId) == INT_MAX
  {
    |m|
  }

  /**
   * Every application index below JoyGetNumDevs reaches a distinct presented system device or
   * active virtual controller; every other index translates to INT_MAX.
   */
  lemma TranslateTargets(info: seq<SystemDevice>, mask: nat, joyId: nat, otherId: nat)
    requires 0 < |info| < INT_MAX
    ensures var m := CreateJoyIndexMap(info, mask);
            var entry := TranslateApplicationJoyIndex(m, joyId);
            && (entry != INT_MAX <==> joyId < JoyGetNumDevs(m))
            && (entry < 0 ==> DecodeVirtual(entry) < VIRTUAL_CONTROLLER_COUNT && BitSet(mask, DecodeVirtual(entry)))
            && (0 <= entry < INT_MAX ==> Presented(info[entry]))
            && (joyId < JoyGetNumDevs(m) && otherId < JoyGetNumDevs(m) && joyId != otherId ==>
                  entry != TranslateApplicationJoyIndex(m, otherId))
  {
  }

  /** Which virtual controller a translated index addresses, when it addresses one. */
  function VirtualTarget(m: seq<int>, joyId: nat): (target: Option<nat>)
    ensures target.Some? <==> joyId < |m| && m[joyId] < 0
    ensures target.Some? ==> EncodeVirtual(target.value) == m[joyId]
    ensures target.Some? && VirtualEntriesInRange(m) ==> target.value < VIRTUAL_CONTROLLER_COUNT
  {
    var entry := TranslateApplicationJoyIndex(m, joyId);
    if entry < 0 then Some(DecodeVirtual(entry)) else None
  }

  /**
   * The JOYCAPS wCaps word of a virtual controller: HASPOV together with POVCTS when it has a POV,
   * then HASZ, HASR, HASU and HASV for its Z, RotZ, RotY and RotX axes.
   */
  function CapsFlags(c: VirtualDevice.Capabilities): (flags: nat)
    ensures BitSet(flags, 0) <==> Z in c.axisTypes
    ensures BitSet(flags, 1) <==> RotZ in c.axisTypes
    ensures BitSet(flags, 2) <==> RotY in c.axisTypes
    ensures BitSet(flags, 3) <==> RotX in c.axisTypes
    ensures BitSet(flags, 4) <==> c.hasPov
    ensures BitSet(flags, 6) <==> c.hasPov
    ensures !BitSet(flags, 5) && !BitSet(flags, 7) && flags < 0x100
  {
    var flags := Bit(c.hasPov, JOYCAPS_HASPOV + JOYCAPS_POVCTS) + Bit(Z in c.axisTypes, JOYCAPS_HASZ)
      + Bit(RotZ in c.axisTypes, JOYCAPS_HASR) + Bit(RotY in c.axisTypes, JOYCAPS_HASU)
      + Bit(RotX in c.axisTypes, JOYCAPS_HASV);
    CapsBits(c.hasPov, Z in c.axisTypes, RotZ in c.axisTypes, RotY in c.axisTypes, RotX in c.axisTypes);
    flags
  }

  lemma CapsBits(pov: bool, z: bool, r: bool, u: bool, v: bool)
    ensures var flags := Bit(pov, JOYCAPS_HASPOV + JOYCAPS_POVCTS) + Bit(z, JOYCAPS_HASZ)
                         + Bit(r, JOYCAPS_HASR) + Bit(u, JOYCAPS_HASU) + Bit(v, JOYCAPS_HASV);
            && (BitSet(flags, 0) <==> z) && (BitSet(flags, 1) <==> r) && (BitSet(flags, 2) <==> u)
            && (BitSet(flags, 3) <==> v) && (BitSet(flags, 4) <==> pov) && (BitSet(flags, 6) <==> pov)
            && !BitSet(flags, 5) && !BitSet(flags, 7) && flags < 0x100
  {
    assert Pow2(0) == 1 && Pow2(1) == 2 && Pow2(2) == 4 && Pow2(3) == 8;
    assert Pow2(4) == 16 && Pow2(5) == 32 && Pow2(6) == 64 && Pow2(7) == 128;
  }

  /** The JOYCAPS fields Xidi fills for a virtual controller (the name strings are left out). */
  datatype JoyCaps = JoyCaps(maxAxes: nat, maxButtons: nat, numAxes: nat, numButtons: nat,
                             axisMin: int, axisMax: int, caps: nat)

  /** An index map whose negative entries all name one of the virtual controllers. */
  predicate VirtualEntriesInRange(m: seq<int>) {
    forall k :: 0 <= k < |m| ==> -(VIRTUAL_CONTROLLER_COUNT as int) <= m[k]
  }

  /**
   * JoyGetDevCaps. `registryKeyOnly` is the application passing (UINT_PTR)-1, which only fills the
   * registry key; `capsOf` gives each virtual controller's capabilities; `sizeofJoyCaps` is
   * sizeof(JOYCAPS); `systemResult` is WinMM's own answer for a system device, whose capabilities
   * are passed through unchanged (None here).
   */
  function JoyGetDevCaps(m: seq<int>, joyId: nat, registryKeyOnly: bool, cbjc: nat, sizeofJoyCaps: nat,
                         capsOf: nat -> VirtualDevice.Capabilities, systemResult: int): (r: (int, Option<JoyCaps>))
    requires VirtualEntriesInRange(m)
    ensures registryKeyOnly ==> r == (JOYERR_NOERROR, None)
    ensures !registryKeyOnly && VirtualTarget(m, joyId).None? ==> r == (systemResult, None)
    ensures !registryKeyOnly && VirtualTarget(m, joyId).Some? && cbjc != sizeofJoyCaps ==> r == (JOYERR_PARMS, None)
    ensures r.1.Some? <==> !registryKeyOnly && VirtualTarget(m, joyId).Some? && cbjc == sizeofJoyCaps
    ensures r.1.Some? ==> r.0 == JOYERR_NOERROR
    ensures r.1.Some? ==>
              var c := capsOf(VirtualTarget(m, joyId).value);
              && r.1.value.numAxes == |c.axisTypes| && r.1.value.numButtons == c.numButtons
              && r.1.value.maxAxes == VirtualDevice.AXIS_COUNT && r.1.value.maxButtons == VirtualDevice.BUTTON_COUNT
              && r.1.value.axisMin == AXIS_RANGE_MIN && r.1.value.axisMax == AXIS_RANGE_MAX
              && (BitSet(r.1.value.caps, 0) <==> Z in c.axisTypes)
              && (BitSet(r.1.value.caps, 1) <==> RotZ in c.axisTypes)
              && (BitSet(r.1.value.caps, 2) <==> RotY in c.axisTypes)
              && (BitSet(r.1.value.caps, 3) <==> RotX in c.axisTypes)
              && (BitSet(r.1.value.caps, 4) <==> c.hasPov) && (BitSet(r.1.value.caps, 6) <==> c.hasPov)
  {
    if registryKeyOnly then (JOYERR_NOERROR, None)
    else
      var entry := TranslateApplicationJoyIndex(m, joyId);
      if entry < 0 then
        var c := capsOf(DecodeVirtual(entry));
        if cbjc != sizeofJoyCaps then (JOYERR_PARMS, None)
        else (JOYERR_NOERROR, Some(JoyCaps(VirtualDevice.AXIS_COUNT, VirtualDevice.BUTTON_COUNT,
                                            |c.axisTypes|, c.numButtons, AXIS_RANGE_MIN, AXIS_RANGE_MAX, CapsFlags(c))))
      else (systemResult, None)
  }

  /** A DirectInput POV reading: centred, or a direction in hundredths of a degree clockwise from north. */
  datatype PovValue = Centered | Direction(hundredths: nat)

  /** The controller state JoyGetPosEx reports: six axis values in EAxis order, the buttons in order, the POV. */
  datatype JoyState = JoyState(axes: seq<int>, buttons: seq<bool>, pov: PovValue)
  {
    ghost predicate Valid() {
      |axes| == VirtualDevice.AXIS_COUNT && |buttons| == VirtualDevice.BUTTON_COUNT
      && (pov.Direction? ==> pov.hundredths < 36000)
    }
  }

  /** The JOYINFOEX fields JoyGetPosEx fills (dwFlags and the reserved fields are left out). */
  datatype JoyInfoEx = JoyInfoEx(xpos: nat, ypos: nat, zpos: nat, rpos: nat, upos: nat, vpos: nat,
                                 buttons: nat, pov: nat)

  /** The conversion of a signed 32-bit axis value to a DWORD field. */
  function AsDword(v: int): (d: nat)
    ensures d < 0x1_0000_0000
    ensures 0 <= v < 0x1_0000_0000 ==> d == v
  {
    v % 0x1_0000_0000
  }

  /** The dwButtons word: the OR of 1 << i over the pressed buttons i. */
  function ButtonBits(b: seq<bool>): (bits: nat)
    ensures bits < Pow2(|b|)
  {
    if |b| == 0 then 0 else Bit(b[0], 1) + 2 * ButtonBits(b[1..])
  }

  /** Bit i of the packed word is set exactly when button i is pressed. */
  lemma {:induction false} ButtonBitsSet(b: seq<bool>, i: nat)
    ensures BitSet(ButtonBits(b), i) <==> i < |b| && b[i]
  {
    var x := ButtonBits(b);
    if |b| == 0 {
      assert x == 0;
    } else {
      var y := ButtonBits(b[1..]);
      ModOfSplit(x, y, Bit(b[0], 1), 2);
      if i == 0 {
        assert Pow2(0) == 1;
      } else {
        BitSetOfHalf(x, i);
        ButtonBitsSet(b[1..], i - 1);
      }
    }
  }

  /** Bit i of a word is bit i - 1 of the word halved. */
  lemma BitSetOfHalf(x: nat, i: nat)
    requires i > 0
    ensures BitSet(x, i) <==> BitSet(x / 2, i - 1)
  {
    DivHalveThen(x, Pow2(i - 1));
  }

  /** Reads n buttons back out of a packed word. */
  function UnpackButtons(bits: nat, n: nat): (b: seq<bool>)
    ensures |b| == n
    ensures forall i :: 0 <= i < n ==> b[i] == BitSet(bits, i)
  {
    seq(n, i requires 0 <= i < n => BitSet(bits, i))
  }

  /** Packing and unpacking the buttons is a round trip. */
  lemma ButtonsRoundTrip(b: seq<bool>)
    ensures UnpackButtons(ButtonBits(b), |b|) == b
  {
    forall i | 0 <= i < |b|
      ensures UnpackButtons(ButtonBits(b), |b|)[i] == b[i]
    {
      ButtonBitsSet(b, i);
    }
  }

  /** The dwPOV field: WinMM's 16-bit JOY_POVCENTERED for a centred POV, else the DirectInput direction. */
  function PovField(p: PovValue): (v: nat)
    requires p.Direction? ==> p.hundredths < 36000
    ensures v == JOY_POVCENTERED <==> p.Centered?
    ensures p.Direction? ==> v == p.hundredths
  {
    if p.Centered? then JOY_POVCENTERED else p.hundredths
  }

  /**
   * JoyGetPosEx. `dwSize` is the size the application declared and `sizeofJoyInfoEx` the entry
   * one; `stateOf` gives each virtual controller's state; `systemResult` is WinMM's own answer for
   * a system device, whose data is passed through unchanged (None here).
   */
  function JoyGetPosEx(m: seq<int>, joyId: nat, dwSize: nat, sizeofJoyInfoEx: nat,
                       stateOf: nat -> JoyState, systemResult: int): (r: (int, Option<JoyInfoEx>))
    requires VirtualEntriesInRange(m)
    requires forall i {:trigger stateOf(i)} :: 0 <= i < VIRTUAL_CONTROLLER_COUNT ==> stateOf(i).Valid()
    ensures VirtualTarget(m, joyId).None? ==> r == (systemResult, None)
    ensures VirtualTarget(m, joyId).Some? && dwSize != sizeofJoyInfoEx ==> r == (JOYERR_PARMS, None)
    ensures r.1.Some? <==> VirtualTarget(m, joyId).Some? && dwSize == sizeofJoyInfoEx
    ensures VirtualTarget(m, joyId).Some? && dwSize == sizeofJoyInfoEx ==>
              var s := stateOf(VirtualTarget(m, joyId).value);
              && s.Valid() && r.0 == JOYERR_NOERROR && r.1.Some?
              && (forall i :: 0 <= i < 32 ==> (BitSet(r.1.value.buttons, i) <==> i < |s.buttons| && s.buttons[i]))
              && (r.1.value.pov == JOY_POVCENTERED <==> s.pov.Centered?)
              && (s.pov.Direction? ==> r.1.value.pov == s.pov.hundredths)
              && r.1.value.xpos == AsDword(s.axes[0]) && r.1.value.ypos == AsDword(s.axes[1])
              && r.1.value.zpos == AsDword(s.axes[2]) && r.1.value.rpos == AsDword(s.axes[5])
              && r.1.value.upos == AsDword(s.axes[4]) && r.1.value.vpos == AsDword(s.axes[3])
  {
    var entry := TranslateApplicationJoyIndex(m, joyId);
    if entry < 0 then
      if dwSize != sizeofJoyInfoEx then (JOYERR_PARMS, None)
      else
        var s := stateOf(DecodeVirtual(entry));
        assert s.Valid();
        var buttons := ButtonBits(s.buttons);
        assert forall i :: 0 <= i < 32 ==> (BitSet(buttons, i) <==> i < |s.buttons| && s.buttons[i]) by {
          forall i | 0 <= i < 32 {
            ButtonBitsSet(s.buttons, i);
          }
        }
        (JOYERR_NOERROR, Some(JoyInfoEx(AsDword(s.axes[0]), AsDword(s.axes[1]), AsDword(s.axes[2]),
                                        AsDword(s.axes[5]), AsDword(s.axes[4]), AsDword(s.axes[3]),
                                        buttons, PovField(s.pov))))
    else (systemResult, None)
  }

  /** The WinMM operations Xidi does not implement for virtual controllers. */
  datatype UnsupportedOperation = GetThreshold | ReleaseCapture | SetCapture | SetThreshold

  /**
   * JoyGetThreshold, JoyReleaseCapture, JoySetCapture and JoySetThreshold: JOYERR_NOCANDO for a
   * virtual controller, WinMM's own answer `systemResult` otherwise.
   */
  function UnsupportedOnVirtual(m: seq<int>, joyId: nat, op: UnsupportedOperation, systemResult: int): (r: int)
    ensures VirtualTarget(m, joyId).Some? ==> r == JOYERR_NOCANDO
    ensures VirtualTarget(m, joyId).None? ==> r == systemResult
  {
    if TranslateApplicationJoyIndex(m, joyId) < 0 then JOYERR_NOCANDO else systemResult
  }
}
