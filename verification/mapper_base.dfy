/**
 * The data-format binder and axis-property store of the original XinputControllerDirectInput
 * mapper base class (Source/Mapper/Base.cpp).
 *
 * An application describes its data packet as an ordered list of object descriptors. The binder
 * walks that list, greedily claims axis, button and POV instances of the mapper, and records a
 * two-way map between instance identifiers and packet offsets. The mapper also stores a deadzone,
 * saturation and range for each axis.
 *
 * The subclass-defined pieces the base class calls (MakeInstanceIdentifier, the identifier
 * decoders, NumInstancesOfType, AxisTypeCount, AxisInstanceIndex and the property constants) are
 * fields of `Params`, constrained only by `Params.Valid`.
 *
 * The model follows the code as written, including these behaviours:
 * - both maps are emptied before the walk starts; a rejected format returns at once, keeping the
 *   entries bound before the descriptor that stopped it, and the lookups hide them because the
 *   binding stays marked invalid;
 * - only axis descriptors claim and check their packet bytes;
 * - a selection succeeds with `> 0` on some paths and `>= 0` on another;
 * - a failed search among the axes of a type ends by reading the axis-used flags at a negative
 *   index, which SelectInstance's one-sided bound test does not catch.
 */
module MapperBase {
  import opened Wrappers
  import opened DirectInput

  /** The kinds of mapped object (EInstanceType). */
  datatype InstanceType = AxisInstance | PovInstance | ButtonInstance

  /** Per-axis properties (SAxisProperties). */
  datatype AxisProperties = AxisProperties(rangeMin: int, rangeMax: int, deadzone: int, saturation: int)

  /**
   * The subclass-supplied constants and functions the base class consults, and the outcome of
   * the one read below the start of an array that the binder makes.
   */
  datatype Params = Params(
    numAxes: nat,
    numPov: nat,
    numButtons: nat,
    /** MakeInstanceIdentifier. */
    makeId: (InstanceType, nat) -> int,
    /** ExtractIdentifierInstanceType. */
    typeOf: int -> InstanceType,
    /** ExtractIdentifierInstanceIndex. */
    indexOf: int -> nat,
    /** AxisTypeCount: how many axes of a given type the mapper has. */
    axisTypeCount: Guid -> nat,
    /** AxisInstanceIndex: the axis index of the k-th axis of a type, or a negative value. */
    axisIndexOf: (Guid, nat) -> int,
    /** kDefaultAxisRangeMin/Max, kDefaultAxisDeadzone and kDefaultAxisSaturation. */
    defaults: AxisProperties,
    /** kMinAxisDeadzoneSaturation and kMaxAxisDeadzoneSaturation. */
    minDeadzoneSaturation: int,
    maxDeadzoneSaturation: int,
    /**
     * Whether SelectInstance at a negative axis index misses. Its only bound test is
     * `instanceToSelect < instanceCount`; it misses when that comparison is unsigned or when the
     * flag read below the array is non-zero. Otherwise the selection writes below the array.
     * The index types are declared in Mapper/Base.h, which is not part of this model.
     */
    negativeIndexMisses: bool)
  {
    /** NumInstancesOfType. */
    function Count(t: InstanceType): nat {
      match t
      case AxisInstance => numAxes
      case PovInstance => numPov
      case ButtonInstance => numButtons
    }

    /**
     * What the base class relies on: identifiers of existing instances are non-negative and
     * decode back to their type and index, and AxisInstanceIndex names existing axes only and
     * runs out after AxisTypeCount entries.
     */
    ghost predicate Valid() {
      && (forall t: InstanceType, i: nat | i < Count(t) ::
            makeId(t, i) >= 0 && typeOf(makeId(t, i)) == t && indexOf(makeId(t, i)) == i)
      && (forall g: Guid, k: nat ::
            axisIndexOf(g, k) < numAxes && (k >= axisTypeCount(g) ==> axisIndexOf(g, k) < 0))
    }
  }

  /** SizeofInstance: axes and POVs occupy a LONG in the packet, buttons a BYTE. */
  function SizeofInstance(t: InstanceType): nat {
    match t
    case AxisInstance => 4
    case PovInstance => 4
    case ButtonInstance => 1
  }

  /** The byte span one object occupies in the mapper's native packet. */
  datatype ObjectInfo = ObjectInfo(offset: nat, size: nat, objectId: nat)

  /** The DIDFT_* type bits reported for each kind of instance. */
  function TypeBits(t: InstanceType): nat {
    match t
    case AxisInstance => DIDFT_ABSAXIS
    case PovInstance => DIDFT_POV
    case ButtonInstance => DIDFT_PSHBUTTON
  }

  /**
   * The offset and identifier FillObjectInstanceInfo reports: the native packet holds all axes,
   * then all POVs, then all buttons.
   */
  function FillObjectInstanceInfo(p: Params, t: InstanceType, i: nat): (r: ObjectInfo)
    requires i < p.Count(t)
    ensures r.size == SizeofInstance(t)
    ensures r.offset + r.size <= 4 * p.numAxes + 4 * p.numPov + p.numButtons
  {
    var offset := match t
      case AxisInstance => 4 * i
      case PovInstance => 4 * p.numAxes + 4 * i
      case ButtonInstance => 4 * p.numAxes + 4 * p.numPov + i;
    ObjectInfo(offset, SizeofInstance(t), ObjectId(TypeBits(t), i))
  }

  /** Distinct objects of the native packet never share a byte. */
  lemma NativeLayoutDisjoint(p: Params, t1: InstanceType, i1: nat, t2: InstanceType, i2: nat)
    requires i1 < p.Count(t1) && i2 < p.Count(t2)
    requires (t1, i1) != (t2, i2)
    ensures var a := FillObjectInstanceInfo(p, t1, i1);
            var b := FillObjectInstanceInfo(p, t2, i2);
            a.offset + a.size <= b.offset || b.offset + b.size <= a.offset
  {
  }

  /**
   * InstanceIdentifierFromDirectInputIdentifier: decodes a DirectInput object identifier, or
   * gives -1 for an unknown type or an instance number the mapper does not have.
   */
  function InstanceFromObjectId(p: Params, id: nat): (r: int)
    requires p.Valid()
    ensures r == -1 || r >= 0
    ensures r >= 0 ==> Decodable(p, r) && TypeBits(p.typeOf(r)) == GetType(id)
                       && p.indexOf(r) == GetInstance(id)
    ensures r == -1 <==> GetType(id) !in {DIDFT_ABSAXIS, DIDFT_PSHBUTTON, DIDFT_POV}
                         || GetInstance(id) >= p.Count(TypeFromBits(GetType(id)))
  {
    var idx := GetInstance(id);
    var kind := GetType(id);
    if kind !in {DIDFT_ABSAXIS, DIDFT_PSHBUTTON, DIDFT_POV} then -1
    else
      var t := TypeFromBits(kind);
      if idx >= p.Count(t) then -1 else p.makeId(t, idx)
  }

  /** The instance type a DIDFT_* type byte names (only meaningful for the three known bytes). */
  function TypeFromBits(kind: nat): InstanceType {
    if kind == DIDFT_ABSAXIS then AxisInstance
    else if kind == DIDFT_PSHBUTTON then ButtonInstance
    else PovInstance
  }

  /** The identifier FillObjectInstanceInfo reports decodes back to the same instance. */
  lemma ObjectIdRoundTrip(p: Params, t: InstanceType, i: nat)
    requires p.Valid() && i < p.Count(t) && i < 0x1_0000
    ensures InstanceFromObjectId(p, FillObjectInstanceInfo(p, t, i).objectId) == p.makeId(t, i)
  {
  }

  /** An identifier the base class can decode into an existing instance. */
  ghost predicate Decodable(p: Params, inst: int) {
    p.indexOf(inst) < p.Count(p.typeOf(inst)) && p.makeId(p.typeOf(inst), p.indexOf(inst)) == inst
  }

  /** The mapper's binding state: the two maps, their validity flag and the axis property table. */
  datatype BinderState = BinderState(
    instanceToOffset: map<int, nat>,
    offsetToInstance: map<nat, int>,
    mapsValid: bool,
    axisProperties: Option<seq<AxisProperties>>)

  /** Every bound instance decodes, and the axis table, once created, has one entry per axis. */
  ghost predicate StateValid(p: Params, s: BinderState) {
    && (forall o :: o in s.offsetToInstance ==> Decodable(p, s.offsetToInstance[o]))
    && (s.axisProperties.Some? ==> |s.axisProperties.value| == p.numAxes)
  }

  /** Each offset entry has its mirror instance entry. */
  ghost predicate Mirrored(o2i: map<nat, int>, i2o: map<int, nat>) {
    forall o :: o in o2i ==> o2i[o] in i2o && i2o[o2i[o]] == o
  }

  /**
   * Every instance entry's offset has an offset entry. The converse of Mirrored does not hold:
   * two instances bound at one offset share that offset's single entry.
   */
  ghost predicate Covered(i2o: map<int, nat>, o2i: map<nat, int>) {
    forall inst :: inst in i2o ==> i2o[inst] in o2i
  }

  /** std::map::insert, which leaves an existing key untouched. */
  function MapInsert<K, V>(m: map<K, V>, k: K, v: V): (r: map<K, V>)
    ensures k in r && r.Keys == m.Keys + {k}
    ensures forall j :: j in m ==> r[j] == m[j]
    ensures k !in m ==> r[k] == v
  {
    if k in m then m else m[k := v]
  }

  // ---------------------------------------------------------------------------------------------
  // The descriptor walk of SetApplicationDataFormat.

  /** One DIOBJECTDATAFORMAT: optional type GUID, packet offset and DIDFT_* type word. */
  datatype ObjectFormat = ObjectFormat(guid: Option<Guid>, offset: nat, dwType: nat)

  /** A DIDATAFORMAT: the packet size and the object descriptors in order. */
  datatype DataFormat = DataFormat(dataSize: nat, objects: seq<ObjectFormat>)

  /** Whether a descriptor accepts any instance (all DIDFT_INSTANCEMASK bits set). */
  predicate AllowAny(d: ObjectFormat) {
    GetInstance(d.dwType) == 0xFFFF
  }

  /** The specific instance a descriptor names. */
  function Specific(d: ObjectFormat): nat {
    GetInstance(d.dwType)
  }

  /** The walk's working state: used flags per type and per packet byte, next-unused counters, maps. */
  datatype Claims = Claims(
    axisUsed: seq<bool>,
    buttonUsed: seq<bool>,
    povUsed: seq<bool>,
    offsetUsed: seq<bool>,
    nextAxis: nat,
    nextButton: nat,
    nextPov: nat,
    instanceToOffset: map<int, nat>,
    offsetToInstance: map<nat, int>)
  {
    function UsedOf(t: InstanceType): seq<bool> {
      match t
      case AxisInstance => axisUsed
      case PovInstance => povUsed
      case ButtonInstance => buttonUsed
    }

    function WithUsed(t: InstanceType, u: seq<bool>): Claims {
      match t
      case AxisInstance => this.(axisUsed := u)
      case PovInstance => this.(povUsed := u)
      case ButtonInstance => this.(buttonUsed := u)
    }
  }

  /** An instance identifier the walk has claimed. */
  ghost predicate Claimed(p: Params, c: Claims, inst: int)
    requires |c.UsedOf(p.typeOf(inst))| == p.Count(p.typeOf(inst))
  {
    Decodable(p, inst) && c.UsedOf(p.typeOf(inst))[p.indexOf(inst)]
  }

  /** What holds of the walk's state between descriptors. */
  ghost predicate WalkInv(p: Params, c: Claims) {
    && |c.axisUsed| == p.numAxes && |c.buttonUsed| == p.numButtons && |c.povUsed| == p.numPov
    && c.nextAxis <= p.numAxes && c.nextButton <= p.numButtons && c.nextPov <= p.numPov
    && Mirrored(c.offsetToInstance, c.instanceToOffset)
    && Covered(c.instanceToOffset, c.offsetToInstance)
    && (forall inst :: inst in c.instanceToOffset ==> Claimed(p, c, inst))
  }

  /**
   * CheckAndSetOffsets: the window of `count` flags from `base` is claimed if every flag in it
   * is clear; otherwise nothing changes.
   */
  function {:induction false} CheckAndSetOffsets(flags: seq<bool>, base: nat, count: nat): (r: Option<seq<bool>>)
    requires base + count <= |flags|
    ensures r.Some? <==> forall k :: base <= k < base + count ==> !flags[k]
    ensures r.Some? ==> |r.value| == |flags|
                        && forall k :: 0 <= k < |flags| ==> r.value[k] == (flags[k] || base <= k < base + count)
    decreases count
  {
    if count == 0 then Some(flags)
    else if flags[base] then None
    else match CheckAndSetOffsets(flags, base + 1, count - 1)
      case None => None
      case Some(f) => Some(f[base := true])
  }

  /** Marking one more instance used keeps every bound instance claimed. */
  lemma MarkingUsedKeepsInv(p: Params, c: Claims, t: InstanceType, k: nat)
    requires p.Valid() && WalkInv(p, c) && k < p.Count(t)
    ensures WalkInv(p, c.WithUsed(t, c.UsedOf(t)[k := true]))
  {
    var c' := c.WithUsed(t, c.UsedOf(t)[k := true]);
    forall inst | inst in c'.instanceToOffset
      ensures Claimed(p, c', inst)
    {
      assert Claimed(p, c, inst);
    }
  }

  /**
   * SelectInstance: claims instance k of type t if it exists and is unused, returning its
   * identifier; otherwise returns -1 and changes nothing. A negative k returns -1 here: the one
   * caller that can pass one, the axis-type search, settles that case in AxisStep.
   */
  function SelectInstance(p: Params, c: Claims, t: InstanceType, k: int): (r: (int, Claims))
    requires p.Valid() && WalkInv(p, c)
    ensures WalkInv(p, r.1)
    ensures r.0 >= 0 <==> 0 <= k < p.Count(t) && !c.UsedOf(t)[k]
    ensures r.0 >= 0 ==> r.0 == p.makeId(t, k) && r.0 !in c.instanceToOffset
                         && r.1 == c.WithUsed(t, c.UsedOf(t)[k := true]) && Claimed(p, r.1, r.0)
    ensures r.0 < 0 ==> r.0 == -1 && r.1 == c
  {
    if 0 <= k < p.Count(t) && !c.UsedOf(t)[k] then
      var c' := c.WithUsed(t, c.UsedOf(t)[k := true]);
      MarkingUsedKeepsInv(p, c, t, k);
      assert forall inst :: inst in c.instanceToOffset ==> inst != p.makeId(t, k) by {
        forall inst | inst in c.instanceToOffset ensures inst != p.makeId(t, k) {
          assert Claimed(p, c, inst);
        }
      }
      (p.makeId(t, k), c')
    else
      (-1, c)
  }

  /** Records a newly claimed instance at an offset in both maps, with std::map::insert semantics. */
  function Insert(p: Params, c: Claims, inst: int, offset: nat): (r: Claims)
    requires p.Valid() && WalkInv(p, c)
    requires inst !in c.instanceToOffset && Claimed(p, c, inst)
    ensures WalkInv(p, r)
    ensures r.instanceToOffset == c.instanceToOffset[inst := offset]
    ensures offset in r.offsetToInstance
    ensures forall o :: o in c.offsetToInstance ==> o in r.offsetToInstance && r.offsetToInstance[o] == c.offsetToInstance[o]
    ensures r.offsetUsed == c.offsetUsed
  {
    c.(instanceToOffset := MapInsert(c.instanceToOffset, inst, offset),
       offsetToInstance := MapInsert(c.offsetToInstance, offset, inst))
  }

  /**
   * The search loop for an any-instance descriptor with an axis type: tries the axes of that
   * type in order until one is free or AxisInstanceIndex runs out. Returns the selection result,
   * the last axis index tried and the updated state. A failed search always ends by trying the
   * negative index AxisInstanceIndex returns once the type runs out.
   */
  function SearchAxis(p: Params, c: Claims, g: Guid, k: nat): (r: (int, int, Claims))
    requires p.Valid() && WalkInv(p, c)
    ensures WalkInv(p, r.2)
    ensures r.0 < 0 <==> AxesOfTypeTaken(p, c.axisUsed, g, k)
    ensures r.0 >= 0 ==> 0 <= r.1 < p.numAxes && !c.axisUsed[r.1] && r.0 == p.makeId(AxisInstance, r.1)
                         && r.0 !in c.instanceToOffset
                         && r.2 == c.(axisUsed := c.axisUsed[r.1 := true]) && Claimed(p, r.2, r.0)
    ensures r.0 < 0 ==> r.1 < 0 && r.2 == c
    decreases if k < p.axisTypeCount(g) then p.axisTypeCount(g) - k else 0
  {
    var ai := p.axisIndexOf(g, k);
    var s := SelectInstance(p, c, AxisInstance, ai);
    if s.0 < 0 && ai >= 0 then SearchAxis(p, c, g, k + 1) else (s.0, ai, s.1)
  }

  /**
   * Every axis of type g from the k-th on, up to the first index AxisInstanceIndex does not
   * name, is already used.
   */
  ghost predicate AxesOfTypeTaken(p: Params, axisUsed: seq<bool>, g: Guid, k: nat)
    requires p.Valid() && |axisUsed| == p.numAxes
    decreases if k < p.axisTypeCount(g) then p.axisTypeCount(g) - k else 0
  {
    var ai := p.axisIndexOf(g, k);
    ai < 0 || (axisUsed[ai] && AxesOfTypeTaken(p, axisUsed, g, k + 1))
  }

  /**
   * The outcome of handling one descriptor: the next state, a rejection, a read past the end of
   * the packet, or a selection below the start of the axis array.
   */
  datatype StepResult = Continue(claims: Claims) | Invalid | OutOfBounds | NegativeIndex

  /** The walk's invariant does not depend on which packet bytes are claimed. */
  lemma ClaimingBytesKeepsInv(p: Params, c: Claims, flags: seq<bool>)
    requires WalkInv(p, c)
    ensures WalkInv(p, c.(offsetUsed := flags))
  {
    var c1 := c.(offsetUsed := flags);
    assert forall inst :: inst in c1.instanceToOffset ==> Claimed(p, c, inst);
  }

  /**
   * Whether a byte of a descriptor's four-byte window that lies inside the packet is already
   * claimed. CheckAndSetOffsets scans the window in order and stops at such a byte, so it never
   * reaches the bytes past the end of the packet when one exists.
   */
  predicate WindowTaken(c: Claims, d: ObjectFormat) {
    exists k :: d.offset <= k < d.offset + 4 && k < |c.offsetUsed| && c.offsetUsed[k]
  }

  /** The window lies inside the packet and none of its bytes is claimed yet. */
  ghost predicate WindowClaimable(c: Claims, d: ObjectFormat) {
    d.offset + 4 <= |c.offsetUsed| && !WindowTaken(c, d)
  }

  /**
   * The axis branch. The descriptor's four packet bytes are claimed first; a claimed byte inside
   * the packet rejects the descriptor, and otherwise a window that runs past the end of the packet
   * is the OutOfBounds outcome. Then an axis is chosen: by counter or number when no type GUID is
   * given, otherwise among the axes of that type. A search among the axes of a type that finds
   * none free selects at a negative index; unless that selection misses, it is the NegativeIndex
   * outcome.
   */
  function AxisStep(p: Params, c: Claims, d: ObjectFormat): (r: StepResult)
    requires p.Valid() && WalkInv(p, c) && c.nextAxis < p.numAxes
    ensures r.Continue? ==> WalkInv(p, r.claims) && |r.claims.offsetUsed| == |c.offsetUsed|
    ensures r.Continue? ==> forall k :: 0 <= k < |c.offsetUsed| ==>
              r.claims.offsetUsed[k] == (c.offsetUsed[k] || d.offset <= k < d.offset + 4)
    ensures WindowTaken(c, d) ==> r == Invalid
    ensures r == OutOfBounds <==> d.offset + 4 > |c.offsetUsed| && !WindowTaken(c, d)
    ensures WindowClaimable(c, d) && AllowAny(d) ==> r.Continue? || r == NegativeIndex
    ensures r == NegativeIndex <==>
              && WindowClaimable(c, d) && AllowAny(d) && d.guid.Some? && p.axisTypeCount(d.guid.value) != 0
              && !p.negativeIndexMisses && AxesOfTypeTaken(p, c.axisUsed, d.guid.value, 0)
    ensures (WindowClaimable(c, d) && d.guid.Some? && p.axisTypeCount(d.guid.value) == 0) ==> (r == Invalid <==> !AllowAny(d))
    ensures (WindowClaimable(c, d) && d.guid.None? && !AllowAny(d)) ==>
              (r == Invalid <==> Specific(d) >= p.numAxes || c.axisUsed[Specific(d)] || p.makeId(AxisInstance, Specific(d)) == 0)
    ensures (WindowClaimable(c, d) && d.guid.None? && !AllowAny(d) && r.Continue?) ==>
              r.claims.instanceToOffset == c.instanceToOffset[p.makeId(AxisInstance, Specific(d)) := d.offset]
    ensures (WindowClaimable(c, d) && d.guid.Some? && p.axisTypeCount(d.guid.value) != 0 && !AllowAny(d)) ==>
              var ai := p.axisIndexOf(d.guid.value, Specific(d));
              && (r == Invalid <==> ai < 0 || c.axisUsed[ai])
              && (r.Continue? ==> r.claims.instanceToOffset == c.instanceToOffset[p.makeId(AxisInstance, ai) := d.offset])
  {
    if d.offset + 4 > |c.offsetUsed| then
      if WindowTaken(c, d) then Invalid else OutOfBounds
    else match CheckAndSetOffsets(c.offsetUsed, d.offset, SizeofInstance(AxisInstance))
      case None => Invalid
      case Some(flags) =>
        var c1 := c.(offsetUsed := flags);
        ClaimingBytesKeepsInv(p, c, flags);
        if d.guid.None? then
          var s := SelectInstance(p, c1, AxisInstance, if AllowAny(d) then c.nextAxis else Specific(d));
          if s.0 > 0 then Continue(Insert(p, s.1, s.0, d.offset))
          else if !AllowAny(d) then Invalid
          else Continue(s.1)
        else if p.axisTypeCount(d.guid.value) != 0 then
          if AllowAny(d) then SearchStep(p, c1, d.guid.value, d.offset)
          else
            // The inline check `axisIndex >= 0 && !axisUsed[axisIndex]` is SelectInstance's test,
            // because AxisInstanceIndex only names existing axes.
            var s := SelectInstance(p, c1, AxisInstance, p.axisIndexOf(d.guid.value, Specific(d)));
            if s.0 >= 0 then Continue(Insert(p, s.1, s.0, d.offset))
            else Invalid
        else if !AllowAny(d) then Invalid
        else Continue(c1)
  }

  /**
   * An any-instance descriptor for axis type g at `offset`: binds the first free axis of the type
   * there. When none is free, the search's last selection is at a negative index: a miss leaves
   * the descriptor unbound, anything else is the NegativeIndex outcome.
   */
  function SearchStep(p: Params, c: Claims, g: Guid, offset: nat): (r: StepResult)
    requires p.Valid() && WalkInv(p, c)
    ensures r != Invalid && r != OutOfBounds
    ensures r.Continue? ==> WalkInv(p, r.claims) && r.claims.offsetUsed == c.offsetUsed
    ensures r == NegativeIndex <==> !p.negativeIndexMisses && AxesOfTypeTaken(p, c.axisUsed, g, 0)
    ensures r.Continue? && AxesOfTypeTaken(p, c.axisUsed, g, 0) ==> r.claims == c
    ensures !AxesOfTypeTaken(p, c.axisUsed, g, 0) ==>
              r.Continue? && (exists ai :: 0 <= ai < p.numAxes && !c.axisUsed[ai]
                                 && r.claims.axisUsed == c.axisUsed[ai := true]
                                 && r.claims.instanceToOffset == c.instanceToOffset[p.makeId(AxisInstance, ai) := offset])
  {
    var s := SearchAxis(p, c, g, 0);
    if s.0 >= 0 then Continue(Insert(p, s.2, p.makeId(AxisInstance, s.1), offset))
    else if p.negativeIndexMisses then Continue(s.2)
    else NegativeIndex
  }

  /**
   * The button and POV branches: the type GUID must be absent or name the object's own type;
   * the instance is chosen by counter or by number.
   */
  function PickStep(p: Params, c: Claims, d: ObjectFormat, t: InstanceType, typeGuid: Guid): (r: StepResult)
    requires p.Valid() && WalkInv(p, c)
    ensures r.Continue? ==> WalkInv(p, r.claims) && r.claims.offsetUsed == c.offsetUsed
    ensures r != OutOfBounds && r != NegativeIndex
    ensures d.guid.Some? && d.guid.value != typeGuid ==> r == Invalid
    ensures (d.guid.None? || d.guid == Some(typeGuid)) && AllowAny(d) ==> r.Continue?
    ensures !AllowAny(d) && (Specific(d) >= p.Count(t) || c.UsedOf(t)[Specific(d)]) ==> r == Invalid
    ensures r.Continue? ==> forall inst :: inst in c.instanceToOffset ==>
              inst in r.claims.instanceToOffset && r.claims.instanceToOffset[inst] == c.instanceToOffset[inst]
  {
    if d.guid.None? || d.guid.value == typeGuid then
      var next := match t
        case AxisInstance => c.nextAxis
        case PovInstance => c.nextPov
        case ButtonInstance => c.nextButton;
      var s := SelectInstance(p, c, t, if AllowAny(d) then next else Specific(d));
      if s.0 > 0 then Continue(Insert(p, s.1, s.0, d.offset))
      else if !AllowAny(d) then Invalid
      else Continue(s.1)
    else Invalid
  }

  /** Whether bit `k` of a descriptor's type word is set, for the three type bits. */
  predicate HasTypeBit(d: ObjectFormat, bits: nat)
    requires bits in {DIDFT_ABSAXIS, DIDFT_PSHBUTTON, DIDFT_POV}
  {
    BitSet(d.dwType, if bits == DIDFT_ABSAXIS then 1 else if bits == DIDFT_PSHBUTTON then 2 else 4)
  }

  /** The descriptor reaches the axis branch: it has the axis type bit and an axis is still unused. */
  ghost predicate TakesAxisBranch(p: Params, c: Claims, d: ObjectFormat) {
    HasTypeBit(d, DIDFT_ABSAXIS) && c.nextAxis < p.numAxes
  }

  /**
   * One iteration of the descriptor loop: the first branch whose type bit is set and whose
   * next-unused counter has not run out handles the descriptor; a descriptor no branch takes is
   * skipped when it accepts any instance and rejected otherwise.
   */
  function Step(p: Params, c: Claims, d: ObjectFormat): (r: StepResult)
    requires p.Valid() && WalkInv(p, c)
    ensures r.Continue? ==> WalkInv(p, r.claims) && |r.claims.offsetUsed| == |c.offsetUsed|
    ensures r.Continue? ==> forall k :: 0 <= k < |c.offsetUsed| && c.offsetUsed[k] ==> r.claims.offsetUsed[k]
    ensures r == OutOfBounds ==> TakesAxisBranch(p, c, d)
    ensures r == NegativeIndex ==> TakesAxisBranch(p, c, d) && !p.negativeIndexMisses
    ensures TakesAxisBranch(p, c, d) && WindowTaken(c, d) ==> r == Invalid
    ensures (!HasTypeBit(d, DIDFT_ABSAXIS) && !HasTypeBit(d, DIDFT_PSHBUTTON) && !HasTypeBit(d, DIDFT_POV)) ==>
              (r == Invalid <==> !AllowAny(d)) && (r.Continue? ==> r.claims == c)
  {
    if HasTypeBit(d, DIDFT_ABSAXIS) && c.nextAxis < p.numAxes then AxisStep(p, c, d)
    else if HasTypeBit(d, DIDFT_PSHBUTTON) && c.nextButton < p.numButtons then
      PickStep(p, c, d, ButtonInstance, GuidButton)
    else if HasTypeBit(d, DIDFT_POV) && c.nextPov < p.numPov then
      PickStep(p, c, d, PovInstance, GuidPov)
    else if AllowAny(d) then Continue(c)
    else Invalid
  }

  /**
   * The counter advance at the end of each iteration: `while (used[next] && next < count) next++`.
   * The flag is read before the bound is tested, so at `next == count` the loop reads one cell
   * past the array; `pastEnd` stands for whatever that cell holds.
   */
  function AdvanceNext(used: seq<bool>, next: nat, pastEnd: bool): (r: nat)
    requires next <= |used|
    ensures next <= r <= |used|
    decreases |used| - next
  {
    var cell := if next < |used| then used[next] else pastEnd;
    if cell && next < |used| then AdvanceNext(used, next + 1, pastEnd) else next
  }

  /** The counter moves to the first unused index at or after it, whatever lies past the array. */
  lemma {:induction false} AdvanceNextFindsUnused(used: seq<bool>, next: nat, pastEnd: bool)
    requires next <= |used|
    ensures AdvanceNext(used, next, pastEnd) == AdvanceNext(used, next, !pastEnd)
    ensures var r := AdvanceNext(used, next, pastEnd);
            (r < |used| ==> !used[r]) && forall j :: next <= j < r ==> used[j]
    decreases |used| - next
  {
    if next < |used| && used[next] {
      AdvanceNextFindsUnused(used, next + 1, pastEnd);
    }
  }

  function Advance(p: Params, c: Claims, pastEnd: bool): (r: Claims)
    requires p.Valid() && WalkInv(p, c)
    ensures WalkInv(p, r) && r.offsetUsed == c.offsetUsed
  {
    c.(nextAxis := AdvanceNext(c.axisUsed, c.nextAxis, pastEnd),
       nextButton := AdvanceNext(c.buttonUsed, c.nextButton, pastEnd),
       nextPov := AdvanceNext(c.povUsed, c.nextPov, pastEnd))
  }

  /** The descriptor loop: stops at the first rejected or undefined descriptor. */
  function Walk(p: Params, c: Claims, objects: seq<ObjectFormat>, pastEnd: bool): (r: StepResult)
    requires p.Valid() && WalkInv(p, c)
    ensures r.Continue? ==> WalkInv(p, r.claims) && |r.claims.offsetUsed| == |c.offsetUsed|
    ensures r.Continue? ==> forall k :: 0 <= k < |c.offsetUsed| && c.offsetUsed[k] ==> r.claims.offsetUsed[k]
    decreases |objects|
  {
    if objects == [] then Continue(c)
    else match Step(p, c, objects[0])
      case Continue(c') => Walk(p, Advance(p, c', pastEnd), objects[1..], pastEnd)
      case Invalid => Invalid
      case OutOfBounds => OutOfBounds
      case NegativeIndex => NegativeIndex
  }

  /** Every axis descriptor's four bytes lie inside the packet. */
  ghost predicate AxisWindowsFit(objects: seq<ObjectFormat>, dataSize: nat) {
    forall i :: 0 <= i < |objects| && HasTypeBit(objects[i], DIDFT_ABSAXIS) ==> objects[i].offset + 4 <= dataSize
  }

  /** When every axis window fits in the packet, the walk never reads past it. */
  lemma {:induction false} WalkStaysInBounds(p: Params, c: Claims, objects: seq<ObjectFormat>, pastEnd: bool)
    requires p.Valid() && WalkInv(p, c)
    ensures AxisWindowsFit(objects, |c.offsetUsed|) ==> Walk(p, c, objects, pastEnd) != OutOfBounds
    decreases |objects|
  {
    if objects != [] && AxisWindowsFit(objects, |c.offsetUsed|) {
      var d := objects[0];
      if HasTypeBit(d, DIDFT_ABSAXIS) && c.nextAxis < p.numAxes {
        assert d.offset + 4 <= |c.offsetUsed|;
      }
      match Step(p, c, d)
      case Continue(c') =>
        var c'' := Advance(p, c', pastEnd);
        assert AxisWindowsFit(objects[1..], |c''.offsetUsed|) by {
          forall i | 0 <= i < |objects[1..]| && HasTypeBit(objects[1..][i], DIDFT_ABSAXIS)
            ensures objects[1..][i].offset + 4 <= |c''.offsetUsed|
          {
            assert objects[1..][i] == objects[i + 1];
          }
        }
        WalkStaysInBounds(p, c'', objects[1..], pastEnd);
      case Invalid =>
      case OutOfBounds =>
      case NegativeIndex =>
    }
  }

  /** When the selection at a negative axis index misses, the walk never selects below the array. */
  lemma {:induction false} WalkStaysAboveStart(p: Params, c: Claims, objects: seq<ObjectFormat>, pastEnd: bool)
    requires p.Valid() && WalkInv(p, c)
    ensures p.negativeIndexMisses ==> Walk(p, c, objects, pastEnd) != NegativeIndex
    decreases |objects|
  {
    if objects != [] {
      match Step(p, c, objects[0])
      case Continue(c') => WalkStaysAboveStart(p, Advance(p, c', pastEnd), objects[1..], pastEnd);
      case Invalid =>
      case OutOfBounds =>
      case NegativeIndex =>
    }
  }

  /**
   * The outcome of SetApplicationDataFormat: S_OK, DIERR_INVALIDPARAM, or an access outside an
   * array (past the packet's flags or below the axis flags).
   */
  datatype FormatOutcome = Accepted | Rejected | Undefined
  {
    function Code(): HResult
      requires !Undefined?
    {
      if Accepted? then DI_OK else DIERR_INVALIDPARAM
    }
  }

  /** The walk's starting state for a packet of `dataSize` bytes: nothing used, empty maps. */
  function FreshClaims(p: Params, dataSize: nat): (c: Claims)
    ensures WalkInv(p, c) && |c.offsetUsed| == dataSize
    ensures forall k :: 0 <= k < dataSize ==> !c.offsetUsed[k]
  {
    Claims(seq(p.numAxes, _ => false), seq(p.numButtons, _ => false), seq(p.numPov, _ => false),
           seq(dataSize, _ => false), 0, 0, 0, map[], map[])
  }

  /**
   * The walk's state where it ends: after the last descriptor when every step continues, else
   * just before the descriptor that stopped it, whose own step inserts nothing.
   */
  function Reached(p: Params, c: Claims, objects: seq<ObjectFormat>, pastEnd: bool): (r: Claims)
    requires p.Valid() && WalkInv(p, c)
    ensures WalkInv(p, r)
    ensures Walk(p, c, objects, pastEnd).Continue? ==> r == Walk(p, c, objects, pastEnd).claims
    decreases |objects|
  {
    if objects == [] then c
    else match Step(p, c, objects[0])
      case Continue(c') => Reached(p, Advance(p, c', pastEnd), objects[1..], pastEnd)
      case _ => c
  }

  /**
   * SetApplicationDataFormat: clears the binding, walks the descriptors, and on success installs
   * the new maps and marks them valid. A rejected format returns at once: the entries the earlier
   * descriptors inserted stay in the maps, which remain marked invalid. `pastEnd` is the cell the
   * counter advance reads past the end of a used-flag array.
   */
  function SetApplicationDataFormat(p: Params, s: BinderState, f: DataFormat, pastEnd: bool): (r: (FormatOutcome, BinderState))
    requires p.Valid() && StateValid(p, s)
    ensures StateValid(p, r.1)
    ensures r.1.axisProperties == s.axisProperties
    ensures r.1.mapsValid <==> r.0 == Accepted
    ensures var c := Reached(p, FreshClaims(p, f.dataSize), f.objects, pastEnd);
            r.1.instanceToOffset == c.instanceToOffset && r.1.offsetToInstance == c.offsetToInstance
    ensures Mirrored(r.1.offsetToInstance, r.1.instanceToOffset) && Covered(r.1.instanceToOffset, r.1.offsetToInstance)
    ensures forall inst :: inst in r.1.instanceToOffset ==> Decodable(p, inst)
    ensures r.0 == Undefined ==> !AxisWindowsFit(f.objects, f.dataSize) || !p.negativeIndexMisses
    ensures r.0 == Undefined && p.negativeIndexMisses ==> !AxisWindowsFit(f.objects, f.dataSize)
  {
    var c0 := FreshClaims(p, f.dataSize);
    WalkStaysInBounds(p, c0, f.objects, pastEnd);
    WalkStaysAboveStart(p, c0, f.objects, pastEnd);
    var c := Reached(p, c0, f.objects, pastEnd);
    assert forall inst :: inst in c.instanceToOffset ==> Claimed(p, c, inst);
    var bound := BinderState(c.instanceToOffset, c.offsetToInstance, false, s.axisProperties);
    match Walk(p, c0, f.objects, pastEnd)
    case Continue(_) => (Accepted, bound.(mapsValid := true))
    case Invalid => (Rejected, bound)
    case OutOfBounds => (Undefined, bound)
    case NegativeIndex => (Undefined, bound)
  }

  /** ResetApplicationDataFormat: empties both maps and marks them invalid. */
  function ResetApplicationDataFormat(s: BinderState): (r: BinderState)
    ensures !r.mapsValid && r.instanceToOffset == map[] && r.offsetToInstance == map[]
    ensures r.axisProperties == s.axisProperties
  {
    s.(instanceToOffset := map[], offsetToInstance := map[], mapsValid := false)
  }

  /** InstanceForOffset: the bound instance, or -1 when no format is set or the offset is unbound. */
  function InstanceForOffset(s: BinderState, offset: nat): (r: int)
    ensures !s.mapsValid || offset !in s.offsetToInstance ==> r == -1
    ensures s.mapsValid && offset in s.offsetToInstance ==> r == s.offsetToInstance[offset]
  {
    if s.mapsValid && offset in s.offsetToInstance then s.offsetToInstance[offset] else -1
  }

  /** ~0 as a DWORD. */
  const INVALID_OFFSET: nat := 0xFFFF_FFFF

  /** OffsetForInstance: the bound offset, or ~0 when no format is set or the instance is unbound. */
  function OffsetForInstance(s: BinderState, inst: int): (r: nat)
    ensures !s.mapsValid || inst !in s.instanceToOffset ==> r == INVALID_OFFSET
    ensures s.mapsValid && inst in s.instanceToOffset ==> r == s.instanceToOffset[inst]
  {
    if s.mapsValid && inst in s.instanceToOffset then s.instanceToOffset[inst] else INVALID_OFFSET
  }

  /** After a successful format, looking up the instance at a bound offset and then its offset returns that offset. */
  lemma OffsetLookupRoundTrip(p: Params, s: BinderState, f: DataFormat, pastEnd: bool, offset: nat)
    requires p.Valid() && StateValid(p, s)
    ensures var r := SetApplicationDataFormat(p, s, f, pastEnd);
            r.0 == Accepted && offset in r.1.offsetToInstance ==>
              OffsetForInstance(r.1, InstanceForOffset(r.1, offset)) == offset
  {
  }

  /**
   * After a successful format, looking up a bound instance's offset, the instance at that offset
   * and that instance's offset gives the first offset back.
   */
  lemma InstanceFirstRoundTrip(p: Params, s: BinderState, f: DataFormat, pastEnd: bool, inst: int)
    requires p.Valid() && StateValid(p, s)
    ensures var r := SetApplicationDataFormat(p, s, f, pastEnd);
            r.0 == Accepted && inst in r.1.instanceToOffset ==>
              OffsetForInstance(r.1, InstanceForOffset(r.1, OffsetForInstance(r.1, inst))) == OffsetForInstance(r.1, inst)
  {
    var r := SetApplicationDataFormat(p, s, f, pastEnd);
    if r.0 == Accepted && inst in r.1.instanceToOffset {
      var o := r.1.instanceToOffset[inst];
      assert o in r.1.offsetToInstance;
      assert r.1.instanceToOffset[r.1.offsetToInstance[o]] == o;
    }
  }

  /**
   * The entries a rejected format leaves behind are never seen: with the maps marked invalid,
   * both lookups answer with their sentinels.
   */
  lemma FailedFormatHidesEntries(p: Params, s: BinderState, f: DataFormat, pastEnd: bool, offset: nat, inst: int)
    requires p.Valid() && StateValid(p, s)
    ensures var r := SetApplicationDataFormat(p, s, f, pastEnd);
            r.0 != Accepted ==> InstanceForOffset(r.1, offset) == -1 && OffsetForInstance(r.1, inst) == INVALID_OFFSET
  {
  }

  /** After a reset, every lookup answers with its sentinel. */
  lemma ResetForgetsBinding(s: BinderState, offset: nat, inst: int)
    ensures InstanceForOffset(ResetApplicationDataFormat(s), offset) == -1
    ensures OffsetForInstance(ResetApplicationDataFormat(s), inst) == INVALID_OFFSET
  {
  }

  // ---------------------------------------------------------------------------------------------
  // Axis properties.

  /** IsPropertyHandledByMapper: axis mode, deadzone, range and saturation. */
  predicate IsPropertyHandledByMapper(prop: Property) {
    prop in {AxisMode, Deadzone, Range, Saturation}
  }

  /** InitializeAxisProperties: creates the table with defaults the first time only. */
  function InitializeAxisProperties(p: Params, s: BinderState): (r: BinderState)
    requires StateValid(p, s)
    ensures StateValid(p, r) && r.axisProperties.Some?
    ensures s.axisProperties.Some? ==> r == s
    ensures s.axisProperties.None? ==> forall i :: 0 <= i < p.numAxes ==> r.axisProperties.value[i] == p.defaults
    ensures r.instanceToOffset == s.instanceToOffset && r.offsetToInstance == s.offsetToInstance
    ensures r.mapsValid == s.mapsValid
  {
    if s.axisProperties.Some? then s
    else s.(axisProperties := Some(seq(p.numAxes, _ => p.defaults)))
  }

  /** Lazy initialisation happens once: a second call changes nothing. */
  lemma InitializeIsIdempotent(p: Params, s: BinderState)
    requires StateValid(p, s)
    ensures InitializeAxisProperties(p, InitializeAxisProperties(p, s)) == InitializeAxisProperties(p, s)
  {
  }

  /** InstanceIdentifierFromDirectInputSpec: by offset through the binding, by identifier, or -1. */
  function InstanceFromSpec(p: Params, s: BinderState, obj: nat, how: How): (r: int)
    requires p.Valid() && StateValid(p, s)
    ensures r >= 0 ==> Decodable(p, r)
    ensures how !in {ByOffset, ById} ==> r == -1
  {
    match how
    case ByOffset => InstanceForOffset(s, obj)
    case ById => InstanceFromObjectId(p, obj)
    case _ => -1
  }

  /** The DIPROPDWORD or DIPROPRANGE size each axis property requires. */
  function ExpectedSize(prop: Property): nat {
    if prop == Range then SIZEOF_DIPROPRANGE else SIZEOF_DIPROPDWORD
  }

  /** The stored value an axis property reads. */
  function ValueOf(prop: Property, a: AxisProperties): PropertyValue {
    match prop
    case Deadzone => DwordValue(a.deadzone)
    case Saturation => DwordValue(a.saturation)
    case _ => RangeValue(a.rangeMin, a.rangeMax)
  }

  /**
   * The checks GetMappedProperty and SetMappedProperty share for deadzone, saturation and
   * range: the addressed axis index, or the error code.
   */
  function LocateAxis(p: Params, s: BinderState, prop: Property, req: PropertyRequest): (r: (HResult, nat))
    requires p.Valid() && StateValid(p, s)
    requires prop in {Deadzone, Saturation, Range}
    ensures r.0 == DI_OK || r.0 == DIERR_INVALIDPARAM || r.0 == DIERR_UNSUPPORTED || r.0 == DIERR_OBJECTNOTFOUND
    ensures r.0 == DI_OK <==> req.size == ExpectedSize(prop) && req.how != Device
                              && InstanceFromSpec(p, s, req.obj, req.how) >= 0
                              && p.typeOf(InstanceFromSpec(p, s, req.obj, req.how)) == AxisInstance
    ensures r.0 == DI_OK ==> r.1 < p.numAxes && r.1 == p.indexOf(InstanceFromSpec(p, s, req.obj, req.how))
    ensures req.size != ExpectedSize(prop) ==> r.0 == DIERR_INVALIDPARAM
    ensures req.size == ExpectedSize(prop) && req.how == Device ==> r.0 == DIERR_UNSUPPORTED
    ensures req.size == ExpectedSize(prop) && req.how != Device && InstanceFromSpec(p, s, req.obj, req.how) < 0 ==>
              r.0 == DIERR_OBJECTNOTFOUND
    ensures (req.size == ExpectedSize(prop) && req.how != Device && InstanceFromSpec(p, s, req.obj, req.how) >= 0
             && p.typeOf(InstanceFromSpec(p, s, req.obj, req.how)) != AxisInstance) ==> r.0 == DIERR_UNSUPPORTED
  {
    if req.size != ExpectedSize(prop) then (DIERR_INVALIDPARAM, 0)
    else if req.how == Device then (DIERR_UNSUPPORTED, 0)
    else
      var inst := InstanceFromSpec(p, s, req.obj, req.how);
      if inst < 0 then (DIERR_OBJECTNOTFOUND, 0)
      else if p.typeOf(inst) != AxisInstance then (DIERR_UNSUPPORTED, 0)
      else (DI_OK, p.indexOf(inst))
  }

  /** GetMappedProperty: the result code, the value read, and the state after lazy initialisation. */
  function GetMappedProperty(p: Params, s: BinderState, prop: Property, req: PropertyRequest): (r: (HResult, PropertyValue, BinderState))
    requires p.Valid() && StateValid(p, s)
    ensures r.2 == InitializeAxisProperties(p, s)
    ensures !IsPropertyHandledByMapper(prop) ==> r.0 == DIERR_UNSUPPORTED
    ensures IsPropertyHandledByMapper(prop) && req.headerSize != SIZEOF_DIPROPHEADER ==> r.0 == DIERR_INVALIDPARAM
    ensures prop == AxisMode && req.headerSize == SIZEOF_DIPROPHEADER ==>
              if req.size == SIZEOF_DIPROPDWORD then r.0 == DI_OK && r.1 == DwordValue(DIPROPAXISMODE_ABS)
              else r.0 == DIERR_INVALIDPARAM
    ensures prop in {Deadzone, Saturation, Range} && req.headerSize == SIZEOF_DIPROPHEADER ==>
              var located := LocateAxis(p, s, prop, req);
              && r.0 == located.0
              && (r.0 == DI_OK ==> r.1 == ValueOf(prop, r.2.axisProperties.value[located.1]))
    ensures r.0 != DI_OK ==> r.1 == NoValue
  {
    var s1 := InitializeAxisProperties(p, s);
    if !IsPropertyHandledByMapper(prop) then (DIERR_UNSUPPORTED, NoValue, s1)
    else if req.headerSize != SIZEOF_DIPROPHEADER then (DIERR_INVALIDPARAM, NoValue, s1)
    else if prop == AxisMode then
      if req.size != SIZEOF_DIPROPDWORD then (DIERR_INVALIDPARAM, NoValue, s1)
      else (DI_OK, DwordValue(DIPROPAXISMODE_ABS), s1)
    else
      var located := LocateAxis(p, s1, prop, req);
      if located.0 != DI_OK then (located.0, NoValue, s1)
      else (DI_OK, ValueOf(prop, s1.axisProperties.value[located.1]), s1)
  }

  /** The axis entry after a successful write of one property. */
  function Updated(prop: Property, a: AxisProperties, req: PropertyRequest): AxisProperties {
    match prop
    case Deadzone => a.(deadzone := req.data)
    case Saturation => a.(saturation := req.data)
    case _ => a.(rangeMin := req.rangeMin, rangeMax := req.rangeMax)
  }

  /** Whether a value passes SetMappedProperty's range checks. */
  predicate Acceptable(p: Params, prop: Property, req: PropertyRequest) {
    if prop == Range then req.rangeMin < req.rangeMax
    else p.minDeadzoneSaturation <= req.data <= p.maxDeadzoneSaturation
  }

  /**
   * SetMappedProperty: validates the request and writes one axis's field(s). On any error only
   * the lazy initialisation has happened.
   */
  function SetMappedProperty(p: Params, s: BinderState, prop: Property, req: PropertyRequest): (r: (HResult, BinderState))
    requires p.Valid() && StateValid(p, s)
    ensures StateValid(p, r.1)
    ensures r.0 != DI_OK ==> r.1 == InitializeAxisProperties(p, s)
    ensures !IsPropertyHandledByMapper(prop) ==> r.0 == DIERR_UNSUPPORTED
    ensures IsPropertyHandledByMapper(prop) && req.headerSize != SIZEOF_DIPROPHEADER ==> r.0 == DIERR_INVALIDPARAM
    ensures prop == AxisMode && req.headerSize == SIZEOF_DIPROPHEADER ==> r.0 == DIERR_UNSUPPORTED
    ensures (prop in {Deadzone, Saturation, Range} && req.headerSize == SIZEOF_DIPROPHEADER
             && LocateAxis(p, s, prop, req).0 != DI_OK) ==> r.0 == LocateAxis(p, s, prop, req).0
    ensures (prop in {Deadzone, Saturation, Range} && req.headerSize == SIZEOF_DIPROPHEADER
             && LocateAxis(p, s, prop, req).0 == DI_OK) ==>
              if Acceptable(p, prop, req) then r.0 == DI_OK else r.0 == DIERR_INVALIDPARAM
    ensures r.0 == DI_OK ==> prop in {Deadzone, Saturation, Range}
    ensures r.0 == DI_OK && prop in {Deadzone, Saturation, Range} ==>
              var s1 := InitializeAxisProperties(p, s);
              var i := LocateAxis(p, s, prop, req).1;
              && Acceptable(p, prop, req)
              && LocateAxis(p, s, prop, req).0 == DI_OK
              && r.1 == s1.(axisProperties := Some(s1.axisProperties.value[i := Updated(prop, s1.axisProperties.value[i], req)]))
  {
    var s1 := InitializeAxisProperties(p, s);
    if !IsPropertyHandledByMapper(prop) then (DIERR_UNSUPPORTED, s1)
    else if req.headerSize != SIZEOF_DIPROPHEADER then (DIERR_INVALIDPARAM, s1)
    else if prop == AxisMode then (DIERR_UNSUPPORTED, s1)
    else
      var located := LocateAxis(p, s1, prop, req);
      if located.0 != DI_OK then (located.0, s1)
      else if !Acceptable(p, prop, req) then (DIERR_INVALIDPARAM, s1)
      else
        var table := s1.axisProperties.value;
        (DI_OK, s1.(axisProperties := Some(table[located.1 := Updated(prop, table[located.1], req)])))
  }

  /** A value written successfully is the value read back through the same request. */
  lemma SetThenGet(p: Params, s: BinderState, prop: Property, req: PropertyRequest)
    requires p.Valid() && StateValid(p, s)
    requires SetMappedProperty(p, s, prop, req).0 == DI_OK
    ensures var s' := SetMappedProperty(p, s, prop, req).1;
            var g := GetMappedProperty(p, s', prop, req);
            g.0 == DI_OK
            && g.1 == (if prop == Range then RangeValue(req.rangeMin, req.rangeMax) else DwordValue(req.data))
  {
    var s1 := InitializeAxisProperties(p, s);
    var s' := SetMappedProperty(p, s, prop, req).1;
    assert InstanceFromSpec(p, s', req.obj, req.how) == InstanceFromSpec(p, s1, req.obj, req.how);
  }

  /** Writing one axis's property leaves every other axis's entry as it was. */
  lemma SetTouchesOnlyAddressedAxis(p: Params, s: BinderState, prop: Property, req: PropertyRequest, j: nat)
    requires p.Valid() && StateValid(p, s)
    requires SetMappedProperty(p, s, prop, req).0 == DI_OK
    requires j < p.numAxes && j != LocateAxis(p, s, prop, req).1
    ensures SetMappedProperty(p, s, prop, req).1.axisProperties.value[j]
            == InitializeAxisProperties(p, s).axisProperties.value[j]
  {
  }

  // ---------------------------------------------------------------------------------------------
  // Where the walk stops.

  /** The walk's state just before descriptor `i`: the walk over the descriptors ahead of it. */
  function Before(p: Params, c: Claims, objects: seq<ObjectFormat>, i: nat, pastEnd: bool): StepResult
    requires p.Valid() && WalkInv(p, c) && i <= |objects|
  {
    Walk(p, c, objects[..i], pastEnd)
  }

  /** The walk reaches descriptor `i` and that descriptor's step has outcome `o`. */
  ghost predicate StopsAt(p: Params, c: Claims, objects: seq<ObjectFormat>, pastEnd: bool, i: nat, o: StepResult)
    requires p.Valid() && WalkInv(p, c)
  {
    && i < |objects|
    && Before(p, c, objects, i, pastEnd).Continue?
    && Step(p, Before(p, c, objects, i, pastEnd).claims, objects[i]) == o
  }

  /** Walking a concatenation walks the first part, then the second from where the first ended. */
  lemma {:induction false} WalkAppend(p: Params, c: Claims, a: seq<ObjectFormat>, b: seq<ObjectFormat>, pastEnd: bool)
    requires p.Valid() && WalkInv(p, c)
    ensures Walk(p, c, a + b, pastEnd) == match Walk(p, c, a, pastEnd)
              case Continue(c') => Walk(p, c', b, pastEnd)
              case other => other
    decreases |a|
  {
    if a == [] {
      assert a + b == b;
    } else {
      assert (a + b)[0] == a[0] && (a + b)[1..] == a[1..] + b;
      match Step(p, c, a[0])
      case Continue(c') => WalkAppend(p, Advance(p, c', pastEnd), a[1..], b, pastEnd);
      case Invalid =>
      case OutOfBounds =>
      case NegativeIndex =>
    }
  }

  /** The state before the next descriptor is the state before this one, stepped and advanced. */
  lemma BeforeNext(p: Params, c: Claims, objects: seq<ObjectFormat>, pastEnd: bool, i: nat)
    requires p.Valid() && WalkInv(p, c) && i < |objects|
    ensures Before(p, c, objects, i + 1, pastEnd) == match Before(p, c, objects, i, pastEnd)
              case Continue(ci) => (match Step(p, ci, objects[i])
                                    case Continue(c') => Continue(Advance(p, c', pastEnd))
                                    case other => other)
              case other => other
  {
    assert objects[..i + 1] == objects[..i] + [objects[i]];
    WalkAppend(p, c, objects[..i], [objects[i]], pastEnd);
    assert [objects[i]][1..] == [];
  }

  /** Claimed packet bytes stay claimed: a later state of the walk claims everything an earlier one did. */
  lemma BeforeKeepsClaims(p: Params, c: Claims, objects: seq<ObjectFormat>, pastEnd: bool, i: nat, j: nat)
    requires p.Valid() && WalkInv(p, c) && i <= j <= |objects|
    requires Before(p, c, objects, j, pastEnd).Continue?
    ensures Before(p, c, objects, i, pastEnd).Continue?
    ensures forall k :: 0 <= k < |c.offsetUsed| && Before(p, c, objects, i, pastEnd).claims.offsetUsed[k] ==>
              Before(p, c, objects, j, pastEnd).claims.offsetUsed[k]
  {
    assert objects[..j] == objects[..i] + objects[i..j];
    WalkAppend(p, c, objects[..i], objects[i..j], pastEnd);
  }

  /** A descriptor whose step stops the walk decides the walk's outcome. */
  lemma StopDecidesWalk(p: Params, c: Claims, objects: seq<ObjectFormat>, pastEnd: bool, i: nat, o: StepResult)
    requires p.Valid() && WalkInv(p, c)
    requires !o.Continue? && StopsAt(p, c, objects, pastEnd, i, o)
    ensures Walk(p, c, objects, pastEnd) == o
  {
    assert objects == objects[..i] + objects[i..];
    WalkAppend(p, c, objects[..i], objects[i..], pastEnd);
    assert objects[i..][0] == objects[i];
  }

  /** Once the first descriptor has been taken, stopping at `j + 1` is stopping at `j` of the rest. */
  lemma StopsAtShift(p: Params, c: Claims, objects: seq<ObjectFormat>, pastEnd: bool, j: nat, o: StepResult)
    requires p.Valid() && WalkInv(p, c) && objects != [] && Step(p, c, objects[0]).Continue?
    ensures var c'' := Advance(p, Step(p, c, objects[0]).claims, pastEnd);
            StopsAt(p, c, objects, pastEnd, j + 1, o) <==> StopsAt(p, c'', objects[1..], pastEnd, j, o)
  {
    if j < |objects[1..]| {
      assert objects[..j + 1][1..] == objects[1..][..j] && objects[..j + 1][0] == objects[0];
      assert objects[1..][j] == objects[j + 1];
    }
  }

  /** A walk that does not complete stopped at some descriptor, with the same outcome. */
  lemma {:induction false} WalkStopsSomewhere(p: Params, c: Claims, objects: seq<ObjectFormat>, pastEnd: bool)
    requires p.Valid() && WalkInv(p, c)
    ensures !Walk(p, c, objects, pastEnd).Continue? ==>
              exists i :: StopsAt(p, c, objects, pastEnd, i, Walk(p, c, objects, pastEnd))
    decreases |objects|
  {
    if objects != [] {
      assert objects[..0] == [];
      var first := Step(p, c, objects[0]);
      if first.Continue? {
        var c'' := Advance(p, first.claims, pastEnd);
        WalkStopsSomewhere(p, c'', objects[1..], pastEnd);
        var o := Walk(p, c'', objects[1..], pastEnd);
        if !o.Continue? {
          var j :| StopsAt(p, c'', objects[1..], pastEnd, j, o);
          StopsAtShift(p, c, objects, pastEnd, j, o);
        }
      } else {
        assert StopsAt(p, c, objects, pastEnd, 0, first);
      }
    }
  }

  /**
   * SetApplicationDataFormat fails with DIERR_INVALIDPARAM exactly when some descriptor the walk
   * reaches is rejected, and is undefined exactly when some descriptor it reaches reads past the
   * packet or selects below the axis array.
   */
  lemma RejectedIffSomeDescriptorRejected(p: Params, s: BinderState, f: DataFormat, pastEnd: bool)
    requires p.Valid() && StateValid(p, s)
    ensures var c0 := FreshClaims(p, f.dataSize);
            SetApplicationDataFormat(p, s, f, pastEnd).0 == Rejected <==> exists i :: StopsAt(p, c0, f.objects, pastEnd, i, Invalid)
    ensures var c0 := FreshClaims(p, f.dataSize);
            SetApplicationDataFormat(p, s, f, pastEnd).0 == Undefined <==>
              exists i :: StopsAt(p, c0, f.objects, pastEnd, i, OutOfBounds) || StopsAt(p, c0, f.objects, pastEnd, i, NegativeIndex)
  {
    var c0 := FreshClaims(p, f.dataSize);
    WalkStopsSomewhere(p, c0, f.objects, pastEnd);
    forall i: nat, o: StepResult | !o.Continue? && StopsAt(p, c0, f.objects, pastEnd, i, o)
      ensures Walk(p, c0, f.objects, pastEnd) == o
    {
      StopDecidesWalk(p, c0, f.objects, pastEnd, i, o);
    }
  }

  /** Two axis descriptors whose four-byte windows share a byte. */
  predicate WindowsOverlap(d1: ObjectFormat, d2: ObjectFormat) {
    d1.offset < d2.offset + 4 && d2.offset < d1.offset + 4
  }

  /**
   * Two axis descriptors whose windows overlap cannot both go through the axis branch: once the
   * earlier one has claimed its bytes, the later one finds one of them claimed and the whole
   * format is rejected, wherever the two stand in the list and whatever lies between them.
   */
  lemma OverlappingAxisWindowsReject(p: Params, s: BinderState, f: DataFormat, pastEnd: bool, i: nat, j: nat)
    requires p.Valid() && StateValid(p, s)
    requires i < j < |f.objects| && WindowsOverlap(f.objects[i], f.objects[j])
    requires var c0 := FreshClaims(p, f.dataSize);
             && Before(p, c0, f.objects, i, pastEnd).Continue?
             && TakesAxisBranch(p, Before(p, c0, f.objects, i, pastEnd).claims, f.objects[i])
             && Before(p, c0, f.objects, j, pastEnd).Continue?
             && TakesAxisBranch(p, Before(p, c0, f.objects, j, pastEnd).claims, f.objects[j])
    ensures SetApplicationDataFormat(p, s, f, pastEnd).0 == Rejected
  {
    var c0 := FreshClaims(p, f.dataSize);
    var di, dj := f.objects[i], f.objects[j];
    var ci := Before(p, c0, f.objects, i, pastEnd).claims;
    BeforeKeepsClaims(p, c0, f.objects, pastEnd, i + 1, j);
    BeforeNext(p, c0, f.objects, pastEnd, i);
    var ci' := Step(p, ci, di).claims;
    assert AxisStep(p, ci, di).Continue?;
    var k := if di.offset <= dj.offset then dj.offset else di.offset;
    assert ci'.offsetUsed[k];
    var cj := Before(p, c0, f.objects, j, pastEnd).claims;
    assert cj.offsetUsed[k];
    assert WindowTaken(cj, dj);
    assert StopsAt(p, c0, f.objects, pastEnd, j, Invalid);
    StopDecidesWalk(p, c0, f.objects, pastEnd, j, Invalid);
  }

  // ---------------------------------------------------------------------------------------------
  // Consequences of the walk as written.

  /** The object-type bits of an axis descriptor with any instance, and with instance 0. */
  const ANY_AXIS: nat := DIDFT_ANYINSTANCE + DIDFT_ABSAXIS
  const AXIS_0: nat := DIDFT_ABSAXIS

  /** A one-axis mapper whose first axis has identifier 0. */
  function ZeroIdParams(): (p: Params)
    ensures p.Valid()
  {
    Params(1, 0, 0, (t, i) => i, _ => AxisInstance, id => if id < 0 then 0 else id,
           _ => 0, (_, _) => -1, AxisProperties(0, 0, 0, 0), 0, 0, true)
  }

  /**
   * Because the no-GUID axis path tests `selectedInstance > 0`, an axis whose identifier is 0 is
   * claimed but never bound: asked for as "any axis" it silently goes unmapped, and asked for by
   * number it fails the whole format.
   */
  lemma ZeroIdentifierIsNeverBound(s: BinderState, pastEnd: bool)
    requires StateValid(ZeroIdParams(), s)
    ensures var r := SetApplicationDataFormat(ZeroIdParams(), s, DataFormat(4, [ObjectFormat(None, 0, ANY_AXIS)]), pastEnd);
            r.0 == Accepted && r.1.offsetToInstance == map[]
    ensures SetApplicationDataFormat(ZeroIdParams(), s, DataFormat(4, [ObjectFormat(None, 0, AXIS_0)]), pastEnd).0 == Rejected
  {
    var p := ZeroIdParams();
    var c0 := FreshClaims(p, 4);
    var any := ObjectFormat(None, 0, ANY_AXIS);
    assert HasTypeBit(any, DIDFT_ABSAXIS) && AllowAny(any);
    assert CheckAndSetOffsets(c0.offsetUsed, 0, 4).Some?;
    assert Step(p, c0, any).Continue?;
    assert Walk(p, c0, [any], pastEnd) == Walk(p, Advance(p, Step(p, c0, any).claims, pastEnd), [], pastEnd);
    var one := ObjectFormat(None, 0, AXIS_0);
    assert HasTypeBit(one, DIDFT_ABSAXIS) && !AllowAny(one) && Specific(one) == 0;
    assert Step(p, c0, one) == Invalid;
  }

  /** The object-type bits of a button descriptor with any instance. */
  const ANY_BUTTON: nat := DIDFT_ANYINSTANCE + DIDFT_PSHBUTTON

  /** A two-button mapper whose identifiers are the button index plus one. */
  function TwoButtonParams(): (p: Params)
    ensures p.Valid()
  {
    Params(0, 0, 2, (t, i) => i + 1, _ => ButtonInstance, id => if id < 1 then 0 else id - 1,
           _ => 0, (_, _) => -1, AxisProperties(0, 0, 0, 0), 0, 0, true)
  }

  /**
   * Only the axis branch claims packet bytes, so two any-instance button descriptors at one
   * offset are both accepted and bind buttons 0 and 1 (identifiers 1 and 2) to that offset. The
   * offset-keyed map keeps the first binding, as std::map::insert does, so the binding is not
   * one-to-one: looking up the second button's offset leads back to the first button.
   */
  lemma SharedOffsetBindsTwoButtons(s: BinderState, pastEnd: bool)
    requires StateValid(TwoButtonParams(), s)
    ensures var r := SetApplicationDataFormat(TwoButtonParams(), s,
                       DataFormat(1, [SharedButton(), SharedButton()]), pastEnd);
            && r.0 == Accepted
            && r.1.instanceToOffset == map[1 := 0, 2 := 0]
            && r.1.offsetToInstance == map[0 := 1]
            && InstanceForOffset(r.1, OffsetForInstance(r.1, 2)) == 1
  {
    TwoButtonWalk(pastEnd);
  }

  /** An any-instance button descriptor at offset 0. */
  function SharedButton(): ObjectFormat { ObjectFormat(None, 0, ANY_BUTTON) }

  /** Helper of the witness above: each descriptor of its walk binds the next button at offset 0. */
  lemma TwoButtonWalk(pastEnd: bool)
    ensures var w := Walk(TwoButtonParams(), FreshClaims(TwoButtonParams(), 1), [SharedButton(), SharedButton()], pastEnd);
            && w.Continue?
            && w.claims.instanceToOffset == map[1 := 0, 2 := 0]
            && w.claims.offsetToInstance == map[0 := 1]
  {
    var p := TwoButtonParams();
    var d := SharedButton();
    var a1 := FirstSharedButton(pastEnd);
    var c2 := SharedButtonStep(a1);
    assert c2.instanceToOffset == map[1 := 0, 2 := 0];
    WalkThroughStep(p, a1, [d], pastEnd);
    assert [d][1..] == [];
  }

  /** Helper of the witness above: the first descriptor binds button 0 and leaves button 1 next. */
  lemma FirstSharedButton(pastEnd: bool) returns (a1: Claims)
    ensures WalkInv(TwoButtonParams(), a1)
    ensures Walk(TwoButtonParams(), FreshClaims(TwoButtonParams(), 1), [SharedButton(), SharedButton()], pastEnd)
            == Walk(TwoButtonParams(), a1, [SharedButton()], pastEnd)
    ensures a1.nextButton == 1 && a1.buttonUsed == [true, false]
    ensures a1.instanceToOffset == map[1 := 0] && a1.offsetToInstance == map[0 := 1]
  {
    var p := TwoButtonParams();
    var d := SharedButton();
    var c0 := FreshClaims(p, 1);
    assert c0.buttonUsed == [false, false];
    var c1 := SharedButtonStep(c0);
    assert c1.buttonUsed == [true, false];
    a1 := Advance(p, c1, pastEnd);
    assert AdvanceNext([true, false], 0, pastEnd) == 1;
    WalkThroughStep(p, c0, [d, d], pastEnd);
    assert [d, d][1..] == [d];
  }

  /** Helper of the witnesses here: unfolds a walk by its first, accepted, step. */
  lemma WalkThroughStep(p: Params, c: Claims, objects: seq<ObjectFormat>, pastEnd: bool)
    requires p.Valid() && WalkInv(p, c) && objects != [] && Step(p, c, objects[0]).Continue?
    ensures Walk(p, c, objects, pastEnd) == Walk(p, Advance(p, Step(p, c, objects[0]).claims, pastEnd), objects[1..], pastEnd)
  {
  }

  /** Helper of the witness above: the shared button descriptor binds the next free button at offset 0. */
  lemma SharedButtonStep(c: Claims) returns (c': Claims)
    requires WalkInv(TwoButtonParams(), c) && c.nextButton < 2 && !c.buttonUsed[c.nextButton]
    ensures Step(TwoButtonParams(), c, SharedButton()) == Continue(c')
    ensures c'.buttonUsed == c.buttonUsed[c.nextButton := true]
    ensures c'.nextButton == c.nextButton && c'.offsetUsed == c.offsetUsed
    ensures c'.instanceToOffset == c.instanceToOffset[c.nextButton + 1 := 0]
    ensures c'.offsetToInstance == if 0 in c.offsetToInstance then c.offsetToInstance
                                   else c.offsetToInstance[0 := c.nextButton + 1]
  {
    var p := TwoButtonParams();
    var d := SharedButton();
    assert !HasTypeBit(d, DIDFT_ABSAXIS) && HasTypeBit(d, DIDFT_PSHBUTTON) && AllowAny(d);
    var sel := SelectInstance(p, c, ButtonInstance, c.nextButton);
    assert sel == (c.nextButton + 1, c.(buttonUsed := c.buttonUsed[c.nextButton := true]));
    c' := Insert(p, sel.1, sel.0, 0);
  }

  /**
   * A two-axis mapper with one X axis, whose identifiers are the axis index plus one; `misses`
   * says whether a selection at a negative axis index misses.
   */
  function OneXAxisParams(misses: bool): (p: Params)
    ensures p.Valid()
  {
    Params(2, 0, 0, (t, i) => i + 1, _ => AxisInstance, id => if id < 1 then 0 else id - 1,
           g => if g == GuidAxis(X) then 1 else 0,
           (g, k) => if g == GuidAxis(X) && k == 0 then 0 else -1,
           AxisProperties(0, 0, 0, 0), 0, 0, misses)
  }

  /**
   * A window that runs past the packet end but whose first in-packet byte is already claimed is
   * rejected before any byte past the end is read: two any-axis descriptors at offsets 2 and 4 of
   * a six-byte packet make the format rejected, not undefined.
   */
  lemma ClaimedByteRejectsBeforePacketEnd(s: BinderState, pastEnd: bool, misses: bool)
    requires StateValid(OneXAxisParams(misses), s)
    ensures SetApplicationDataFormat(OneXAxisParams(misses), s,
              DataFormat(6, [ObjectFormat(None, 2, ANY_AXIS), ObjectFormat(None, 4, ANY_AXIS)]), pastEnd).0 == Rejected
  {
    var p := OneXAxisParams(misses);
    var objects := StraddlingAxes();
    var c0 := FreshClaims(p, 6);
    assert HasTypeBit(objects[0], DIDFT_ABSAXIS) && HasTypeBit(objects[1], DIDFT_ABSAXIS);
    assert objects[..0] == [];
    assert Before(p, c0, objects, 0, pastEnd) == Continue(c0);
    FirstStraddlingAxisStep(pastEnd, misses);
    OverlappingAxisWindowsReject(p, s, DataFormat(6, objects), pastEnd, 0, 1);
  }

  /** Helper of the witness above: its first descriptor binds the X axis and leaves the second axis next. */
  lemma FirstStraddlingAxisStep(pastEnd: bool, misses: bool)
    ensures var b := Before(OneXAxisParams(misses), FreshClaims(OneXAxisParams(misses), 6), StraddlingAxes(), 1, pastEnd);
            b.Continue? && b.claims.nextAxis == 1
  {
    var p := OneXAxisParams(misses);
    var objects := StraddlingAxes();
    var c0 := FreshClaims(p, 6);
    assert Before(p, c0, objects, 0, pastEnd) == Continue(c0) by {
      assert objects[..0] == [];
    }
    var c1 := FirstStraddlingAxisBinds(misses);
    BeforeNext(p, c0, objects, pastEnd, 0);
    assert AdvanceNext([true, false], 0, pastEnd) == 1;
  }

  /** Helper of the straddling witness: its first descriptor binds axis 0 of the fresh walk. */
  lemma FirstStraddlingAxisBinds(misses: bool) returns (c1: Claims)
    ensures Step(OneXAxisParams(misses), FreshClaims(OneXAxisParams(misses), 6), StraddlingAxes()[0]) == Continue(c1)
    ensures c1.nextAxis == 0 && c1.axisUsed == [true, false]
  {
    var c0 := FreshClaims(OneXAxisParams(misses), 6);
    var d := StraddlingAxes()[0];
    assert HasTypeBit(d, DIDFT_ABSAXIS) && AllowAny(d);
    assert CheckAndSetOffsets(c0.offsetUsed, 2, 4).Some?;
    c1 := AnyAxisBindsFirstAxis(misses, c0, d);
  }

  /** The two any-axis descriptors of the straddling witness, at offsets 2 and 4. */
  function StraddlingAxes(): seq<ObjectFormat> {
    [ObjectFormat(None, 2, ANY_AXIS), ObjectFormat(None, 4, ANY_AXIS)]
  }

  /** Helper of the straddling witness: an any-axis descriptor with a free window binds the first axis. */
  lemma AnyAxisBindsFirstAxis(misses: bool, c: Claims, d: ObjectFormat) returns (c': Claims)
    requires WalkInv(OneXAxisParams(misses), c) && c.nextAxis == 0 && c.axisUsed == [false, false]
    requires d.guid.None? && HasTypeBit(d, DIDFT_ABSAXIS) && AllowAny(d)
    requires d.offset + 4 <= |c.offsetUsed| && CheckAndSetOffsets(c.offsetUsed, d.offset, 4).Some?
    ensures Step(OneXAxisParams(misses), c, d) == Continue(c')
    ensures c'.nextAxis == 0 && c'.axisUsed == [true, false]
  {
    var p := OneXAxisParams(misses);
    var flags := CheckAndSetOffsets(c.offsetUsed, d.offset, 4).value;
    var c1 := c.(offsetUsed := flags);
    ClaimingBytesKeepsInv(p, c, flags);
    var sel := SelectInstance(p, c1, AxisInstance, 0);
    assert [false, false][0 := true] == [true, false];
    assert sel == (1, c1.(axisUsed := [true, false]));
    c' := Insert(p, sel.1, sel.0, d.offset);
  }

  /**
   * An any-instance descriptor for an axis type claims its packet bytes before searching for an
   * axis, so even when no axis of that type is left, the bytes stay claimed and a later axis
   * descriptor at the same offset fails the format that would otherwise have been accepted. That
   * holds when the search's final selection at a negative index misses; when it does not, the
   * search writes below the axis array and the outcome is undefined.
   */
  lemma UnboundTypedAxisStillClaimsOffset(s: BinderState, pastEnd: bool, misses: bool)
    requires StateValid(OneXAxisParams(misses), s)
    ensures SetApplicationDataFormat(OneXAxisParams(misses), s, DataFormat(8, [FirstAxis(), LaterAxis()]), pastEnd).0 == Accepted
    ensures SetApplicationDataFormat(OneXAxisParams(misses), s, DataFormat(8, [FirstAxis(), TypedAxis(), LaterAxis()]), pastEnd).0
            == if misses then Rejected else Undefined
  {
    AcceptedWithoutTypedAxis(pastEnd, misses);
    RejectedWithTypedAxis(pastEnd, misses);
  }

  /** Helper of the witness above: the walk of its first format accepts both descriptors. */
  lemma AcceptedWithoutTypedAxis(pastEnd: bool, misses: bool)
    ensures Walk(OneXAxisParams(misses), FreshClaims(OneXAxisParams(misses), 8), [FirstAxis(), LaterAxis()], pastEnd).Continue?
  {
    var p := OneXAxisParams(misses);
    var c0 := FreshClaims(p, 8);
    FirstThenLaterSteps(pastEnd, misses);
    WalkThroughStep(p, c0, [FirstAxis(), LaterAxis()], pastEnd);
    assert [FirstAxis(), LaterAxis()][1..] == [LaterAxis()];
    WalkThroughStep(p, AfterFirst(), [LaterAxis()], pastEnd);
  }

  /**
   * Helper of the witness above: the walk of its second format stops at the last descriptor, or
   * at the typed one when the negative-index selection does not miss.
   */
  lemma RejectedWithTypedAxis(pastEnd: bool, misses: bool)
    ensures Walk(OneXAxisParams(misses), FreshClaims(OneXAxisParams(misses), 8), [FirstAxis(), TypedAxis(), LaterAxis()], pastEnd)
            == if misses then Invalid else NegativeIndex
  {
    var p := OneXAxisParams(misses);
    var c0 := FreshClaims(p, 8);
    FirstThenLaterSteps(pastEnd, misses);
    WalkThroughStep(p, c0, [FirstAxis(), TypedAxis(), LaterAxis()], pastEnd);
    assert [FirstAxis(), TypedAxis(), LaterAxis()][1..] == [TypedAxis(), LaterAxis()];
    var c2 := TypedAxisStep(misses);
    if misses {
      TypedThenLaterSteps(pastEnd, misses);
      WalkThroughStep(p, AfterFirst(), [TypedAxis(), LaterAxis()], pastEnd);
      assert [TypedAxis(), LaterAxis()][1..] == [LaterAxis()];
    }
  }

  /**
   * Helper of the typed-axis witness, first part: the first descriptor binds axis 0 (identifier 1)
   * at offset 0, the counter moves past it, and an untyped any-axis descriptor at offset 4 binds.
   */
  lemma FirstThenLaterSteps(pastEnd: bool, misses: bool)
    ensures Step(OneXAxisParams(misses), FreshClaims(OneXAxisParams(misses), 8), FirstAxis()) == Continue(AfterFirst().(nextAxis := 0))
    ensures Advance(OneXAxisParams(misses), AfterFirst().(nextAxis := 0), pastEnd) == AfterFirst()
    ensures Step(OneXAxisParams(misses), AfterFirst(), LaterAxis()).Continue?
  {
    FirstAxisStep(misses);
    assert Advance(OneXAxisParams(misses), AfterFirst().(nextAxis := 0), pastEnd) == AfterFirst() by {
      assert AdvanceNext([true, false], 1, pastEnd) == 1;
      assert AdvanceNext([true, false], 0, pastEnd) == 1;
    }
    LaterAxisStep(misses);
  }

  /** Helper of the typed-axis witness: axis 0 at offset 0 claims bytes 0-3 and binds identifier 1. */
  lemma FirstAxisStep(misses: bool)
    ensures Step(OneXAxisParams(misses), FreshClaims(OneXAxisParams(misses), 8), FirstAxis()) == Continue(AfterFirst().(nextAxis := 0))
  {
    var c0 := FreshClaims(OneXAxisParams(misses), 8);
    assert HasTypeBit(FirstAxis(), DIDFT_ABSAXIS) && !AllowAny(FirstAxis()) && Specific(FirstAxis()) == 0;
    var claimed := CheckAndSetOffsets(c0.offsetUsed, 0, 4);
    var expected := [true, true, true, true, false, false, false, false];
    assert claimed.Some?;
    assert forall k | 0 <= k < 8 :: claimed.value[k] == expected[k];
    assert claimed.value == expected;
  }

  /** Helper of the typed-axis witness: bytes 4-7 are still free, so the any-axis descriptor at offset 4 binds. */
  lemma LaterAxisStep(misses: bool)
    ensures Step(OneXAxisParams(misses), AfterFirst(), LaterAxis()).Continue?
  {
    assert HasTypeBit(LaterAxis(), DIDFT_ABSAXIS) && AllowAny(LaterAxis());
    assert CheckAndSetOffsets(AfterFirst().offsetUsed, 4, 4).Some?;
  }

  /**
   * Helper of the typed-axis witness, second part: when the negative-index selection misses, the
   * typed any-X descriptor at offset 4 claims bytes 4-7 without binding, and the untyped
   * descriptor at offset 4 is then rejected.
   */
  lemma TypedThenLaterSteps(pastEnd: bool, misses: bool)
    ensures misses ==>
              var c := Step(OneXAxisParams(misses), AfterFirst(), TypedAxis());
              c.Continue? && Step(OneXAxisParams(misses), Advance(OneXAxisParams(misses), c.claims, pastEnd), LaterAxis()) == Invalid
  {
    if misses {
      var p := OneXAxisParams(misses);
      var c2 := TypedAxisStep(misses);
      assert Advance(p, c2, pastEnd) == c2 by {
        assert AdvanceNext([true, false], 1, pastEnd) == 1;
      }
      assert HasTypeBit(LaterAxis(), DIDFT_ABSAXIS) && c2.offsetUsed[4] && WindowTaken(c2, LaterAxis());
    }
  }

  /**
   * Helper of the typed-axis witness: the typed any-X descriptor claims bytes 4-7 but finds no X axis
   * left to bind, and its final selection at index -1 either misses or is undefined.
   */
  lemma TypedAxisStep(misses: bool) returns (c2: Claims)
    ensures c2 == AfterFirst().(offsetUsed := seq(8, _ => true))
    ensures Step(OneXAxisParams(misses), AfterFirst(), TypedAxis()) == if misses then Continue(c2) else NegativeIndex
  {
    var p := OneXAxisParams(misses);
    var a1 := AfterFirst();
    assert HasTypeBit(TypedAxis(), DIDFT_ABSAXIS) && AllowAny(TypedAxis());
    var full := seq(8, _ => true);
    var claimed := CheckAndSetOffsets(a1.offsetUsed, 4, 4);
    assert claimed.Some?;
    assert forall k | 0 <= k < 8 :: claimed.value[k] == full[k];
    assert claimed.value == full;
    c2 := a1.(offsetUsed := full);
    assert SearchAxis(p, c2, GuidAxis(X), 1).0 < 0;
    assert SearchAxis(p, c2, GuidAxis(X), 0).0 < 0;
  }

  /** The descriptors of the typed-axis witness: axis 0 at offset 0, then any X axis and any axis at offset 4. */
  function FirstAxis(): ObjectFormat { ObjectFormat(None, 0, AXIS_0) }
  function TypedAxis(): ObjectFormat { ObjectFormat(Some(GuidAxis(X)), 4, ANY_AXIS) }
  function LaterAxis(): ObjectFormat { ObjectFormat(None, 4, ANY_AXIS) }

  /** The walk's state once the first descriptor has bound axis 0 (identifier 1) at offset 0. */
  function AfterFirst(): Claims {
    Claims([true, false], [], [], [true, true, true, true, false, false, false, false], 1, 0, 0,
           map[1 := 0], map[0 := 1])
  }
}
