/**
 * A virtual keyboard key's state (Include/Xidi/KeyboardTypes.h): one press contribution per
 * controller, the key being pressed while any controller presses it.
 */
module Keyboard {
  import VirtualDevice

  /** The number of contributions a key keeps: one per physical controller. */
  const CONTROLLER_COUNT: nat := VirtualDevice.PHYSICAL_CONTROLLER_COUNT

  /** The per-controller contributions, a bitset of CONTROLLER_COUNT bits. */
  type KeyState = s: seq<bool> | |s| == CONTROLLER_COUNT witness [false, false, false, false]

  /** The state of a key no controller presses. */
  const RELEASED: KeyState := [false, false, false, false]

  /** EKeyTransition. */
  datatype KeyTransition = NoChange | KeyWasPressed | KeyWasReleased

  /** IsPressed: some controller's contribution is set. */
  function IsPressed(k: KeyState): (pressed: bool)
    ensures pressed <==> exists i :: 0 <= i < CONTROLLER_COUNT && k[i]
  {
    true in k
  }

  /** IsPressedBy: the contribution of one controller; false for an identifier out of range. */
  function IsPressedBy(k: KeyState, controller: nat): (pressed: bool)
    ensures pressed ==> IsPressed(k)
    ensures controller >= CONTROLLER_COUNT ==> !pressed
  {
    controller < CONTROLLER_COUNT && k[controller]
  }

  /** Press: sets one controller's contribution; an identifier out of range changes nothing. */
  function Press(k: KeyState, controller: nat): (r: KeyState)
    ensures controller < CONTROLLER_COUNT ==> IsPressedBy(r, controller) && IsPressed(r)
    ensures forall j :: 0 <= j < CONTROLLER_COUNT && j != controller ==> r[j] == k[j]
    ensures controller >= CONTROLLER_COUNT ==> r == k
  {
    if controller < CONTROLLER_COUNT then k[controller := true] else k
  }

  /** Release: clears one controller's contribution; an identifier out of range changes nothing. */
  function Release(k: KeyState, controller: nat): (r: KeyState)
    ensures !IsPressedBy(r, controller)
    ensures forall j :: 0 <= j < CONTROLLER_COUNT && j != controller ==> r[j] == k[j]
    ensures controller >= CONTROLLER_COUNT ==> r == k
  {
    if controller < CONTROLLER_COUNT then k[controller := false] else k
  }

  /** GetTransitionFrom: how the pressed state changed from `previous` to `current`. */
  function GetTransitionFrom(current: KeyState, previous: KeyState): (t: KeyTransition)
    ensures t == NoChange <==> IsPressed(previous) == IsPressed(current)
    ensures t == KeyWasPressed <==> IsPressed(current) && !IsPressed(previous)
    ensures t == KeyWasReleased <==> !IsPressed(current) && IsPressed(previous)
  {
    if IsPressed(previous) == IsPressed(current) then NoChange
    else if IsPressed(current) then KeyWasPressed
    else KeyWasReleased
  }

  /** operator==: every contribution is the same. */
  function Equals(a: KeyState, b: KeyState): (eq: bool)
    ensures eq <==> forall i :: 0 <= i < CONTROLLER_COUNT ==> IsPressedBy(a, i) == IsPressedBy(b, i)
  {
    assert (forall i :: 0 <= i < CONTROLLER_COUNT ==> IsPressedBy(a, i) == IsPressedBy(b, i)) ==> a == b by {
      if forall i :: 0 <= i < CONTROLLER_COUNT ==> IsPressedBy(a, i) == IsPressedBy(b, i) {
        forall i | 0 <= i < |a|
          ensures a[i] == b[i]
        {
          assert IsPressedBy(a, i) == IsPressedBy(b, i);
        }
      }
    }
    a == b
  }

  /** Pressing twice is pressing once. */
  lemma PressIdempotent(k: KeyState, controller: nat)
    ensures Press(Press(k, controller), controller) == Press(k, controller)
  {
  }

  /** Releasing undoes a press of a controller that was not pressing. */
  lemma ReleaseUndoesPress(k: KeyState, controller: nat)
    requires !IsPressedBy(k, controller)
    ensures Release(Press(k, controller), controller) == k
  {
  }

  /** A key stays pressed after one controller releases it while another still presses it. */
  lemma OtherControllerKeepsPressed(k: KeyState, controller: nat, other: nat)
    requires IsPressedBy(k, other) && other != controller
    ensures IsPressed(Release(k, controller))
    ensures GetTransitionFrom(Release(k, controller), k) == NoChange
  {
    assert Release(k, controller)[other];
  }

  /** From the released state, a press is reported as KeyWasPressed and releasing it again as KeyWasReleased. */
  lemma PressReleaseTransitions(controller: nat)
    requires controller < CONTROLLER_COUNT
    ensures GetTransitionFrom(Press(RELEASED, controller), RELEASED) == KeyWasPressed
    ensures GetTransitionFrom(Release(Press(RELEASED, controller), controller), Press(RELEASED, controller)) == KeyWasReleased
  {
    var pressed := Press(RELEASED, controller);
    assert pressed[controller];
    var released := Release(pressed, controller);
    assert forall i :: 0 <= i < CONTROLLER_COUNT ==> !released[i];
  }

  /** Two states are equal exactly when they report the same contribution for every controller. */
  lemma EqualsIsContributionwise(a: KeyState, b: KeyState)
    ensures Equals(a, b) <==> forall controller: nat :: IsPressedBy(a, controller) == IsPressedBy(b, controller)
  {
    if forall controller: nat :: IsPressedBy(a, controller) == IsPressedBy(b, controller) {
      assert forall i :: 0 <= i < CONTROLLER_COUNT ==> a[i] == IsPressedBy(a, i) == IsPressedBy(b, i) == b[i];
    }
  }
}
