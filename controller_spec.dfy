/**
 * The equip/strip controller as functions of its own state and the client's.
 * Each function follows one method of the controller step by step, host call
 * by host call; class Stripper.StripperModSystem is proved to compute them, and
 * module StripperProperties proves what they promise.
 */
module StripperSpec {
  import opened Items
  import opened Host

  datatype StripState = Unknown | Stripped | Equipped

  /** The controller's fields: the four cached slot handles, the toggle state and the hook flag. */
  datatype ModState = ModState(
    head: Option<nat>,
    body: Option<nat>,
    leg: Option<nat>,
    hand: Option<nat>,
    state: StripState,
    hooked: bool)
  {
    /** All four handles are set. */
    predicate Resolved()
    {
      head.Some? && body.Some? && leg.Some? && hand.Some?
    }

    function Handle(p: ArmourPart): Option<nat>
    {
      match p
      case Head => head
      case Body => body
      case Legs => leg
    }
  }

  const Initial: ModState := ModState(None, None, None, None, Unknown, false)

  /** The controller's state, the client's state and the returned value after an operation. */
  datatype Run<T> = Run(m: ModState, c: ClientState, out: T)

  // ---------------------------------------------------------------------------
  // Slot resolution (InitSlots)

  /** The handle a scan leaves: the last slot passing the test, or the earlier handle if none does. */
  function LastPassing(slots: seq<Slot>, t: SlotTest, prev: Option<nat>): (h: Option<nat>)
    decreases |slots|
  {
    if slots == [] then prev
    else if Passes(t, slots[|slots| - 1]) then Some(|slots| - 1)
    else LastPassing(slots[..|slots| - 1], t, prev)
  }

  /** Scanning one more slot: it becomes the handle if it passes. */
  lemma LastPassingStep(slots: seq<Slot>, i: nat, t: SlotTest, prev: Option<nat>)
    requires i < |slots|
    ensures LastPassing(slots[..i + 1], t, prev) ==
      if Passes(t, slots[i]) then Some(i) else LastPassing(slots[..i], t, prev)
  {
    assert slots[..i + 1][..i] == slots[..i];
  }

  /** InitSlots: set the hook flag; rescan only when some handle is unset; succeed iff all four are set. */
  function InitSlotsSpec(m: ModState, c: ClientState): (r: Run<bool>)
  {
    var m1 := m.(hooked := true);
    if m1.Resolved() then Run(m1, c, true)
    else
      var m2 := m1.(head := LastPassing(c.character, RoleTest(Head), m.head),
                    body := LastPassing(c.character, RoleTest(Body), m.body),
                    leg := LastPassing(c.character, RoleTest(Legs), m.leg),
                    hand := LastPassing(c.hotbar, OffhandTest, m.hand));
      Run(m2, c, m2.Resolved())
  }

  // ---------------------------------------------------------------------------
  // Counting and searching

  /** The armour part's handle is set and its slot holds a stack. */
  predicate Worn(m: ModState, c: ClientState, p: ArmourPart)
  {
    m.Handle(p).Some? && c.StackAt(CharRef(m.Handle(p).value)).Some?
  }

  /** CountEquippedArmourPieces: how many of the three armour slots hold a stack. */
  function CountPieces(m: ModState, c: ClientState): (n: nat)
    ensures n <= 3
    ensures n == 3 <==> Worn(m, c, Head) && Worn(m, c, Body) && Worn(m, c, Legs)
    ensures n == 0 <==> !Worn(m, c, Head) && !Worn(m, c, Body) && !Worn(m, c, Legs)
  {
    (if Worn(m, c, Head) then 1 else 0) +
    (if Worn(m, c, Body) then 1 else 0) +
    (if Worn(m, c, Legs) then 1 else 0)
  }

  /** The index of the first slot the filter accepts. */
  function FirstAccepted(slots: seq<Slot>, f: Filter): (i: Option<nat>)
    ensures i.Some? ==>
      i.value < |slots| && Accepts(f, slots[i.value]) && forall k | 0 <= k < i.value :: !Accepts(f, slots[k])
    ensures i.None? ==> forall k | 0 <= k < |slots| :: !Accepts(f, slots[k])
  {
    if slots == [] then None
    else if Accepts(f, slots[0]) then Some(0)
    else match FirstAccepted(slots[1..], f)
      case Some(j) => Some(j + 1)
      case None => None
  }

  /** FindItemSlot: the first accepted hotbar slot, else the first accepted backpack slot. */
  function FindItem(c: ClientState, f: Filter): (r: Option<SlotRef>)
  {
    match FirstAccepted(c.hotbar, f)
    case Some(i) => Some(SlotRef(Hotbar, i))
    case None =>
      match FirstAccepted(c.backpack, f)
      case Some(i) => Some(SlotRef(Backpack, i))
      case None => None
  }

  // ---------------------------------------------------------------------------
  // Transfers the controller builds from the host's two operations

  /** ClearSlot: an empty slot is left alone; otherwise ask the host to take its stack away. */
  function ClearSlotSpec(c: ClientState, r: SlotRef): (bool, ClientState)
  {
    if c.StackAt(r).None? then (false, c) else TransferAway(c, r)
  }

  /** EquipIntoSlot: clear an occupied destination first, then move the source's stack into it. */
  function EquipIntoSpec(c: ClientState, src: SlotRef, dst: SlotRef): (bool, ClientState)
  {
    if c.StackAt(src).None? then (false, c)
    else
      var c1 := if c.StackAt(dst).Some? then ClearSlotSpec(c, dst).1 else c;
      TransferTo(c1, src, dst)
  }

  /**
   * FindAndEquipArmourType: find a piece for the part and equip it into the
   * character slot `dst`. With no handle (`dst` is None) and a piece found, the
   * host dereferences the missing slot and raises.
   */
  function FindAndEquipTypeSpec(c: ClientState, p: ArmourPart, dst: Option<nat>): (r: (Outcome<bool>, ClientState))
  {
    match FindItem(c, ArmourFor(p))
    case None => (Ok(false), c)
    case Some(src) =>
      if dst.None? then (NullReference, c)
      else
        var (ok, c1) := EquipIntoSpec(c, src, CharRef(dst.value));
        (Ok(ok), c1)
  }

  /** One step of FindAndEquipArmour: try the part if its slot is not worn, counting a success. */
  function EquipPart(m: ModState, c: ClientState, p: ArmourPart, n: nat): (Outcome<nat>, ClientState)
  {
    if Worn(m, c, p) then (Ok(n), c)
    else
      var r := FindAndEquipTypeSpec(c, p, m.Handle(p));
      if r.0.NullReference? then (NullReference, r.1)
      else (Ok(if r.0.value then n + 1 else n), r.1)
  }

  /** FindAndEquipArmour: head, body, legs in turn; `Equipped` and the notice only when something was equipped. */
  function FindAndEquipSpec(m: ModState, c: ClientState): (r: Run<Outcome<nat>>)
  {
    var s1 := EquipPart(m, c, Head, 0);
    if s1.0.NullReference? then Run(m, s1.1, NullReference)
    else
      var s2 := EquipPart(m, s1.1, Body, s1.0.value);
      if s2.0.NullReference? then Run(m, s2.1, NullReference)
      else
        var s3 := EquipPart(m, s2.1, Legs, s2.0.value);
        if s3.0.NullReference? then Run(m, s3.1, NullReference)
        else if s3.0.value > 0 then Run(m.(state := Equipped), s3.1.(chat := s3.1.chat + [EquippedNotice]), s3.0)
        else Run(m, s3.1, s3.0)
  }

  /** StripArmour: clear every set armour handle, then record `Stripped` and show the notice. */
  function StripSpec(m: ModState, c: ClientState): (r: Run<()>)
  {
    var c1 := if m.head.Some? then ClearSlotSpec(c, CharRef(m.head.value)).1 else c;
    var c2 := if m.body.Some? then ClearSlotSpec(c1, CharRef(m.body.value)).1 else c1;
    var c3 := if m.leg.Some? then ClearSlotSpec(c2, CharRef(m.leg.value)).1 else c2;
    Run(m.(state := Stripped), c3.(chat := c3.chat + [StrippedNotice]), ())
  }

  // ---------------------------------------------------------------------------
  // The two hotkey handlers

  function StripRun(m: ModState, c: ClientState): Run<bool>
  {
    var s := StripSpec(m, c);
    Run(s.m, s.c, true)
  }

  function EquipRun(m: ModState, c: ClientState): Run<bool>
  {
    var e := FindAndEquipSpec(m, c);
    Run(e.m, e.c, true)
  }

  /** SwapOut: resolve the slots, then strip or equip by the worn count and the toggle state. */
  function SwapOutSpec(m: ModState, c: ClientState): (r: Run<bool>)
  {
    var i := InitSlotsSpec(m, c);
    if !i.out then Run(i.m, i.c, false)
    else
      var n := CountPieces(i.m, i.c);
      if n == 3 then StripRun(i.m, i.c)
      else if n == 0 then EquipRun(i.m, i.c)
      else if i.m.state == Equipped then StripRun(i.m, i.c)
      else if i.m.state == Stripped then EquipRun(i.m, i.c)
      else EquipRun(i.m, i.c)  // Unknown: the safe default is to equip
  }

  /** FindNightVisionDevice: the head slot if it holds the device, else the first hotbar or backpack one. */
  function FindNightVisionSpec(m: ModState, c: ClientState, checkHead: bool): Option<SlotRef>
  {
    if checkHead && m.head.Some? && IsNightVisionDevice(c.StackAt(CharRef(m.head.value)))
    then Some(CharRef(m.head.value))
    else FindItem(c, NightVision)
  }

  /** FindHandlight: the off-hand slot if it holds a block of the class, else the first one found. */
  function FindHandlightSpec(m: ModState, c: ClientState, cls: string, checkHand: bool): Option<SlotRef>
  {
    if checkHand && m.hand.Some? && HasBlockClass(c.StackAt(HotbarRef(m.hand.value)), cls)
    then Some(HotbarRef(m.hand.value))
    else FindItem(c, Light(cls))
  }

  /** The light loop of ToggleNightVision over the remaining light classes. */
  function ToggleLights(m: ModState, c: ClientState, classes: seq<string>): (r: Run<bool>)
    requires m.hand.Some?
    decreases |classes|
  {
    if classes == [] then Run(m, c.(chat := c.chat + [NoLightNotice]), true)
    else
      var hand := HotbarRef(m.hand.value);
      match FindHandlightSpec(m, c, classes[0], true)
      case Some(l) =>
        if hand != l then Run(m, EquipIntoSpec(c, l, hand).1, true)
        else Run(m, ClearSlotSpec(c, hand).1, true)
      case None => ToggleLights(m, c, classes[1..])
  }

  /** ToggleNightVision once the slots are resolved: the device first, then the lights. */
  function ToggleResolved(m: ModState, c: ClientState): (r: Run<bool>)
    requires m.Resolved()
  {
    var head := CharRef(m.head.value);
    match FindNightVisionSpec(m, c, true)
    case Some(nv) =>
      if head != nv then Run(m, EquipIntoSpec(c, nv, head).1, true)
      else
        var c1 := ClearSlotSpec(c, head).1;
        if m.state == Equipped then Run(m, FindAndEquipTypeSpec(c1, Head, m.head).1, true)
        else Run(m, c1, true)
    case None => ToggleLights(m, c, LightClasses)
  }

  function ToggleSpec(m: ModState, c: ClientState): (r: Run<bool>)
  {
    var i := InitSlotsSpec(m, c);
    if !i.out then Run(i.m, i.c, false) else ToggleResolved(i.m, i.c)
  }
}
