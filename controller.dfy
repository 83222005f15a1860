/**
 * The per-player equip/strip controller. Its fields are the cached slot
 * handles, the toggle state and the hook flag; the host client it acts on is a
 * separate object. Each method is proved to compute the function of the same
 * name in module StripperSpec.
 */
module Stripper {
  import opened Items
  import opened Host
  import opened StripperSpec

  class StripperModSystem {
    const client: Client

    /** Slot handles: an index into the character container (armour) or the hotbar (off-hand). */
    var headSlot: Option<nat>
    var bodySlot: Option<nat>
    var legSlot: Option<nat>
    var handSlot: Option<nat>

    var state: StripState
    var hookedOnHurt: bool

    function Mod(): ModState
      reads this
    {
      ModState(headSlot, bodySlot, legSlot, handSlot, state, hookedOnHurt)
    }

    constructor (client: Client)
      ensures this.client == client && Mod() == Initial
    {
      this.client := client;
      headSlot, bodySlot, legSlot, handSlot := None, None, None, None;
      state := Unknown;
      hookedOnHurt := false;
    }

    method InitSlots() returns (ok: bool)
      modifies this
      ensures Run(Mod(), client.State(), ok) == InitSlotsSpec(old(Mod()), client.State())
    {
      if !hookedOnHurt {
        hookedOnHurt := true;
      }
      if headSlot.Some? && bodySlot.Some? && legSlot.Some? && handSlot.Some? {
        return true;
      }

      var charInv := client.character;
      var hotbarInv := client.hotbar;

      var i := 0;
      while i < |charInv|
        invariant i <= |charInv|
        invariant headSlot == LastPassing(charInv[..i], RoleTest(Head), old(headSlot))
        invariant bodySlot == LastPassing(charInv[..i], RoleTest(Body), old(bodySlot))
        invariant legSlot == LastPassing(charInv[..i], RoleTest(Legs), old(legSlot))
        invariant handSlot == old(handSlot) && state == old(state) && hookedOnHurt
      {
        LastPassingStep(charInv, i, RoleTest(Head), old(headSlot));
        LastPassingStep(charInv, i, RoleTest(Body), old(bodySlot));
        LastPassingStep(charInv, i, RoleTest(Legs), old(legSlot));
        var slot := charInv[i];
        if IsDressType(slot.stack, Armour(Head)) || slot.icon == RoleIcon(Head) {
          headSlot := Some(i);
        }
        if IsDressType(slot.stack, Armour(Body)) || slot.icon == RoleIcon(Body) {
          bodySlot := Some(i);
        }
        if IsDressType(slot.stack, Armour(Legs)) || slot.icon == RoleIcon(Legs) {
          legSlot := Some(i);
        }
        i := i + 1;
      }
      assert charInv[..i] == charInv;

      ghost var armour := (headSlot, bodySlot, legSlot);
      var j := 0;
      while j < |hotbarInv|
        invariant j <= |hotbarInv|
        invariant handSlot == LastPassing(hotbarInv[..j], OffhandTest, old(handSlot))
        invariant (headSlot, bodySlot, legSlot) == armour && state == old(state) && hookedOnHurt
      {
        LastPassingStep(hotbarInv, j, OffhandTest, old(handSlot));
        if hotbarInv[j].offhand {
          handSlot := Some(j);
        }
        j := j + 1;
      }
      assert hotbarInv[..j] == hotbarInv;

      ok := headSlot.Some? && bodySlot.Some? && legSlot.Some? && handSlot.Some?;
    }

    method CountEquippedArmourPieces() returns (count: nat)
      ensures count == CountPieces(Mod(), client.State())
    {
      var inv := client.State();
      count := 0;
      if headSlot.Some? && inv.StackAt(CharRef(headSlot.value)).Some? {
        count := count + 1;
      }
      if bodySlot.Some? && inv.StackAt(CharRef(bodySlot.value)).Some? {
        count := count + 1;
      }
      if legSlot.Some? && inv.StackAt(CharRef(legSlot.value)).Some? {
        count := count + 1;
      }
    }

    /** The damage listener InitSlots registers: it re-equips whatever handles are set. */
    method OnHurt()
      modifies this, client
      ensures Mod() == FindAndEquipSpec(old(Mod()), old(client.State())).m
      ensures client.State() == FindAndEquipSpec(old(Mod()), old(client.State())).c
    {
      var _ := FindAndEquipArmour();
    }

    /** The swap-out hotkey handler. */
    method SwapOut() returns (ok: bool)
      modifies this, client
      ensures Run(Mod(), client.State(), ok) == SwapOutSpec(old(Mod()), old(client.State()))
    {
      var resolved := InitSlots();
      if !resolved {
        return false;
      }

      var armourCount := CountEquippedArmourPieces();
      if armourCount == 3 {
        StripArmour();
      } else if armourCount == 0 {
        var _ := FindAndEquipArmour();
      } else if state == Equipped {
        StripArmour();
      } else if state == Stripped {
        var _ := FindAndEquipArmour();
      } else {
        // safe default
        var _ := FindAndEquipArmour();
      }
      return true;
    }

    method StripArmour()
      modifies this, client
      ensures Mod() == StripSpec(old(Mod()), old(client.State())).m
      ensures client.State() == StripSpec(old(Mod()), old(client.State())).c
    {
      if headSlot.Some? {
        var _ := ClearSlot(CharRef(headSlot.value));
      }
      if bodySlot.Some? {
        var _ := ClearSlot(CharRef(bodySlot.value));
      }
      if legSlot.Some? {
        var _ := ClearSlot(CharRef(legSlot.value));
      }
      state := Stripped;
      client.ShowChatMessage(StrippedNotice);
    }

    method ClearSlot(slot: SlotRef) returns (ok: bool)
      modifies client
      ensures (ok, client.State()) == ClearSlotSpec(old(client.State()), slot)
    {
      if client.State().StackAt(slot).None? {
        return false;
      }
      ok := client.TryTransferAway(slot);
    }

    /** Also what the host's damage listener runs (OnHurt), with whatever handles are set. */
    method FindAndEquipArmour() returns (o: Outcome<nat>)
      modifies this, client
      ensures Run(Mod(), client.State(), o) == FindAndEquipSpec(old(Mod()), old(client.State()))
    {
      var equipped: nat := 0;
      var r := EquipIfBare(Head, equipped);
      if r.NullReference? {
        return NullReference;
      }
      equipped := r.value;
      r := EquipIfBare(Body, equipped);
      if r.NullReference? {
        return NullReference;
      }
      equipped := r.value;
      r := EquipIfBare(Legs, equipped);
      if r.NullReference? {
        return NullReference;
      }
      equipped := r.value;

      if equipped > 0 {
        state := Equipped;
        client.ShowChatMessage(EquippedNotice);
      }
      return Ok(equipped);
    }

    /**
     * One of the three identical blocks of FindAndEquipArmour: when the part's
     * slot is missing or empty, try to equip it, counting a success.
     */
    method EquipIfBare(part: ArmourPart, equipped: nat) returns (o: Outcome<nat>)
      modifies client
      ensures (o, client.State()) == EquipPart(Mod(), old(client.State()), part, equipped)
    {
      var chrSlot := match part case Head => headSlot case Body => bodySlot case Legs => legSlot;
      if chrSlot.Some? && client.State().StackAt(CharRef(chrSlot.value)).Some? {
        return Ok(equipped);
      }
      var r := FindAndEquipArmourType(part, chrSlot);
      if r.NullReference? {
        return NullReference;
      }
      return Ok(if r.value then equipped + 1 else equipped);
    }

    /** The source passes a lambda; the three searches it uses are the cases of `Filter`. */
    method FindItemSlot(filter: Filter) returns (r: Option<SlotRef>)
      ensures r == FindItem(client.State(), filter)
    {
      var hotbarInv := client.hotbar;
      var backpackInv := client.backpack;

      var i := 0;
      while i < |hotbarInv|
        invariant i <= |hotbarInv|
        invariant forall k | 0 <= k < i :: !Accepts(filter, hotbarInv[k])
      {
        if Accepts(filter, hotbarInv[i]) {
          return Some(SlotRef(Hotbar, i));
        }
        i := i + 1;
      }

      var j := 0;
      while j < |backpackInv|
        invariant j <= |backpackInv|
        invariant forall k | 0 <= k < j :: !Accepts(filter, backpackInv[k])
      {
        if Accepts(filter, backpackInv[j]) {
          return Some(SlotRef(Backpack, j));
        }
        j := j + 1;
      }

      return None;
    }

    method FindAndEquipArmourType(part: ArmourPart, chrSlot: Option<nat>) returns (o: Outcome<bool>)
      modifies client
      ensures (o, client.State()) == FindAndEquipTypeSpec(old(client.State()), part, chrSlot)
    {
      var invSlot := FindItemSlot(ArmourFor(part));
      if invSlot.Some? {
        if chrSlot.None? {
          // EquipIntoSlot reads the emptiness of the missing destination slot
          return NullReference;
        }
        var ok := EquipIntoSlot(invSlot.value, CharRef(chrSlot.value));
        return Ok(ok);
      }
      return Ok(false);
    }

    method EquipIntoSlot(srcSlot: SlotRef, destSlot: SlotRef) returns (ok: bool)
      modifies client
      ensures (ok, client.State()) == EquipIntoSpec(old(client.State()), srcSlot, destSlot)
    {
      if client.State().StackAt(srcSlot).None? {
        return false;
      }
      if client.State().StackAt(destSlot).Some? {
        var _ := ClearSlot(destSlot);
      }
      ok := client.TryTransferTo(srcSlot, destSlot);
    }

    method FindNightVisionDevice(checkHead: bool) returns (r: Option<SlotRef>)
      ensures r == FindNightVisionSpec(Mod(), client.State(), checkHead)
    {
      if checkHead && headSlot.Some? && IsNightVisionDevice(client.State().StackAt(CharRef(headSlot.value))) {
        return Some(CharRef(headSlot.value));
      }
      r := FindItemSlot(NightVision);
    }

    method FindHandlight(lightClass: string, checkHand: bool) returns (r: Option<SlotRef>)
      ensures r == FindHandlightSpec(Mod(), client.State(), lightClass, checkHand)
    {
      if checkHand && handSlot.Some? && HasBlockClass(client.State().StackAt(HotbarRef(handSlot.value)), lightClass) {
        return Some(HotbarRef(handSlot.value));
      }
      r := FindItemSlot(Light(lightClass));
    }

    /** The night-vision hotkey handler: the device first, then a lantern, then a torch. */
    method ToggleNightVision() returns (ok: bool)
      modifies this, client
      ensures Run(Mod(), client.State(), ok) == ToggleSpec(old(Mod()), old(client.State()))
    {
      var resolved := InitSlots();
      if !resolved {
        return false;
      }

      var head := CharRef(headSlot.value);
      var nvHelm := FindNightVisionDevice(true);
      if nvHelm.Some? {
        if head != nvHelm.value {
          // equip night vision
          var _ := EquipIntoSlot(nvHelm.value, head);
          return true;
        } else {
          // unequip night vision
          var _ := ClearSlot(head);
          if state == Equipped {
            var _ := FindAndEquipArmourType(Head, headSlot);
          }
          return true;
        }
      }

      var hand := HotbarRef(handSlot.value);
      ghost var m0, c0 := Mod(), client.State();
      var i := 0;
      while i < |LightClasses|
        invariant i <= |LightClasses|
        invariant Mod() == m0 && client.State() == c0
        invariant ToggleLights(m0, c0, LightClasses[i..]) == ToggleLights(m0, c0, LightClasses)
      {
        var handLight := FindHandlight(LightClasses[i], true);
        if handLight.Some? {
          if hand != handLight.value {
            // equip the light
            var _ := EquipIntoSlot(handLight.value, hand);
            return true;
          } else {
            // unequip the light
            var _ := ClearSlot(hand);
            return true;
          }
        }
        assert LightClasses[i..][1..] == LightClasses[i + 1..];
        i := i + 1;
      }

      client.ShowChatMessage(NoLightNotice);
      return true;
    }
  }
}
