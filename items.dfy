/**
 * Item stacks, inventory slots and the slot filters the controller searches with.
 * The host's item and block metadata are reduced to what the controller reads:
 * an item's code path, a block's class name and the stack's dress type.
 */
module Items {

  datatype Option<+T> = None | Some(value: T)

  /** A host exception the controller does not catch; only a null slot handle raises one. */
  datatype Outcome<+T> = Ok(value: T) | NullReference

  /** The three armour dress types; every other dress type of the host is `Clothing`. */
  datatype ArmourPart = Head | Body | Legs

  datatype DressType = Armour(part: ArmourPart) | Clothing

  /** What a stack is made of: an item (with its code path) or a block (with its class). */
  datatype Collectible = Item(codePath: string) | Block(blockClass: string)

  datatype Stack = Stack(collectible: Collectible, dress: Option<DressType>)

  /**
   * One inventory slot: an optional stack, the background icon a character slot
   * shows, and whether a hotbar slot is the off-hand slot.
   */
  datatype Slot = Slot(stack: Option<Stack>, icon: string, offhand: bool)

  const NightVisionCode: string := "nightvisiondevice"

  /** The light classes, in the order the toggle tries them. */
  const LightClasses: seq<string> := ["BlockLantern", "BlockTorch"]

  /** The background icon of the character slot that takes an armour part. */
  function RoleIcon(p: ArmourPart): string
  {
    match p
    case Head => "armorhead"
    case Body => "armorbody"
    case Legs => "armorlegs"
  }

  /** The host's dress-type test; an empty slot has no dress type. */
  predicate IsDressType(s: Option<Stack>, t: DressType)
  {
    s.Some? && s.value.dress == Some(t)
  }

  predicate IsNightVisionDevice(s: Option<Stack>)
  {
    s.Some? && s.value.collectible == Item(NightVisionCode)
  }

  predicate HasBlockClass(s: Option<Stack>, cls: string)
  {
    s.Some? && s.value.collectible.Block? && s.value.collectible.blockClass == cls
  }

  /** What a handle scan looks for: a character slot for an armour part, or the off-hand slot. */
  datatype SlotTest = RoleTest(part: ArmourPart) | OffhandTest

  predicate Passes(t: SlotTest, slot: Slot)
  {
    match t
    case RoleTest(p) => IsDressType(slot.stack, Armour(p)) || slot.icon == RoleIcon(p)
    case OffhandTest => slot.offhand
  }

  /** The three searches the controller runs over the hotbar and the backpack. */
  datatype Filter = NightVision | Light(cls: string) | ArmourFor(part: ArmourPart)

  predicate Accepts(f: Filter, slot: Slot)
  {
    match f
    case NightVision => IsNightVisionDevice(slot.stack)
    case Light(cls) => HasBlockClass(slot.stack, cls)
    case ArmourFor(p) => IsDressType(slot.stack, Armour(p)) && !IsNightVisionDevice(slot.stack)
  }

  /** Every filter accepts only occupied slots, so a found slot is never empty. */
  lemma AcceptsOnlyOccupied(f: Filter, slot: Slot)
    requires Accepts(f, slot)
    ensures slot.stack.Some?
  {
  }
}
