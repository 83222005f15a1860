# Stripper: the armour and night-vision toggle controller, in Dafny

Stripper is a client-side add-on for Vintage Story. It gives the player two
hotkeys:

- **swap out** takes all armour off, or puts on the armour found in the hotbar and backpack;
- **night vision** puts on or takes off a night-vision device or, failing that, a lantern or a torch in the off-hand.

It also re-equips armour when the player is hurt. This project models the
per-player controller behind those hotkeys, `StripperModSystem`, and proves what
it does to the player's inventory.

The model has five modules:

- `Items` (`items.dfy`): item stacks, inventory slots, and the three searches
  the controller runs. The device search looks for code path
  `nightvisiondevice`. The light search looks for a block of a given class.
  The armour search looks for a piece of a given dress type that is not
  the device.
- `Host` (`client.dfy`): the game client as the controller sees it.
  - Inventory: three containers of slots: character, hotbar and backpack.
  - Transfers: the host's two operations, `TryTransferAway` and `TryTransferTo`.
  - Chat: the chat line.
  - Class `Client` holds this state and updates it in place.
  - The host's transfer internals are not visible to the controller. So the host answers each transfer with the next entry
    of a reply script, and an empty script refuses. An accepted away-transfer
    moves the stack into the empty hotbar or backpack slot the reply names. An
    accepted move fills the requested empty slot. Every attempt is logged as a
    request, so a property such as "no transfer was attempted" can be stated.
- `StripperSpec` (`controller_spec.dfy`): each controller method as a function
  of the controller's fields and the client's state. Each function follows
  its method host call by host call.
- `Stripper` (`controller.dfy`): class `StripperModSystem`.
  - The fields are the four cached slot handles (`null` becomes `None`), `state` and `hookedOnHurt`.
  - The methods keep the loops and the early returns of the C# code.
  - Each method is proved to compute its `StripperSpec` function.
- `StripperProperties` (`properties.dfy`): what the controller promises, proved
  about those functions. These are:
  - the handle scan, where the last match wins;
  - the swap decision table;
  - the fill-only-empty-slots equip pass and when it writes `state`;
  - the unconditional strip;
  - the strict priority of the toggle: device, then lantern, then torch;
  - which requests each operation sends;
  - that no operation ever creates or destroys a stack (`Stacks`).

A slot handle that is unset when the damage listener fires is modelled as it behaves
in the code. When a piece for that part is found, `FindAndEquipArmourType`
passes the missing slot to `EquipIntoSlot`, which reads `destSlot.Empty` and
raises. With no piece found, the step returns false. The model returns
`NullReference` in that case. `FindAndEquipResolved` shows it cannot happen once
the three armour handles are set, and both hotkey handlers run only after that.

## Model

| member | source | states |
|---|---|---|
| Items.AcceptsOnlyOccupied | Stripper/StripperModSystem.cs:68-71 | a slot the device, light or armour search accepts holds a stack |
| Host.TransferAwayKeeps | Stripper/StripperModSystem.cs:272-278 | the away-transfer logs one request, keeps the chat and the container sizes, and the player keeps the same stacks |
| Host.TransferAwayAt | Stripper/StripperModSystem.cs:272-278 | on success `src` held a stack that now sits in the empty hotbar or backpack slot the host chose and `src` is empty; no other slot changes |
| Host.TransferToKeeps | Stripper/StripperModSystem.cs:371-374 | the move logs one request, keeps the chat and the container sizes, and the player keeps the same stacks |
| Host.TransferToAt | Stripper/StripperModSystem.cs:371-374 | the move succeeds exactly when the host accepts into `dst`, `dst` is empty and `src` is not; on success `dst` holds the source stack and `src` is empty; no other slot changes |
| Host.MoveConserves | Stripper/StripperModSystem.cs:371 | moving a stack into an empty slot neither creates nor destroys a stack |
| Host.Client.TryTransferAway | Stripper/StripperModSystem.cs:272 | the client's away-transfer updates its state as `TransferAway` says |
| Host.Client.TryTransferTo | Stripper/StripperModSystem.cs:371 | the client's move updates its state as `TransferTo` says |
| Host.Client.ShowChatMessage | Stripper/StripperModSystem.cs:124 | a notice is appended to the chat and nothing else changes |
| StripperSpec.LastPassingStep | Stripper/StripperModSystem.cs:168-192 | scanning one more slot makes it the handle when it passes the role test and otherwise keeps the handle |
| StripperSpec.CountPieces | Stripper/StripperModSystem.cs:197-204 | the count is at most 3; it is 3 exactly when all three armour slots are set and occupied, and 0 exactly when none is (an unset handle counts as empty) |
| StripperSpec.FirstAccepted | Stripper/StripperModSystem.cs:321-327 | the index found is accepted and no earlier slot is; nothing is found only when no slot is accepted |
| Stripper.StripperModSystem.constructor | Stripper/StripperModSystem.cs:24-30 | the handles start unset, the state `Unknown` and the listener unhooked |
| Stripper.StripperModSystem.InitSlots | Stripper/StripperModSystem.cs:150-195 | the two scanning loops compute `InitSlotsSpec` |
| Stripper.StripperModSystem.CountEquippedArmourPieces | Stripper/StripperModSystem.cs:197-204 | the counter loop computes `CountPieces` |
| Stripper.StripperModSystem.OnHurt | Stripper/StripperModSystem.cs:206-209 | the damage listener runs the equip pass unconditionally |
| Stripper.StripperModSystem.SwapOut | Stripper/StripperModSystem.cs:211-239 | the handler computes `SwapOutSpec` |
| Stripper.StripperModSystem.StripArmour | Stripper/StripperModSystem.cs:241-261 | the method computes `StripSpec` |
| Stripper.StripperModSystem.ClearSlot | Stripper/StripperModSystem.cs:263-279 | the method computes `ClearSlotSpec` |
| Stripper.StripperModSystem.FindAndEquipArmour | Stripper/StripperModSystem.cs:281-310 | the method computes `FindAndEquipSpec` |
| Stripper.StripperModSystem.EquipIfBare | Stripper/StripperModSystem.cs:285-301 | each of the three blocks computes one `EquipPart` step |
| Stripper.StripperModSystem.FindItemSlot | Stripper/StripperModSystem.cs:312-337 | the two early-return loops compute `FindItem` |
| Stripper.StripperModSystem.FindAndEquipArmourType | Stripper/StripperModSystem.cs:339-352 | the method computes `FindAndEquipTypeSpec` |
| Stripper.StripperModSystem.EquipIntoSlot | Stripper/StripperModSystem.cs:354-375 | the method computes `EquipIntoSpec` |
| Stripper.StripperModSystem.FindNightVisionDevice | Stripper/StripperModSystem.cs:61-74 | the method computes `FindNightVisionSpec` |
| Stripper.StripperModSystem.FindHandlight | Stripper/StripperModSystem.cs:129-148 | the method computes `FindHandlightSpec` |
| Stripper.StripperModSystem.ToggleNightVision | Stripper/StripperModSystem.cs:76-127 | the handler, with its loop over the light classes, computes `ToggleSpec` |
| StripperProperties.ClearSlotProps | Stripper/StripperModSystem.cs:263-279 | an empty slot is left alone and `false` returned with nothing sent; otherwise exactly one away request is sent; success leaves the slot empty; no other occupied slot and no other character slot changes; stacks are conserved |
| StripperProperties.EquipIntoProps | Stripper/StripperModSystem.cs:354-375 | an empty source sends nothing; otherwise an occupied destination is cleared first, then one move is requested; success puts the source's stack into the destination; no other occupied or character slot changes; stacks are conserved |
| StripperProperties.FindItemFirst | Stripper/StripperModSystem.cs:312-337 | the result is the first accepted slot, hotbar before backpack, never a character slot; none only when no hotbar or backpack slot is accepted |
| StripperProperties.FoundOccupied | Stripper/StripperModSystem.cs:312-337 | a found slot holds a stack |
| StripperProperties.FindAndEquipTypeQuiet | Stripper/StripperModSystem.cs:339-352 | it raises exactly when a piece is found but the handle is unset, and then changes nothing; stacks are conserved and the chat kept |
| StripperProperties.FindAndEquipTypeKeeps | Stripper/StripperModSystem.cs:339-352 | equipping into an empty slot never raises; the move of the first piece found into the slot is requested exactly when a piece is found, and nothing else; success puts a piece of that part, never the device, into the slot; failure moves nothing; no slot other than that piece's and the destination changes |
| StripperProperties.FindAndEquipTypeRequests | Stripper/StripperModSystem.cs:339-352 | into a set handle's slot, occupied or not: with a piece found, an optional clear of the slot and then the move of the first piece found; with none found, no request |
| StripperProperties.EquipPartProps | Stripper/StripperModSystem.cs:285-301 | a worn part is skipped with nothing sent; a bare part with a handle and a piece found sends exactly the move of that piece into its slot, and every other case sends nothing; the step raises only without a handle; the count grows by at most one |
| StripperProperties.EquipPartEquips | Stripper/StripperModSystem.cs:285-301 | with a handle set, the step never raises and the count grows exactly when the part went from bare to worn, with a piece of that part; when the count does not grow no slot changes; nothing worn and no non-armour stack moves |
| StripperProperties.FindAndEquipFills | Stripper/StripperModSystem.cs:281-310 | with the three handles set, the count is positive exactly when some part went from bare to worn, so the state becomes `Equipped` whenever a slot was filled and the controller is otherwise unchanged |
| StripperProperties.EquipPartUntouched | Stripper/StripperModSystem.cs:285-301 | with distinct handles, the block for one part changes neither whether another part is worn nor which piece a search for that part finds first |
| StripperProperties.FindAndEquipRequests | Stripper/StripperModSystem.cs:281-310 | with distinct handles, a pass that does not raise sends exactly one move per part, head, body then legs, for each part that was bare, has a handle and has a piece to be found |
| StripperProperties.FindAndEquipLog | Stripper/StripperModSystem.cs:281-310 | at most three requests, each a move from the hotbar or backpack into an armour slot; with distinct handles, exactly one move for every bare part with a handle and a piece found; stacks are conserved |
| StripperProperties.FindAndEquipProps | Stripper/StripperModSystem.cs:281-310 | the count is at most 3; `Equipped` and the notice exactly when it is above 0; otherwise the state and the chat are unchanged |
| StripperProperties.EquipPartTargets | Stripper/StripperModSystem.cs:285-301 | a step asks only to fill a character slot that was empty when the pass began |
| StripperProperties.FindAndEquipTargets | Stripper/StripperModSystem.cs:281-310 | the pass only fills: every request moves a stack into an armour slot that was empty when it started |
| StripperProperties.FindAndEquipKeeps | Stripper/StripperModSystem.cs:343 | no worn stack and no stack that is not an armour piece moves; the night-vision device stays where it is |
| StripperProperties.FindAndEquipResolved | Stripper/StripperModSystem.cs:281-310 | with the three armour handles set the pass never raises |
| StripperProperties.StripStep | Stripper/StripperModSystem.cs:243-256 | clearing one handle's slot sends exactly one away request when the handle is set and its slot is occupied, and none otherwise; no other character slot changes |
| StripperProperties.StripAsks | Stripper/StripperModSystem.cs:241-256 | the slot of every part worn when the strip starts is asked to be cleared, even when two handles name the same slot |
| StripperProperties.StripRequests | Stripper/StripperModSystem.cs:241-256 | with distinct handles, the strip sends exactly one away request per worn part, head, body then legs, and nothing else |
| StripperProperties.StripProps | Stripper/StripperModSystem.cs:241-261 | `Stripped` always, whatever the host answered; handles kept; the notice shown; at most three away requests, all for armour slots, and one for the slot of every part worn at the start (exactly those, in order, with distinct handles); no other character slot and no occupied hotbar or backpack slot changes; stacks are conserved |
| StripperProperties.LastPassingIsLast | Stripper/StripperModSystem.cs:168-192 | a scan keeps the old handle when no slot passes, and otherwise picks a passing slot with none passing after it |
| StripperProperties.InitSlotsProps | Stripper/StripperModSystem.cs:150-195 | the hook flag is set; the client and the state are untouched; full handles skip the scan; the result is true exactly when all four handles are set; a set handle stays set |
| StripperProperties.InitSlotsArmour | Stripper/StripperModSystem.cs:168-184 | on a rescan each armour handle is the last character slot of that dress type or icon, or is as before when there is none |
| StripperProperties.InitSlotsHand | Stripper/StripperModSystem.cs:186-192 | on a rescan the off-hand handle is the last off-hand slot of the hotbar, or is as before when there is none |
| StripperProperties.SwapOutDecides | Stripper/StripperModSystem.cs:211-239 | the result is the result of InitSlots; on failure nothing but the handles and the hook change; otherwise strip exactly when all three are worn, or some are and the state is `Equipped`; equip in every other case |
| StripperProperties.SwapOutStrips | Stripper/StripperModSystem.cs:220-228 | a stripping swap leaves `Stripped`, sends only away requests for armour slots and conserves stacks |
| StripperProperties.SwapOutEquips | Stripper/StripperModSystem.cs:223-235 | an equipping swap never raises, leaves `Equipped` when it equipped something and the state unchanged otherwise, sends only moves into armour slots and conserves stacks |
| StripperProperties.ToggleLightsProps | Stripper/StripperModSystem.cs:103-126 | the light loop keeps the controller and the stacks and shows the no-light notice exactly when no light class is found |
| StripperProperties.ToggleLightsNone | Stripper/StripperModSystem.cs:103-124 | when no class of the list is found, the loop sends no request and changes nothing but adding the no-light notice |
| StripperProperties.NoLightFound | Stripper/StripperModSystem.cs:129-148 | the light search finds nothing exactly when no hotbar or backpack slot holds a block of that class |
| StripperProperties.NothingToToggleIff | Stripper/StripperModSystem.cs:61-74 | the device, lantern and torch searches all fail exactly when neither the head slot nor any hotbar or backpack slot holds one |
| StripperProperties.ToggleResolvedProps | Stripper/StripperModSystem.cs:83-126 | a resolved toggle keeps the controller and the stacks and shows the no-light notice exactly when there is nothing to toggle, and then the notice is the only change: no request is sent |
| StripperProperties.ToggleKeepsState | Stripper/StripperModSystem.cs:76-127 | the toggle never changes `state`; it succeeds exactly when the slots resolve, and on failure changes nothing on the client; stacks are conserved |
| StripperProperties.ToggleEquipsDevice | Stripper/StripperModSystem.cs:84-90 | a device outside the head slot goes in: at most an away request for the head, then the move of the first device found into it, whatever lights are about |
| StripperProperties.ToggleRemovesDevice | Stripper/StripperModSystem.cs:91-100 | a device in the head slot comes off first; outside `Equipped` that is the only request; in `Equipped` the first head piece found is then moved into the head slot, after a second clear if the host left the device there |
| StripperProperties.ToggleClearsHandLight | Stripper/StripperModSystem.cs:103-120 | with no device about, a lantern in the off-hand, or a torch there when no lantern is found, is taken away with exactly one request |
| StripperProperties.ToggleEquipsLantern | Stripper/StripperModSystem.cs:103-114 | with no device about and no lantern in the off-hand, the first lantern found goes into the off-hand, replacing a torch if one is held |
| StripperProperties.ToggleEquipsTorch | Stripper/StripperModSystem.cs:103-114 | with no device about, no lantern anywhere and no torch in the off-hand, the first torch found goes into the off-hand, after whatever the off-hand holds is cleared |

## Left out

- Hotkey registration and the localised strings (`StartClientSide`, lines 32-59; `Lang.Get` at 124, 260, 306) are left out. The two handlers are the methods `SwapOut` and `ToggleNightVision`, and a chat line is a `Notice` tag.
- Network packet dispatch (`SendPacketClient`, lines 274-277 and 373) is left out. A transfer counts as successful when the host returns packets, which is an accepting reply in the model.
- The host's transfer internals are not modelled. This includes the `ItemStackMoveOperation` settings (lines 266-271, 363-369), merging into partly filled stacks, and moving part of a stack. An accepted away-transfer moves the whole stack into an empty hotbar or backpack slot. An accepted move fills the requested empty slot. Which of these happen is decided by the reply script.
- The registration of the `onHurt` listener (line 154) is reduced to the `hooked` flag. The code has no damage threshold and no event-counter deduplication: `OnHurt` (lines 206-209) runs `FindAndEquipArmour` unconditionally.
- `StripperConfig.cs` is not part of this model. It only loads and stores two settings, and nothing in the controller reads them.
- Looking up the player and their inventories (lines 163-166, 314-318) is left out. The model assumes the player and the three containers exist; the code would throw if a lookup failed.
- Reference identity of slots (`this.headSlot != nvHelm`, line 86; `this.handSlot != handLight`, line 109) is modelled as equality of (container, index) references.
- The three filter lambdas passed to `FindItemSlot` (lines 68-71, 140-145, 341-344) are the cases of the `Filter` datatype, not arbitrary functions.
- The exception path of `SwapOut` and `ToggleNightVision` is not modelled. Both discard what `FindAndEquipArmour` and `FindAndEquipArmourType` return, as the code does. `FindAndEquipResolved` proves they cannot raise once `InitSlots` has succeeded.
- FindAndEquipLog: the exact request log of the pass is stated only when the three armour handles name different slots (`DistinctArmour`). When two handles share a slot, which block sends the move depends on the host's answer to the earlier one. In that case only the bound and the kinds of request are stated, and `EquipPartProps` gives each block's exact request.
- StripProps: the exact, ordered request log is likewise stated only for distinct handles. With a shared slot, `StripAsks` still promises a request for every slot worn at the start, but the number of requests depends on the host's answers.
